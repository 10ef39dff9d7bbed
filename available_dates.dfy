/**
 * The available-dates index: from the paths of the files in the dataset,
 * the sorted list of distinct dates whose debate record is present.
 */
module AvailableDates {
  import opened Options

  /** The literal tail `_mul@\.xml` of the path pattern. */
  const Suffix := "_mul@.xml"

  predicate IsDigit(c: char) {
    '0' <= c <= '9'
  }

  /** The captured group `\d{4}-\d{2}-\d{2}`. */
  predicate DateShaped(s: string) {
    |s| == 10 && s[4] == '-' && s[7] == '-' &&
    forall i :: 0 <= i < 10 && i != 4 && i != 7 ==> IsDigit(s[i])
  }

  predicate EndsWith(s: string, t: string) {
    |t| <= |s| && s[|s| - |t|..] == t
  }

  /** `f` names the record of `date`: it ends with the date and the suffix, or with those and a final newline. */
  predicate NamesDate(f: string, date: string) {
    DateShaped(date) && (EndsWith(f, date + Suffix) || EndsWith(f, date + Suffix + "\n"))
  }

  /** The group of a match that ends exactly at the end of `f`. */
  function DateAtEnd(f: string): (m: Option<string>)
    ensures m.Some? ==> DateShaped(m.value) && EndsWith(f, m.value + Suffix)
  {
    if |f| >= 19 && f[|f| - 9..] == Suffix && DateShaped(f[|f| - 19..|f| - 9])
    then Some(f[|f| - 19..|f| - 9])
    else None
  }

  /**
   * `date_pattern.search(f)` followed by `m.group(1)`. The pattern has a
   * fixed length and ends in `$`, which matches at the end of the string or
   * just before a final newline, so only those two places can hold a match.
   */
  function MatchDate(f: string): (m: Option<string>)
    ensures m.Some? ==> NamesDate(f, m.value)
  {
    if DateAtEnd(f).Some? then DateAtEnd(f)
    else if |f| > 0 && f[|f| - 1] == '\n' then DateAtEnd(f[..|f| - 1])
    else None
  }

  lemma DateAtEndExactly(f: string, date: string)
    ensures DateAtEnd(f) == Some(date) <==> DateShaped(date) && EndsWith(f, date + Suffix)
  {
    if DateShaped(date) && EndsWith(f, date + Suffix) {
      assert f[|f| - 19..] == date + Suffix;
      assert f[|f| - 9..] == f[|f| - 19..][10..];
      assert f[|f| - 19..|f| - 9] == f[|f| - 19..][..10];
    }
    if DateAtEnd(f) == Some(date) {
      assert f[|f| - 19..] == f[|f| - 19..|f| - 9] + f[|f| - 9..];
    }
  }

  /** The pattern matches exactly the paths that name a date, and captures that date. */
  lemma MatchDateExactly(f: string, date: string)
    ensures MatchDate(f) == Some(date) <==> NamesDate(f, date)
  {
    DateAtEndExactly(f, date);
    if |f| > 0 {
      DateAtEndExactly(f[..|f| - 1], date);
      if EndsWith(f, date + Suffix + "\n") {
        assert f[|f| - 1] == '\n';
        assert f[..|f| - 1][|f| - 1 - |date + Suffix|..] == f[|f| - |date + Suffix + "\n"|..][..|date + Suffix|];
      }
      if |f| > 0 && f[|f| - 1] == '\n' && EndsWith(f[..|f| - 1], date + Suffix) {
        assert f[|f| - |date + Suffix + "\n"|..] == f[..|f| - 1][|f| - 1 - |date + Suffix|..] + "\n";
      }
      if DateAtEnd(f).Some? {
        assert f[|f| - 1] == Suffix[8];
      }
    }
  }

  /** The set the loop accumulates: the date of every path that names one. */
  function DateSet(files: seq<string>): (dates: set<string>)
    ensures forall x :: x in dates ==> DateShaped(x)
  {
    if files == [] then {}
    else
      DateSet(files[..|files| - 1]) +
      match MatchDate(files[|files| - 1])
      case Some(date) => {date}
      case None => {}
  }

  lemma {:induction false} DateSetMembers(files: seq<string>, date: string)
    ensures date in DateSet(files) <==> exists f :: f in files && MatchDate(f) == Some(date)
  {
    if files != [] {
      var prefix := files[..|files| - 1];
      DateSetMembers(prefix, date);
      assert forall f :: f in files <==> f in prefix || f == files[|files| - 1];
    }
  }

  /** Python's `<` on strings: code point by code point, a proper prefix first. */
  predicate StrLess(a: string, b: string)
    ensures StrLess(a, b) ==> a != b
  {
    if |a| == 0 then |b| > 0
    else |b| > 0 && (a[0] < b[0] || (a[0] == b[0] && StrLess(a[1..], b[1..])))
  }

  lemma {:induction false} StrLessIrreflexive(a: string)
    ensures !StrLess(a, a)
  {
    if |a| > 0 {
      StrLessIrreflexive(a[1..]);
    }
  }

  lemma {:induction false} StrLessAsymmetric(a: string, b: string)
    ensures StrLess(a, b) ==> !StrLess(b, a)
  {
    if |a| > 0 && |b| > 0 && a[0] == b[0] {
      StrLessAsymmetric(a[1..], b[1..]);
    }
  }

  lemma {:induction false} StrLessTransitive(a: string, b: string, c: string)
    requires StrLess(a, b) && StrLess(b, c)
    ensures StrLess(a, c)
  {
    if |a| > 0 && a[0] == b[0] && b[0] == c[0] {
      StrLessTransitive(a[1..], b[1..], c[1..]);
    }
  }

  lemma {:induction false} StrLessTotal(a: string, b: string)
    requires a != b
    ensures StrLess(a, b) || StrLess(b, a)
  {
    if |a| > 0 && |b| > 0 && a[0] == b[0] {
      assert a == [a[0]] + a[1..] && b == [b[0]] + b[1..];
      StrLessTotal(a[1..], b[1..]);
    }
  }

  /** Strictly increasing, hence also free of duplicates. */
  predicate Ascending(s: seq<string>) {
    forall i, j :: 0 <= i < j < |s| ==> StrLess(s[i], s[j])
  }

  lemma AscendingAppend(s: seq<string>, x: string)
    requires Ascending(s) && forall y :: y in s ==> StrLess(y, x)
    ensures Ascending(s + [x])
  {
    assert forall i :: 0 <= i < |s| ==> s[i] in s;
  }

  /** Places `x` in the ascending list `s`, once. */
  function Insert(x: string, s: seq<string>): (r: seq<string>)
    requires Ascending(s)
    ensures Ascending(r)
    ensures forall y :: y in r <==> y == x || y in s
  {
    if s == [] then [x]
    else if x == s[0] then s
    else if StrLess(x, s[0]) then
      assert forall j :: 0 <= j < |s| ==> StrLess(x, s[j]) by {
        forall j | 0 < j < |s| { StrLessTransitive(x, s[0], s[j]); }
      }
      [x] + s
    else
      StrLessTotal(x, s[0]);
      var rest := Insert(x, s[1..]);
      assert forall y :: y in s[1..] ==> StrLess(s[0], y);
      [s[0]] + rest
  }

  /**
   * A non-empty list holds its first element. AscendingUnique calls it when
   * `a` is empty: there `b` must be empty as well, and stating the fact
   * without a precondition adds no proof obligation that the now impossible
   * non-empty case could discharge vacuously.
   */
  lemma HeadIsMember(s: seq<string>)
    ensures s != [] ==> s[0] in s
  {
  }

  /** Two ascending lists with the same members are the same list. */
  lemma {:induction false} AscendingUnique(a: seq<string>, b: seq<string>)
    requires Ascending(a) && Ascending(b)
    requires forall x :: x in a <==> x in b
    ensures a == b
  {
    if a != [] {
      var a0 := a[0];
      assert a0 in b;
      var b0 := b[0];
      assert b0 in a;
      var i :| 0 <= i < |b| && b[i] == a0;
      var j :| 0 <= j < |a| && a[j] == b0;
      assert b0 == a0 || StrLess(b0, a0);
      assert a0 == b0 || StrLess(a0, b0);
      StrLessAsymmetric(a0, b0);
      assert a0 == b0;
      forall x ensures x in a[1..] <==> x in b[1..] {
        if x in a[1..] {
          var k :| 1 <= k < |a| && a[k] == x;
          assert x != a[0] by { StrLessIrreflexive(a[0]); }
          assert x in b;
        }
        if x in b[1..] {
          var k :| 1 <= k < |b| && b[k] == x;
          assert x != b[0] by { StrLessIrreflexive(b[0]); }
          assert x in a;
        }
      }
      AscendingUnique(a[1..], b[1..]);
    } else {
      HeadIsMember(b);
    }
  }

  /** `r` is what the script writes for the paths `files`. */
  ghost predicate IsIndexOf(r: seq<string>, files: seq<string>) {
    Ascending(r) && forall x :: x in r <==> x in DateSet(files)
  }

  /**
   * `main()` between `files = api.list_repo_files(...)` and the JSON dump:
   * collect the date of every matching path in a set, then sort it.
   */
  method BuildIndex(files: seq<string>) returns (sortedDates: seq<string>)
    ensures IsIndexOf(sortedDates, files)
  {
    var dates: set<string> := {};
    for i := 0 to |files|
      invariant dates == DateSet(files[..i])
    {
      assert files[..i + 1][..i] == files[..i];
      var m := MatchDate(files[i]);
      if m.Some? {
        dates := dates + {m.value};
      }
    }
    assert files[..|files|] == files;
    sortedDates := [];
    var rest := dates;
    while rest != {}
      invariant Ascending(sortedDates)
      invariant forall x :: x in dates <==> x in sortedDates || x in rest
      decreases |rest|
    {
      var x :| x in rest;
      sortedDates := Insert(x, sortedDates);
      rest := rest - {x};
    }
  }

  /** Every date listed comes from a path that names it. */
  lemma IndexSound(files: seq<string>, r: seq<string>, date: string)
    requires IsIndexOf(r, files) && date in r
    ensures exists f :: f in files && NamesDate(f, date)
  {
    DateSetMembers(files, date);
    var f :| f in files && MatchDate(f) == Some(date);
    MatchDateExactly(f, date);
  }

  /** Every path that names a date puts that date in the index. */
  lemma IndexComplete(files: seq<string>, r: seq<string>, f: string, date: string)
    requires IsIndexOf(r, files) && f in files && NamesDate(f, date)
    ensures date in r
  {
    MatchDateExactly(f, date);
    DateSetMembers(files, date);
  }

  /** A path that names no date leaves the index as it was. */
  lemma UnmatchedPathIgnored(files: seq<string>, f: string)
    requires forall date :: !NamesDate(f, date)
    ensures DateSet(files + [f]) == DateSet(files)
  {
    assert MatchDate(f).None?;
    assert (files + [f])[..|files|] == files;
  }

  /** The index depends only on which paths are listed, not on their order or repetition. */
  lemma IndexIgnoresOrder(files1: seq<string>, files2: seq<string>, r1: seq<string>, r2: seq<string>)
    requires forall f :: f in files1 <==> f in files2
    requires IsIndexOf(r1, files1) && IsIndexOf(r2, files2)
    ensures r1 == r2
  {
    forall x ensures x in r1 <==> x in r2 {
      DateSetMembers(files1, x);
      DateSetMembers(files2, x);
    }
    AscendingUnique(r1, r2);
  }
}
