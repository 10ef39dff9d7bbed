/**
 * How the fetcher and the index generator fit together: the name the
 * fetcher saves a day's record under is one the index generator recognises,
 * it yields back that day's ISO date, and ISO strings sort as the dates do,
 * so the published index is exactly the saved days in date order.
 */
module RoundTrip {
  import opened Options
  import opened Calendar
  import opened FetchDebates
  import opened AvailableDates
  import XmlSniff

  /** Strings of equal length are compared on their first parts before their second. */
  lemma {:induction false} StrLessConcat(a1: string, a2: string, b1: string, b2: string)
    requires |a1| == |b1|
    ensures StrLess(a1 + a2, b1 + b2) <==> StrLess(a1, b1) || (a1 == b1 && StrLess(a2, b2))
  {
    if |a1| == 0 {
      assert a1 + a2 == a2 && b1 + b2 == b2;
    } else {
      assert (a1 + a2)[1..] == a1[1..] + a2;
      assert (b1 + b2)[1..] == b1[1..] + b2;
      StrLessConcat(a1[1..], a2, b1[1..], b2);
      if a1[0] == b1[0] && a1[1..] == b1[1..] {
        assert a1 == [a1[0]] + a1[1..] && b1 == [b1[0]] + b1[1..];
      }
      if a1 == b1 {
        StrLessIrreflexive(a1);
      }
    }
  }

  lemma Pad2Order(n: int, m: int)
    requires 0 <= n < 100 && 0 <= m < 100
    ensures StrLess(Pad2(n), Pad2(m)) <==> n < m
  {
    var s, t := Pad2(n), Pad2(m);
    assert n == 10 * (n / 10) + n % 10 && m == 10 * (m / 10) + m % 10;
    assert s[0] < t[0] <==> n / 10 < m / 10;
    assert s[0] == t[0] <==> n / 10 == m / 10;
    assert StrLess(s[1..], t[1..]) <==> n % 10 < m % 10 by {
      assert s[1..][1..] == [] && t[1..][1..] == [];
    }
  }

  lemma Pad4Order(n: int, m: int)
    requires 0 <= n < 10000 && 0 <= m < 10000
    ensures StrLess(Pad4(n), Pad4(m)) <==> n < m
  {
    StrLessConcat(Pad2(n / 100), Pad2(n % 100), Pad2(m / 100), Pad2(m % 100));
    Pad2Order(n / 100, m / 100);
    Pad2Order(n % 100, m % 100);
    Pad2Value(n / 100);
    Pad2Value(m / 100);
  }

  /** Python's `<` on the ISO strings agrees with `<` on the dates. */
  lemma IsoOrder(a: Date, b: Date)
    requires Valid(a) && Valid(b)
    ensures Before(a, b) <==> StrLess(Iso(a), Iso(b))
  {
    var dayA, dayB := "-" + Pad2(a.day), "-" + Pad2(b.day);
    var monthA, monthB := "-" + Pad2(a.month) + dayA, "-" + Pad2(b.month) + dayB;
    assert Iso(a) == Pad4(a.year) + monthA;
    assert Iso(b) == Pad4(b.year) + monthB;
    StrLessConcat(Pad4(a.year), monthA, Pad4(b.year), monthB);
    Pad4Order(a.year, b.year);
    Pad4Order(b.year, a.year);
    StrLessIrreflexive(Pad4(a.year));
    assert monthA == "-" + (Pad2(a.month) + dayA);
    assert monthB == "-" + (Pad2(b.month) + dayB);
    StrLessConcat("-", Pad2(a.month) + dayA, "-", Pad2(b.month) + dayB);
    StrLessConcat(Pad2(a.month), dayA, Pad2(b.month), dayB);
    Pad2Order(a.month, b.month);
    Pad2Order(b.month, a.month);
    StrLessIrreflexive(Pad2(a.month));
    StrLessConcat("-", Pad2(a.day), "-", Pad2(b.day));
    Pad2Order(a.day, b.day);
  }

  /** Whatever folder the record is stored under, the index reads the day's ISO date back from its path. */
  lemma FileNameIndexed(d: Date, prefix: string)
    requires Valid(d)
    ensures MatchDate(prefix + FileName(d)) == Some(Iso(d))
  {
    var f := prefix + FileName(d);
    IsoShape(d);
    assert f[|f| - 19..] == FileName(d);
    assert NamesDate(f, Iso(d));
    MatchDateExactly(f, Iso(d));
  }

  /** The ISO dates of the saved days among `ds`, in walk order. */
  function SavedIsos(ds: seq<Date>, fetch: string -> Response): seq<string>
    requires forall d :: d in ds ==> Valid(d)
  {
    if ds == [] then []
    else
      var last := ds[|ds| - 1];
      SavedIsos(ds[..|ds| - 1], fetch) + if Classify(fetch(Url(last))) == Saved then [Iso(last)] else []
  }

  lemma {:induction false} SavedIsosMembers(ds: seq<Date>, fetch: string -> Response, x: string)
    requires forall d :: d in ds ==> Valid(d)
    ensures x in SavedIsos(ds, fetch) <==> exists d :: d in ds && Classify(fetch(Url(d))) == Saved && x == Iso(d)
  {
    if ds != [] {
      var prefix := ds[..|ds| - 1];
      SavedIsosMembers(prefix, fetch, x);
      assert forall d :: d in ds <==> d in prefix || d == ds[|ds| - 1];
    }
  }

  /** The saved days of a walk that stays before `bound` have ISO dates below that of `bound`. */
  lemma SavedIsosBelow(ds: seq<Date>, fetch: string -> Response, bound: Date)
    requires Valid(bound) && forall d :: d in ds ==> Valid(d) && Before(d, bound)
    ensures forall y :: y in SavedIsos(ds, fetch) ==> StrLess(y, Iso(bound))
  {
    forall y | y in SavedIsos(ds, fetch) ensures StrLess(y, Iso(bound)) {
      SavedIsosMembers(ds, fetch, y);
      var d :| d in ds && Classify(fetch(Url(d))) == Saved && y == Iso(d);
      IsoOrder(d, bound);
    }
  }

  /** A walk in date order yields its ISO dates in string order. */
  lemma {:induction false} SavedIsosAscending(ds: seq<Date>, fetch: string -> Response)
    requires forall d :: d in ds ==> Valid(d)
    requires InDateOrder(ds)
    ensures Ascending(SavedIsos(ds, fetch))
  {
    if ds != [] {
      var prefix, last := ds[..|ds| - 1], ds[|ds| - 1];
      SavedIsosAscending(prefix, fetch);
      if Classify(fetch(Url(last))) == Saved {
        forall d | d in prefix ensures Valid(d) && Before(d, last) {
          var i :| 0 <= i < |prefix| && prefix[i] == d;
          assert ds[i] == d;
        }
        SavedIsosBelow(prefix, fetch, last);
        AscendingAppend(SavedIsos(prefix, fetch), Iso(last));
      }
    }
  }

  /** The dataset's paths are the fetcher's files, each under `prefix`, and nothing else. */
  ghost predicate Published(files: map<string, seq<XmlSniff.byte>>, prefix: string, paths: seq<string>) {
    (forall name :: name in files ==> prefix + name in paths) &&
    (forall f :: f in paths ==> exists name :: name in files && f == prefix + name)
  }

  /** The dataset's paths are the names of the days of `ds` that were saved, each under `prefix`, and nothing else. */
  ghost predicate HoldsSavedDays(ds: seq<Date>, fetch: string -> Response, prefix: string, paths: seq<string>)
    requires forall d :: d in ds ==> Valid(d)
  {
    forall f :: f in paths <==> exists d :: d in ds && Classify(fetch(Url(d))) == Saved && f == prefix + FileName(d)
  }

  /** Publishing the files of a walk gives a dataset holding exactly its saved days. */
  lemma PublishedHoldsSavedDays(ds: seq<Date>, fetch: string -> Response, prefix: string, paths: seq<string>)
    requires forall d :: d in ds ==> Valid(d)
    requires Published(Run(ds, fetch).files, prefix, paths)
    ensures HoldsSavedDays(ds, fetch, prefix, paths)
  {
    var files := Run(ds, fetch).files;
    forall f ensures f in paths <==> exists d :: d in ds && Classify(fetch(Url(d))) == Saved && f == prefix + FileName(d) {
      if f in paths {
        var name :| name in files && f == prefix + name;
        FilesAreSavedDays(ds, fetch, name);
      }
      if exists d :: d in ds && Classify(fetch(Url(d))) == Saved && f == prefix + FileName(d) {
        var d :| d in ds && Classify(fetch(Url(d))) == Saved && f == prefix + FileName(d);
        SavedDaysHaveFiles(ds, fetch, d);
      }
    }
  }

  /** Every date the index lists is a day the walk saved. */
  lemma IndexedDaysWereSaved(ds: seq<Date>, fetch: string -> Response, prefix: string,
                             paths: seq<string>, r: seq<string>, x: string)
    requires forall d :: d in ds ==> Valid(d)
    requires HoldsSavedDays(ds, fetch, prefix, paths)
    requires IsIndexOf(r, paths) && x in r
    ensures exists d :: d in ds && Classify(fetch(Url(d))) == Saved && x == Iso(d)
  {
    IndexSound(paths, r, x);
    var f :| f in paths && NamesDate(f, x);
    var d :| d in ds && Classify(fetch(Url(d))) == Saved && f == prefix + FileName(d);
    FileNameIndexed(d, prefix);
    MatchDateExactly(f, x);
  }

  /** Every day the walk saved is listed in the index under its ISO date. */
  lemma SavedDaysIndexed(ds: seq<Date>, fetch: string -> Response, prefix: string,
                         paths: seq<string>, r: seq<string>, d: Date)
    requires forall d :: d in ds ==> Valid(d)
    requires HoldsSavedDays(ds, fetch, prefix, paths)
    requires IsIndexOf(r, paths)
    requires d in ds && Classify(fetch(Url(d))) == Saved
    ensures Iso(d) in r
  {
    var f := prefix + FileName(d);
    assert f in paths;
    FileNameIndexed(d, prefix);
    MatchDateExactly(f, Iso(d));
    IndexComplete(paths, r, f, Iso(d));
  }

  /** A string is in the index exactly when it is the ISO date of a saved day. */
  lemma IndexMember(ds: seq<Date>, fetch: string -> Response, prefix: string,
                     paths: seq<string>, r: seq<string>, x: string)
    requires forall d :: d in ds ==> Valid(d)
    requires HoldsSavedDays(ds, fetch, prefix, paths)
    requires IsIndexOf(r, paths)
    ensures x in r <==> x in SavedIsos(ds, fetch)
  {
    SavedIsosMembers(ds, fetch, x);
    if x in r {
      IndexedDaysWereSaved(ds, fetch, prefix, paths, r, x);
    }
    if x in SavedIsos(ds, fetch) {
      var d :| d in ds && Classify(fetch(Url(d))) == Saved && x == Iso(d);
      SavedDaysIndexed(ds, fetch, prefix, paths, r, d);
    }
  }

  /**
   * End to end: when the dataset holds the saved days of a walk in date
   * order (each under `prefix`) and nothing else, the index lists exactly
   * their ISO dates, in the order the walk visited them.
   */
  lemma PublishedIndex(ds: seq<Date>, fetch: string -> Response, prefix: string,
                       paths: seq<string>, r: seq<string>)
    requires forall d :: d in ds ==> Valid(d)
    requires InDateOrder(ds)
    requires HoldsSavedDays(ds, fetch, prefix, paths)
    requires IsIndexOf(r, paths)
    ensures r == SavedIsos(ds, fetch)
  {
    forall x ensures x in r <==> x in SavedIsos(ds, fetch) {
      IndexMember(ds, fetch, prefix, paths, r, x);
    }
    SavedIsosAscending(ds, fetch);
    AscendingUnique(r, SavedIsos(ds, fetch));
  }
}
