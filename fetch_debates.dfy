/**
 * The date walk of the debate fetcher: for every day from the start date to
 * today it requests the day's debate record and saves it when the answer is
 * a 200 carrying XML, counting saved and missing days.
 */
module FetchDebates {
  import opened Options
  import opened Calendar
  import XmlSniff

  const BaseUrl := "https://data.oireachtas.ie/akn/ie/debateRecord/dail"
  const StartDate := Date(2026, 1, 1)

  /** The record's address for one sitting day. */
  function Url(d: Date): (u: string)
    requires Valid(d)
    ensures |u| == |BaseUrl| + 32 && u[..|BaseUrl|] == BaseUrl
  {
    BaseUrl + "/" + Iso(d) + "/debate/mul@/main.xml"
  }

  /** The address is the base, a slash, the day's ISO date, then the fixed path of the record. */
  lemma UrlNamesDay(d: Date)
    requires Valid(d)
    ensures |Url(d)| == |BaseUrl| + 32
    ensures Url(d)[..|BaseUrl| + 1] == BaseUrl + "/"
    ensures Url(d)[|BaseUrl| + 1..|BaseUrl| + 11] == Iso(d)
    ensures Url(d)[|BaseUrl| + 11..] == "/debate/mul@/main.xml"
  {
    var u := Url(d);
    assert u == (BaseUrl + "/") + Iso(d) + "/debate/mul@/main.xml";
  }

  /** Different days are requested at different addresses. */
  lemma UrlInjective(a: Date, b: Date)
    requires Valid(a) && Valid(b) && Url(a) == Url(b)
    ensures a == b
  {
    UrlNamesDay(a);
    UrlNamesDay(b);
    IsoInjective(a, b);
  }

  /** The name the record is saved under. */
  function FileName(d: Date): (name: string)
    requires Valid(d)
    ensures |name| == 19 && name[..10] == Iso(d) && name[10..] == "_mul@.xml"
  {
    Iso(d) + "_mul@.xml"
  }

  /** Different days are saved under different names, so no save overwrites another. */
  lemma FileNameInjective(a: Date, b: Date)
    requires Valid(a) && Valid(b) && FileName(a) == FileName(b)
    ensures a == b
  {
    assert Iso(a) == FileName(a)[..10];
    IsoInjective(a, b);
  }

  /** What `session.get(url)` gives back: a response, or an exception. */
  datatype Response = Response(status: int, content: seq<XmlSniff.byte>) | Raised

  /** How one day ends: saved, counted as missing, or neither (the exception path). */
  datatype Outcome = Saved | Missing | Failed

  function Classify(r: Response): (o: Outcome)
    ensures o == Saved <==> r.Response? && r.status == 200 && XmlSniff.LooksLikeXml(r.content)
    ensures o == Failed <==> r.Raised?
  {
    match r
    case Raised => Failed
    case Response(status, content) =>
      if status == 404 then Missing
      else if status == 200 && XmlSniff.LooksLikeXml(content) then Saved
      else Missing
  }

  /** The days the walk from `d` to `end` visits, in visiting order. */
  function DatesFrom(d: Date, end: Date): (ds: seq<Date>)
    requires Valid(d) && Valid(end)
    ensures forall x :: x in ds ==> Valid(x)
    decreases Span(d, end)
  {
    if !NotAfter(d, end) then []
    else
      RankMonotone(d, end);
      match NextDay(d)
      case None => [d]
      case Some(next) => [d] + DatesFrom(next, end)
  }

  /** The walk stays between its two ends. */
  lemma {:induction false} DatesFromBounds(d: Date, end: Date, x: Date)
    requires Valid(d) && Valid(end) && x in DatesFrom(d, end)
    ensures NotAfter(d, x) && NotAfter(x, end)
    decreases Span(d, end)
  {
    RankMonotone(d, end);
    if x != d {
      var next := NextDay(d).value;
      DatesFromBounds(next, end, x);
    }
  }

  /** The walk visits its days in strictly increasing order, so none twice. */
  lemma {:induction false} DatesFromAscending(d: Date, end: Date)
    requires Valid(d) && Valid(end)
    ensures InDateOrder(DatesFrom(d, end))
    decreases Span(d, end)
  {
    var ds := DatesFrom(d, end);
    if NotAfter(d, end) && NextDay(d).Some? {
      var next := NextDay(d).value;
      RankMonotone(d, end);
      assert ds == [d] + DatesFrom(next, end);
      DatesFromAscending(next, end);
      forall j | 0 < j < |ds| ensures Before(d, ds[j]) {
        DatesFromBounds(next, end, ds[j]);
      }
    }
  }

  /** Every valid day from `d` to `end` is visited. */
  lemma {:induction false} DatesFromComplete(d: Date, end: Date, x: Date)
    requires Valid(d) && Valid(end) && Valid(x) && NotAfter(d, x) && NotAfter(x, end)
    ensures x in DatesFrom(d, end)
    decreases Span(d, end)
  {
    RankMonotone(d, end);
    if x != d {
      NextDayIsImmediate(d, x);
      var next := NextDay(d).value;
      RankMonotone(next, end);
      DatesFromComplete(next, end, x);
    }
  }

  /** What the walk has produced so far: the two counters and the files written. */
  datatype Tally = Tally(saved: nat, missing: nat, files: map<string, seq<XmlSniff.byte>>)

  /**
   * The `try` block for one day `d` whose request gave `r`: a saved day is
   * counted and its file written, a missing day is counted, and the
   * exception path counts neither.
   */
  function Step(t: Tally, d: Date, r: Response): (t': Tally)
    requires Valid(d)
    ensures t'.saved + t'.missing == t.saved + t.missing + if r.Raised? then 0 else 1
  {
    match Classify(r)
    case Saved => Tally(t.saved + 1, t.missing, t.files[FileName(d) := r.content])
    case Missing => Tally(t.saved, t.missing + 1, t.files)
    case Failed => t
  }

  /** The tally after the days `ds`, taken in order. */
  function Run(ds: seq<Date>, fetch: string -> Response): (t: Tally)
    requires forall d :: d in ds ==> Valid(d)
    ensures t.saved + t.missing <= |ds|
  {
    if ds == [] then Tally(0, 0, map[])
    else
      var d := ds[|ds| - 1];
      Step(Run(ds[..|ds| - 1], fetch), d, fetch(Url(d)))
  }

  /** With no request raising, every day is counted once, as saved or as missing. */
  lemma {:induction false} AllDaysCounted(ds: seq<Date>, fetch: string -> Response)
    requires forall d :: d in ds ==> Valid(d) && !fetch(Url(d)).Raised?
    ensures Run(ds, fetch).saved + Run(ds, fetch).missing == |ds|
  {
    if ds != [] {
      var prefix := ds[..|ds| - 1];
      assert forall d :: d in prefix ==> d in ds;
      AllDaysCounted(prefix, fetch);
    }
  }

  /** A day whose request raised is counted neither as saved nor as missing. */
  lemma {:induction false} RaisedDayUncounted(ds: seq<Date>, fetch: string -> Response, x: Date)
    requires forall d :: d in ds ==> Valid(d)
    requires x in ds && fetch(Url(x)).Raised?
    ensures Run(ds, fetch).saved + Run(ds, fetch).missing < |ds|
  {
    var prefix := ds[..|ds| - 1];
    if x != ds[|ds| - 1] {
      assert x in prefix;
      RaisedDayUncounted(prefix, fetch, x);
    }
  }

  /**
   * The counters add up to at most the number of days, and to exactly that
   * many when no request raised.
   */
  lemma CountersBounded(ds: seq<Date>, fetch: string -> Response)
    requires forall d :: d in ds ==> Valid(d)
    ensures Run(ds, fetch).saved + Run(ds, fetch).missing <= |ds|
    ensures Run(ds, fetch).saved + Run(ds, fetch).missing == |ds| <==> forall d :: d in ds ==> !fetch(Url(d)).Raised?
  {
    if forall d :: d in ds ==> !fetch(Url(d)).Raised? {
      AllDaysCounted(ds, fetch);
    } else {
      var x :| x in ds && fetch(Url(x)).Raised?;
      RaisedDayUncounted(ds, fetch, x);
    }
  }

  /** Every file written is the saved record of one of the days. */
  lemma {:induction false} FilesAreSavedDays(ds: seq<Date>, fetch: string -> Response, name: string)
    requires forall d :: d in ds ==> Valid(d)
    requires name in Run(ds, fetch).files
    ensures exists d :: d in ds && Classify(fetch(Url(d))) == Saved && FileName(d) == name &&
                        Run(ds, fetch).files[name] == fetch(Url(d)).content
  {
    var prefix, last := ds[..|ds| - 1], ds[|ds| - 1];
    assert last in ds;
    if !(Classify(fetch(Url(last))) == Saved && FileName(last) == name) {
      FilesAreSavedDays(prefix, fetch, name);
      var d :| d in prefix && Classify(fetch(Url(d))) == Saved && FileName(d) == name &&
                Run(prefix, fetch).files[name] == fetch(Url(d)).content;
      assert d in ds;
    }
  }

  /** Every saved day has its file, holding the body the server sent for it. */
  lemma {:induction false} SavedDaysHaveFiles(ds: seq<Date>, fetch: string -> Response, d: Date)
    requires forall x :: x in ds ==> Valid(x)
    requires d in ds && Classify(fetch(Url(d))) == Saved
    ensures FileName(d) in Run(ds, fetch).files
    ensures Run(ds, fetch).files[FileName(d)] == fetch(Url(d)).content
  {
    var prefix, last := ds[..|ds| - 1], ds[|ds| - 1];
    if d != last {
      assert d in prefix;
      SavedDaysHaveFiles(prefix, fetch, d);
      if Classify(fetch(Url(last))) == Saved && FileName(last) == FileName(d) {
        FileNameInjective(last, d);
      }
    }
  }

  /** When no day repeats, there are exactly as many files as saved days. */
  lemma {:induction false} OneFilePerSavedDay(ds: seq<Date>, fetch: string -> Response)
    requires forall d :: d in ds ==> Valid(d)
    requires forall i, j :: 0 <= i < j < |ds| ==> ds[i] != ds[j]
    ensures |Run(ds, fetch).files| == Run(ds, fetch).saved
  {
    if ds != [] {
      var prefix, last := ds[..|ds| - 1], ds[|ds| - 1];
      OneFilePerSavedDay(prefix, fetch);
      if Classify(fetch(Url(last))) == Saved && FileName(last) in Run(prefix, fetch).files {
        FilesAreSavedDays(prefix, fetch, FileName(last));
        var d :| d in prefix && Classify(fetch(Url(d))) == Saved && FileName(d) == FileName(last) &&
                  Run(prefix, fetch).files[FileName(last)] == fetch(Url(d)).content;
        FileNameInjective(d, last);
      }
    }
  }

  /**
   * The `try` block for one day `d`, after the days `visited`: request the
   * record, then count the day as missing, or save it and count it as
   * saved; an exception changes neither counter.
   */
  method FetchDay(ghost visited: seq<Date>, d: Date, fetch: string -> Response,
                  saved: nat, missing: nat, files: map<string, seq<XmlSniff.byte>>)
    returns (saved': nat, missing': nat, files': map<string, seq<XmlSniff.byte>>)
    requires Valid(d) && (forall x :: x in visited ==> Valid(x))
    requires Tally(saved, missing, files) == Run(visited, fetch)
    ensures Tally(saved', missing', files') == Run(visited + [d], fetch)
  {
    assert (visited + [d])[..|visited|] == visited;
    saved', missing', files' := saved, missing, files;
    var url := Url(d);
    var outFile := FileName(d);
    var r := fetch(url);
    match r {
      case Raised =>
      case Response(status, content) =>
        if status == 404 {
          missing' := missing' + 1;
        } else if status == 200 && XmlSniff.LooksLikeXml(content) {
          files' := files'[outFile := content];
          saved' := saved' + 1;
        } else {
          missing' := missing' + 1;
        }
    }
  }

  /** One step of the walk: the day just visited joins `visited`, and the walk goes on from its successor. */
  lemma WalkStep(end: Date, d: Date, visited: seq<Date>, walk: seq<Date>)
    requires Valid(end) && Valid(d) && NotAfter(d, end)
    requires visited + DatesFrom(d, end) == walk
    ensures NextDay(d).Some? ==> (visited + [d]) + DatesFrom(NextDay(d).value, end) == walk
    ensures NextDay(d).None? ==> visited + [d] == walk && end == LastDate
  {
    RankMonotone(d, end);
    match NextDay(d) {
      case None =>
        assert DatesFrom(d, end) == [d];
        LastDateIsLast(end);
      case Some(next) =>
        assert DatesFrom(d, end) == [d] + DatesFrom(next, end);
        assert (visited + [d]) + DatesFrom(next, end) == visited + ([d] + DatesFrom(next, end));
    }
  }

  /**
   * The loop of `main()`, from `d = START_DATE` (`start`, which `main` fixes
   * to StartDate) to END_DATE (`end`, today's date when `main` runs);
   * `fetch` stands for the network. Returns the two counters, the files
   * written, and whether `d += timedelta(days=1)` raised OverflowError (which
   * ends `main` before it prints the totals); the ghost `visited` is the
   * sequence of days the loop went through, which the contract relates to
   * the counters and files.
   */
  method FetchAll(start: Date, end: Date, fetch: string -> Response)
    returns (ghost visited: seq<Date>, saved: nat, missing: nat, files: map<string, seq<XmlSniff.byte>>, overflow: bool)
    requires Valid(start) && Valid(end)
    ensures visited == DatesFrom(start, end)
    ensures Tally(saved, missing, files) == Run(visited, fetch)
    ensures overflow <==> NotAfter(start, end) && end == LastDate
  {
    var d := start;
    visited, saved, missing, files, overflow := [], 0, 0, map[], false;
    while NotAfter(d, end)
      invariant Valid(d) && !overflow
      invariant forall x :: x in visited ==> Valid(x)
      invariant visited + DatesFrom(d, end) == DatesFrom(start, end)
      invariant Tally(saved, missing, files) == Run(visited, fetch)
      decreases Span(d, end)
    {
      saved, missing, files := FetchDay(visited, d, fetch, saved, missing, files);
      WalkStep(end, d, visited, DatesFrom(start, end));
      visited := visited + [d];
      RankMonotone(d, end);
      var next := NextDay(d);
      if next.None? {
        LastDateIsLast(start);
        overflow := true;
        break;
      }
      d := next.value;
    }
    LastDateIsLast(d);
  }
}
