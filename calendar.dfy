/**
 * Proleptic Gregorian calendar dates as Python's `datetime.date` has them:
 * years 1 to 9999, a successor (`d + timedelta(days=1)`) that raises once it
 * would leave that range, comparison, and `isoformat()`.
 */
module Calendar {
  import opened Options

  datatype Date = Date(year: int, month: int, day: int)

  /** `datetime.MINYEAR` and `datetime.MAXYEAR`. */
  const MinYear := 1
  const MaxYear := 9999

  /** The last representable date; adding a day to it raises OverflowError. */
  const LastDate := Date(MaxYear, 12, 31)

  predicate IsLeap(y: int) {
    y % 4 == 0 && (y % 100 != 0 || y % 400 == 0)
  }

  function DaysInMonth(y: int, m: int): (n: int)
    requires 1 <= m <= 12
    ensures 28 <= n <= 31
    ensures n == 29 <==> m == 2 && IsLeap(y)
  {
    if m == 2 then (if IsLeap(y) then 29 else 28)
    else if m == 4 || m == 6 || m == 9 || m == 11 then 30
    else 31
  }

  predicate Valid(d: Date) {
    MinYear <= d.year <= MaxYear && 1 <= d.month <= 12 && 1 <= d.day <= DaysInMonth(d.year, d.month)
  }

  /** Python's `a < b` on dates. */
  predicate Before(a: Date, b: Date)
    ensures Before(a, b) ==> a != b
  {
    a.year < b.year ||
    (a.year == b.year && (a.month < b.month || (a.month == b.month && a.day < b.day)))
  }

  /** Strictly increasing dates: each one before every later one. */
  predicate InDateOrder(ds: seq<Date>) {
    forall i, j :: 0 <= i < j < |ds| ==> Before(ds[i], ds[j])
  }

  /** Python's `a <= b` on dates. */
  predicate NotAfter(a: Date, b: Date)
    ensures NotAfter(a, b) <==> !Before(b, a)
  {
    a == b || Before(a, b)
  }

  /** An integer that grows with the date; it bounds the walk from one date to another. */
  function Rank(d: Date): int {
    d.year * 512 + d.month * 32 + d.day
  }

  /** A bound on the number of days left in a walk from `d` up to `end`. */
  function Span(d: Date, end: Date): nat {
    if Rank(d) <= Rank(end) then Rank(end) - Rank(d) + 1 else 0
  }

  lemma RankMonotone(a: Date, b: Date)
    requires Valid(a) && Valid(b)
    ensures Before(a, b) <==> Rank(a) < Rank(b)
  {
  }

  /** `d + timedelta(days=1)`, or None where Python raises OverflowError. */
  function NextDay(d: Date): (r: Option<Date>)
    requires Valid(d)
    ensures r.None? <==> d == LastDate
    ensures r.Some? ==> Valid(r.value) && Before(d, r.value) && Rank(d) < Rank(r.value)
  {
    if d.day < DaysInMonth(d.year, d.month) then Some(Date(d.year, d.month, d.day + 1))
    else if d.month < 12 then Some(Date(d.year, d.month + 1, 1))
    else if d.year < MaxYear then Some(Date(d.year + 1, 1, 1))
    else None
  }

  /** Every valid date is at or before LastDate. */
  lemma LastDateIsLast(d: Date)
    requires Valid(d)
    ensures NotAfter(d, LastDate)
  {
  }

  /** No valid date lies strictly between a date and its successor. */
  lemma NextDayIsImmediate(d: Date, x: Date)
    requires Valid(d) && Valid(x) && Before(d, x)
    ensures NextDay(d).Some? && NotAfter(NextDay(d).value, x)
  {
  }

  function DigitChar(n: int): (c: char)
    requires 0 <= n < 10
    ensures '0' <= c <= '9'
  {
    ('0' as int + n) as char
  }

  function DigitValue(c: char): int {
    c as int - '0' as int
  }

  /** `%02d` */
  function Pad2(n: int): (s: string)
    requires 0 <= n < 100
    ensures |s| == 2 && '0' <= s[0] <= '9' && '0' <= s[1] <= '9'
    ensures DigitValue(s[0]) * 10 + DigitValue(s[1]) == n
  {
    [DigitChar(n / 10), DigitChar(n % 10)]
  }

  /** `%04d` */
  function Pad4(n: int): (s: string)
    requires 0 <= n < 10000
    ensures |s| == 4 && forall i :: 0 <= i < 4 ==> '0' <= s[i] <= '9'
  {
    Pad2(n / 100) + Pad2(n % 100)
  }

  /** `date.isoformat()`: YYYY-MM-DD, the year padded to four digits. */
  function Iso(d: Date): (s: string)
    requires Valid(d)
    ensures |s| == 10
  {
    Pad4(d.year) + "-" + Pad2(d.month) + "-" + Pad2(d.day)
  }

  /** An ISO date is four digits, a dash, two digits, a dash, two digits. */
  lemma IsoShape(d: Date)
    requires Valid(d)
    ensures Iso(d)[4] == '-' && Iso(d)[7] == '-'
    ensures forall i :: 0 <= i < 10 && i != 4 && i != 7 ==> '0' <= Iso(d)[i] <= '9'
  {
  }

  function Value2(s: string): int
    requires |s| == 2
  {
    DigitValue(s[0]) * 10 + DigitValue(s[1])
  }

  /** Reads back a YYYY-MM-DD string; the inverse of Iso (IsoRoundTrip). */
  function ParseIso(s: string): Date
    requires |s| == 10
  {
    Date(Value2(s[0..2]) * 100 + Value2(s[2..4]), Value2(s[5..7]), Value2(s[8..10]))
  }

  lemma Pad2Value(n: int)
    requires 0 <= n < 100
    ensures Value2(Pad2(n)) == n
  {
  }

  lemma {:induction false} IsoRoundTrip(d: Date)
    requires Valid(d)
    ensures ParseIso(Iso(d)) == d
  {
    var s := Iso(d);
    assert s[0..2] == Pad2(d.year / 100);
    assert s[2..4] == Pad2(d.year % 100);
    assert s[5..7] == Pad2(d.month);
    assert s[8..10] == Pad2(d.day);
    Pad2Value(d.year / 100);
    Pad2Value(d.year % 100);
    Pad2Value(d.month);
    Pad2Value(d.day);
  }

  /** Distinct dates have distinct ISO strings. */
  lemma IsoInjective(a: Date, b: Date)
    requires Valid(a) && Valid(b) && Iso(a) == Iso(b)
    ensures a == b
  {
    IsoRoundTrip(a);
    IsoRoundTrip(b);
  }
}
