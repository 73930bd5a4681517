/** Calendar dates as proleptic Gregorian day ordinals, the bounds of a month,
    and the Sunday-first weekday index the calendar grid is aligned on. */
module Dates {
  import opened Wrappers

  /** A date is its day ordinal: 0001-01-01 is day 1, and it is a Monday. */
  type Date = int

  function Min(a: Date, b: Date): (m: Date) { if a <= b then a else b }
  function Max(a: Date, b: Date): (m: Date) { if a >= b then a else b }

  /** `d` lies in the closed range a..b (empty when b < a). */
  predicate Within(d: Date, a: Date, b: Date) { a <= d <= b }

  const MinYear: int := 1
  const MaxYear: int := 9999

  /** The Gregorian leap-year rule. */
  predicate IsLeap(y: int) {
    y % 4 == 0 && (y % 100 != 0 || y % 400 == 0)
  }

  function DaysInYear(y: int): (n: int) {
    if IsLeap(y) then 366 else 365
  }

  function DaysInMonth(y: int, m: int): (n: int)
    requires 1 <= m <= 12
    ensures 28 <= n <= 31
    ensures m == 2 ==> (n == 29 <==> IsLeap(y))
  {
    if m == 2 then (if IsLeap(y) then 29 else 28)
    else if m == 4 || m == 6 || m == 9 || m == 11 then 30
    else 31
  }

  /** Days in the months of year `y` that precede month `m`. */
  function DaysBeforeMonth(y: int, m: int): (n: int)
    requires 1 <= m <= 12
  {
    [0, 0, 31, 59, 90, 120, 151, 181, 212, 243, 273, 304, 334][m]
      + (if m > 2 && IsLeap(y) then 1 else 0)
  }

  /** Days in the years before year `y`, counted from year 1. */
  function DaysBeforeYear(y: int): (n: int)
    requires y >= 1
  {
    var p := y - 1;
    p * 365 + p / 4 - p / 100 + p / 400
  }

  predicate ValidDate(y: int, m: int, d: int) {
    MinYear <= y <= MaxYear && 1 <= m <= 12 && 1 <= d <= DaysInMonth(y, m)
  }

  /** The ordinal of the civil date y-m-d. */
  function Ordinal(y: int, m: int, d: int): (o: Date)
    requires y >= 1 && 1 <= m <= 12
  {
    DaysBeforeYear(y) + DaysBeforeMonth(y, m) + d
  }

  /** Monday = 0 .. Sunday = 6, as `date.weekday()`. */
  function Weekday(d: Date): (w: int)
    ensures 0 <= w < 7
    ensures (w + 1) % 7 == d % 7
  {
    (d + 6) % 7
  }

  /** Sunday = 0 .. Saturday = 6: the column of `d` in a Sunday-first week.
      It is the ordinal modulo 7. */
  function SundayIndex(d: Date): (w: int)
    ensures 0 <= w < 7
    ensures w == d % 7
  {
    (Weekday(d) + 1) % 7
  }

  /** Two fixed points of the calendar: 1 January of year 1 is a Monday and
      1 August 2025 is a Friday. */
  lemma WeekdayAnchors()
    ensures Weekday(Ordinal(1, 1, 1)) == 0
    ensures SundayIndex(Ordinal(2025, 8, 1)) == 5
  {
  }

  lemma MonthTableStep(y: int, m: int)
    requires 1 <= m < 12
    ensures DaysBeforeMonth(y, m + 1) == DaysBeforeMonth(y, m) + DaysInMonth(y, m)
  {
  }

  lemma QuotientSteps(y: int)
    requires y >= 1
    ensures y / 4 - (y - 1) / 4 == (if y % 4 == 0 then 1 else 0)
    ensures y / 100 - (y - 1) / 100 == (if y % 100 == 0 then 1 else 0)
    ensures y / 400 - (y - 1) / 400 == (if y % 400 == 0 then 1 else 0)
  {
  }

  /** One more year adds exactly that year's length. */
  lemma {:induction false} DaysBeforeYearStep(y: int)
    requires y >= 1
    ensures DaysBeforeYear(y + 1) == DaysBeforeYear(y) + DaysInYear(y)
  {
    QuotientSteps(y);
    var a := if y % 4 == 0 then 1 else 0;
    var b := if y % 100 == 0 then 1 else 0;
    var c := if y % 400 == 0 then 1 else 0;
    assert DaysBeforeYear(y + 1) - DaysBeforeYear(y) == 365 + a - b + c;
    if y % 100 == 0 {
      CenturyDivisibleByFour(y);
    }
    if y % 400 == 0 {
      QuadricentennialIsCentury(y);
    }
  }

  lemma CenturyDivisibleByFour(y: int)
    requires y % 100 == 0
    ensures y % 4 == 0
  {
    var q := y / 100;
    assert y == 4 * (25 * q);
  }

  lemma QuadricentennialIsCentury(y: int)
    requires y % 400 == 0
    ensures y % 100 == 0
  {
    var q := y / 400;
    assert y == 100 * (4 * q);
  }

  /** `month_range`: the first and the last day of month `m` of year `y`.
      `None` when Python's `date` constructor raises: a year outside
      1..9999, a month outside 1..12, or December 9999, whose successor
      month lies in year 10000. */
  function MonthRange(y: int, m: int): (r: Option<(Date, Date)>)
    ensures r.Some? <==> ValidDate(y, m, 1) && !(y == MaxYear && m == 12)
    ensures r.Some? ==> r.value.0 == Ordinal(y, m, 1)
    ensures r.Some? ==> r.value.1 == Ordinal(y, m, DaysInMonth(y, m))
  {
    if !(MinYear <= y <= MaxYear && 1 <= m <= 12) then None
    else if m == 12 then
      if y + 1 > MaxYear then None
      else
        DaysBeforeYearStep(y);
        Some((Ordinal(y, m, 1), Ordinal(y + 1, 1, 1) - 1))
    else
      MonthTableStep(y, m);
      Some((Ordinal(y, m, 1), Ordinal(y, m + 1, 1) - 1))
  }

  /** The month holds as many days as its calendar length, February 29
      included in leap years. */
  lemma MonthRangeLength(y: int, m: int)
    requires MonthRange(y, m).Some?
    ensures MonthRange(y, m).value.1 - MonthRange(y, m).value.0 + 1 == DaysInMonth(y, m)
    ensures m == 2 ==> (MonthRange(y, m).value.1 - MonthRange(y, m).value.0 + 1 == 29 <==> IsLeap(y))
  {
  }

  /** Consecutive months tile the calendar: the day after the last day of a
      month is the first day of the next one, across the December rollover. */
  lemma {:induction false} MonthsAreContiguous(y: int, m: int)
    requires MonthRange(y, m).Some?
    requires m == 11 ==> y < MaxYear
    ensures var (y', m') := if m == 12 then (y + 1, 1) else (y, m + 1);
            MonthRange(y', m').Some? && MonthRange(y', m').value.0 == MonthRange(y, m).value.1 + 1
  {
    if m == 12 {
      DaysBeforeYearStep(y);
    } else {
      MonthTableStep(y, m);
    }
  }

  const SundayBg: string := "#fde2e2"
  const SaturdayBg: string := "#e5f1ff"
  const WeekdayBg: string := "#ffffff"

  /** `day_bg_color`: Sundays and Saturdays get their own background. */
  function DayBackground(d: Date): (c: string)
    ensures c == SundayBg <==> d % 7 == 0
    ensures c == SaturdayBg <==> d % 7 == 6
    ensures c == WeekdayBg <==> 1 <= d % 7 <= 5
  {
    var wd := SundayIndex(d);
    if wd == 0 then SundayBg
    else if wd == 6 then SaturdayBg
    else WeekdayBg
  }
}
