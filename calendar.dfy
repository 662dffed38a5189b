/**
  Calendar dates as the feature table uses them: `status_as_of` and
  `birthday` are polars `Date` values, i.e. proleptic Gregorian days stored
  as a count of days since 1970-01-01. A date is kept here as its
  (year, month, day) fields; `DayNumber` gives the stored day count and
  `DayNumberOrder` shows that comparing fields and comparing day counts agree.
 */
module Calendar {

  datatype Date = Date(year: int, month: int, day: int)

  predicate IsLeapYear(y: int) {
    y % 4 == 0 && (y % 100 != 0 || y % 400 == 0)
  }

  function DaysInMonth(y: int, m: int): int {
    if m == 2 then (if IsLeapYear(y) then 29 else 28)
    else if m == 4 || m == 6 || m == 9 || m == 11 then 30
    else if 1 <= m <= 12 then 31
    else 0
  }

  /** A date that exists in the calendar (what a successful date parse yields). */
  predicate Valid(d: Date) {
    1 <= d.month <= 12 && 1 <= d.day <= DaysInMonth(d.year, d.month)
  }

  /** Strict chronological order. */
  predicate Before(a: Date, b: Date) {
    a.year < b.year || (a.year == b.year && (a.month < b.month || (a.month == b.month && a.day < b.day)))
  }

  predicate AtOrBefore(a: Date, b: Date) {
    !Before(b, a)
  }

  function YearLength(y: int): int {
    if IsLeapYear(y) then 366 else 365
  }

  /** Leap years among 1..y (a signed count for y < 0, matching floor division). */
  function LeapYearsThrough(y: int): int {
    y / 4 - y / 100 + y / 400
  }

  function DaysBeforeYear(y: int): int {
    365 * (y - 1970) + LeapYearsThrough(y - 1) - LeapYearsThrough(1969)
  }

  function DaysBeforeMonth(y: int, m: int): int
    decreases m
  {
    if m <= 1 then 0 else DaysBeforeMonth(y, m - 1) + DaysInMonth(y, m - 1)
  }

  /** Days since 1970-01-01: the physical representation of a polars `Date`. */
  function DayNumber(d: Date): int {
    DaysBeforeYear(d.year) + DaysBeforeMonth(d.year, d.month) + d.day - 1
  }

  /**
    The lower bound of a trailing "1y" window: the same month and day one
    year earlier, with a day past the end of that month clamped to its last
    day. Only 29 February is ever clamped.
   */
  function OneYearEarlier(d: Date): (e: Date)
    ensures Valid(d) ==> Valid(e) && Before(e, d) && e.year == d.year - 1
    ensures Valid(d) && !(d.month == 2 && d.day == 29) ==> e == Date(d.year - 1, d.month, d.day)
    ensures Valid(d) && d.month == 2 && d.day == 29 ==> e == Date(d.year - 1, 2, 28)
  {
    var last := DaysInMonth(d.year - 1, d.month);
    Date(d.year - 1, d.month, if d.day <= last then d.day else last)
  }

  lemma DivisibilityChain(y: int)
    ensures y % 400 == 0 ==> y % 100 == 0
    ensures y % 100 == 0 ==> y % 4 == 0
  {
    if y % 400 == 0 {
      MultipleOfMultiple(y, 100, 4);
    }
    if y % 100 == 0 {
      MultipleOfMultiple(y, 4, 25);
    }
  }

  /** A multiple of `a * b` is a multiple of `a`. */
  lemma MultipleOfMultiple(y: int, a: int, b: int)
    requires a > 0 && b > 0 && y % (a * b) == 0
    ensures y % a == 0
  {
    var k := y / (a * b);
    assert y == (a * b) * k;
    assert y == a * (b * k);
    assert y / a == b * k;
  }

  lemma FloorStep(y: int, k: int)
    requires k == 4 || k == 100 || k == 400
    ensures y / k - (y - 1) / k == if y % k == 0 then 1 else 0
  {
  }

  /** Consecutive years are `YearLength` days apart. */
  lemma YearStep(y: int)
    ensures DaysBeforeYear(y + 1) == DaysBeforeYear(y) + YearLength(y)
  {
    FloorStep(y, 4);
    FloorStep(y, 100);
    FloorStep(y, 400);
    DivisibilityChain(y);
  }

  lemma {:induction false} DaysBeforeYearMonotone(y1: int, y2: int)
    requires y1 <= y2
    ensures DaysBeforeYear(y1) <= DaysBeforeYear(y2)
    decreases y2 - y1
  {
    if y1 < y2 {
      YearStep(y1);
      DaysBeforeYearMonotone(y1 + 1, y2);
    }
  }

  lemma {:induction false} DaysBeforeMonthMonotone(y: int, m1: int, m2: int)
    requires 1 <= m1 < m2 <= 13
    ensures DaysBeforeMonth(y, m1) + DaysInMonth(y, m1) <= DaysBeforeMonth(y, m2)
    decreases m2 - m1
  {
    if m1 + 1 < m2 {
      DaysBeforeMonthMonotone(y, m1 + 1, m2);
    }
  }

  lemma {:induction false} DaysBeforeMonthNonNegative(y: int, m: int)
    ensures DaysBeforeMonth(y, m) >= 0
    decreases m
  {
    if m > 1 {
      DaysBeforeMonthNonNegative(y, m - 1);
    }
  }

  /** The twelve months of a year add up to the year's length. */
  lemma WholeYear(y: int)
    ensures DaysBeforeMonth(y, 13) == YearLength(y)
  {
    var feb := DaysInMonth(y, 2);
    assert DaysBeforeMonth(y, 2) == 31;
    assert DaysBeforeMonth(y, 3) == 31 + feb;
    assert DaysBeforeMonth(y, 4) == 62 + feb;
    assert DaysBeforeMonth(y, 5) == 92 + feb;
    assert DaysBeforeMonth(y, 6) == 123 + feb;
    assert DaysBeforeMonth(y, 7) == 153 + feb;
    assert DaysBeforeMonth(y, 8) == 184 + feb;
    assert DaysBeforeMonth(y, 9) == 215 + feb;
    assert DaysBeforeMonth(y, 10) == 245 + feb;
    assert DaysBeforeMonth(y, 11) == 276 + feb;
    assert DaysBeforeMonth(y, 12) == 306 + feb;
    assert DaysBeforeMonth(y, 13) == 337 + feb;
  }

  /** The last day of a year comes before the first day of every later year. */
  lemma EndOfYear(d: Date, y: int)
    requires Valid(d) && d.year < y
    ensures DayNumber(d) < DaysBeforeYear(y)
  {
    DaysBeforeMonthMonotone(d.year, d.month, 13);
    WholeYear(d.year);
    YearStep(d.year);
    DaysBeforeYearMonotone(d.year + 1, y);
  }

  lemma BeforeIncreasesDayNumber(a: Date, b: Date)
    requires Valid(a) && Valid(b) && Before(a, b)
    ensures DayNumber(a) < DayNumber(b)
  {
    DaysBeforeMonthNonNegative(b.year, b.month);
    if a.year < b.year {
      EndOfYear(a, b.year);
    } else if a.month < b.month {
      DaysBeforeMonthMonotone(a.year, a.month, b.month);
    }
  }

  /** Field order and day-count order are the same order on calendar dates. */
  lemma DayNumberOrder(a: Date, b: Date)
    requires Valid(a) && Valid(b)
    ensures Before(a, b) <==> DayNumber(a) < DayNumber(b)
    ensures a == b <==> DayNumber(a) == DayNumber(b)
  {
    if Before(a, b) {
      BeforeIncreasesDayNumber(a, b);
    } else if Before(b, a) {
      BeforeIncreasesDayNumber(b, a);
    }
  }

  /** polars `(a - b).dt.total_days()` for two dates. */
  function DaysBetween(later: Date, earlier: Date): int {
    DayNumber(later) - DayNumber(earlier)
  }

  lemma DaysBetweenSign(later: Date, earlier: Date)
    requires Valid(later) && Valid(earlier)
    ensures DaysBetween(later, earlier) > 0 <==> Before(earlier, later)
    ensures DaysBetween(later, earlier) == 0 <==> later == earlier
  {
    DayNumberOrder(earlier, later);
  }

  lemma EpochIsDayZero()
    ensures DayNumber(Date(1970, 1, 1)) == 0
    ensures DayNumber(Date(2000, 3, 1)) == 11017
  {
    WholeYear(2000);
    assert DaysBeforeMonth(2000, 3) == 60;
  }
}
