/**
 * A proleptic Gregorian calendar date, written out here because the date
 * library the program links against is not part of this model.
 *
 * A date is a (year, month, day) triple; `Valid` says the month exists and
 * the day exists in that month. Dates are ordered lexicographically, as the
 * library's derived ordering does, and `DayNumber` counts days from
 * 0001-01-01 so that day differences are exact.
 */
module Gregorian {

  datatype Date = Date(year: int, month: int, day: int)

  predicate IsLeap(y: int) {
    y % 4 == 0 && (y % 100 != 0 || y % 400 == 0)
  }

  function YearLength(y: int): int {
    if IsLeap(y) then 366 else 365
  }

  /** The number of days of month `m` (1-12) in a year that is not a leap year. */
  function CommonMonthLength(m: int): int
    requires 1 <= m <= 12
  {
    if m == 2 then 28
    else if m == 4 || m == 6 || m == 9 || m == 11 then 30
    else 31
  }

  /** The last day of month `m` of year `y`. */
  function DaysInMonth(y: int, m: int): (n: int)
    requires 1 <= m <= 12
    ensures 28 <= n <= 31
    ensures n == 29 <==> m == 2 && IsLeap(y)
    ensures m != 2 ==> n == CommonMonthLength(m)
  {
    if m == 2 && IsLeap(y) then 29 else CommonMonthLength(m)
  }

  predicate Valid(d: Date) {
    1 <= d.month <= 12 && 1 <= d.day <= DaysInMonth(d.year, d.month)
  }

  predicate IsFeb29(d: Date) {
    d.month == 2 && d.day == 29
  }

  /** The derived `<` of the library's date type: year, then month, then day. */
  predicate Before(a: Date, b: Date) {
    a.year < b.year
    || (a.year == b.year && (a.month < b.month || (a.month == b.month && a.day < b.day)))
  }

  /** The derived `<=`. */
  predicate AtMost(a: Date, b: Date) {
    !Before(b, a)
  }

  /** Days in the months before month `m` of a year that is not a leap year. */
  function CommonDaysBeforeMonth(m: int): (n: int)
    requires 1 <= m <= 12
    ensures 0 <= n <= 334
  {
    match m
    case 1 => 0
    case 2 => 31
    case 3 => 59
    case 4 => 90
    case 5 => 120
    case 6 => 151
    case 7 => 181
    case 8 => 212
    case 9 => 243
    case 10 => 273
    case 11 => 304
    case _ => 334
  }

  function DaysBeforeMonth(y: int, m: int): int
    requires 1 <= m <= 12
  {
    CommonDaysBeforeMonth(m) + if m > 2 && IsLeap(y) then 1 else 0
  }

  /** Days from 0001-01-01 to the first of January of year `y` (negative before year 1). */
  function DaysBeforeYear(y: int): int {
    365 * (y - 1) + (y - 1) / 4 - (y - 1) / 100 + (y - 1) / 400
  }

  /** The exact day count of `d` from 0001-01-01. */
  function DayNumber(d: Date): int
    requires Valid(d)
  {
    DaysBeforeYear(d.year) + DaysBeforeMonth(d.year, d.month) + d.day - 1
  }

  /** The library's `days_since(a, b)`: signed number of days from `a` to `b`. */
  function DaysSince(a: Date, b: Date): int
    requires Valid(a) && Valid(b)
  {
    DayNumber(b) - DayNumber(a)
  }

  /** The day after `d`. */
  function Next(d: Date): (r: Date)
    requires Valid(d)
    ensures Valid(r)
    ensures Before(d, r)
  {
    if d.day < DaysInMonth(d.year, d.month) then
      Date(d.year, d.month, d.day + 1)
    else if d.month < 12 then
      Date(d.year, d.month + 1, 1)
    else
      Date(d.year + 1, 1, 1)
  }

  /** The next day is exactly one day later. */
  lemma NextDayNumber(d: Date)
    requires Valid(d)
    ensures DayNumber(Next(d)) == DayNumber(d) + 1
  {
    if d.day == DaysInMonth(d.year, d.month) {
      if d.month < 12 {
        MonthStep(d.year, d.month);
      } else {
        YearStep(d.year);
      }
    }
  }

  /** The library's `add_days` for a non-negative count. */
  function AddDays(d: Date, n: nat): (r: Date)
    requires Valid(d)
    ensures Valid(r)
    ensures DayNumber(r) == DayNumber(d) + n
  {
    if n == 0 then d else NextDayNumber(AddDays(d, n - 1)); Next(AddDays(d, n - 1))
  }

  lemma MonthStep(y: int, m: int)
    requires 1 <= m < 12
    ensures DaysBeforeMonth(y, m + 1) == DaysBeforeMonth(y, m) + DaysInMonth(y, m)
  {
  }

  /** A year is as long as the gap between its first day and the next year's. */
  lemma YearStep(y: int)
    ensures DaysBeforeYear(y + 1) == DaysBeforeYear(y) + YearLength(y)
  {
    MultiplesStep4(y);
    MultiplesStep100(y);
    MultiplesStep400(y);
  }

  /** Each floor quotient below grows by one exactly at a multiple of its divisor. */
  lemma MultiplesStep4(y: int)
    ensures y / 4 - (y - 1) / 4 == if y % 4 == 0 then 1 else 0
  {
  }

  lemma MultiplesStep100(y: int)
    ensures y / 100 - (y - 1) / 100 == if y % 100 == 0 then 1 else 0
  {
  }

  lemma MultiplesStep400(y: int)
    ensures y / 400 - (y - 1) / 400 == if y % 400 == 0 then 1 else 0
  {
  }

  lemma {:induction false} DaysBeforeYearMonotone(y1: int, y2: int)
    requires y1 <= y2
    ensures DaysBeforeYear(y1) + 365 * (y2 - y1) <= DaysBeforeYear(y2)
    decreases y2 - y1
  {
    if y1 < y2 {
      YearStep(y1);
      DaysBeforeYearMonotone(y1 + 1, y2);
    }
  }

  /** The days before a date within its own year lie in [0, YearLength). */
  lemma DayOfYearBounds(d: Date)
    requires Valid(d)
    ensures 0 <= DaysBeforeMonth(d.year, d.month) + d.day - 1 < YearLength(d.year)
  {
  }

  lemma MonthOrder(y: int, m1: int, m2: int)
    requires 1 <= m1 < m2 <= 12
    ensures DaysBeforeMonth(y, m1) + DaysInMonth(y, m1) <= DaysBeforeMonth(y, m2)
  {
  }

  /** The lexicographic order on valid dates is the order of their day numbers. */
  lemma BeforeIffDayNumber(a: Date, b: Date)
    requires Valid(a) && Valid(b)
    ensures Before(a, b) <==> DayNumber(a) < DayNumber(b)
    ensures a == b <==> DayNumber(a) == DayNumber(b)
  {
    DayOfYearBounds(a);
    DayOfYearBounds(b);
    if a.year < b.year {
      YearStep(a.year);
      DaysBeforeYearMonotone(a.year + 1, b.year);
    } else if b.year < a.year {
      YearStep(b.year);
      DaysBeforeYearMonotone(b.year + 1, a.year);
    } else if a.month < b.month {
      MonthOrder(a.year, a.month, b.month);
    } else if b.month < a.month {
      MonthOrder(a.year, b.month, a.month);
    }
  }
}
