/**
 * Lifespan arithmetic: the estimated death day and the day, week and year
 * counts of a life lived and left.
 *
 * Every count is a day difference (`DaysSince`) divided with the truncating
 * division of 32-bit signed integers, which rounds toward zero; Dafny's own
 * `/` rounds toward minus infinity, so `TruncDiv` writes the rounding out.
 */
module Lifespan {
  import opened Gregorian

  /**
   * The birthday moved `lifespan` years, keeping month and day; a day that
   * does not exist in the target month falls back to that month's last day.
   */
  function DeathDay(birthday: Date, lifespan: int): (d: Date)
    requires Valid(birthday)
    ensures Valid(d)
    ensures d.year == birthday.year + lifespan && d.month == birthday.month
    ensures birthday.day <= DaysInMonth(d.year, d.month) ==> d.day == birthday.day
    ensures birthday.day > DaysInMonth(d.year, d.month) ==> d.day == DaysInMonth(d.year, d.month)
  {
    var year := birthday.year + lifespan;
    if birthday.day <= DaysInMonth(year, birthday.month) then
      Date(year, birthday.month, birthday.day)
    else
      Date(year, birthday.month, DaysInMonth(year, birthday.month))
  }

  /** Division of a 32-bit signed integer by a positive divisor, rounding toward zero. */
  function TruncDiv(a: int, b: int): (q: int)
    requires b > 0
    ensures a >= 0 ==> 0 <= a - q * b < b
    ensures a < 0 ==> -b < a - q * b <= 0
  {
    if a >= 0 then a / b else -((-a) / b)
  }

  function LifespanDays(birthday: Date, lifespan: int): int
    requires Valid(birthday)
  {
    DaysSince(birthday, DeathDay(birthday, lifespan))
  }

  function LifespanWeeks(birthday: Date, lifespan: int): int
    requires Valid(birthday)
  {
    TruncDiv(LifespanDays(birthday, lifespan), 7)
  }

  function DaysLived(today: Date, birthday: Date): int
    requires Valid(today) && Valid(birthday)
  {
    DaysSince(birthday, today)
  }

  function WeeksLived(today: Date, birthday: Date): int
    requires Valid(today) && Valid(birthday)
  {
    TruncDiv(DaysLived(today, birthday), 7)
  }

  function YearsLived(today: Date, birthday: Date): int
    requires Valid(today) && Valid(birthday)
  {
    TruncDiv(WeeksLived(today, birthday), 52)
  }

  function DaysLeft(today: Date, birthday: Date, lifespan: int): int
    requires Valid(today) && Valid(birthday)
  {
    DaysSince(today, DeathDay(birthday, lifespan))
  }

  function WeeksLeft(today: Date, birthday: Date, lifespan: int): int
    requires Valid(today) && Valid(birthday)
  {
    TruncDiv(DaysSince(today, DeathDay(birthday, lifespan)), 7)
  }

  function YearsLeft(today: Date, birthday: Date, lifespan: int): int
    requires Valid(today) && Valid(birthday)
  {
    TruncDiv(WeeksLeft(today, birthday, lifespan), 52)
  }

  // ---------------------------------------------------------------------------
  // Properties of the death day

  /** The day of the month changes only for a 29 February birthday in a common target year. */
  lemma DeathDayClamp(birthday: Date, lifespan: int)
    requires Valid(birthday)
    ensures DeathDay(birthday, lifespan).day <= birthday.day
    ensures DeathDay(birthday, lifespan).day != birthday.day
        <==> IsFeb29(birthday) && !IsLeap(birthday.year + lifespan)
    ensures DeathDay(birthday, lifespan).day != birthday.day
        ==> DeathDay(birthday, lifespan) == Date(birthday.year + lifespan, 2, 28)
  {
  }

  lemma DeathDayOfZeroLifespan(birthday: Date)
    requires Valid(birthday)
    ensures DeathDay(birthday, 0) == birthday
  {
  }

  /** A non-negative lifespan never moves the death day before the birthday. */
  lemma DeathDayNotBefore(birthday: Date, lifespan: int)
    requires Valid(birthday) && lifespan >= 0
    ensures AtMost(birthday, DeathDay(birthday, lifespan))
    ensures LifespanDays(birthday, lifespan) >= 0
    ensures lifespan > 0 ==> LifespanDays(birthday, lifespan) > 0
  {
    BeforeIffDayNumber(birthday, DeathDay(birthday, lifespan));
    BeforeIffDayNumber(DeathDay(birthday, lifespan), birthday);
  }

  /** A negative lifespan puts the death day strictly before the birthday. */
  lemma DeathDayOfNegativeLifespan(birthday: Date, lifespan: int)
    requires Valid(birthday) && lifespan < 0
    ensures Before(DeathDay(birthday, lifespan), birthday)
    ensures LifespanDays(birthday, lifespan) < 0
  {
    BeforeIffDayNumber(DeathDay(birthday, lifespan), birthday);
  }

  /** The three worked examples of the death day and the lifespan in days. */
  lemma DeathDayExamples()
    ensures DeathDay(Date(2000, 1, 1), 80) == Date(2080, 1, 1)
    ensures LifespanDays(Date(2000, 1, 1), 80) == 29220
    ensures DeathDay(Date(1996, 2, 29), 99) == Date(2095, 2, 28)
    ensures LifespanDays(Date(1996, 2, 29), 99) == 36159
    ensures DeathDay(Date(1998, 8, 15), 1000) == Date(2998, 8, 15)
    ensures LifespanDays(Date(1998, 8, 15), 1000) == 365243
  {
  }

  // ---------------------------------------------------------------------------
  // Properties of the counts

  /** Days lived and days left always add up to the whole lifespan in days. */
  lemma LivedPlusLeft(today: Date, birthday: Date, lifespan: int)
    requires Valid(today) && Valid(birthday)
    ensures DaysLived(today, birthday) + DaysLeft(today, birthday, lifespan)
        == LifespanDays(birthday, lifespan)
  {
  }

  lemma CountsAtTheEnds(birthday: Date, lifespan: int)
    requires Valid(birthday)
    ensures DaysLived(birthday, birthday) == 0 && YearsLived(birthday, birthday) == 0
    ensures DaysLeft(DeathDay(birthday, lifespan), birthday, lifespan) == 0
    ensures YearsLeft(DeathDay(birthday, lifespan), birthday, lifespan) == 0
  {
  }

  /** Each week count is its day count divided by 7, rounded toward zero. */
  lemma WeekCountsTruncate(today: Date, birthday: Date, lifespan: int)
    requires Valid(today) && Valid(birthday)
    ensures var d, w := DaysLived(today, birthday), WeeksLived(today, birthday);
      (d >= 0 ==> 7 * w <= d < 7 * w + 7) && (d < 0 ==> 7 * w - 7 < d <= 7 * w)
    ensures var d, w := DaysLeft(today, birthday, lifespan), WeeksLeft(today, birthday, lifespan);
      (d >= 0 ==> 7 * w <= d < 7 * w + 7) && (d < 0 ==> 7 * w - 7 < d <= 7 * w)
    ensures var d, w := LifespanDays(birthday, lifespan), LifespanWeeks(birthday, lifespan);
      (d >= 0 ==> 7 * w <= d < 7 * w + 7) && (d < 0 ==> 7 * w - 7 < d <= 7 * w)
  {
  }

  /** Truncating division is symmetric: negating the dividend negates the quotient. */
  lemma TruncDivNegate(a: int, b: int)
    requires b > 0
    ensures TruncDiv(-a, b) == -TruncDiv(a, b)
  {
  }

  /** Weeks of weeks: truncating by 7 and then by 52 is truncating by 364. */
  lemma TruncDivWeeksThenYears(a: int)
    ensures TruncDiv(TruncDiv(a, 7), 52) == TruncDiv(a, 364)
  {
    if a >= 0 {
      WeeksThenYears(a);
    } else {
      WeeksThenYears(-a);
    }
  }

  lemma WeeksThenYears(a: nat)
    ensures (a / 7) / 52 == a / 364
  {
    var q, r := a / 7, a % 7;
    var q2, r2 := q / 52, q % 52;
    assert a == 364 * q2 + (7 * r2 + r);
    assert 0 <= 7 * r2 + r < 364;
  }

  /**
   * Years lived and left count whole blocks of 52 weeks (364 days), not
   * anniversaries.
   */
  lemma YearsAre364DayBlocks(today: Date, birthday: Date, lifespan: int)
    requires Valid(today) && Valid(birthday)
    ensures YearsLived(today, birthday) == TruncDiv(DaysLived(today, birthday), 364)
    ensures YearsLeft(today, birthday, lifespan) == TruncDiv(DaysLeft(today, birthday, lifespan), 364)
  {
    TruncDivWeeksThenYears(DaysLived(today, birthday));
    TruncDivWeeksThenYears(DaysLeft(today, birthday, lifespan));
  }

  /** 364 days after the birthday, two days before the first anniversary here, a whole year already counts as lived. */
  lemma YearsLivedBeforeAnniversary()
    ensures var birthday, today := Date(2000, 1, 1), Date(2000, 12, 30);
      Before(today, DeathDay(birthday, 1)) && YearsLived(today, birthday) == 1
  {
  }

  /** Past the death day the counts left are negative (truncated toward zero). */
  lemma CountsLeftAfterDeath(today: Date, birthday: Date, lifespan: int)
    requires Valid(today) && Valid(birthday)
    requires Before(DeathDay(birthday, lifespan), today)
    ensures DaysLeft(today, birthday, lifespan) < 0
    ensures WeeksLeft(today, birthday, lifespan) <= 0 && YearsLeft(today, birthday, lifespan) <= 0
    ensures WeeksLeft(today, birthday, lifespan) < 0 <==> DaysLeft(today, birthday, lifespan) <= -7
  {
    BeforeIffDayNumber(DeathDay(birthday, lifespan), today);
  }
}
