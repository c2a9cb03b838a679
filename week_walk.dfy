/**
 * The week-stepping walk of the grid calendars.
 *
 * Starting at the birthday, each step advances the date 8 days when the
 * step's index is a multiple of 52 and 7 days otherwise, where "a day" is
 * `SkipNext`: the next date, passing over 29 February. The walk emits one
 * date per step while the date is before the end (the death day).
 *
 * The proofs measure dates with `Ord`, a count of days in which every year
 * has 365 days and 29 February shares 28 February's place. `SkipNext` adds
 * exactly one to it, so 52 steps (8 + 51 * 7 = 365 days) bring the walk back
 * to the same month and day one year later.
 */
module WeekWalk {
  import opened Gregorian
  import opened Lifespan

  /** The position of a date within a year counted as a common (365-day) year. */
  function CommonDayOfYear(d: Date): (i: int)
    requires Valid(d)
    ensures 0 <= i < 365
  {
    CommonDaysBeforeMonth(d.month) + (if IsFeb29(d) then 28 else d.day) - 1
  }

  /** Days counted as if every year were 365 days long. */
  function Ord(d: Date): int
    requires Valid(d)
  {
    365 * d.year + CommonDayOfYear(d)
  }

  /** One iteration of the inner stepping loop: the next day, skipping 29 February. */
  function SkipNext(d: Date): (r: Date)
    requires Valid(d)
    ensures Valid(r) && !IsFeb29(r)
    decreases if IsFeb29(d) then 0 else 1
  {
    var n := Next(d);
    if n.month == 2 && n.day == 29 then SkipNext(n) else n
  }

  /** Skipping to the next date that is not 29 February adds exactly one to `Ord`. */
  lemma SkipNextOrd(d: Date)
    requires Valid(d)
    ensures Ord(SkipNext(d)) == Ord(d) + 1
  {
    var n := Next(d);
    NextOrd(d);
    if IsFeb29(n) {
      NextOrd(n);
      assert SkipNext(n) == Next(n);
    }
  }

  /** Stepping onto 29 February goes straight on to 1 March. */
  lemma SkipNextFeb29(d: Date)
    requires Valid(d) && IsFeb29(Next(d))
    ensures SkipNext(d) == Next(Next(d))
  {
    var n := Next(d);
    assert DaysInMonth(n.year, 2) == 29;
    assert Next(n) == Date(n.year, 3, 1);
    assert SkipNext(n) == Next(n);
  }

  /** `Next` adds one to `Ord`, except on the step onto 29 February, which shares 28 February's place. */
  lemma NextOrd(d: Date)
    requires Valid(d)
    ensures Ord(Next(d)) == Ord(d) + (if IsFeb29(Next(d)) then 0 else 1)
  {
    if d.day < DaysInMonth(d.year, d.month) {
      assert Next(d) == Date(d.year, d.month, d.day + 1);
    } else if d.month < 12 {
      assert Next(d) == Date(d.year, d.month + 1, 1);
      assert CommonDaysBeforeMonth(d.month + 1) == CommonDaysBeforeMonth(d.month) + CommonMonthLength(d.month);
    } else {
      assert Next(d) == Date(d.year + 1, 1, 1);
    }
  }

  /** `k` iterations of `SkipNext`. */
  function Advance(d: Date, k: nat): (r: Date)
    requires Valid(d)
    ensures Valid(r)
    ensures k > 0 ==> !IsFeb29(r)
  {
    if k == 0 then d else SkipNext(Advance(d, k - 1))
  }

  lemma {:induction false} AdvanceOrd(d: Date, k: nat)
    requires Valid(d)
    ensures Ord(Advance(d, k)) == Ord(d) + k
  {
    if k > 0 {
      AdvanceOrd(d, k - 1);
      SkipNextOrd(Advance(d, k - 1));
    }
  }

  /** The number of days step `count` advances. */
  function StepLength(count: nat): nat {
    if count % 52 == 0 then 8 else 7
  }

  /** The date after step `count`. */
  function Step(d: Date, count: nat): (r: Date)
    requires Valid(d)
    ensures Valid(r) && !IsFeb29(r)
  {
    Advance(d, StepLength(count))
  }

  lemma StepOrd(d: Date, count: nat)
    requires Valid(d)
    ensures Ord(Step(d, count)) == Ord(d) + StepLength(count)
  {
    AdvanceOrd(d, StepLength(count));
  }

  // ---------------------------------------------------------------------------
  // Order and Ord

  lemma CommonDayOrder(a: Date, b: Date)
    requires Valid(a) && Valid(b) && a.year == b.year
    ensures Before(a, b) ==> CommonDayOfYear(a) <= CommonDayOfYear(b)
    ensures CommonDayOfYear(a) < CommonDayOfYear(b) ==> Before(a, b)
  {
  }

  /** A date before another never has a larger `Ord`. */
  lemma OrdOfBefore(a: Date, b: Date)
    requires Valid(a) && Valid(b) && Before(a, b)
    ensures Ord(a) <= Ord(b)
  {
    if a.year == b.year {
      CommonDayOrder(a, b);
    }
  }

  /** A smaller `Ord` means an earlier date. */
  lemma BeforeOfOrd(a: Date, b: Date)
    requires Valid(a) && Valid(b) && Ord(a) < Ord(b)
    ensures Before(a, b)
  {
    if a.year == b.year {
      CommonDayOrder(a, b);
    }
  }

  lemma BeforeTransitive(a: Date, b: Date, c: Date)
    requires Before(a, b) && Before(b, c)
    ensures Before(a, c)
  {
  }

  /** Away from 29 February, `Ord` tells dates apart. */
  lemma OrdInjective(a: Date, b: Date)
    requires Valid(a) && Valid(b) && !IsFeb29(a) && !IsFeb29(b)
    requires Ord(a) == Ord(b)
    ensures a == b
  {
    assert a.year == b.year;
    assert CommonDayOfYear(a) == CommonDayOfYear(b);
  }

  /** The only other date sharing 29 February's `Ord` is 28 February of that year. */
  lemma OrdOfFeb29(a: Date, b: Date)
    requires Valid(a) && Valid(b) && !IsFeb29(a) && IsFeb29(b)
    requires Ord(a) == Ord(b)
    ensures a == Date(b.year, 2, 28) && Before(a, b)
  {
    assert a.year == b.year;
  }

  // ---------------------------------------------------------------------------
  // The walk

  /**
   * The dates the walk emits from `curr` on, `count` being the index of the
   * step about to be taken: every date before `end`, in order.
   */
  function WalkDates(curr: Date, end: Date, count: nat): (ds: seq<Date>)
    requires Valid(curr) && Valid(end)
    decreases Ord(end) - Ord(curr)
  {
    if Before(curr, end) then
      OrdOfBefore(curr, end);
      StepOrd(curr, count);
      [curr] + WalkDates(Step(curr, count), end, count + 1)
    else
      []
  }

  /** The date the walk from `start` reaches after `i` steps, whatever the end. */
  function FreeWalk(start: Date, i: nat): (r: Date)
    requires Valid(start)
    ensures Valid(r)
    ensures i > 0 ==> !IsFeb29(r)
  {
    if i == 0 then start else Step(FreeWalk(start, i - 1), i - 1)
  }

  /** Total days advanced by the first `i` steps. */
  function StepSum(i: nat): nat {
    if i == 0 then 0 else StepSum(i - 1) + StepLength(i - 1)
  }

  lemma {:induction false} StepSumClosedForm(i: nat)
    ensures StepSum(i) == 365 * (i / 52) + (if i % 52 == 0 then 0 else 7 * (i % 52) + 1)
  {
    if i > 0 {
      StepSumClosedForm(i - 1);
      var c, r := (i - 1) / 52, (i - 1) % 52;
      assert i - 1 == 52 * c + r;
      if r == 51 {
        assert i / 52 == c + 1 && i % 52 == 0;
      } else {
        assert i / 52 == c && i % 52 == r + 1;
      }
    }
  }

  /** The 52 steps of a column, starting at a multiple of 52, advance exactly 365 days. */
  lemma FiftyTwoStepsAreAYear(c: nat)
    ensures StepSum(52 * (c + 1)) == StepSum(52 * c) + 365
    ensures StepSum(52 * c) == 365 * c
  {
    StepSumClosedForm(52 * (c + 1));
    StepSumClosedForm(52 * c);
  }

  /** Any 52 consecutive steps, wherever they start, advance exactly 365 days. */
  lemma FiftyTwoStepsFromAnywhere(i: nat)
    ensures StepSum(i + 52) == StepSum(i) + 365
  {
    StepSumClosedForm(i);
    StepSumClosedForm(i + 52);
    assert (i + 52) / 52 == i / 52 + 1 && (i + 52) % 52 == i % 52;
  }

  lemma {:induction false} FreeWalkOrd(start: Date, i: nat)
    requires Valid(start)
    ensures Ord(FreeWalk(start, i)) == Ord(start) + StepSum(i)
  {
    if i > 0 {
      var prev := FreeWalk(start, i - 1);
      FreeWalkOrd(start, i - 1);
      StepOrd(prev, i - 1);
      assert FreeWalk(start, i) == Step(prev, i - 1);
      assert StepSum(i) == StepSum(i - 1) + StepLength(i - 1);
    }
  }

  /** Steps strictly increase the date. */
  lemma FreeWalkIncreasing(start: Date, i: nat, j: nat)
    requires Valid(start) && i < j
    ensures Before(FreeWalk(start, i), FreeWalk(start, j))
  {
    FreeWalkOrd(start, i);
    FreeWalkOrd(start, j);
    StepSumIncreasing(i, j);
    BeforeOfOrd(FreeWalk(start, i), FreeWalk(start, j));
  }

  lemma {:induction false} StepSumIncreasing(i: nat, j: nat)
    requires i < j
    ensures StepSum(i) + 7 * (j - i) <= StepSum(j)
    decreases j - i
  {
    if i + 1 < j {
      StepSumIncreasing(i + 1, j);
    }
  }

  /**
   * The first cell of column `c` (step 52 * c) falls on the birthday's month
   * and day `c` years later; a 29 February birthday gives 28 February.
   */
  lemma ColumnStartsOnAnniversary(start: Date, c: nat)
    requires Valid(start) && (c > 0 || !IsFeb29(start))
    ensures FreeWalk(start, 52 * c)
        == Date(start.year + c, start.month, if IsFeb29(start) then 28 else start.day)
  {
    FreeWalkOrd(start, 52 * c);
    FiftyTwoStepsAreAYear(c);
    var anniversary := Date(start.year + c, start.month, if IsFeb29(start) then 28 else start.day);
    assert Ord(anniversary) == Ord(start) + 365 * c;
    OrdInjective(FreeWalk(start, 52 * c), anniversary);
  }

  /** The free walk's date after step `i` is one step on from its date at step `i`. */
  lemma FreeWalkStep(start: Date, i: nat)
    requires Valid(start)
    ensures FreeWalk(start, i + 1) == Step(FreeWalk(start, i), i)
  {
  }

  /** A walk that emits something starts before the end, with its own date. */
  lemma WalkUnfold(curr: Date, end: Date, count: nat)
    requires Valid(curr) && Valid(end) && Before(curr, end)
    ensures WalkDates(curr, end, count) == [curr] + WalkDates(Step(curr, count), end, count + 1)
  {
  }

  /** One date more than the walk from the next step. */
  lemma WalkLengthStep(curr: Date, next: Date, end: Date, count: nat)
    requires Valid(curr) && Valid(end) && Before(curr, end) && next == Step(curr, count)
    ensures |WalkDates(curr, end, count)| == 1 + |WalkDates(next, end, count + 1)|
  {
    WalkUnfold(curr, end, count);
  }

  /** Index `j + 1` of the walk is index `j` of the walk from the next step. */
  lemma WalkIndexStep(curr: Date, next: Date, end: Date, count: nat, j: nat)
    requires Valid(curr) && Valid(end) && Before(curr, end) && next == Step(curr, count)
    requires j < |WalkDates(next, end, count + 1)|
    ensures WalkDates(curr, end, count)[j + 1] == WalkDates(next, end, count + 1)[j]
    ensures WalkDates(curr, end, count)[0] == curr
  {
    WalkUnfold(curr, end, count);
  }

  lemma WalkNonEmpty(curr: Date, end: Date, count: nat)
    requires Valid(curr) && Valid(end) && |WalkDates(curr, end, count)| > 0
    ensures Before(curr, end)
    ensures WalkDates(curr, end, count)[0] == curr
  {
  }

  lemma WalkStops(curr: Date, end: Date, count: nat)
    requires Valid(curr) && Valid(end) && !Before(curr, end)
    ensures WalkDates(curr, end, count) == []
  {
  }

  /** The walk emits the free walk's dates, one per step, in order. */
  lemma {:induction false} WalkIsFreeWalk(start: Date, curr: Date, end: Date, count: nat, k: nat)
    requires Valid(start) && Valid(end) && curr == FreeWalk(start, count) && count <= k
    requires k - count < |WalkDates(curr, end, count)|
    ensures WalkDates(curr, end, count)[k - count] == FreeWalk(start, k)
    decreases k - count
  {
    WalkNonEmpty(curr, end, count);
    if count < k {
      var next, j := Step(curr, count), k - (count + 1);
      WalkLengthStep(curr, next, end, count);
      assert j < |WalkDates(next, end, count + 1)|;
      FreeWalkStep(start, count);
      WalkIsFreeWalk(start, next, end, count + 1, k);
      WalkIndexStep(curr, next, end, count, j);
      assert WalkDates(curr, end, count)[j + 1] == FreeWalk(start, k);
    } else {
      assert curr == FreeWalk(start, k);
    }
  }

  /**
   * The walk emits exactly `n` dates when `n` is the first step whose date is
   * not before the end.
   */
  lemma WalkLength(start: Date, end: Date, n: nat)
    requires Valid(start) && Valid(end)
    requires n > 0 ==> Before(FreeWalk(start, n - 1), end)
    requires !Before(FreeWalk(start, n), end)
    ensures |WalkDates(start, end, 0)| == n
  {
    var m := |WalkDates(start, end, 0)|;
    WalkEnds(start, start, end, 0, m);
    if m < n {
      FreeWalkStaysBefore(start, end, m, n - 1);
    } else if n < m {
      WalkAt(start, end, n);
    }
  }

  /** A free-walk date before the end has every earlier free-walk date before it too. */
  lemma FreeWalkStaysBefore(start: Date, end: Date, i: nat, j: nat)
    requires Valid(start) && Valid(end) && i <= j && Before(FreeWalk(start, j), end)
    ensures Before(FreeWalk(start, i), end)
  {
    if i < j {
      FreeWalkIncreasing(start, i, j);
      BeforeTransitive(FreeWalk(start, i), FreeWalk(start, j), end);
    }
  }

  /** The step just past the walk's last date is not before the end. */
  lemma {:induction false} WalkEnds(start: Date, curr: Date, end: Date, count: nat, n: nat)
    requires Valid(start) && Valid(end) && curr == FreeWalk(start, count)
    requires n == count + |WalkDates(curr, end, count)|
    ensures !Before(FreeWalk(start, n), end)
    decreases Ord(end) - Ord(curr)
  {
    if Before(curr, end) {
      OrdOfBefore(curr, end);
      var next := Step(curr, count);
      StepOrd(curr, count);
      WalkLengthStep(curr, next, end, count);
      FreeWalkStep(start, count);
      WalkEnds(start, next, end, count + 1, n);
    } else {
      WalkStops(curr, end, count);
    }
  }

  /**
   * Every emitted date is before the end; dates strictly increase; after the
   * first, none is 29 February; and the walk stops at the first step whose
   * date is not before the end.
   */
  lemma WalkInvariants(start: Date, end: Date)
    requires Valid(start) && Valid(end)
    ensures var ds := WalkDates(start, end, 0);
      && (forall i :: 0 <= i < |ds| ==> Before(ds[i], end))
      && (forall i, j :: 0 <= i < j < |ds| ==> Before(ds[i], ds[j]))
      && (forall i :: 1 <= i < |ds| ==> !IsFeb29(ds[i]))
      && !Before(FreeWalk(start, |ds|), end)
  {
    var ds := WalkDates(start, end, 0);
    forall i | 0 <= i < |ds|
      ensures Before(ds[i], end)
      ensures i >= 1 ==> !IsFeb29(ds[i])
    {
      WalkAt(start, end, i);
    }
    forall i, j | 0 <= i < j < |ds|
      ensures Before(ds[i], ds[j])
    {
      WalkAt(start, end, i);
      WalkAt(start, end, j);
      FreeWalkIncreasing(start, i, j);
    }
    WalkEnds(start, start, end, 0, |ds|);
  }

  /** The walk's date at index `i` is the free walk's date after `i` steps. */
  lemma WalkAt(start: Date, end: Date, i: nat)
    requires Valid(start) && Valid(end) && i < |WalkDates(start, end, 0)|
    ensures WalkDates(start, end, 0)[i] == FreeWalk(start, i)
    ensures Before(FreeWalk(start, i), end)
  {
    WalkIsFreeWalk(start, start, end, 0, i);
    WalkBeforeEnd(start, end, 0, i);
  }

  /** Every date the walk emits is a valid date. */
  lemma WalkValid(start: Date, end: Date)
    requires Valid(start) && Valid(end)
    ensures forall i :: 0 <= i < |WalkDates(start, end, 0)| ==> Valid(WalkDates(start, end, 0)[i])
  {
    forall i | 0 <= i < |WalkDates(start, end, 0)|
      ensures Valid(WalkDates(start, end, 0)[i])
    {
      WalkAt(start, end, i);
    }
  }

  /** Every date the walk emits is before the end. */
  lemma {:induction false} WalkBeforeEnd(curr: Date, end: Date, count: nat, j: nat)
    requires Valid(curr) && Valid(end) && j < |WalkDates(curr, end, count)|
    ensures Before(WalkDates(curr, end, count)[j], end)
    decreases j
  {
    WalkNonEmpty(curr, end, count);
    if j > 0 {
      var next := Step(curr, count);
      WalkLengthStep(curr, next, end, count);
      WalkIndexStep(curr, next, end, count, j - 1);
      WalkBeforeEnd(next, end, count + 1, j - 1);
    }
  }

  /** The free walk is before a date `s` days on by `Ord`, when it has not reached it. */
  lemma FreeWalkBefore(start: Date, d: Date, i: nat, s: int)
    requires Valid(start) && Valid(d) && Ord(d) == Ord(start) + s
    requires StepSum(i) < s || (StepSum(i) == s && i > 0 && IsFeb29(d))
    ensures Before(FreeWalk(start, i), d)
  {
    FreeWalkOrd(start, i);
    if StepSum(i) < s {
      BeforeOfOrd(FreeWalk(start, i), d);
    } else {
      OrdOfFeb29(FreeWalk(start, i), d);
    }
  }

  /** The free walk is no longer before a date `s` days on by `Ord`, once it has reached it. */
  lemma FreeWalkNotBefore(start: Date, d: Date, i: nat, s: int)
    requires Valid(start) && Valid(d) && Ord(d) == Ord(start) + s
    requires s < StepSum(i) || (StepSum(i) == s && i > 0 && !IsFeb29(d))
    ensures !Before(FreeWalk(start, i), d)
  {
    FreeWalkOrd(start, i);
    if s < StepSum(i) {
      if Before(FreeWalk(start, i), d) {
        OrdOfBefore(FreeWalk(start, i), d);
      }
    } else {
      OrdInjective(FreeWalk(start, i), d);
    }
  }

  /** Every step advances at least a week. */
  lemma StepSumStep(i: nat)
    ensures StepSum(i) + 7 <= StepSum(i + 1)
  {
  }

  /** A walk whose end is the common date `n` steps on stops just before it. */
  lemma WalkReachesCommonEnd(start: Date, end: Date, n: nat)
    requires Valid(start) && Valid(end) && n > 0 && !IsFeb29(end)
    requires Ord(end) == Ord(start) + StepSum(n)
    ensures |WalkDates(start, end, 0)| == n
  {
    StepSumStep(n - 1);
    FreeWalkBefore(start, end, n - 1, StepSum(n));
    FreeWalkNotBefore(start, end, n, StepSum(n));
    WalkLength(start, end, n);
  }

  /**
   * A walk whose end is 29 February, `n` steps on by `Ord`, also emits the
   * 28 February just before it.
   */
  lemma WalkReachesLeapEnd(start: Date, end: Date, n: nat)
    requires Valid(start) && Valid(end) && n > 0 && IsFeb29(end)
    requires Ord(end) == Ord(start) + StepSum(n)
    ensures |WalkDates(start, end, 0)| == n + 1
  {
    StepSumStep(n);
    FreeWalkBefore(start, end, n, StepSum(n));
    FreeWalkNotBefore(start, end, n + 1, StepSum(n));
    WalkLength(start, end, n + 1);
  }

  /** The death day is `lifespan` years of 365 days on, counted by `Ord`. */
  lemma DeathDayOrd(birthday: Date, lifespan: int)
    requires Valid(birthday)
    ensures Ord(DeathDay(birthday, lifespan)) == Ord(birthday) + 365 * lifespan
  {
  }

  /** 52 per year of a positive lifespan, plus one for a 29 February birthday whose death year is a leap year. */
  function CellCount(birthday: Date, lifespan: int): nat {
    if lifespan <= 0 then 0
    else if IsFeb29(birthday) && IsLeap(birthday.year + lifespan) then 52 * lifespan + 1
    else 52 * lifespan
  }

  /**
   * The number of cells of a lifespan of `lifespan` years: 52 per year, plus
   * one extra cell when a 29 February birthday meets a leap death year.
   */
  lemma WalkCellCount(birthday: Date, lifespan: int)
    requires Valid(birthday)
    ensures |WalkDates(birthday, DeathDay(birthday, lifespan), 0)| == CellCount(birthday, lifespan)
  {
    var end := DeathDay(birthday, lifespan);
    if lifespan <= 0 {
      WalkStops(birthday, end, 0);
    } else {
      DeathDayOnFeb29(birthday, lifespan);
      WalkCellCountPositive(birthday, lifespan);
    }
  }

  /** The death day falls on 29 February exactly when the birthday does and the death year is a leap year. */
  lemma DeathDayOnFeb29(birthday: Date, lifespan: int)
    requires Valid(birthday)
    ensures IsFeb29(DeathDay(birthday, lifespan)) <==> IsFeb29(birthday) && IsLeap(birthday.year + lifespan)
  {
  }

  lemma WalkCellCountPositive(birthday: Date, lifespan: int)
    requires Valid(birthday) && lifespan > 0
    ensures var end := DeathDay(birthday, lifespan);
      |WalkDates(birthday, end, 0)| == if IsFeb29(end) then 52 * lifespan + 1 else 52 * lifespan
  {
    var end := DeathDay(birthday, lifespan);
    var n: nat := 52 * lifespan;
    DeathDayOrd(birthday, lifespan);
    FiftyTwoStepsAreAYear(lifespan);
    assert Ord(end) == Ord(birthday) + StepSum(n);
    if IsFeb29(end) {
      WalkReachesLeapEnd(birthday, end, n);
    } else {
      WalkReachesCommonEnd(birthday, end, n);
    }
  }
}
