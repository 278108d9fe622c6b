/**
 * The summary figures of the poster: weeks of a life expectancy, weeks
 * lived so far (capped at the total) and weeks still ahead, the current week
 * counted apart.
 */
module Stats {

  import opened Dates

  const DefaultExpectancy: int := 80
  const WeeksPerYear: int := 52

  datatype Stats = Stats(livedWeeks: int, remainingWeeks: int, totalWeeks: int)

  function Min(a: int, b: int): int {
    if a <= b then a else b
  }

  /** `computeStats(dobISO, expectancyYears)` without its floating-point `percent`. */
  function ComputeStats(birth: CalendarDate, nowMs: int, expectancy: int): (s: Stats)
    ensures s.totalWeeks == expectancy * WeeksPerYear
    ensures s.remainingWeeks >= 0
    ensures expectancy >= 0 ==> 0 <= s.livedWeeks <= s.totalWeeks
    ensures s.livedWeeks <= WeeksBetween(birth, nowMs)
    ensures s.livedWeeks < s.totalWeeks ==>
      s.livedWeeks == WeeksBetween(birth, nowMs) && s.livedWeeks + s.remainingWeeks + 1 == s.totalWeeks
    ensures s.livedWeeks == s.totalWeeks ==> s.remainingWeeks == 0
  {
    var total := expectancy * WeeksPerYear;
    var lived := Min(WeeksBetween(birth, nowMs), total);
    var remaining := Max(total - lived - 1, 0);
    Stats(lived, remaining, total)
  }

  /** `computeStats(dobISO)`: the default expectancy of 80 years makes 4160 weeks. */
  lemma DefaultTotal(birth: CalendarDate, nowMs: int)
    ensures ComputeStats(birth, nowMs, DefaultExpectancy).totalWeeks == 4160
  {
  }

  /**
   * As time passes, weeks lived never decrease and weeks remaining never
   * increase; their sum with the current week stays at the total until the
   * last week is reached.
   */
  lemma {:induction false} StatsMonotone(birth: CalendarDate, now1: int, now2: int, expectancy: int)
    requires now1 <= now2
    ensures ComputeStats(birth, now1, expectancy).livedWeeks <= ComputeStats(birth, now2, expectancy).livedWeeks
    ensures ComputeStats(birth, now1, expectancy).remainingWeeks >= ComputeStats(birth, now2, expectancy).remainingWeeks
  {
    WeeksBetweenMonotone(birth, now1, now2);
  }

  /** Before one whole week has passed, nothing is lived and all but the current week remain. */
  lemma FirstWeek(birth: CalendarDate, nowMs: int, expectancy: int)
    requires expectancy >= 1 && nowMs < MidnightMs(birth) + MsPerWeek
    ensures ComputeStats(birth, nowMs, expectancy).livedWeeks == 0
    ensures ComputeStats(birth, nowMs, expectancy).remainingWeeks == expectancy * WeeksPerYear - 1
  {
  }
}
