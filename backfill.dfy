/** Week selection of the backfill tool (cmd/backfill-newsletter): which ISO
    weeks to regenerate, and the Monday-to-Sunday window of each. The clock
    reading `now` is a parameter. */
module Backfill {
  import opened Wrappers
  import opened Models
  import opened Calendar

  const WeekSeconds := 7 * SecondsPerDay

  /** getWeekStart: the Monday 00:00 of the week holding now, moved back
      weeksAgo weeks. Sunday counts as the seventh day of its week. */
  function GetWeekStart(now: Instant, weeksAgo: int): (r: Instant)
    ensures IsMondayMidnight(r)
    ensures r + weeksAgo * WeekSeconds <= now < r + (weeksAgo + 1) * WeekSeconds
  {
    var weekday := IsoWeekday(DayOf(now));
    var monday := now - (weekday - 1) * SecondsPerDay;
    var date := CivilFromDays(DayOf(monday));
    var midnight := DaysFromCivil(date) * SecondsPerDay;
    WeekStartFacts(now, weeksAgo, weekday, monday, midnight);
    midnight - 7 * weeksAgo * SecondsPerDay
  }

  /** The day of an instant brackets it. */
  lemma DayBounds(t: Instant)
    ensures DayOf(t) * 86400 <= t < DayOf(t) * 86400 + 86400
  {
  }

  /** Instants a whole number of days apart are that many days apart. */
  lemma DayOfShift(t: Instant, k: int)
    ensures DayOf(t - k * SecondsPerDay) == DayOf(t) - k
  {
    assert t - k * 86400 == (t / 86400 - k) * 86400 + t % 86400;
  }

  /** Midnight of day k. */
  lemma DayStart(k: int)
    ensures DayOf(k * SecondsPerDay) == k && IsMidnight(k * SecondsPerDay)
  {
  }

  /** The window arithmetic of getWeekStart, in plain numbers: a Monday m at
      most six days before the day d of now, moved back weeksAgo weeks. */
  lemma WeekStartArith(now: int, weeksAgo: int, d: int, m: int, r: int)
    requires d * 86400 <= now < d * 86400 + 86400
    requires d - 6 <= m <= d
    requires r == (m - 7 * weeksAgo) * 86400
    ensures r + weeksAgo * 604800 <= now < r + (weeksAgo + 1) * 604800
  {
    assert r + weeksAgo * 604800 == m * 86400;
  }

  lemma WeekStartFacts(now: Instant, weeksAgo: int, weekday: int, monday: Instant, midnight: Instant)
    requires weekday == IsoWeekday(DayOf(now))
    requires monday == now - (weekday - 1) * SecondsPerDay
    requires midnight == DaysFromCivil(CivilFromDays(DayOf(monday))) * SecondsPerDay
    ensures IsMondayMidnight(midnight - 7 * weeksAgo * SecondsPerDay)
    ensures midnight - 7 * weeksAgo * SecondsPerDay + weeksAgo * WeekSeconds <= now
    ensures now < midnight - 7 * weeksAgo * SecondsPerDay + (weeksAgo + 1) * WeekSeconds
  {
    MondayMidnight(now, weekday, monday, midnight);
    WeeksBack(now, weeksAgo, DayOf(now) - (weekday - 1), midnight);
  }

  /** The Monday of now's week, at midnight. */
  lemma MondayMidnight(now: Instant, weekday: int, monday: Instant, midnight: Instant)
    requires weekday == IsoWeekday(DayOf(now))
    requires monday == now - (weekday - 1) * SecondsPerDay
    requires midnight == DaysFromCivil(CivilFromDays(DayOf(monday))) * SecondsPerDay
    ensures midnight == (DayOf(now) - (weekday - 1)) * SecondsPerDay
    ensures IsoWeekday(DayOf(now) - (weekday - 1)) == 1
    ensures DayOf(now) - 6 <= DayOf(now) - (weekday - 1) <= DayOf(now)
  {
    DayOfShift(now, weekday - 1);
    CivilRoundTrip(DayOf(monday));
    MondayOf(DayOf(now));
  }

  /** Moving a Monday midnight of now's week back weeksAgo weeks. */
  lemma WeeksBack(now: Instant, weeksAgo: int, m: int, midnight: Instant)
    requires midnight == m * SecondsPerDay
    requires IsoWeekday(m) == 1
    requires DayOf(now) - 6 <= m <= DayOf(now)
    ensures IsMondayMidnight(midnight - 7 * weeksAgo * SecondsPerDay)
    ensures midnight - 7 * weeksAgo * SecondsPerDay + weeksAgo * WeekSeconds <= now
    ensures now < midnight - 7 * weeksAgo * SecondsPerDay + (weeksAgo + 1) * WeekSeconds
  {
    var k := m - 7 * weeksAgo;
    var r := midnight - 7 * weeksAgo * SecondsPerDay;
    assert r == k * SecondsPerDay;
    MondayPlusWeeks(m, -weeksAgo);
    DayStart(k);
    DayBounds(now);
    WeekStartArith(now, weeksAgo, DayOf(now), m, r);
  }

  /** Each further week back moves the result exactly seven days earlier. */
  lemma GetWeekStartStep(now: Instant, weeksAgo: int)
    ensures GetWeekStart(now, weeksAgo + 1) == GetWeekStart(now, weeksAgo) - WeekSeconds
  {
  }

  /** With weeksAgo = 0 the result is the start of now's own ISO week. */
  lemma GetWeekStartSameIsoWeek(now: Instant)
    ensures IsoWeekOf(GetWeekStart(now, 0)) == IsoWeekOf(now)
  {
    var r := GetWeekStart(now, 0);
    SameWeekSameIsoWeek(DayOf(r), DayOf(now) - DayOf(r));
  }

  /** getWeekStartForWeek: the Monday 00:00 of week `week` of `year`, counted on
      from the Monday of the week holding 4 January. No range check on week. */
  function GetWeekStartForWeek(year: int, week: int): (r: Instant)
    ensures IsMondayMidnight(r)
    ensures DayOf(r) == Week1Monday(year) + 7 * (week - 1)
  {
    var jan4 := DaysFromCivil(Date(year, 1, 4)) * SecondsPerDay;
    var weekday := IsoWeekday(DayOf(jan4));
    var week1Monday := jan4 - (weekday - 1) * SecondsPerDay;
    WeekStartForWeekFacts(year, week, jan4, weekday, week1Monday);
    week1Monday + (week - 1) * WeekSeconds
  }

  lemma WeekStartForWeekFacts(year: int, week: int, jan4: Instant, weekday: int, week1Monday: Instant)
    requires jan4 == DaysFromCivil(Date(year, 1, 4)) * SecondsPerDay
    requires weekday == IsoWeekday(DayOf(jan4))
    requires week1Monday == jan4 - (weekday - 1) * SecondsPerDay
    ensures IsMondayMidnight(week1Monday + (week - 1) * WeekSeconds)
    ensures DayOf(week1Monday + (week - 1) * WeekSeconds) == Week1Monday(year) + 7 * (week - 1)
  {
    var j := DaysFromCivil(Date(year, 1, 4));
    DayStart(j);
    Week1MondayFacts(year);
    WeeksOn(Week1Monday(year), week, week1Monday);
  }

  /** Moving a Monday midnight on by week - 1 weeks. */
  lemma WeeksOn(m: int, week: int, monday: Instant)
    requires monday == m * SecondsPerDay
    requires IsoWeekday(m) == 1
    ensures IsMondayMidnight(monday + (week - 1) * WeekSeconds)
    ensures DayOf(monday + (week - 1) * WeekSeconds) == m + 7 * (week - 1)
  {
    var k := m + 7 * (week - 1);
    assert monday + (week - 1) * WeekSeconds == k * SecondsPerDay;
    MondayPlusWeeks(m, week - 1);
    DayStart(k);
  }

  /** The Monday of week 1 lies between 29 December of the previous year and 4 January. */
  lemma FirstWeekStartBounds(year: int)
    ensures DaysFromCivil(Date(year - 1, 12, 29)) <= DayOf(GetWeekStartForWeek(year, 1)) <= DaysFromCivil(Date(year, 1, 4))
  {
    Week1MondayFacts(year);
  }

  /** Consecutive week numbers are exactly seven days apart (week 0 therefore
      gives the Monday before week 1). */
  lemma GetWeekStartForWeekStep(year: int, week: int)
    ensures GetWeekStartForWeek(year, week + 1) == GetWeekStartForWeek(year, week) + WeekSeconds
  {
  }

  /** For every week the year has, the result lies in ISO week (year, week). */
  lemma GetWeekStartForWeekRoundTrip(year: int, week: int)
    requires 1 <= week <= WeeksInYear(year)
    ensures IsoWeekOf(GetWeekStartForWeek(year, week)) == (year, week)
  {
    Week1MondayRoundTrip(year, week);
  }

  /** Conversely, the start of any ISO week is found from its (year, week). */
  lemma GetWeekStartForWeekInverse(t: Instant)
    requires IsMondayMidnight(t)
    ensures GetWeekStartForWeek(IsoWeekOf(t).0, IsoWeekOf(t).1) == t
  {
    Week1MondayInverse(DayOf(t));
  }

  /** One week past the last week of the year is week 1 of the next year. */
  lemma GetWeekStartForWeekOverflow(year: int)
    ensures GetWeekStartForWeek(year, WeeksInYear(year) + 1) == GetWeekStartForWeek(year + 1, 1)
    ensures IsoWeekOf(GetWeekStartForWeek(year, WeeksInYear(year) + 1)) == (year + 1, 1)
  {
    var a := GetWeekStartForWeek(year, WeeksInYear(year) + 1);
    var b := GetWeekStartForWeek(year + 1, 1);
    assert DayOf(a) == DayOf(b) by {
      NextYearWeek1(year);
    }
    assert a == b by {
      MidnightOfDay(a);
      MidnightOfDay(b);
    }
    assert IsoWeekOf(b) == (year + 1, 1) by {
      Week1MondayRoundTrip(year + 1, 1);
    }
  }

  /** A midnight is its day's start. */
  lemma MidnightOfDay(t: Instant)
    requires IsMidnight(t)
    ensures t == DayOf(t) * SecondsPerDay
  {
  }

  // ---------------------------------------------------------------------------
  // Which weeks to regenerate

  /** The integers lo, lo + 1, ..., hi - 1. */
  function Range(lo: int, hi: int): (r: seq<int>)
    ensures |r| == if lo < hi then hi - lo else 0
    ensures forall k | 0 <= k < |r| :: r[k] == lo + k
    decreases hi - lo
  {
    if hi <= lo then [] else Range(lo, hi - 1) + [hi - 1]
  }

  function Max(a: int, b: int): int
  {
    if a < b then b else a
  }

  /** The past weeks currentWeek - weeks ... currentWeek - 1 that are positive. */
  function PastWeeks(weeks: int, currentWeek: int): seq<int>
  {
    Range(Max(1, currentWeek - weeks), currentWeek)
  }

  /** The week list built in main: a given week alone, or the positive past weeks
      from the oldest to the most recent. */
  method WeeksToGenerate(weeks: int, specificWeek: int, currentWeek: int) returns (list: seq<int>)
    ensures specificWeek > 0 ==> list == [specificWeek]
    ensures specificWeek <= 0 ==> list == PastWeeks(weeks, currentWeek)
  {
    list := [];
    if specificWeek > 0 {
      list := list + [specificWeek];
      return;
    }
    var lo := Max(1, currentWeek - weeks);
    var i := weeks;
    while i >= 1
      invariant i <= weeks
      invariant weeks >= 0 ==> i >= 0
      invariant weeks < 0 ==> i == weeks
      invariant list == Range(lo, Max(lo, currentWeek - i))
      decreases i
    {
      var weekNum := currentWeek - i;
      if weekNum > 0 {
        assert lo <= weekNum;
        assert Range(lo, weekNum + 1) == Range(lo, weekNum) + [weekNum];
        list := list + [weekNum];
      }
      i := i - 1;
    }
    if currentWeek <= lo {
      assert |Range(lo, currentWeek)| == 0;
    }
  }

  /** The past-week list is strictly increasing, has at most `weeks` entries and
      holds only weeks 1 ... currentWeek - 1. */
  lemma PastWeeksShape(weeks: int, currentWeek: int)
    ensures forall i, j | 0 <= i < j < |PastWeeks(weeks, currentWeek)| ::
      PastWeeks(weeks, currentWeek)[i] < PastWeeks(weeks, currentWeek)[j]
    ensures weeks >= 0 ==> |PastWeeks(weeks, currentWeek)| <= weeks
    ensures forall k | 0 <= k < |PastWeeks(weeks, currentWeek)| ::
      1 <= PastWeeks(weeks, currentWeek)[k] < currentWeek
  {
    var lo := Max(1, currentWeek - weeks);
    var l := PastWeeks(weeks, currentWeek);
    assert forall k | 0 <= k < |l| :: l[k] == lo + k;
  }

  /** A past week is listed exactly when it is positive and at most `weeks` back. */
  lemma PastWeeksMembership(weeks: int, currentWeek: int, w: int)
    ensures w in PastWeeks(weeks, currentWeek) <==> 1 <= w && currentWeek - weeks <= w < currentWeek
  {
    var l := PastWeeks(weeks, currentWeek);
    var lo := Max(1, currentWeek - weeks);
    if 1 <= w && currentWeek - weeks <= w < currentWeek {
      assert l[w - lo] == w;
    }
  }

  // ---------------------------------------------------------------------------
  // Planning the run

  /** One week to regenerate: its first and last second, and the ISO week of its start
      (which names the data and draft files). */
  datatype WeekWindow = WeekWindow(target: int, start: Instant, end: Instant, year: int, week: int)

  /** The window main computes for targetWeek of currentYear. */
  function WindowFor(currentYear: int, targetWeek: int): (w: WeekWindow)
    ensures IsMondayMidnight(w.start)
    ensures w.end == w.start + WeekSeconds - 1
    ensures (w.year, w.week) == IsoWeekOf(w.start)
  {
    var weekStart := GetWeekStartForWeek(currentYear, targetWeek);
    var weekEnd := weekStart + WeekSeconds - 1;
    var (year, week) := IsoWeekOf(weekStart);
    WeekWindow(targetWeek, weekStart, weekEnd, year, week)
  }

  /** Every second of a window lies in the window's ISO week. */
  lemma WindowIsOneIsoWeek(currentYear: int, targetWeek: int, t: Instant)
    requires WindowFor(currentYear, targetWeek).start <= t <= WindowFor(currentYear, targetWeek).end
    ensures IsoWeekOf(t) == (WindowFor(currentYear, targetWeek).year, WindowFor(currentYear, targetWeek).week)
  {
    var w := WindowFor(currentYear, targetWeek);
    SameWeekSameIsoWeek(DayOf(w.start), DayOf(t) - DayOf(w.start));
  }

  /** The steps of main before any crawling: the weeks range check, the current ISO
      week, the week list and the window of each listed week. */
  method PlanWeeks(now: Instant, weeks: int, specificWeek: int) returns (r: Result<seq<WeekWindow>>)
    ensures r.Failure? <==> weeks < 1 || weeks > 10
    ensures r.Success? ==>
      var (currentYear, currentWeek) := IsoWeekOf(now);
      var targets := if specificWeek > 0 then [specificWeek] else PastWeeks(weeks, currentWeek);
      |r.value| == |targets| &&
      forall k | 0 <= k < |targets| :: r.value[k] == WindowFor(currentYear, targets[k])
  {
    if weeks < 1 || weeks > 10 {
      return Failure("Weeks must be between 1 and 10");
    }
    var (currentYear, currentWeek) := IsoWeekOf(now);
    var targets := WeeksToGenerate(weeks, specificWeek, currentWeek);
    var windows: seq<WeekWindow> := [];
    for k := 0 to |targets|
      invariant |windows| == k
      invariant forall j | 0 <= j < k :: windows[j] == WindowFor(currentYear, targets[j])
    {
      windows := windows + [WindowFor(currentYear, targets[k])];
    }
    return Success(windows);
  }

  /** Without a given week, every planned window is the listed week of the current
      ISO year, and the plan holds 1 to 10 weeks back, oldest first. */
  lemma PastWeekWindowsMatch(now: Instant, weeks: int, k: int)
    requires 1 <= weeks <= 10
    requires 0 <= k < |PastWeeks(weeks, IsoWeekOf(now).1)|
    ensures var (currentYear, currentWeek) := IsoWeekOf(now);
      var target := PastWeeks(weeks, currentWeek)[k];
      (WindowFor(currentYear, target).year, WindowFor(currentYear, target).week) == (currentYear, target)
  {
    var (currentYear, currentWeek) := IsoWeekOf(now);
    var target := PastWeeks(weeks, currentWeek)[k];
    PastWeeksShape(weeks, currentWeek);
    IsoWeekBound(DayOf(now));
    GetWeekStartForWeekRoundTrip(currentYear, target);
  }
}
