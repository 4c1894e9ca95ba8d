/** Proleptic Gregorian calendar arithmetic in one fixed zone, as Go's time
    package performs it for the dates and weekdays the pipeline asks about.
    Days are counted from 1970-01-01 (day 0, a Thursday); an instant is a
    count of seconds (Models.Instant). ISO weeks follow ISO 8601:2004,
    section 2.2.10 (a week starts on Monday) and section 4.1.4 (week 1 of a
    year is the week holding its first Thursday, equivalently 4 January). */
module Calendar {
  import opened Models

  // ---------------------------------------------------------------------------
  // Years

  predicate IsLeap(y: int)
  {
    y % 4 == 0 && (y % 100 != 0 || y % 400 == 0)
  }

  function DaysInYear(y: int): int
  {
    if IsLeap(y) then 366 else 365
  }

  /** Day number of 1 January of year y. */
  function Jan1(y: int): int
    decreases if y < 1970 then 1970 - y else y - 1970
  {
    if y == 1970 then 0
    else if y > 1970 then Jan1(y - 1) + DaysInYear(y - 1)
    else Jan1(y + 1) - DaysInYear(y)
  }

  lemma Jan1Step(y: int)
    ensures Jan1(y + 1) == Jan1(y) + DaysInYear(y)
  {
  }

  lemma {:induction false} Jan1Mono(a: int, b: int)
    requires a <= b
    ensures Jan1(a) <= Jan1(b)
    decreases b - a
  {
    if a < b {
      Jan1Step(a);
      Jan1Mono(a + 1, b);
    }
  }

  /** Leap years strictly before year y, counted from year 1 by the Gregorian rule. */
  function LeapsBefore(y: int): int
  {
    (y - 1) / 4 - (y - 1) / 100 + (y - 1) / 400
  }

  lemma {:induction false} MulAtLeast(d: int, k: int)
    requires d >= 1 && k > 0
    ensures d * k >= k
    decreases d
  {
    if d > 1 {
      MulAtLeast(d - 1, k);
      assert d * k == (d - 1) * k + k;
    }
  }

  lemma DivUnique(y: int, k: int, q: int, r: int)
    requires k > 0 && 0 <= r < k && y == q * k + r
    ensures y / k == q && y % k == r
  {
    var q', r' := y / k, y % k;
    assert q' * k + r' == q * k + r;
    assert (q' - q) * k == r - r';
    if q' > q {
      MulAtLeast(q' - q, k);
    } else if q' < q {
      assert (q - q') * k == r' - r;
      MulAtLeast(q - q', k);
    }
  }

  /** Going from y - 1 to y adds one to y / k exactly when k divides y. */
  lemma DivStep(y: int, k: int)
    requires k > 0
    ensures y / k - (y - 1) / k == (if y % k == 0 then 1 else 0)
  {
    var q, r := (y - 1) / k, (y - 1) % k;
    if r + 1 == k {
      DivUnique(y, k, q + 1, 0);
    } else {
      DivUnique(y, k, q, r + 1);
    }
  }

  lemma LeapStep(y: int)
    ensures LeapsBefore(y + 1) - LeapsBefore(y) == if IsLeap(y) then 1 else 0
  {
    DivStep(y, 4);
    DivStep(y, 100);
    DivStep(y, 400);
    if y % 400 == 0 {
      DivUnique(y, 100, 4 * (y / 400), 0);
    }
    if y % 100 == 0 {
      DivUnique(y, 4, 25 * (y / 100), 0);
    }
  }

  /** The recursive definition of Jan1 agrees with the usual closed form. */
  lemma {:induction false} Jan1ClosedForm(y: int)
    ensures Jan1(y) == 365 * (y - 1970) + LeapsBefore(y) - LeapsBefore(1970)
    decreases if y < 1970 then 1970 - y else y - 1970
  {
    if y > 1970 {
      Jan1ClosedForm(y - 1);
      LeapStep(y - 1);
    } else if y < 1970 {
      Jan1ClosedForm(y + 1);
      LeapStep(y);
    }
  }

  function YearFrom(n: int, y: int): (r: int)
    ensures Jan1(r) <= n < Jan1(r + 1)
    decreases if n < Jan1(y) then Jan1(y) - n + 400 else n - Jan1(y)
  {
    Jan1Step(y);
    Jan1Step(y - 1);
    if n < Jan1(y) then YearFrom(n, y - 1)
    else if n >= Jan1(y + 1) then YearFrom(n, y + 1)
    else y
  }

  /** The year holding day n. */
  function YearOf(n: int): (r: int)
    ensures Jan1(r) <= n < Jan1(r + 1)
  {
    YearFrom(n, 1970)
  }

  lemma YearOfUnique(n: int, y: int)
    requires Jan1(y) <= n < Jan1(y + 1)
    ensures YearOf(n) == y
  {
    var r := YearOf(n);
    if r < y { Jan1Mono(r + 1, y); }
    if y < r { Jan1Mono(y + 1, r); }
  }

  // ---------------------------------------------------------------------------
  // Civil dates

  datatype Date = Date(year: int, month: int, day: int)

  function MonthLength(y: int, m: int): int
  {
    if m == 2 then (if IsLeap(y) then 29 else 28)
    else if m == 4 || m == 6 || m == 9 || m == 11 then 30
    else 31
  }

  predicate ValidDate(dt: Date)
  {
    1 <= dt.month <= 12 && 1 <= dt.day <= MonthLength(dt.year, dt.month)
  }

  /** Days of year y before the first of month m (month 13 stands for the next year). */
  function DaysBeforeMonth(y: int, m: int): int
    requires 1 <= m <= 13
  {
    if m == 1 then 0 else DaysBeforeMonth(y, m - 1) + MonthLength(y, m - 1)
  }

  lemma DaysBeforeYearEnd(y: int)
    ensures DaysBeforeMonth(y, 13) == DaysInYear(y)
  {
    var feb := MonthLength(y, 2);
    assert DaysBeforeMonth(y, 2) == 31;
    assert DaysBeforeMonth(y, 3) == 31 + feb;
    assert DaysBeforeMonth(y, 4) == 62 + feb;
    assert DaysBeforeMonth(y, 5) == 92 + feb;
    assert DaysBeforeMonth(y, 6) == 123 + feb;
    assert DaysBeforeMonth(y, 7) == 153 + feb;
    assert DaysBeforeMonth(y, 8) == 184 + feb;
    assert DaysBeforeMonth(y, 9) == 215 + feb;
    assert DaysBeforeMonth(y, 10) == 245 + feb;
    assert DaysBeforeMonth(y, 11) == 276 + feb;
    assert DaysBeforeMonth(y, 12) == 306 + feb;
    assert DaysBeforeMonth(y, 13) == 337 + feb;
  }

  /** A day of December counted back from the next 1 January. */
  lemma December(y: int, d: int)
    requires 1 <= d <= 31
    ensures DaysFromCivil(Date(y, 12, d)) == Jan1(y + 1) - 32 + d
  {
    DaysBeforeYearEnd(y);
    Jan1Step(y);
  }

  lemma {:induction false} DaysBeforeMonthMono(y: int, a: int, b: int)
    requires 1 <= a <= b <= 13
    ensures DaysBeforeMonth(y, a) <= DaysBeforeMonth(y, b)
    decreases b - a
  {
    if a < b { DaysBeforeMonthMono(y, a, b - 1); }
  }

  /** time.Date(y, m, d, 0, 0, 0, 0, zone) as a day number. */
  function DaysFromCivil(dt: Date): int
    requires ValidDate(dt)
  {
    Jan1(dt.year) + DaysBeforeMonth(dt.year, dt.month) + dt.day - 1
  }

  /** The month holding day-of-year doy, searching from month m on. */
  function MonthFrom(y: int, doy: int, m: int): (r: int)
    requires 1 <= m <= 12
    requires DaysBeforeMonth(y, m) <= doy < DaysInYear(y)
    ensures m <= r <= 12
    ensures DaysBeforeMonth(y, r) <= doy < DaysBeforeMonth(y, r + 1)
    decreases 12 - m
  {
    DaysBeforeYearEnd(y);
    if doy < DaysBeforeMonth(y, m + 1) then m else MonthFrom(y, doy, m + 1)
  }

  /** The civil date of day n (Year, Month and Day of a time.Time). */
  function CivilFromDays(n: int): (dt: Date)
    ensures ValidDate(dt)
  {
    var y := YearOf(n);
    Jan1Step(y);
    var m := MonthFrom(y, n - Jan1(y), 1);
    Date(y, m, n - Jan1(y) - DaysBeforeMonth(y, m) + 1)
  }

  /** Converting a day to its date and back gives the day. */
  lemma CivilRoundTrip(n: int)
    ensures DaysFromCivil(CivilFromDays(n)) == n
  {
  }

  /** Day-of-year doy falls in month m exactly when m is the month MonthFrom finds. */
  lemma MonthUnique(y: int, doy: int, m: int)
    requires 1 <= m <= 12
    requires 0 <= doy < DaysInYear(y)
    requires DaysBeforeMonth(y, m) <= doy < DaysBeforeMonth(y, m + 1)
    ensures MonthFrom(y, doy, 1) == m
  {
    DaysBeforeYearEnd(y);
    DaysBeforeMonthMono(y, 1, m);
    DaysBeforeMonthMono(y, m + 1, 13);
    var r := MonthFrom(y, doy, 1);
    if r < m { DaysBeforeMonthMono(y, r + 1, m); }
    if m < r { DaysBeforeMonthMono(y, m + 1, r); }
  }

  /** Converting a valid date to its day number and back gives the date. */
  lemma DateRoundTrip(dt: Date)
    requires ValidDate(dt)
    ensures CivilFromDays(DaysFromCivil(dt)) == dt
  {
    var y, m := dt.year, dt.month;
    var doy := DaysBeforeMonth(y, m) + dt.day - 1;
    assert DaysBeforeMonth(y, m + 1) == DaysBeforeMonth(y, m) + MonthLength(y, m);
    DaysBeforeYearEnd(y);
    DaysBeforeMonthMono(y, 1, m);
    DaysBeforeMonthMono(y, m + 1, 13);
    Jan1Step(y);
    var n := Jan1(y) + doy;
    assert n == DaysFromCivil(dt);
    YearOfUnique(n, y);
    MonthUnique(y, doy, m);
  }

  // ---------------------------------------------------------------------------
  // Instants and weekdays

  /** The day an instant falls on. */
  function DayOf(t: Instant): int
  {
    t / SecondsPerDay
  }

  predicate IsMidnight(t: Instant)
  {
    t % SecondsPerDay == 0
  }

  /** time.Weekday: 0 is Sunday, 1 Monday, ..., 6 Saturday (day 0 was a Thursday). */
  function Weekday(n: int): (r: int)
    ensures 0 <= r < 7
  {
    (n + 4) % 7
  }

  /** Weekday numbered as ISO 8601 does: Monday 1 ... Sunday 7. */
  function IsoWeekday(n: int): (r: int)
    ensures 1 <= r <= 7
    ensures r % 7 == Weekday(n)
  {
    if Weekday(n) == 0 then 7 else Weekday(n)
  }

  lemma SameWeekday(a: int, b: int)
    requires Weekday(a) == Weekday(b)
    ensures (a - b) % 7 == 0
  {
  }

  lemma MondayOf(d: int)
    ensures IsoWeekday(d - (IsoWeekday(d) - 1)) == 1
  {
    var w := Weekday(d);
    assert (d + 4) % 7 == w;
    var m := d - (IsoWeekday(d) - 1);
    if w == 0 {
      assert m == d - 6;
      assert (m + 4) % 7 == 1;
    } else {
      assert m == d - w + 1;
    }
  }

  lemma MondayPlusWeeks(m: int, k: int)
    requires IsoWeekday(m) == 1
    ensures IsoWeekday(m + 7 * k) == 1
  {
  }

  predicate IsMondayMidnight(t: Instant)
  {
    IsMidnight(t) && IsoWeekday(DayOf(t)) == 1
  }

  // ---------------------------------------------------------------------------
  // ISO weeks

  /** The Thursday of the Monday-to-Sunday week holding day d. */
  function ThursdayOf(d: int): int
  {
    d - IsoWeekday(d) + 4
  }

  lemma ThursdayFacts(d: int)
    ensures d - 3 <= ThursdayOf(d) <= d + 3
    ensures Weekday(ThursdayOf(d)) == 4
  {
    var w := Weekday(d);
    if w == 0 {
      assert ThursdayOf(d) == d - 3;
    } else {
      assert ThursdayOf(d) == d - w + 4;
    }
  }

  /** time.ISOWeek of day d: the week belongs to the year of its Thursday, and is
      numbered by how many Thursdays of that year precede it. */
  function IsoWeek(d: int): (yw: (int, int))
    ensures yw.1 >= 1
  {
    var thu := ThursdayOf(d);
    var y := YearOf(thu);
    (y, (thu - Jan1(y)) / 7 + 1)
  }

  function IsoWeekOf(t: Instant): (int, int)
  {
    IsoWeek(DayOf(t))
  }

  /** Number of ISO weeks of year y: the week number of 28 December. */
  function WeeksInYear(y: int): int
  {
    IsoWeek(DaysFromCivil(Date(y, 12, 28))).1
  }

  lemma Dec28(y: int)
    ensures DaysFromCivil(Date(y, 12, 28)) == Jan1(y + 1) - 4
  {
    December(y, 28);
  }

  /** Every ISO week number lies between 1 and the week count of its ISO year. */
  lemma IsoWeekBound(d: int)
    ensures 1 <= IsoWeek(d).1 <= WeeksInYear(IsoWeek(d).0)
  {
    assert IsoWeek(d) == (YearOf(ThursdayOf(d)), (ThursdayOf(d) - Jan1(YearOf(ThursdayOf(d)))) / 7 + 1);
    ThursdayFacts(d);
    WeeksInYearFacts(YearOf(ThursdayOf(d)));
    WeekBoundArith(Jan1(YearOf(ThursdayOf(d))), Jan1(YearOf(ThursdayOf(d)) + 1), ThursdayOf(d),
      ThursdayOf(Jan1(YearOf(ThursdayOf(d)) + 1) - 4));
  }

  /** A Thursday of the year starting on J comes no later than its last Thursday thu28. */
  lemma WeekBoundArith(J: int, N: int, thu: int, thu28: int)
    requires J <= thu < N && Weekday(thu) == 4
    requires LastThursday(J, N, thu28)
    ensures 1 <= (thu - J) / 7 + 1 <= (thu28 - J) / 7 + 1
  {
    SameWeekday(thu28, thu);
  }

  /** Two days in the same Monday-to-Sunday week have the same ISO week. */
  lemma SameWeekSameIsoWeek(d: int, k: int)
    requires 0 <= k < 7
    requires IsoWeekday(d) == 1
    ensures IsoWeek(d + k) == IsoWeek(d)
  {
    var q := (d + 4) / 7;
    assert d + 4 == 7 * q + 1;
    if k == 6 {
      assert (d + k + 4) % 7 == 0;
    } else {
      assert (d + k + 4) % 7 == k + 1;
    }
    assert ThursdayOf(d + k) == d + 3;
  }

  // ---------------------------------------------------------------------------
  // Monday of ISO week 1

  /** The Monday of the week holding 4 January of year. */
  function Week1Monday(year: int): int
  {
    var jan4 := DaysFromCivil(Date(year, 1, 4));
    jan4 - (IsoWeekday(jan4) - 1)
  }

  /** w1 is a Monday at most three days from J. */
  predicate Week1Shape(J: int, w1: int)
  {
    J - 3 <= w1 <= J + 3 && IsoWeekday(w1) == 1
  }

  /** thu is a Thursday in the last week before N, and not before J. */
  predicate LastThursday(J: int, N: int, thu: int)
  {
    N - 7 <= thu < N && J <= thu && Weekday(thu) == 4
  }

  lemma Week1MondayFacts(year: int)
    ensures Week1Shape(Jan1(year), Week1Monday(year))
    ensures DaysFromCivil(Date(year - 1, 12, 29)) <= Week1Monday(year) <= DaysFromCivil(Date(year, 1, 4))
    ensures IsoWeekday(Week1Monday(year)) == 1
  {
    December(year - 1, 29);
    MondayOf(Jan1(year) + 3);
  }

  /** The week-counting arithmetic behind Week1MondayRoundTrip, on plain day numbers:
      J and N start the year and the next, w1 is its week-1 Monday and thu28 the
      Thursday of the week of 28 December. */
  lemma WeekArith(J: int, N: int, w1: int, week: int, thu28: int)
    requires Week1Shape(J, w1) && LastThursday(J, N, thu28)
    requires 1 <= week <= (thu28 - J) / 7 + 1
    ensures IsoWeekday(w1 + 7 * (week - 1)) == 1
    ensures J <= w1 + 7 * (week - 1) + 3 < N
    ensures (w1 + 7 * (week - 1) + 3 - J) / 7 + 1 == week
  {
    var t1 := w1 + 3;
    assert Weekday(t1) == 4;
    SameWeekday(thu28, t1);
    var j := (thu28 - t1) / 7;
    assert thu28 == t1 + 7 * j;
    assert (thu28 - J) / 7 == j;
    MondayPlusWeeks(w1, week - 1);
  }

  /** The week count of year y, computed from the last Thursday before the next 1 January. */
  lemma WeeksInYearFacts(y: int)
    ensures LastThursday(Jan1(y), Jan1(y + 1), ThursdayOf(Jan1(y + 1) - 4))
    ensures WeeksInYear(y) == (ThursdayOf(Jan1(y + 1) - 4) - Jan1(y)) / 7 + 1
  {
    Jan1Step(y);
    Dec28(y);
    ThursdayFacts(Jan1(y + 1) - 4);
    YearOfUnique(ThursdayOf(Jan1(y + 1) - 4), y);
  }

  /** Counting week - 1 weeks on from the Monday of week 1 lands in ISO week
      (year, week), for every week the year has. */
  lemma Week1MondayRoundTrip(year: int, week: int)
    requires 1 <= week <= WeeksInYear(year)
    ensures IsoWeek(Week1Monday(year) + 7 * (week - 1)) == (year, week)
  {
    WeekMondayFacts(year, week);
    WeekMondayIsoWeek(year, week);
  }

  /** The Monday week - 1 weeks after the Monday of week 1 is a Monday whose
      Thursday lies in year, in its week-th week. */
  lemma WeekMondayFacts(year: int, week: int)
    requires 1 <= week <= WeeksInYear(year)
    ensures IsoWeekday(Week1Monday(year) + 7 * (week - 1)) == 1
    ensures Jan1(year) <= Week1Monday(year) + 7 * (week - 1) + 3 < Jan1(year + 1)
    ensures (Week1Monday(year) + 7 * (week - 1) + 3 - Jan1(year)) / 7 + 1 == week
  {
    Week1MondayFacts(year);
    WeeksInYearFacts(year);
    WeekArith(Jan1(year), Jan1(year + 1), Week1Monday(year), week, ThursdayOf(Jan1(year + 1) - 4));
  }

  lemma WeekMondayIsoWeek(year: int, week: int)
    requires IsoWeekday(Week1Monday(year) + 7 * (week - 1)) == 1
    requires Jan1(year) <= Week1Monday(year) + 7 * (week - 1) + 3 < Jan1(year + 1)
    requires (Week1Monday(year) + 7 * (week - 1) + 3 - Jan1(year)) / 7 + 1 == week
    ensures IsoWeek(Week1Monday(year) + 7 * (week - 1)) == (year, week)
  {
    assert ThursdayOf(Week1Monday(year) + 7 * (week - 1)) == Week1Monday(year) + 7 * (week - 1) + 3;
    YearOfUnique(Week1Monday(year) + 7 * (week - 1) + 3, year);
  }

  /** Conversely, every Monday is week1Monday + 7 * (week - 1) for its own ISO (year, week). */
  lemma Week1MondayInverse(m: int)
    requires IsoWeekday(m) == 1
    ensures m == Week1Monday(IsoWeek(m).0) + 7 * (IsoWeek(m).1 - 1)
  {
    assert ThursdayOf(m) == m + 3;
    Week1MondayFacts(YearOf(m + 3));
    InverseArith(Jan1(YearOf(m + 3)), Week1Monday(YearOf(m + 3)), m);
  }

  /** A Monday m whose Thursday falls on or after J is whole weeks after the
      Monday w1 of the week of J + 3. */
  lemma InverseArith(J: int, w1: int, m: int)
    requires Week1Shape(J, w1)
    requires IsoWeekday(m) == 1 && J <= m + 3
    ensures m == w1 + 7 * ((m + 3 - J) / 7)
  {
    MondayThursday(m);
    MondayThursday(w1);
    SameWeekday(m + 3, w1 + 3);
    var j := (m - w1) / 7;
    assert m == w1 + 7 * j;
    assert j >= 0;
    assert (m + 3 - J) / 7 == j;
  }

  lemma MondayThursday(m: int)
    requires IsoWeekday(m) == 1
    ensures Weekday(m + 3) == 4
  {
  }

  /** The arithmetic behind NextYearWeek1, on plain day numbers: w1 and v1 are the
      week-1 Mondays of the years starting on J and N, thu28 the Thursday of the
      week of 28 December and weeks the resulting week count. */
  lemma NextYearArith(J: int, N: int, w1: int, v1: int, thu28: int, weeks: int)
    requires Week1Shape(J, w1) && Week1Shape(N, v1) && LastThursday(J, N, thu28)
    requires weeks == (thu28 - J) / 7 + 1
    ensures w1 + 7 * weeks == v1
  {
    MondayThursday(w1);
    MondayThursday(v1);
    SameWeekday(thu28, w1 + 3);
    SameWeekday(v1 + 3, thu28);
    var j := (thu28 - (w1 + 3)) / 7;
    assert thu28 == w1 + 3 + 7 * j;
    assert (thu28 - J) / 7 == j;
    var k := (v1 + 3 - thu28) / 7;
    assert v1 + 3 == thu28 + 7 * k;
    assert k == 1;
  }

  /** The Monday after the last week of year y is the Monday of week 1 of year y + 1. */
  lemma NextYearWeek1(y: int)
    ensures Week1Monday(y) + 7 * WeeksInYear(y) == Week1Monday(y + 1)
  {
    Week1MondayFacts(y);
    Week1MondayFacts(y + 1);
    WeeksInYearFacts(y);
    NextYearArith(Jan1(y), Jan1(y + 1), Week1Monday(y), Week1Monday(y + 1), ThursdayOf(Jan1(y + 1) - 4), WeeksInYear(y));
  }
}
