/**
  What giving up costs where it does cost something, and exactly when.

  An occurrence is missed exactly when 4000 or more unproductive periods
  separate it from the occurrence before it, or from the jump. A filter can
  leave such a gap, and so can the jump itself once a daily or weekly query is
  so far from the start that it saturates.
 */
module Starvation {
  import opened Calendar
  import opened Exactness
  import opened Options
  import opened Rules
  import opened Schedules

  /**
    The gap decides: u is reached exactly when fewer than 4000 unproductive
    periods lie before it since b, where b is the jump or follows the period of
    an occurrence that is itself reached.
   */
  lemma GapDecides(s: Schedule, from: int, b: int, k: int, u: int, previous: int)
    requires ValidSchedule(s) && Sound(s) && s.rule.Some?
    requires Jump(s, from) <= b <= k && HeldBy(s, from, k, u)
    requires forall j :: b <= j < k ==> Unproductive(s, from, j)
    requires b == Jump(s, from) || (HeldBy(s, from, b - 1, previous) && Reached(s, from, previous))
    ensures Reached(s, from, u) <==> k - b < MAX_EMPTY_PERIODS
  {
    hide HeldBy, Sound, ValidSchedule, Jump, Occurs, GivesUp;
    ZoneIsSet(s);
    HeldBySomePeriod(s, from, u);
    JumpIsNotNegative(s, from);
    if k - b >= MAX_EMPTY_PERIODS { GivesUpAfterGap(s, from, b); }
    if Starved(s, from, u) && k - b < MAX_EMPTY_PERIODS {
      var h, i :| GivesUp(s, from, h) && h <= i && HeldBy(s, from, i, u);
      SamePeriod(s, from, i, k, u);
      NoGiveUpInside(s, from, b, k, h, previous);
    }
  }

  lemma JumpIsNotNegative(s: Schedule, from: int)
    requires ValidSchedule(s) && s.rule.Some?
    ensures 0 <= Jump(s, from)
  {
    hide Jump;
  }

  lemma SamePeriod(s: Schedule, from: int, i: int, k: int, u: int)
    requires ValidSchedule(s) && Sound(s) && s.rule.Some?
    requires HeldBy(s, from, i, u) && HeldBy(s, from, k, u)
    ensures i == k
  {
    hide HeldBy, Sound, ValidSchedule;
    if i < k { HeldInOrder(s, from, i, u, k, u); }
    if k < i { HeldInOrder(s, from, k, u, i, u); }
  }

  lemma GivesUpAfterGap(s: Schedule, from: int, b: int)
    requires ValidSchedule(s) && s.rule.Some?
    requires Jump(s, from) <= b
    requires forall j :: b <= j < b + MAX_EMPTY_PERIODS ==> Unproductive(s, from, j)
    ensures GivesUp(s, from, b + MAX_EMPTY_PERIODS)
  {
    hide Unproductive, ValidSchedule, Jump;
  }

  /** Where the first 4000 periods of the walk hold nothing, it reaches nothing. */
  lemma NothingAfterGap(s: Schedule, from: int)
    requires ValidSchedule(s) && Sound(s) && s.rule.Some?
    requires forall j :: Jump(s, from) <= j < Jump(s, from) + MAX_EMPTY_PERIODS ==> Unproductive(s, from, j)
    ensures forall t :: !Reached(s, from, t)
  {
    hide HeldBy, Sound, ValidSchedule, Jump, Occurs, GivesUp;
    ZoneIsSet(s);
    var b := Jump(s, from);
    GivesUpAfterGap(s, from, b);
    forall t ensures !Reached(s, from, t) {
      HeldBySomePeriod(s, from, t);
      if k: nat :| HeldBy(s, from, k, t) {
        assert !Unproductive(s, from, k);
        if k < b { JumpLosesNothing(s, from, k); }
        assert Starved(s, from, t);
      }
    }
  }

  lemma NoGiveUpInside(s: Schedule, from: int, b: int, k: int, h: int, previous: int)
    requires ValidSchedule(s) && s.rule.Some?
    requires k - b < MAX_EMPTY_PERIODS && h <= k
    requires b == Jump(s, from) || (HeldBy(s, from, b - 1, previous) && Reached(s, from, previous))
    ensures !GivesUp(s, from, h)
  {
    hide HeldBy, ValidSchedule, Jump, Occurs;
    ZoneIsSet(s);
    if GivesUp(s, from, h) {
      if b != Jump(s, from) && b - 1 < h {
        GivenUpIsUnproductive(s, from, h, b - 1);
      }
    }
  }

  /** An occurrence that is missed takes every later one with it. */
  lemma MissedForGood(s: Schedule, from: int, t: int, u: int)
    requires ValidSchedule(s) && Sound(s) && s.rule.Some?
    requires Starved(s, from, t) && t < u && Occurs(s, u)
    ensures Starved(s, from, u)
  {
    hide Sound, ValidSchedule, GivesUp, Occurs;
    ZoneIsSet(s);
    var h, k :| GivesUp(s, from, h) && h <= k && HeldBy(s, from, k, t);
    assert from <= t;
    hide HeldBy;
    HeldBySomePeriod(s, from, u);
    var i: nat :| HeldBy(s, from, i, u);
    if i < k { HeldInOrder(s, from, i, u, k, t); }
  }

  // --------------------------------------------- a filter that leaves a gap

  /** The first of March 2000, and the next leap-day Monday after it. */
  const LEAP_MONDAYS_FROM := 730179
  const LEAP_MONDAY := 736022

  /** FREQ=DAILY;BYDAY=MO;BYMONTHDAY=29;BYMONTH=2, from midnight UTC on 1 March 2000. */
  function LeapMondays(): Schedule {
    Schedule(LEAP_MONDAYS_FROM * DAY, 0, Some(Zone(t => 0, w => 0)),
             Some(Rule(Daily, 1, [NthDay(1, 0)], [29], [2])), [], 0)
  }

  lemma LeapMondayDates()
    ensures DayNumber(Civil(2000, 3, 1)) == LEAP_MONDAYS_FROM
    ensures DayNumber(Civil(2016, 2, 29)) == LEAP_MONDAY && WeekdayOf(LEAP_MONDAY) == 1
    ensures ValidDate(Civil(2000, 3, 1)) && ValidDate(Civil(2016, 2, 29))
  {
    hide DaysBeforeYear, DayNumber;
    TurnsOfYears();
    DayNumberPlain(Civil(2000, 3, 1));
    DayNumberPlain(Civil(2016, 2, 29));
  }

  lemma LeapMondaysClock(n: int)
    ensures At(LeapMondays(), n) == n * DAY
    ensures LocalDay(LeapMondays().zone.value, LeapMondays().start) == LEAP_MONDAYS_FROM
    ensures ValidSchedule(LeapMondays()) && Sound(LeapMondays())
  {
    assert OffsetsWithin(LeapMondays().zone.value, 0);
    QuotientUnique(LEAP_MONDAYS_FROM * DAY, DAY, LEAP_MONDAYS_FROM, 0);
  }

  /** No leap day in the 4000 days after 1 March 2000 is a Monday. */
  lemma NoLeapMonday(c: Civil)
    requires ValidDate(c) && c.m == 2 && c.d == 29
    requires LEAP_MONDAYS_FROM <= DayNumber(c) < LEAP_MONDAYS_FROM + MAX_EMPTY_PERIODS
    ensures WeekdayOf(DayNumber(c)) != 1
  {
    hide DaysBeforeYear;
    DayNumberPlain(c);
    TurnsOfYears();
    if c.y <= 2000 { YearsMonotone(c.y, 2000); }
    if c.y >= 2012 { YearsMonotone(2012, c.y); }
  }

  lemma TurnsOfYears()
    ensures DaysBeforeYear(2000) == LEAP_MONDAYS_FROM - 60
    ensures DaysBeforeYear(2004) == LEAP_MONDAYS_FROM + 1401 && DaysBeforeYear(2008) == LEAP_MONDAYS_FROM + 2862
    ensures DaysBeforeYear(2012) == LEAP_MONDAYS_FROM + 4323 && DaysBeforeYear(2016) == LEAP_MONDAY - 59
  {
  }

  lemma LeapMondaysGap(k: int)
    requires 0 <= k < MAX_EMPTY_PERIODS
    ensures Unproductive(LeapMondays(), LeapMondays().start, k)
  {
    hide CivilOf, DayNumber, LocalDay, At, InRange, DaySelected;
    var s := LeapMondays();
    LeapMondaysClock(0);
    CivilOfIsValid(LEAP_MONDAYS_FROM);
    forall n ensures !InPeriod(s.rule.value, First(s), k, n) {
      if InPeriod(s.rule.value, First(s), k, n) {
        CivilOfIsValid(n);
        LeapMondaySelected(s.rule.value, CivilOf(n));
        NoLeapMonday(CivilOf(n));
      }
    }
  }

  lemma LeapMondaySelected(r: Rule, c: Civil)
    requires r == LeapMondays().rule.value && 1 <= c.m <= 12
    ensures DailySelected(r, c) <==> c.m == 2 && c.d == 29 && c.d <= MonthLength(c.y, 2) && WeekdayOf(DayNumber(c)) == 1
  {
    hide DayNumber, WeekdayOf, MonthLength;
    assert r.byDay[0] in r.byDay && r.byMonthDay[0] in r.byMonthDay && r.byMonth[0] in r.byMonth;
  }

  /** The schedule occurs on 29 February 2016, and a walk from its own start never gets there. */
  lemma LeapMondaysMissed()
    ensures ValidSchedule(LeapMondays()) && Sound(LeapMondays())
    ensures Occurs(LeapMondays(), LEAP_MONDAY * DAY) && Starved(LeapMondays(), LeapMondays().start, LEAP_MONDAY * DAY)
  {
    hide CivilOf, DayNumber, DaySelected, LocalDay, At, DailySelected;
    var s := LeapMondays();
    LeapMondaysClock(LEAP_MONDAY);
    LeapMondayDates();
    CivilRoundTrip(Civil(2000, 3, 1));
    CivilRoundTrip(Civil(2016, 2, 29));
    LeapMondaySelected(s.rule.value, Civil(2016, 2, 29));
    var k := LEAP_MONDAY - LEAP_MONDAYS_FROM;
    assert InPeriod(s.rule.value, First(s), k, LEAP_MONDAY);
    hide InPeriod;
    assert HeldBy(s, s.start, k, LEAP_MONDAY * DAY);
    HeldBySomePeriod(s, s.start, LEAP_MONDAY * DAY);
    forall j | 0 <= j < MAX_EMPTY_PERIODS ensures Unproductive(s, s.start, j) { LeapMondaysGap(j); }
    hide HeldBy;
    GivesUpAfterGap(s, s.start, 0);
  }

  // ------------------------------------------------ a jump that saturates

  ghost predicate HasDate(s: Schedule, k: int)
    requires s.zone.Some? && s.rule.Some?
  {
    exists n :: InPeriod(s.rule.value, First(s), k, n)
  }

  /** The rule leaves no period empty. */
  ghost predicate EveryPeriod(s: Schedule)
    requires s.zone.Some? && s.rule.Some?
  {
    forall k: nat :: HasDate(s, k)
  }

  /** The last of the 4000 periods that a walk looks at before it can give up. */
  function LastTried(s: Schedule, from: int): nat
    requires ValidSchedule(s) && s.rule.Some?
  {
    Jump(s, from) + MAX_EMPTY_PERIODS - 1
  }

  ghost predicate PeriodIsPast(s: Schedule, k: int, from: int)
    requires s.zone.Some? && s.rule.Some?
  {
    forall n :: InPeriod(s.rule.value, First(s), k, n) ==> At(s, n) < from
  }

  /**
    Even a rule with a date in every period misses every occurrence from a query
    instant on exactly when its 4000th period from the jump is still before that
    instant.
   */
  lemma NoGapMissed(s: Schedule, from: int, t: int)
    requires ValidSchedule(s) && Sound(s) && s.rule.Some? && EveryPeriod(s)
    requires Occurs(s, t) && from <= t
    ensures Starved(s, from, t) <==> PeriodIsPast(s, LastTried(s, from), from)
  {
    hide HeldBy, Sound, ValidSchedule, Jump, Occurs, Barren, PeriodIsPast, EveryPeriod;
    ZoneIsSet(s);
    if PeriodIsPast(s, LastTried(s, from), from) {
      forall j | Jump(s, from) <= j <= LastTried(s, from) ensures Unproductive(s, from, j) {
        EarlierIsPast(s, from, j, LastTried(s, from));
      }
      NothingAfterGap(s, from);
      assert !Reached(s, from, t);
    } else if Starved(s, from, t) {
      var h, i :| GivesUp(s, from, h) && h <= i && HeldBy(s, from, i, t);
      LaterIsProductive(s, from, h - 1, i, t);
      GivenUpIsUnproductive(s, from, h, h - 1);
    }
  }

  lemma EarlierIsPast(s: Schedule, from: int, j: nat, last: nat)
    requires ValidSchedule(s) && Sound(s) && s.rule.Some? && EveryPeriod(s)
    requires j <= last && PeriodIsPast(s, last, from)
    ensures Unproductive(s, from, j)
  {
    hide InPeriod, At, First, WeekdaysKnown, ValidRule, NarrowZone;
    assert HasDate(s, last);
    var p :| InPeriod(s.rule.value, First(s), last, p);
    forall n | InPeriod(s.rule.value, First(s), j, n) ensures At(s, n) < from {
      if j < last {
        PeriodsInOrder(s.rule.value, First(s), j, last, n, p);
        AtAscends(s, n, p);
      }
    }
  }

  lemma LaterIsProductive(s: Schedule, from: int, j: nat, i: int, t: int)
    requires ValidSchedule(s) && Sound(s) && s.rule.Some? && EveryPeriod(s)
    requires LastTried(s, from) <= j < i && HeldBy(s, from, i, t)
    requires !PeriodIsPast(s, LastTried(s, from), from)
    ensures !Unproductive(s, from, j)
  {
    hide InPeriod, At, First, WeekdaysKnown, ValidRule, NarrowZone, Jump;
    var r, last := s.rule.value, LastTried(s, from);
    var e :| InPeriod(r, First(s), last, e) && from <= At(s, e);
    var n :| InPeriod(r, First(s), i, n) && At(s, n) == t;
    assert HasDate(s, j);
    var p :| InPeriod(r, First(s), j, p) && (j == last ==> p == e);
    if last < j {
      PeriodsInOrder(r, First(s), last, j, e, p);
      AtAscends(s, e, p);
    }
    PeriodsInOrder(r, First(s), j, i, p, n);
    AtAscends(s, p, n);
    FarFromStart(s, j, p);
    assert HeldBy(s, from, j, At(s, p));
  }

  lemma FarFromStart(s: Schedule, j: nat, p: int)
    requires ValidSchedule(s) && Sound(s) && s.rule.Some?
    requires 2 <= j && InPeriod(s.rule.value, First(s), j, p)
    ensures s.start < At(s, p)
  {
    hide InPeriod, At, LocalDay, CivilOf, DayNumber, Index, Sound;
    CivilOfIsValid(LocalDay(s.zone.value, s.start));
    ManyIntervals(s.rule.value.interval, j, 2);
    BeyondIsAfter(s, j, p, s.start);
  }

  // -- by the day

  predicate PlainDaily(s: Schedule) {
    s.rule.Some? && s.rule.value == Rule(Daily, s.rule.value.interval, [], [], [])
  }

  lemma PlainDailyDates(s: Schedule, k: int, n: int)
    requires ValidSchedule(s) && PlainDaily(s)
    ensures InPeriod(s.rule.value, First(s), k, n) <==> n == LocalDay(s.zone.value, s.start) + k * s.rule.value.interval
  {
    hide CivilOf, DayNumber, LocalDay;
    CivilOfIsValid(LocalDay(s.zone.value, s.start));
  }

  /** With no filter at all a daily rule misses what follows a query exactly when the last day it tries is before it. */
  lemma PlainDailyMissed(s: Schedule, from: int, t: int)
    requires ValidSchedule(s) && Sound(s) && PlainDaily(s)
    requires Occurs(s, t) && from <= t
    ensures Starved(s, from, t) <==>
      At(s, LocalDay(s.zone.value, s.start) + LastTried(s, from) * s.rule.value.interval) < from
  {
    hide InPeriod, Sound, Occurs, Starved, At, LocalDay, LastTried;
    forall k, n ensures InPeriod(s.rule.value, First(s), k, n)
      <==> n == LocalDay(s.zone.value, s.start) + k * s.rule.value.interval
    {
      PlainDailyDates(s, k, n);
    }
    forall k: nat ensures HasDate(s, k) {
      PlainDailyDates(s, k, LocalDay(s.zone.value, s.start) + k * s.rule.value.interval);
    }
    NoGapMissed(s, from, t);
  }

  // -- by the week

  predicate PlainWeekly(s: Schedule) {
    s.rule.Some? && s.rule.value.freq == Weekly && s.rule.value.byMonth == []
  }

  /** Every day that the rule names in the k-th week comes before an instant. */
  predicate WeekIsPast(s: Schedule, k: int, from: int)
    requires s.zone.Some? && s.rule.Some?
  {
    var local, r := LocalDay(s.zone.value, s.start), s.rule.value;
    var week := local / 7 + k * r.interval;
    if r.byDay == [] then At(s, 7 * week + MondayOffset(WeekdayOf(local))) < from
    else forall w <- r.byDay :: At(s, 7 * week + MondayOffset(w.day)) < from
  }

  /** A weekly rule without months misses what follows a query exactly when the last week it tries is before it. */
  lemma PlainWeeklyMissed(s: Schedule, from: int, t: int)
    requires ValidSchedule(s) && Sound(s) && PlainWeekly(s)
    requires Occurs(s, t) && from <= t
    ensures Starved(s, from, t) <==> WeekIsPast(s, LastTried(s, from), from)
  {
    hide InPeriod, Sound, Occurs, Starved, At, LocalDay, LastTried, WeekIsPast, PeriodIsPast;
    forall k: nat ensures HasDate(s, k) { var n := PlainWeeklyHasDate(s, k); }

    NoGapMissed(s, from, t);
    PlainWeekIsPast(s, LastTried(s, from), from);
  }

  lemma PlainWeeklyDates(s: Schedule, k: int, n: int)
    requires ValidSchedule(s) && Sound(s) && PlainWeekly(s)
    ensures var local, r := LocalDay(s.zone.value, s.start), s.rule.value;
      var week := local / 7 + k * r.interval;
      InPeriod(r, First(s), k, n) <==>
        if r.byDay == [] then n == 7 * week + MondayOffset(WeekdayOf(local))
        else exists w :: w in r.byDay && n == 7 * week + MondayOffset(w.day)
  {
    hide CivilOf, DayNumber, LocalDay, MondayOffset, WeekdayOf, NarrowZone, WeekdaysKnown, ValidRule;
    var local, r := LocalDay(s.zone.value, s.start), s.rule.value;
    CivilOfIsValid(local);
    if r.byDay == [] {
      InWeek(local / 7 + k * r.interval, WeekdayOf(local), n);
    } else {
      ExpandedIsMeant(r, First(s), k, n);
    }
  }

  lemma PlainWeeklyHasDate(s: Schedule, k: int) returns (n: int)
    requires ValidSchedule(s) && Sound(s) && PlainWeekly(s)
    ensures InPeriod(s.rule.value, First(s), k, n)
  {
    hide InPeriod, LocalDay, MondayOffset, WeekdayOf, Sound, ValidSchedule;
    ZoneIsSet(s);
    var local, r := LocalDay(s.zone.value, s.start), s.rule.value;
    var week := local / 7 + k * r.interval;
    n := 7 * week + MondayOffset(if r.byDay == [] then WeekdayOf(local) else r.byDay[0].day);
    if r.byDay != [] { assert r.byDay[0] in r.byDay; }
    PlainWeeklyDates(s, k, n);
  }

  lemma PlainWeekIsPast(s: Schedule, k: int, from: int)
    requires ValidSchedule(s) && Sound(s) && PlainWeekly(s)
    ensures WeekIsPast(s, k, from) <==> PeriodIsPast(s, k, from)
  {
    hide InPeriod, LocalDay, MondayOffset, WeekdayOf, Sound, ValidSchedule, At, First;
    ZoneIsSet(s);
    var local, r := LocalDay(s.zone.value, s.start), s.rule.value;
    var week := local / 7 + k * r.interval;
    PlainWeeklyDates(s, k, 7 * week + MondayOffset(WeekdayOf(local)));
    forall w | w in r.byDay ensures InPeriod(r, First(s), k, 7 * week + MondayOffset(w.day)) {
      PlainWeeklyDates(s, k, 7 * week + MondayOffset(w.day));
    }
    forall n | InPeriod(r, First(s), k, n) && WeekIsPast(s, k, from) ensures At(s, n) < from {
      PlainWeeklyDates(s, k, n);
    }
  }

  // -- by either

  function DaysInUnit(freq: Frequency): int {
    if freq == Weekly then 7 else 1
  }

  /** However far the query is, the jump stops one interval short of the longest span. */
  lemma JumpSaturates(s: Schedule, from: int)
    requires ValidSchedule(s) && s.rule.Some? && (s.rule.value.freq == Daily || s.rule.value.freq == Weekly)
    ensures var r := s.rule.value;
      Jump(s, from) == 0 || DaysInUnit(r.freq) * (Jump(s, from) * r.interval + r.interval) <= LONGEST_SPAN
  {
    hide CivilOf, LocalDay, DayNumber, WeekdayOf, MondayOffset;
    var r := s.rule.value;
    if from > s.start {
      var at := CivilOf(LocalDay(s.zone.value, from));
      var a, b := DayNumber(First(s)), DayNumber(at);
      var n := if r.freq == Daily then SpanDays(b - a)
        else TruncDiv(SpanDays((b - MondayOffset(WeekdayOf(b))) - (a - MondayOffset(WeekdayOf(a)))), 7);
      assert DaysInUnit(r.freq) * n <= LONGEST_SPAN;
      if n >= 0 {
        QuotientBounds(n, r.interval);
        assert (n / r.interval - 1) * r.interval + r.interval == n / r.interval * r.interval;
      }
    }
  }

  /** Every day of the periods tried falls short of a query that is far enough. */
  lemma TriedFallShort(s: Schedule, from: int, j: int, n: int)
    requires ValidSchedule(s) && s.rule.Some? && (s.rule.value.freq == Daily || s.rule.value.freq == Weekly)
    requires Jump(s, from) <= j <= LastTried(s, from) && InPeriod(s.rule.value, First(s), j, n)
    ensures n + 2 <= LocalDay(s.zone.value, s.start)
      + LONGEST_SPAN + MAX_EMPTY_PERIODS * DaysInUnit(s.rule.value.freq) * s.rule.value.interval
  {
    hide CivilOf, LocalDay, DayNumber, Selected, Jump;
    var i, last := s.rule.value.interval, LastTried(s, from);
    JumpSaturates(s, from);
    CivilOfIsValid(LocalDay(s.zone.value, s.start));
    ManyIntervals(i, last, j);
    assert last * i == Jump(s, from) * i + (MAX_EMPTY_PERIODS - 1) * i;
  }

  /**
    Far enough from the start (303 years for every day or every week) a daily or
    weekly rule answers nothing, whatever its filters, though it never ends.
   */
  lemma FarAwayIsMissed(s: Schedule, from: int, t: int)
    requires ValidSchedule(s) && Sound(s) && s.rule.Some?
    requires s.rule.value.freq == Daily || s.rule.value.freq == Weekly
    requires LocalDay(s.zone.value, from) - LocalDay(s.zone.value, s.start)
      >= LONGEST_SPAN + MAX_EMPTY_PERIODS * DaysInUnit(s.rule.value.freq) * s.rule.value.interval
    ensures !Reached(s, from, t)
  {
    hide Reached, At, LocalDay, NarrowZone, InPeriod, Jump, InRange, WeekdaysKnown, ValidRule, First;
    forall j | Jump(s, from) <= j < Jump(s, from) + MAX_EMPTY_PERIODS ensures Unproductive(s, from, j) {
      forall n | InPeriod(s.rule.value, First(s), j, n) ensures At(s, n) < from {
        TriedFallShort(s, from, j, n);
        TwoDaysOff(s, n, from);
      }
    }
    NothingAfterGap(s, from);
  }
}
