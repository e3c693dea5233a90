/**
  Which daily rules can be starved. One that names weekdays alone comes back
  every week. One that keeps to months is exact up to an interval of 486 days, or
  81 when it names weekdays too; at 487, three periods are four years all but a
  few places, and such a rule for February is starved. Days of the month starve a
  rule at every interval, as the leap-day Mondays do at 1.
 */
module DailyExactness {
  import opened Calendar
  import opened Exactness
  import opened MonthCircle
  import opened Options
  import opened Rules
  import opened Schedules
  import opened Starvation

  // ----------------------------------------------------- rules that recur

  /** A daily rule without days of the month selects by month and by weekday. */
  lemma DailyMeaning(r: Rule, first: Civil, n: int)
    requires ValidRule(r) && r.freq == Daily && r.byMonthDay == []
    ensures Selected(r, first, n) <==>
      MonthAllowed(r, CivilOf(n).m) && (r.byDay == [] || exists w :: w in r.byDay && w.day == WeekdayOf(n))
  {
    hide CivilOf, DayNumber, WeekdayOf, MonthLength, MonthAllowed;
    CivilOfIsValid(n);
    var c := CivilOf(n);
    ValidDateBounds(c);
    forall w | w in r.byDay ensures OnNthDay(w, c.y, c.m, c.d) <==> w.day == WeekdayOf(n) {
      assert ValidNthDay(r.freq, w);
    }
  }

  lemma DaysBack(r: Rule, first: Civil, k: int, n: int, t: int)
    requires ValidRule(r) && r.freq == Daily && r.byMonthDay == [] && InPeriod(r, first, k, n)
    requires r.byMonth == [] || CivilOf(n - r.interval * t).m == CivilOf(n).m
    requires r.byDay == [] || t % 7 == 0
    ensures InPeriod(r, first, k - t, n - r.interval * t)
  {
    hide CivilOf, DayNumber, WeekdayOf, ValidNthDay, Selected;
    DailyMeaning(r, first, n);
    DailyMeaning(r, first, n - r.interval * t);
    if r.byDay != [] {
      var weeks := -(r.interval * (t / 7));
      assert n - r.interval * t == n + 7 * weeks by { assert t == 7 * (t / 7); }
      WeekdayShift(n, weeks);
    }
    assert (k - t) * r.interval == k * r.interval - r.interval * t;
  }

  lemma WeekdaysRecur(r: Rule, first: Civil)
    requires ValidRule(r) && r.freq == Daily && r.byMonthDay == [] && r.byMonth == []
    ensures Recurs(r, first, 7)
  {
    hide InPeriod, CivilOf, ValidRule;
    forall h, k, n | h <= k && InPeriod(r, first, k, n) ensures HasDateBefore(r, first, h, 7) {
      StepsBack(7, h, k);
      DaysBack(r, first, k, n, 7 * ((k - h) / 7 + 1));
    }
  }

  lemma MonthsRecur(r: Rule, first: Civil)
    requires ValidRule(r) && r.freq == Daily && r.byMonthDay == [] && r.byDay == []
    requires Spread(400 * r.interval, 3960)
    ensures Recurs(r, first, 3988)
  {
    hide InPeriod, CivilOf, ValidRule, Spread;
    forall h, k, n | h <= k && InPeriod(r, first, k, n) ensures HasDateBefore(r, first, h, 3988) {
      CivilOfIsValid(n);
      ValidDateBounds(CivilOf(n));
      var back := k - h + 1;
      var t := MonthComesBack(r.interval, 3960, n - r.interval * back, CivilOf(n).m);
      assert n - r.interval * back - r.interval * t == n - r.interval * (back + t);
      DaysBack(r, first, k, n, back + t);
    }
  }

  lemma BothRecur(r: Rule, first: Civil)
    requires ValidRule(r) && r.freq == Daily && r.byMonthDay == []
    requires Spread(2800 * r.interval, 540)
    ensures Recurs(r, first, 3976)
  {
    hide InPeriod, CivilOf, ValidRule, Spread;
    forall h, k, n | h <= k && InPeriod(r, first, k, n) ensures HasDateBefore(r, first, h, 3976) {
      CivilOfIsValid(n);
      ValidDateBounds(CivilOf(n));
      var weeks := (k - h) / 7 + 1;
      StepsBack(7, h, k);
      var t := MonthComesBack(7 * r.interval, 540, n - 7 * r.interval * weeks, CivilOf(n).m);
      assert n - 7 * r.interval * weeks - 7 * r.interval * t == n - r.interval * (7 * (weeks + t));
      DaysBack(r, first, k, n, 7 * (weeks + t));
    }
  }

  // ------------------------------------------------------ small intervals

  /** A turn is 365 days and 97 places: what is left of so few turns comes near whole days only after 4 and 8. */
  lemma NearYears(n: int, w: int, k: int)
    requires 1 <= n <= 6804 && 400 * n == DAYS_IN_CYCLE * w + k && -34 <= k <= 34
    ensures n == 1461 || n == 2922
  {
    var v := n - 365 * w;
    assert 400 * v == 97 * w + k && 0 <= v <= 4;
    assert v == 0 || v == 1 || v == 2 || v == 3 || v == 4;
  }

  lemma DayProducts(i: int, q: int)
    requires 1 <= i <= 486 && 1 <= q <= 14
    ensures 1 <= i * q <= 6804 && i * q != 1461 && i * q != 2922
  {
  }

  lemma SmallDaysClear(i: int, q: int)
    requires 1 <= i <= 486 && 1 <= q <= 14
    ensures Clear(400 * i, q, 3960)
  {
    DayProducts(i, q);
    var n := i * q;
    assert 400 * i * q == 400 * n;
    var w, d := 400 * n / DAYS_IN_CYCLE, 400 * n % DAYS_IN_CYCLE;
    if d <= 34 { NearYears(n, w, d); }
    if d >= DAYS_IN_CYCLE - 34 { NearYears(n, w + 1, d - DAYS_IN_CYCLE); }
  }

  lemma NearWeeks(n: int, w: int, k: int)
    requires 1 <= n <= 1134 && 400 * n == 20871 * w + k && -35 <= k <= 35
    ensures (n == 313 && k == -26) || (n == 574 && k == 19) || (n == 887 && k == -7)
  {
    var v := n - 52 * w;
    assert 400 * v == 71 * w + k && 0 <= v <= 3;
    assert v == 0 || v == 1 || v == 2 || v == 3;
  }

  lemma WeekProducts(i: int, q: int)
    requires 1 <= i <= 81 && 1 <= q <= 14
    ensures 1 <= i * q <= 1134 && i * q != 313 && i * q != 887
    ensures i * q == 574 ==> q == 14
  {
  }

  lemma SmallWeeksClear(i: int, q: int)
    requires 1 <= i <= 81 && 1 <= q <= 14
    ensures Clear(2800 * i, q, 540)
  {
    WeekProducts(i, q);
    var n := i * q;
    assert 2800 * i * q == 2800 * n;
    var w, d := 2800 * n / DAYS_IN_CYCLE, 2800 * n % DAYS_IN_CYCLE;
    var k := 400 * n - 20871 * w;
    assert d == 7 * k;
    if k <= 35 { NearWeeks(n, w, k); }
    if k >= 20836 { NearWeeks(n, w + 1, k - 20871); }
  }

  lemma SmallIntervalsSpread(i: int)
    requires 1 <= i
    ensures i <= 486 ==> Spread(400 * i, 3960)
    ensures i <= 81 ==> Spread(2800 * i, 540)
  {
    hide Clear;
    forall q | 1 <= q <= 14
      ensures i <= 486 ==> Clear(400 * i, q, 3960)
      ensures i <= 81 ==> Clear(2800 * i, q, 540)
    {
      if i <= 486 { SmallDaysClear(i, q); }
      if i <= 81 { SmallWeeksClear(i, q); }
    }
  }

  /**
    Within the longest span a daily rule without days of the month is exact when
    it keeps to no months, when it names no weekdays and its interval is at most
    486 days, and otherwise up to 81 days.
   */
  lemma DailyIsExact(s: Schedule, from: int)
    requires ValidSchedule(s) && Sound(s) && s.rule.Some? && s.rule.value.freq == Daily
    requires s.rule.value.byMonthDay == [] && WithinSpan(s, from)
    requires var r := s.rule.value;
      || r.byMonth == [] || r.interval <= 81 || Spread(2800 * r.interval, 540)
      || (r.byDay == [] && (r.interval <= 486 || Spread(400 * r.interval, 3960)))
    ensures forall t :: Reached(s, from, t) <==> Occurs(s, t) && from <= t
  {
    hide Reached, Occurs, Recurs, Spread, WeekdaysKnown, NarrowZone, WithinSpan;
    var r := s.rule.value;
    IntervalIsPositive(r);
    SmallIntervalsSpread(r.interval);
    if r.byMonth == [] {
      WeekdaysRecur(r, First(s));
      RecurringIsExact(s, from, 7);
    } else if Spread(2800 * r.interval, 540) {
      BothRecur(r, First(s));
      RecurringIsExact(s, from, 3976);
    } else {
      MonthsRecur(r, First(s));
      RecurringIsExact(s, from, 3988);
    }
  }

  // ------------------------------------------------- the first that does not

  /** 2 March 2001, and 1 February 14204, 9152 times 487 days later. */
  const FEBRUARIES_FROM := 730545
  const LATE_FEBRUARY := 5187569

  /** FREQ=DAILY;INTERVAL=487;BYMONTH=2, from midnight UTC on 2 March 2001. */
  function Februaries(): Schedule {
    Schedule(FEBRUARIES_FROM * DAY, 0, Some(Zone(t => 0, w => 0)), Some(Rule(Daily, 487, [], [], [2])), [], 0)
  }

  lemma FebruariesClock(n: int)
    ensures At(Februaries(), n) == n * DAY
    ensures LocalDay(Februaries().zone.value, Februaries().start) == FEBRUARIES_FROM
    ensures ValidSchedule(Februaries()) && Sound(Februaries())
  {
    assert OffsetsWithin(Februaries().zone.value, 0);
    QuotientUnique(FEBRUARIES_FROM * DAY, DAY, FEBRUARIES_FROM, 0);
  }

  /** Three periods of 487 days are four turns and 12 places, so it is long before any of the three reaches a February. */
  lemma FebruaryIsFar(j: int)
    requires 0 <= j < MAX_EMPTY_PERIODS
    ensures CivilOf(FEBRUARIES_FROM + 487 * j).m != 2
  {
    hide CivilOf;
    var a, c := j / 3, j % 3;
    NotFebruary(FEBRUARIES_FROM + 487 * j, 2001 + c + 4 * a);
  }

  lemma FebruaryDays(k: int, n: int)
    ensures InPeriod(Februaries().rule.value, First(Februaries()), k, n)
      <==> n == FEBRUARIES_FROM + 487 * k && CivilOf(n).m == 2
  {
    hide CivilOf, DayNumber, LocalDay, WeekdayOf, Selected;
    FebruariesClock(0);
    CivilOfIsValid(FEBRUARIES_FROM);
    var r := Februaries().rule.value;
    DailyMeaning(r, First(Februaries()), n);
    assert r.byMonth[0] in r.byMonth;
  }

  lemma LateFebruary()
    ensures ValidDate(Civil(14204, 2, 1)) && DayNumber(Civil(14204, 2, 1)) == LATE_FEBRUARY
    ensures LATE_FEBRUARY == FEBRUARIES_FROM + 487 * 9152
  {
  }

  lemma NoEarlyFebruary(j: int)
    requires 0 <= j < MAX_EMPTY_PERIODS
    ensures Unproductive(Februaries(), Februaries().start, j)
  {
    hide CivilOf, LocalDay, At, InPeriod;
    var s := Februaries();
    forall n ensures !InPeriod(s.rule.value, First(s), j, n) {
      FebruaryDays(j, n);
      FebruaryIsFar(j);
    }
  }

  /** At 487 days a rule for February occurs, and a walk from its own start reaches nothing. */
  lemma FebruariesMissed()
    ensures ValidSchedule(Februaries()) && Sound(Februaries())
    ensures Occurs(Februaries(), LATE_FEBRUARY * DAY)
    ensures forall t :: !Reached(Februaries(), Februaries().start, t)
  {
    hide CivilOf, DayNumber, LocalDay, At, InPeriod, ValidDate;
    var s := Februaries();
    FebruariesClock(LATE_FEBRUARY);
    LateFebruary();
    CivilRoundTrip(Civil(14204, 2, 1));
    FebruaryDays(9152, LATE_FEBRUARY);
    assert HeldBy(s, s.start, 9152, LATE_FEBRUARY * DAY);
    HeldBySomePeriod(s, s.start, LATE_FEBRUARY * DAY);
    hide HeldBy, Occurs;
    forall j | 0 <= j < MAX_EMPTY_PERIODS ensures Unproductive(s, s.start, j) { NoEarlyFebruary(j); }
    NothingAfterGap(s, s.start);
  }
}
