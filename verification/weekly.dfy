/**
  Which weekly rules that keep to months can be starved: none whose interval is
  at most 646 weeks. At 647 five periods make 62 turns of the calendar all but a
  few places, and such a rule for February is starved.
 */
module WeeklyExactness {
  import opened Calendar
  import opened Exactness
  import opened MonthCircle
  import opened Options
  import opened Rules
  import opened Schedules
  import opened Starvation

  // ----------------------------------------------------- rules that recur

  lemma WeeksBack(r: Rule, first: Civil, k: int, n: int, t: int)
    requires ValidRule(r) && r.freq == Weekly && InPeriod(r, first, k, n)
    requires CivilOf(n - 7 * r.interval * t).m == CivilOf(n).m
    ensures InPeriod(r, first, k - t, n - 7 * r.interval * t)
  {
    hide CivilOf, DayNumber, WeekdayOf, ValidNthDay;
    var weeks := -(r.interval * t);
    assert n - 7 * r.interval * t == n + 7 * weeks;
    QuotientShift(n, 7, weeks);
    WeekdayShift(n, weeks);
    assert (k - t) * r.interval == k * r.interval + weeks;
  }

  lemma SpreadRecurs(r: Rule, first: Civil)
    requires ValidRule(r) && r.freq == Weekly && Spread(2800 * r.interval, 3960)
    ensures Recurs(r, first, MAX_EMPTY_PERIODS - 4)
  {
    hide InPeriod, CivilOf, ValidRule, Spread;
    var g := MAX_EMPTY_PERIODS - 4;
    forall h, k, n | h <= k && InPeriod(r, first, k, n) ensures HasDateBefore(r, first, h, g) {
      CivilOfIsValid(n);
      ValidDateBounds(CivilOf(n));
      var back := k - h + 1;
      IntervalIsPositive(r);
      var t := MonthComesBack(7 * r.interval, 3960, n - 7 * r.interval * back, CivilOf(n).m);
      assert n - 7 * r.interval * back - 7 * r.interval * t == n - 7 * r.interval * (back + t);
      WeeksBack(r, first, k, n, back + t);
    }
  }

  /** 8818 * 400 is one more than 169 * 20871, which finds the multiples of 400 that come near whole turns of weeks. */
  lemma NearTurns(n: int, w: int, k: int)
    requires 1 <= n <= 9044 && 400 * n == 20871 * w + k && -4 <= k <= 4
    ensures n == 3235 || n == 5583 || n == 6470 || n == 8818
  {
    var c := 8818 * w - 169 * n;
    assert n == 8818 * k + 20871 * c;
  }

  lemma Products(i: int, q: int)
    requires 1 <= i <= 646 && 1 <= q <= 14
    ensures 1 <= i * q <= 9044
    ensures i * q != 3235 && i * q != 5583 && i * q != 6470 && i * q != 8818
  {
  }

  /** No interval up to 646 weeks makes almost whole turns in 14 steps or fewer. */
  lemma SmallIntervalsSpread(i: int)
    requires 1 <= i <= 646
    ensures Spread(2800 * i, 3960)
  {
    hide Clear;
    forall q | 1 <= q <= 14 ensures Clear(2800 * i, q, 3960) { SmallStepsClear(i, q); }
  }

  lemma SmallStepsClear(i: int, q: int)
    requires 1 <= i <= 646 && 1 <= q <= 14
    ensures Clear(2800 * i, q, 3960)
  {
    Products(i, q);
    var n := i * q;
    assert 2800 * i * q == 2800 * n;
    var w, d := 2800 * n / DAYS_IN_CYCLE, 2800 * n % DAYS_IN_CYCLE;
    var k := 400 * n - 20871 * w;
    assert d == 7 * k;
    if k <= 4 { NearTurns(n, w, k); }
    if k >= 20867 { NearTurns(n, w + 1, k - 20871); }
  }

  /** The calendar is 20871 weeks round, so multiples of 9 or of 773 weeks come back to the same dates in time. */
  lemma MultiplesRepeat(r: Rule)
    requires ValidRule(r) && r.freq == Weekly
    ensures r.interval % 9 == 0 ==> Repeats(r, 2319)
    ensures r.interval % 773 == 0 ==> Repeats(r, 27)
  {
    hide ValidNthDay;
    if r.interval % 9 == 0 { QuotientUnique(2319 * r.interval, 20871, r.interval / 9, 0); }
    if r.interval % 773 == 0 { QuotientUnique(27 * r.interval, 20871, r.interval / 773, 0); }
  }

  /**
    Within the longest span a weekly rule is exact when it keeps to no months, or
    its interval is at most 646 weeks, stays clear of whole turns, or is a
    multiple of 9 or of 773.
   */
  lemma WeeklyIsExact(s: Schedule, from: int)
    requires ValidSchedule(s) && Sound(s) && s.rule.Some? && s.rule.value.freq == Weekly
    requires WithinSpan(s, from)
    requires var r := s.rule.value;
      r.byMonth == [] || r.interval <= 646 || Spread(2800 * r.interval, 3960) || r.interval % 9 == 0 || r.interval % 773 == 0
    ensures forall t :: Reached(s, from, t) <==> Occurs(s, t) && from <= t
  {
    hide Reached, Occurs, Recurs, Spread, WeekdaysKnown, NarrowZone, Repeats, WithinSpan;
    var r := s.rule.value;
    if r.byMonth == [] {
      WeeklyRecurs(r, First(s));
      RecurringIsExact(s, from, 1);
    } else if r.interval <= 646 || Spread(2800 * r.interval, 3960) {
      IntervalIsPositive(r);
      if r.interval <= 646 { SmallIntervalsSpread(r.interval); }
      SpreadRecurs(r, First(s));
      RecurringIsExact(s, from, MAX_EMPTY_PERIODS - 4);
    } else {
      MultiplesRepeat(r);
      var p := if r.interval % 9 == 0 then 2319 else 27;
      RepeatingRecurs(r, First(s), p);
      RecurringIsExact(s, from, p);
    }
  }

  // ------------------------------------------------- the first that does not

  /** 24 January 2001, and 29 February 67696, 5298 times 647 weeks later. */
  const FEBRUARIES_FROM := 730508
  const LATE_FEBRUARY := 24725150

  /** FREQ=WEEKLY;INTERVAL=647;BYMONTH=2, from midnight UTC on 24 January 2001. */
  function Februaries(): Schedule {
    Schedule(FEBRUARIES_FROM * DAY, 0, Some(Zone(t => 0, w => 0)), Some(Rule(Weekly, 647, [], [], [2])), [], 0)
  }

  lemma FebruariesClock(n: int)
    ensures At(Februaries(), n) == n * DAY
    ensures LocalDay(Februaries().zone.value, Februaries().start) == FEBRUARIES_FROM
    ensures ValidSchedule(Februaries()) && Sound(Februaries())
  {
    assert OffsetsWithin(Februaries().zone.value, 0);
    QuotientUnique(FEBRUARIES_FROM * DAY, DAY, FEBRUARIES_FROM, 0);
  }

  /** Five periods of 647 weeks are 62 turns less 14 places, so it is long before any of the five reaches a February. */
  lemma FebruaryIsFar(j: int)
    requires 0 <= j < MAX_EMPTY_PERIODS
    ensures CivilOf(FEBRUARIES_FROM + 4529 * j).m != 2
  {
    hide CivilOf;
    var a, c := j / 5, j % 5;
    var turns := if c == 0 then 2000 else if c == 1 then 2013 else if c == 2 then 2025 else if c == 3 then 2038 else 2050;
    NotFebruary(FEBRUARIES_FROM + 4529 * j, turns + 62 * a);
  }

  lemma FebruaryWeeks(k: int, n: int)
    ensures InPeriod(Februaries().rule.value, First(Februaries()), k, n)
      <==> n == FEBRUARIES_FROM + 4529 * k && CivilOf(n).m == 2
  {
    hide CivilOf, DayNumber, LocalDay, WeekdayOf;
    FebruariesClock(0);
    CivilOfIsValid(FEBRUARIES_FROM);
    var r := Februaries().rule.value;
    assert r.byMonth[0] in r.byMonth;
    SameWeekday(FEBRUARIES_FROM, 647 * k, n);
  }

  lemma SameWeekday(from: int, weeks: int, n: int)
    ensures n / 7 == from / 7 + weeks && WeekdayOf(n) == WeekdayOf(from) <==> n == from + 7 * weeks
  {
  }

  lemma LateFebruary()
    ensures ValidDate(Civil(67696, 2, 29)) && DayNumber(Civil(67696, 2, 29)) == LATE_FEBRUARY
    ensures LATE_FEBRUARY == FEBRUARIES_FROM + 4529 * 5298
  {
  }

  lemma NoEarlyFebruary(j: int)
    requires 0 <= j < MAX_EMPTY_PERIODS
    ensures Unproductive(Februaries(), Februaries().start, j)
  {
    hide CivilOf, LocalDay, At, InPeriod;
    var s := Februaries();
    forall n ensures !InPeriod(s.rule.value, First(s), j, n) {
      FebruaryWeeks(j, n);
      FebruaryIsFar(j);
    }
  }

  /** At 647 weeks a rule for February occurs, and a walk from its own start reaches nothing. */
  lemma FebruariesMissed()
    ensures ValidSchedule(Februaries()) && Sound(Februaries())
    ensures Occurs(Februaries(), LATE_FEBRUARY * DAY)
    ensures forall t :: !Reached(Februaries(), Februaries().start, t)
  {
    hide CivilOf, DayNumber, LocalDay, At, InPeriod, ValidDate;
    var s := Februaries();
    FebruariesClock(LATE_FEBRUARY);
    LateFebruary();
    CivilRoundTrip(Civil(67696, 2, 29));
    FebruaryWeeks(5298, LATE_FEBRUARY);
    assert HeldBy(s, s.start, 5298, LATE_FEBRUARY * DAY);
    HeldBySomePeriod(s, s.start, LATE_FEBRUARY * DAY);
    hide HeldBy, Occurs;
    forall j | 0 <= j < MAX_EMPTY_PERIODS ensures Unproductive(s, s.start, j) { NoEarlyFebruary(j); }
    NothingAfterGap(s, s.start);
  }
}
