/**
  When giving up loses nothing, and when it does.

  The calendar repeats every 400 years, weekdays included, so a rule whose
  periods come back to the same place in that cycle within 4000 periods can
  never be starved: in particular every yearly rule. Daily and weekly rules can
  be, in two ways: a filter that leaves a gap of more than 4000 periods, and a
  query so far from the start that the jump saturates.
 */
module Exactness {
  import opened Calendar
  import opened Rules
  import opened Schedules

  /** How many days, weeks, months or years make the 400-year cycle. */
  function CycleUnits(freq: Frequency): int {
    match freq
    case Daily => DAYS_IN_CYCLE
    case Weekly => DAYS_IN_CYCLE / 7
    case Monthly => 4800
    case Yearly => 400
    case Other(_) => 1
  }

  lemma CivilOfShift(n: int, q: int)
    ensures CivilOf(n + DAYS_IN_CYCLE * q) == Civil(CivilOf(n).y + 400 * q, CivilOf(n).m, CivilOf(n).d)
  {
    hide CivilOf, DayNumber, IsLeap, MonthLength, WeekdayOf;
    var c := CivilOf(n);
    CivilOfIsValid(n);
    CycleShift(c, q);
    CivilRoundTrip(Civil(c.y + 400 * q, c.m, c.d));
  }

  /** Days of a month are selected alike in years a whole number of cycles apart. */
  lemma DaySelectedShift(r: Rule, y: int, m: int, fallback: int, d: int, q: int)
    requires 1 <= m <= 12
    ensures DaySelected(r, y + 400 * q, m, fallback, d) <==> DaySelected(r, y, m, fallback, d)
  {
    hide DayNumber, IsLeap, MonthLength, WeekdayOf;
    CycleShift(Civil(y, m, d), q);
    assert forall w :: OnNthDay(w, y + 400 * q, m, d) <==> OnNthDay(w, y, m, d);
    hide OnNthDay;
  }

  lemma SelectedShift(r: Rule, first: Civil, n: int, q: int)
    ensures Selected(r, first, n + DAYS_IN_CYCLE * q) <==> Selected(r, first, n)
  {
    hide CivilOf, DayNumber, WeekdayOf, DaySelected, ValidDate, MonthAllowed;
    CivilOfIsValid(n);
    ValidDateBounds(CivilOf(n));
    CivilOfShift(n, q);
    SelectedShiftedDate(r, CivilOf(n), first.d, q);
    WeekdayShift(n, 20871 * q);
  }

  lemma SelectedShiftedDate(r: Rule, c: Civil, fallback: int, q: int)
    ensures 1 <= c.m <= 12 ==> (DaySelected(r, c.y + 400 * q, c.m, fallback, c.d) <==> DaySelected(r, c.y, c.m, fallback, c.d))
    ensures 1 <= c.m <= 12 ==> (DaySelected(r, c.y + 400 * q, c.m, 0, c.d) <==> DaySelected(r, c.y, c.m, 0, c.d))
  {
    hide DaySelected;
    if 1 <= c.m <= 12 {
      DaySelectedShift(r, c.y, c.m, fallback, c.d, q);
      DaySelectedShift(r, c.y, c.m, 0, c.d, q);
    }
  }

  lemma IndexShift(freq: Frequency, n: int, q: int)
    requires !freq.Other?
    ensures Index(freq, n + DAYS_IN_CYCLE * q) == Index(freq, n) + CycleUnits(freq) * q
  {
    hide CivilOf;
    CivilOfShift(n, q);
    if freq == Weekly { QuotientShift(n, 7, 20871 * q); }
  }

  /** p periods that span q whole cycles carry a date of one period to a date of the other. */
  lemma PeriodShift(r: Rule, first: Civil, k: int, n: int, p: int, q: int)
    requires ValidRule(r) && InPeriod(r, first, k, n)
    requires p * r.interval == CycleUnits(r.freq) * q
    ensures InPeriod(r, first, k - p, n - DAYS_IN_CYCLE * q)
  {
    hide Index, Selected, CycleUnits;
    IndexShift(r.freq, n - DAYS_IN_CYCLE * q, q);
    SelectedShift(r, first, n - DAYS_IN_CYCLE * q, q);
    assert (k - p) * r.interval == k * r.interval - p * r.interval;
  }

  // ------------------------------------------------------- never starved

  /** Whenever a period from h on has a date, so has one of the g periods before h. */
  ghost predicate Recurs(r: Rule, first: Civil, g: int) {
    forall h, k, n :: h <= k && InPeriod(r, first, k, n) ==> HasDateBefore(r, first, h, g)
  }

  ghost predicate HasDateBefore(r: Rule, first: Civil, h: int, g: int) {
    exists j, n :: h - g <= j < h && InPeriod(r, first, j, n)
  }

  /** The query instant is not so far from the start that the jump saturates. */
  predicate WithinSpan(s: Schedule, from: int)
    requires s.zone.Some? && s.rule.Some?
  {
    || s.rule.value.freq == Monthly || s.rule.value.freq == Yearly
    || LocalDay(s.zone.value, from) - LocalDay(s.zone.value, s.start) <= LONGEST_SPAN - 6
  }

  /** Days of a period two or more beyond an instant's own fall after the instant. */
  lemma BeyondIsAfter(s: Schedule, j: int, n: int, t: int)
    requires ValidSchedule(s) && Sound(s) && s.rule.Some?
    requires InPeriod(s.rule.value, First(s), j, n)
    requires Index(s.rule.value.freq, LocalDay(s.zone.value, t)) + 2
      <= Index(s.rule.value.freq, DayNumber(First(s))) + j * s.rule.value.interval
    ensures t < At(s, n)
  {
    hide Index, Selected, At, First, LocalDay, NarrowZone, WeekdaysKnown, DayNumber;
    TwoPeriodsApart(s.rule.value.freq, LocalDay(s.zone.value, t), n);
    TwoDaysOff(s, n, t);
  }

  /** Four periods past the jump, the query instant and the start are both behind. */
  lemma PastTheJump(s: Schedule, from: int, j: int)
    requires ValidSchedule(s) && s.rule.Some?
    requires WithinSpan(s, from) && Jump(s, from) + 4 <= j
    ensures var r, first := s.rule.value, DayNumber(First(s));
      && Index(r.freq, LocalDay(s.zone.value, s.start)) + 2 <= Index(r.freq, first) + j * r.interval
      && (from > s.start ==> Index(r.freq, LocalDay(s.zone.value, from)) + 2 <= Index(r.freq, first) + j * r.interval)
  {
    hide Index, CivilOf, DayNumber, LocalDay, PeriodsBetween, ValidDate;
    var r := s.rule.value;
    var z := s.zone.value;
    CivilOfIsValid(LocalDay(z, s.start));
    CivilOfIsValid(LocalDay(z, from));
    ManyIntervals(r.interval, j, 4);
    if from > s.start {
      var at := CivilOf(LocalDay(z, from));
      PeriodsBetweenDistance(r, First(s), at);
      ManyIntervals(r.interval, j, PeriodsBetween(r, First(s), at) + 3);
      ManyIntervals(r.interval, PeriodsBetween(r, First(s), at) + 3, PeriodsBetween(r, First(s), at) + 1);
    }
  }

  lemma ManyIntervals(interval: int, j: int, k: int)
    requires interval >= 1 && j >= k
    ensures j * interval >= k * interval + (j - k)
  {
    assert j * interval - k * interval == (j - k) * interval;
  }

  /** A date in the last periods before h, four or more past the jump, is a productive one. */
  lemma EarlierTwin(s: Schedule, from: int, g: int, h: int, k: int, t: int) returns (j: int, u: int)
    requires ValidSchedule(s) && Sound(s) && s.rule.Some?
    requires WithinSpan(s, from) && g <= MAX_EMPTY_PERIODS - 4 && Recurs(s.rule.value, First(s), g)
    requires Jump(s, from) + MAX_EMPTY_PERIODS <= h <= k && HeldBy(s, from, k, t)
    ensures h - g <= j < h && HeldBy(s, from, j, u)
  {
    hide InPeriod, At, First, LocalDay, WeekdaysKnown, Jump, ValidRule, NarrowZone, Index, DayNumber;
    RuleOfSchedule(s);
    var r := s.rule.value;
    var n :| InPeriod(r, First(s), k, n) && At(s, n) == t;
    assert HasDateBefore(r, First(s), h, g);
    var i, p :| h - g <= i < h && InPeriod(r, First(s), i, p);
    j, u := i, At(s, p);
    PastTheJump(s, from, j);
    BeyondIsAfter(s, j, p, s.start);
    if from > s.start { BeyondIsAfter(s, j, p, from); }
    PeriodsInOrder(r, First(s), j, k, p, n);
    AtAscends(s, p, n);
  }

  lemma GivenUpIsUnproductive(s: Schedule, from: int, h: int, j: int)
    requires ValidSchedule(s) && s.rule.Some?
    requires GivesUp(s, from, h) && h - MAX_EMPTY_PERIODS <= j < h
    ensures Unproductive(s, from, j)
  {
    hide Unproductive, Jump, ValidSchedule;
    ZoneIsSet(s);
    assert Barren(s, from)(j);
  }

  /**
    A rule that recurs within 4000 periods is never starved: giving up means
    that there is nothing left, and the queries answer from all occurrences.
   */
  lemma RecurringIsExact(s: Schedule, from: int, g: int)
    requires ValidSchedule(s) && Sound(s) && s.rule.Some?
    requires WithinSpan(s, from) && 1 <= g <= MAX_EMPTY_PERIODS - 4 && Recurs(s.rule.value, First(s), g)
    ensures forall t :: Reached(s, from, t) <==> Occurs(s, t) && from <= t
  {
    hide HeldBy, Sound, ValidSchedule, Occurs, WithinSpan, Jump, Recurs, Barren;
    ZoneIsSet(s);
    forall t ensures !Starved(s, from, t) {
      if Starved(s, from, t) {
        var h, k :| GivesUp(s, from, h) && h <= k && HeldBy(s, from, k, t);
        var j, u := EarlierTwin(s, from, g, h, k, t);
        GivenUpIsUnproductive(s, from, h, j);
      }
    }
  }

  lemma IntervalIsPositive(r: Rule)
    requires ValidRule(r)
    ensures 1 <= r.interval
  {
  }

  // ------------------------------------------------- rules that do recur

  /** p periods span a whole number of 400-year cycles. */
  predicate Repeats(r: Rule, p: int) {
    1 <= p && (p * r.interval) % CycleUnits(r.freq) == 0
  }

  lemma RepeatingRecurs(r: Rule, first: Civil, p: int)
    requires ValidRule(r) && Repeats(r, p)
    ensures Recurs(r, first, p)
  {
    hide InPeriod, ValidNthDay, ValidMonthDay;
    forall h, k, n | h <= k && InPeriod(r, first, k, n) ensures HasDateBefore(r, first, h, p) {
      var m := (k - h) / p + 1;
      StepsBack(p, h, k);
      MultipleOfMultiple(p, r.interval, CycleUnits(r.freq), m);
      var q := (p * r.interval) / CycleUnits(r.freq) * m;
      PeriodShift(r, first, k, n, p * m, q);
      assert InPeriod(r, first, k - p * m, n - DAYS_IN_CYCLE * q);
    }
  }

  /** Whole steps of p from k that end in the p places before h. */
  lemma StepsBack(p: int, h: int, k: int)
    requires p >= 1 && h <= k
    ensures h - p <= k - p * ((k - h) / p + 1) < h
  {
    assert k - h == p * ((k - h) / p) + (k - h) % p;
    assert p * ((k - h) / p + 1) == p * ((k - h) / p) + p;
  }

  lemma MultipleOfMultiple(p: int, i: int, c: int, m: int)
    requires c >= 1 && (p * i) % c == 0
    ensures (p * m) * i == c * ((p * i) / c * m)
  {
    var q := (p * i) / c;
    assert p * i == c * q;
    assert (p * m) * i == (p * i) * m == (c * q) * m == c * (q * m);
  }

  lemma YearlyRecurs(r: Rule, first: Civil)
    requires ValidRule(r) && r.freq == Yearly
    ensures Recurs(r, first, 400)
  {
    hide Recurs;
    QuotientUnique(400 * r.interval, 400, r.interval, 0);
    RepeatingRecurs(r, first, 400);
  }

  /** A weekly rule that keeps to no months has a date every week it covers. */
  lemma WeeklyRecurs(r: Rule, first: Civil)
    requires ValidRule(r) && WeekdaysKnown(r) && r.freq == Weekly && r.byMonth == []
    ensures Recurs(r, first, 1)
  {
    hide DayNumber, CivilOf, MondayOffset, WeekdayOf, ValidNthDay;
    forall h, k, n | h <= k && InPeriod(r, first, k, n) ensures HasDateBefore(r, first, h, 1) {
      var week := Index(Weekly, DayNumber(first)) + (h - 1) * r.interval;
      var w := if r.byDay == [] then WeekdayOf(DayNumber(first)) else r.byDay[0].day;
      if r.byDay != [] { assert r.byDay[0] in r.byDay; }
      InWeek(week, w, 7 * week + MondayOffset(w));
      assert InPeriod(r, first, h - 1, 7 * week + MondayOffset(w));
    }
  }

  /** Every yearly rule is exact, from anywhere. */
  lemma YearlyIsExact(s: Schedule, from: int)
    requires ValidSchedule(s) && Sound(s) && s.rule.Some? && s.rule.value.freq == Yearly
    ensures forall t :: Reached(s, from, t) <==> Occurs(s, t) && from <= t
  {
    hide Reached, Occurs, Recurs;
    YearlyRecurs(s.rule.value, First(s));
    RecurringIsExact(s, from, 400);
  }
}
