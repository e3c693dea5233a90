/**
  Which instants a schedule has, in cases that can be said without its periods:
  lists of dates, ranges, and plain daily and weekly rules.
 */
module Occurrences {
  import opened Calendar
  import opened Clocks
  import opened Rules
  import opened RuleMeaning
  import opened Schedules

  /** A list of dates names those dates. */
  lemma DatesAreNamed(s: Schedule, n: int)
    requires ValidSchedule(s) && s.rule.None?
    ensures NamesDay(s, n) <==> CivilOf(n) in s.dates
  {
    hide CivilOf, DayNumber, ValidDate;
    if d :| d in s.dates && DayNumber(d) == n { CivilRoundTrip(d); }
    if CivilOf(n) in s.dates { CivilOfIsValid(n); }
  }

  /** A named day occurs from the start to the end, both included, and without end for ever. */
  lemma RangeIsClosed(s: Schedule, n: int)
    requires ValidSchedule(s) && NamesDay(s, n)
    ensures Occurs(s, At(s, n)) || At(s, n) < s.start || (s.end != 0 && s.end < At(s, n))
    ensures At(s, n) == s.start || (At(s, n) == s.end && s.end != 0) ==> Occurs(s, At(s, n))
  {
    hide At, NamesDay;
  }

  predicate Plain(r: Rule) {
    r.byDay == [] && r.byMonthDay == [] && r.byMonth == []
  }

  /** How many days a plain daily or weekly rule goes on at a time. */
  function Stride(r: Rule): int {
    if r.freq == Weekly then 7 * r.interval else r.interval
  }

  /** Day n is so many whole strides on from the first. */
  predicate OnStride(r: Rule, first: int, n: int) {
    r.interval >= 1 && first <= n && (n - first) % Stride(r) == 0
  }

  /** A plain daily or weekly rule names its first day and every so many days on, and nothing before. */
  lemma StridesAreNamed(s: Schedule, n: int)
    requires ValidSchedule(s) && s.rule.Some? && Plain(s.rule.value) && s.rule.value.freq in [Daily, Weekly]
    ensures NamesDay(s, n) <==> OnStride(s.rule.value, LocalDay(s.zone.value, s.start), n)
  {
    hide LocalDay, InPeriod, CivilOf, DayNumber;
    var r, first := s.rule.value, LocalDay(s.zone.value, s.start);
    FirstIsStart(s);
    forall k: int ensures InPeriod(r, First(s), k, n) <==> n == first + k * Stride(r) {
      PlainDates(r, First(s), k, n);
    }
    if k: nat :| InPeriod(r, First(s), k, n) { WholeStrides(n - first, Stride(r), k); }
    if OnStride(r, first, n) {
      var k := (n - first) / Stride(r);
      assert k * Stride(r) == n - first;
      assert k >= 0 && InPeriod(r, First(s), k, n);
    }
  }

  lemma FirstIsStart(s: Schedule)
    requires s.zone.Some?
    ensures DayNumber(First(s)) == LocalDay(s.zone.value, s.start)
  {
    hide LocalDay, CivilOf, DayNumber;
    CivilOfIsValid(LocalDay(s.zone.value, s.start));
  }

  lemma WholeStrides(d: int, stride: int, k: nat)
    requires stride > 0 && d == k * stride
    ensures d >= 0 && d % stride == 0
  {
    QuotientUnique(d, stride, k, 0);
  }

  lemma PlainDates(r: Rule, first: Civil, k: int, n: int)
    requires ValidRule(r) && Plain(r) && r.freq in [Daily, Weekly]
    ensures InPeriod(r, first, k, n) <==> n == DayNumber(first) + k * Stride(r)
  {
    hide CivilOf, DayNumber, WeekdayOf;
    var a := DayNumber(first);
    if r.freq == Daily {
      DailyDates(r, first, k, n);
    } else {
      var monday := MondayBefore(a);
      WeeklyDates(r, first, k, n, monday);
      SameWeekday(a, monday, k * r.interval, n);
      assert 7 * (k * r.interval) == k * (7 * r.interval);
    }
  }

  function MondayBefore(n: int): (monday: int)
    ensures InWeekOf(monday, n)
  {
    n / 7 * 7
  }

  lemma SameWeekday(a: int, monday: int, weeks: int, n: int)
    requires InWeekOf(monday, a)
    ensures InWeekOf(monday + 7 * weeks, n) && WeekdayOf(n) == WeekdayOf(a) <==> n == a + 7 * weeks
  {
    assert WeekdayOf(a + 7 * weeks) == WeekdayOf(a) by { QuotientShift(a + 1, 7, weeks); }
  }

  /** The zone keeps one offset. */
  ghost predicate Fixed(z: Zone, offset: int) {
    forall t :: z.offset(t) == offset && z.wallOffset(t) == offset
  }

  /**
    Where the clocks are never changed a plain daily or weekly schedule that starts
    on a whole second occurs at its start and every so many days after it, up to its end.
   */
  lemma FixedStrides(s: Schedule, offset: int, t: int)
    requires ValidSchedule(s) && s.rule.Some? && Plain(s.rule.value) && s.rule.value.freq in [Daily, Weekly]
    requires Fixed(s.zone.value, offset) && FractionOf(s.zone.value, s.start) == 0
    ensures Occurs(s, t) <==>
      && (exists days: nat :: days % Stride(s.rule.value) == 0 && t == s.start + days * DAY)
      && (s.end == 0 || t <= s.end)
  {
    hide NamesDay, At, LocalDay, FractionOf, ValidRule, Stride, Plain;
    var r, first := s.rule.value, LocalDay(s.zone.value, s.start);
    forall n ensures At(s, n) == s.start + (n - first) * DAY && (NamesDay(s, n) <==> OnStride(r, first, n)) {
      FixedDay(s, offset, n);
      StridesAreNamed(s, n);
    }
    ValidInterval(s);
    if days: nat :| days % Stride(r) == 0 && t == s.start + days * DAY && (s.end == 0 || t <= s.end) {
      assert OnStride(r, first, first + days);
    }
    if Occurs(s, t) {
      var n :| NamesDay(s, n) && At(s, n) == t;
      assert (n - first) % Stride(r) == 0 && n - first >= 0;
    }
  }

  lemma ValidInterval(s: Schedule)
    requires ValidSchedule(s) && s.rule.Some? && s.rule.value.freq in [Daily, Weekly]
    ensures s.rule.value.interval >= 1 && Stride(s.rule.value) >= 1
  {
  }

  lemma FixedDay(s: Schedule, offset: int, n: int)
    requires s.zone.Some? && Fixed(s.zone.value, offset) && FractionOf(s.zone.value, s.start) == 0
    ensures At(s, n) == s.start + (n - LocalDay(s.zone.value, s.start)) * DAY
  {
    assert s.zone.value.offset(s.start) == offset;
    StartIsItsOwn(s);
    hide FractionOf;
  }
}
