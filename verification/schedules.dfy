/**
  Schedules: a recurrence rule, or a list of dates, run on the clock of a time zone.

  Instants are nanoseconds since 0001-01-01T00:00:00Z, the instant Go's zero
  `time.Time` stands for, so an instant "is zero" when it is 0. A zone is the
  offset it applies: `offset` to an instant, `wallOffset` to a wall-clock
  reading (the one `time.Date` settles on). The one thing assumed of a zone is
  that all its offsets fit in a window narrower than a day.

  `Occurs` says which instants a schedule has, with no walking. `Starved` and
  `Reached` say which of them a walk that gives up after 4000 unproductive
  periods can still get to.
 */
module Schedules {
  import opened Calendar
  import opened EmptyRuns
  import opened Options
  import opened Rules

  const SECOND := 1_000_000_000
  const DAY := 86_400 * SECOND

  /** The walk gives up after this many periods in a row without an occurrence. */
  const MAX_EMPTY_PERIODS := 4000

  datatype Zone = Zone(offset: int -> int, wallOffset: int -> int)

  datatype Schedule = Schedule(
    start: int,
    end: int,
    zone: Option<Zone>,
    rule: Option<Rule>,
    dates: seq<Civil>,
    openDays: int)

  // ------------------------------------------------------------ the clock

  predicate IsZero(t: int) {
    t == 0
  }

  function LocalDay(z: Zone, t: int): int {
    (t + z.offset(t)) / DAY
  }

  function TimeOfDay(z: Zone, t: int): (tod: int)
    ensures 0 <= tod < DAY
  {
    (t + z.offset(t)) % DAY
  }

  /** time.Date in the zone. */
  function DateIn(z: Zone, day: int, timeOfDay: int): int {
    day * DAY + timeOfDay - z.wallOffset(day * DAY + timeOfDay)
  }

  ghost predicate OffsetsWithin(z: Zone, lo: int) {
    && (forall t :: lo <= z.offset(t) < lo + DAY)
    && (forall w :: lo <= z.wallOffset(w) < lo + DAY)
  }

  ghost predicate NarrowZone(z: Zone) {
    exists lo :: OffsetsWithin(z, lo)
  }

  predicate ValidSchedule(s: Schedule) {
    && !IsZero(s.start)
    && s.zone.Some?
    && (s.rule.None? != (|s.dates| == 0))
    && s.openDays >= 0
    && (!IsZero(s.end) ==> s.start <= s.end)
    && (s.rule.Some? ==> ValidRule(s.rule.value))
    && (s.rule.None? ==> forall d <- s.dates :: ValidDate(d))
  }

  lemma ZoneIsSet(s: Schedule)
    requires ValidSchedule(s)
    ensures s.zone.Some?
  {
  }

  /** What the library takes for granted and does not check. */
  ghost predicate Sound(s: Schedule) {
    && (s.zone.Some? ==> NarrowZone(s.zone.value))
    && (s.rule.Some? ==> WeekdaysKnown(s.rule.value))
  }

  /** The instant of the schedule on a given day: the start's wall clock, without fractions of a second. */
  function At(s: Schedule, day: int): int
    requires s.zone.Some?
  {
    DateIn(s.zone.value, day, TimeOfDay(s.zone.value, s.start) / SECOND * SECOND)
  }

  predicate InRange(s: Schedule, t: int) {
    s.start <= t && (IsZero(s.end) || t <= s.end)
  }

  function First(s: Schedule): Civil
    requires s.zone.Some?
  {
    CivilOf(LocalDay(s.zone.value, s.start))
  }

  lemma ClockIsInDay(tod: int)
    requires 0 <= tod < DAY
    ensures 0 <= tod / SECOND * SECOND <= tod < DAY
  {
  }

  /** The next day's instant is later. */
  lemma AtAscends(s: Schedule, n: int, p: int)
    requires s.zone.Some? && NarrowZone(s.zone.value) && n < p
    ensures At(s, n) < At(s, p)
  {
    hide TimeOfDay;
    var lo :| OffsetsWithin(s.zone.value, lo);
    var clock := TimeOfDay(s.zone.value, s.start) / SECOND * SECOND;
    assert n * DAY + DAY <= p * DAY;
    assert lo <= s.zone.value.wallOffset(n * DAY + clock) < lo + DAY;
    assert lo <= s.zone.value.wallOffset(p * DAY + clock) < lo + DAY;
  }

  /** Two days off the local date of an instant are enough to be off the instant itself. */
  lemma TwoDaysOff(s: Schedule, day: int, t: int)
    requires s.zone.Some? && NarrowZone(s.zone.value)
    ensures day <= LocalDay(s.zone.value, t) - 2 ==> At(s, day) < t
    ensures LocalDay(s.zone.value, t) + 2 <= day ==> t < At(s, day)
  {
    var z := s.zone.value;
    var lo :| OffsetsWithin(z, lo);
    var clock := TimeOfDay(z, s.start) / SECOND * SECOND;
    ClockIsInDay(TimeOfDay(z, s.start));
    hide TimeOfDay;
    var local := LocalDay(z, t);
    assert local * DAY <= t + z.offset(t) < local * DAY + DAY;
    assert lo <= z.wallOffset(day * DAY + clock) < lo + DAY;
    assert lo <= z.offset(t) < lo + DAY;
    if day <= local - 2 { assert day * DAY + 2 * DAY <= local * DAY; }
    if local + 2 <= day { assert local * DAY + 2 * DAY <= day * DAY; }
  }

  // ------------------------------------------------------------- meaning

  /** The schedule's rule or list names the day. */
  ghost predicate NamesDay(s: Schedule, n: int)
    requires s.zone.Some?
  {
    if s.rule.Some? then exists k: nat :: InPeriod(s.rule.value, First(s), k, n)
    else exists d :: d in s.dates && DayNumber(d) == n
  }

  ghost predicate Occurs(s: Schedule, t: int) {
    ValidSchedule(s) && InRange(s, t) && exists n :: NamesDay(s, n) && At(s, n) == t
  }

  /** t is an occurrence at or after from that the k-th period of the rule holds. */
  ghost predicate HeldBy(s: Schedule, from: int, k: int, t: int)
    requires s.zone.Some? && s.rule.Some?
  {
    InRange(s, t) && from <= t && exists n :: InPeriod(s.rule.value, First(s), k, n) && At(s, n) == t
  }

  ghost predicate Unproductive(s: Schedule, from: int, k: int)
    requires s.zone.Some? && s.rule.Some?
  {
    forall t :: !HeldBy(s, from, k, t)
  }

  /** The period the walk starts at. */
  function Jump(s: Schedule, from: int): (k: nat)
    requires ValidSchedule(s) && s.rule.Some?
  {
    if from > s.start then StartPeriod(s.rule.value, First(s), CivilOf(LocalDay(s.zone.value, from))) else 0
  }

  /** Which periods are unproductive. */
  ghost function Barren(s: Schedule, from: int): int -> bool
    requires s.zone.Some? && s.rule.Some?
  {
    k => Unproductive(s, from, k)
  }

  /** Every period of the 4000 before h is walked and unproductive, so the walk ends at h or sooner. */
  ghost predicate GivesUp(s: Schedule, from: int, h: int)
    requires ValidSchedule(s) && s.rule.Some?
  {
    RunEndsAt(Barren(s, from), Jump(s, from), MAX_EMPTY_PERIODS, h)
  }

  /** The occurrence t lies beyond 4000 unproductive periods in a row. */
  ghost predicate Starved(s: Schedule, from: int, t: int) {
    && ValidSchedule(s) && s.rule.Some?
    && exists h, k :: GivesUp(s, from, h) && h <= k && HeldBy(s, from, k, t)
  }

  /** The occurrences a walk from `from` can visit. */
  ghost predicate Reached(s: Schedule, from: int, t: int) {
    Occurs(s, t) && from <= t && !Starved(s, from, t)
  }

  lemma HeldBySomePeriod(s: Schedule, from: int, t: int)
    requires ValidSchedule(s) && s.rule.Some?
    ensures Occurs(s, t) && from <= t <==> exists k: nat :: HeldBy(s, from, k, t)
  {
    hide InPeriod, At, InRange, First;
    if Occurs(s, t) && from <= t {
      var n :| NamesDay(s, n) && At(s, n) == t;
      var k: nat :| InPeriod(s.rule.value, First(s), k, n);
      assert HeldBy(s, from, k, t);
    }
    if k: nat :| HeldBy(s, from, k, t) {
      var n :| InPeriod(s.rule.value, First(s), k, n) && At(s, n) == t;
      assert NamesDay(s, n);
    }
  }

  /** An occurrence is in one period only, and later periods hold later occurrences. */
  lemma HeldInOrder(s: Schedule, from: int, j: int, t: int, k: int, u: int)
    requires ValidSchedule(s) && Sound(s) && s.rule.Some?
    requires HeldBy(s, from, j, t) && HeldBy(s, from, k, u) && j < k
    ensures t < u
  {
    hide InPeriod, At, First, WeekdaysKnown, ValidRule;
    var n :| InPeriod(s.rule.value, First(s), j, n) && At(s, n) == t;
    var p :| InPeriod(s.rule.value, First(s), k, p) && At(s, p) == u;
    PeriodsInOrder(s.rule.value, First(s), j, k, n, p);
    AtAscends(s, n, p);
  }

  /** No period before the jump holds an occurrence at or after from. */
  lemma JumpLosesNothing(s: Schedule, from: int, k: nat)
    requires ValidSchedule(s) && Sound(s) && s.rule.Some?
    requires k < Jump(s, from)
    ensures Unproductive(s, from, k)
  {
    hide InPeriod, At, InRange, WeekdaysKnown, ValidRule, LocalDay, CivilOf;
    var z := s.zone.value;
    var local := LocalDay(z, from);
    CivilOfIsValid(local);
    CivilOfIsValid(LocalDay(z, s.start));
    forall t ensures !HeldBy(s, from, k, t) {
      if HeldBy(s, from, k, t) {
        var n :| InPeriod(s.rule.value, First(s), k, n) && At(s, n) == t;
        SkippedPeriodsArePast(s.rule.value, First(s), CivilOf(local), k, n);
        TwoDaysOff(s, n, from);
      }
    }
  }

  lemma RuleOfSchedule(s: Schedule)
    requires ValidSchedule(s) && Sound(s) && s.rule.Some?
    ensures ValidRule(s.rule.value) && WeekdaysKnown(s.rule.value) && ValidDate(First(s))
  {
    hide CivilOf, LocalDay, ValidRule, WeekdaysKnown, ValidDate;
    CivilOfIsValid(LocalDay(s.zone.value, s.start));
  }
}
