/**
  Walks from different instants, side by side: once both have reached the same
  occurrence they reach the same ones from there on. So the end of a period is
  what Next answers for its start, exactly when Next can get past the start.
 */
module Agreement {
  import opened Calendar
  import opened Exactness
  import opened Queries
  import opened Rules
  import opened Schedules
  import opened Starvation

  /** A period after the one that holds b holds the same occurrences for every query up to b. */
  lemma SameLaterPeriods(s: Schedule, f: int, g: int, b: int, k: int, j: int)
    requires ValidSchedule(s) && Sound(s) && s.rule.Some?
    requires f <= b && g <= b && HeldBy(s, f, k, b) && k < j && Unproductive(s, f, j)
    ensures Unproductive(s, g, j)
  {
    hide InPeriod, At, InRange, Sound, ValidSchedule, First;
    ZoneIsSet(s);
    forall t ensures !HeldBy(s, g, j, t) {
      if HeldBy(s, g, j, t) {
        SameHolder(s, f, g, b, k);
        HeldInOrder(s, g, k, b, j, t);
        SameHolder(s, g, f, t, j);
      }
    }
  }

  lemma SameHolder(s: Schedule, f: int, g: int, b: int, k: int)
    requires s.zone.Some? && s.rule.Some? && HeldBy(s, f, k, b) && g <= b
    ensures HeldBy(s, g, k, b)
  {
  }

  /** What the walk from f misses after b, the walk from g misses too. */
  lemma MissedByBoth(s: Schedule, f: int, g: int, b: int, t: int)
    requires Sound(s) && Reached(s, f, b) && Reached(s, g, b) && b <= t && Starved(s, f, t)
    ensures Starved(s, g, t)
  {
    hide HeldBy, Sound, ValidSchedule, Occurs, Jump, Barren;
    ReachedOccurs(s, f, b);
    ZoneIsSet(s);
    HeldBySomePeriod(s, f, b);
    HeldBySomePeriod(s, g, b);
    var k: nat :| HeldBy(s, f, k, b);
    var h, i :| GivesUp(s, f, h) && h <= i && HeldBy(s, f, i, t);
    assert k < h;
    if h - MAX_EMPTY_PERIODS <= k { GivenUpIsUnproductive(s, f, h, k); }
    SameHolder(s, f, g, b, k);
    if k < Jump(s, g) { JumpLosesNothing(s, g, k); }
    forall j | h - MAX_EMPTY_PERIODS <= j < h ensures Unproductive(s, g, j) {
      GivenUpIsUnproductive(s, f, h, j);
      SameLaterPeriods(s, f, g, b, k, j);
    }
    GivesUpAfterGap(s, g, h - MAX_EMPTY_PERIODS);
    SameHolder(s, f, g, t, i);
  }

  lemma ReachedOccurs(s: Schedule, from: int, t: int)
    requires Reached(s, from, t)
    ensures ValidSchedule(s) && Occurs(s, t) && from <= t
  {
  }

  /**
    Two walks that reach the same occurrence reach the same ones from there on,
    wherever they set out: a rule or a list of dates, starved further on or not.
   */
  lemma WalksMeet(s: Schedule, f: int, g: int, b: int, t: int)
    requires Sound(s) && Reached(s, f, b) && Reached(s, g, b) && b <= t
    ensures Reached(s, f, t) <==> Reached(s, g, t)
  {
    hide Sound, ValidSchedule, Occurs;
    if Starved(s, f, t) { MissedByBoth(s, f, g, b, t); }
    if Starved(s, g, t) { MissedByBoth(s, g, f, b, t); }
  }

  // ------------------------------------------------- a period and its end

  /** Next answers for b what the walk from the schedule's start has after at. */
  ghost predicate SameNext(s: Schedule, at: int, b: int) {
    forall t :: NextReached(s, s.start, at, t) <==> NextReached(s, b, b, t)
  }

  /** There is nothing after at for the walk from the schedule's start. */
  ghost predicate LastOfAll(s: Schedule, at: int) {
    forall t :: !NextReached(s, s.start, at, t)
  }

  /** Where Next can get past the start of a period, it answers the period's end, if there is one. */
  lemma PeriodAgreesWithNext(s: Schedule, at: int, start: int, end: int, t: int)
    requires Sound(s) && FullPeriod(s, at, start, end) && Reached(s, start, start)
    ensures NextReached(s, s.start, at, t) <==> NextReached(s, start, start, t)
    ensures NextReached(s, start, start, t) && t != 0 ==> end == t
  {
    hide Reached;
    forall u | start <= u ensures Reached(s, s.start, u) <==> Reached(s, start, u) {
      WalksMeet(s, s.start, start, start, u);
    }
    ReachedFrom(s, start);
  }

  lemma ReachedFrom(s: Schedule, from: int)
    ensures forall u :: Reached(s, from, u) ==> from <= u
  {
  }

  /** An occurrence that a walk from itself cannot reach leaves that walk nothing. */
  lemma StarvedFromItself(s: Schedule, b: int, t: int)
    requires Sound(s) && Occurs(s, b) && !Reached(s, b, b)
    ensures !Reached(s, b, t)
  {
    hide Sound, ValidSchedule, Occurs;
    if Reached(s, b, t) {
      assert Starved(s, b, b);
      StarvedHasRule(s, b, b);
      if b < t { MissedForGood(s, b, b, t); }
    }
  }

  lemma StarvedHasRule(s: Schedule, from: int, t: int)
    requires Starved(s, from, t)
    ensures ValidSchedule(s) && s.rule.Some?
  {
  }

  /**
    The period's end is what Next answers for its start exactly when Next can reach
    the start itself, or there is no end to answer: otherwise Next answers none.
   */
  lemma AgreesExactly(s: Schedule, at: int, start: int, end: int)
    requires Sound(s) && FullPeriod(s, at, start, end)
    ensures SameNext(s, at, start) <==> Reached(s, start, start) || LastOfAll(s, at)
    ensures !Reached(s, start, start) ==> forall t :: !NextReached(s, start, start, t)
  {
    hide Reached, FullPeriod;
    PeriodStarts(s, at, start, end);
    if Reached(s, start, start) {
      forall t ensures NextReached(s, s.start, at, t) <==> NextReached(s, start, start, t) {
        PeriodAgreesWithNext(s, at, start, end, t);
      }
    } else {
      forall t ensures !NextReached(s, start, start, t) { StarvedFromItself(s, start, t); }
    }
  }

  lemma PeriodStarts(s: Schedule, at: int, start: int, end: int)
    requires FullPeriod(s, at, start, end)
    ensures Occurs(s, start)
  {
  }

  /** Within the longest span, and in a list of dates, every occurrence is reached from itself. */
  lemma ReachesItself(s: Schedule, b: int)
    requires Sound(s) && Occurs(s, b) && (s.rule.Some? && s.zone.Some? ==> WithinSpan(s, b))
    ensures Reached(s, b, b)
  {
    hide Sound, ValidSchedule, WithinSpan, InPeriod, At, InRange, First, Jump;
    OccursIsValid(s, b);
    ZoneIsSet(s);
    if Starved(s, b, b) {
      var h, k :| GivesUp(s, b, h) && h <= k && HeldBy(s, b, k, b);
      var n :| InPeriod(s.rule.value, First(s), k, n) && At(s, n) == b;
      OwnPeriodIsNear(s, b, k, n);
    }
  }

  lemma OccursIsValid(s: Schedule, t: int)
    requires Occurs(s, t)
    ensures ValidSchedule(s) && InRange(s, t)
  {
  }

  /** The period of an occurrence is less than four periods past the jump to it. */
  lemma OwnPeriodIsNear(s: Schedule, b: int, k: int, n: int)
    requires ValidSchedule(s) && Sound(s) && s.rule.Some? && WithinSpan(s, b) && InRange(s, b)
    requires InPeriod(s.rule.value, First(s), k, n) && At(s, n) == b
    ensures k < Jump(s, b) + 4
  {
    hide At, First, LocalDay, Sound, ValidSchedule, WithinSpan, InPeriod, Index, Jump, DayNumber;
    ZoneIsSet(s);
    if Jump(s, b) + 4 <= k {
      PastTheJump(s, b, k);
      BeyondIsAfter(s, k, n, if b > s.start then b else s.start);
    }
  }
}
