/**
  Next, Between and Period: what each leaves in the variables its visitor
  captures, and how the answers of the three fit together.
 */
module Queries {
  import opened Clocks
  import opened Rules
  import opened Schedules
  import opened Walking

  /** t is the first instant after `after` that a walk from `from` can reach. */
  ghost predicate NextReached(s: Schedule, from: int, after: int, t: int) {
    && Reached(s, from, t) && after < t
    && forall u :: Reached(s, from, u) && after < u ==> t <= u
  }

  /** t is the last instant up to `at` that a walk from the start can reach. */
  ghost predicate LastReached(s: Schedule, at: int, t: int) {
    && Reached(s, s.start, t) && t <= at
    && forall u :: Reached(s, s.start, u) && u <= at ==> u <= t
  }

  method Next(s: Schedule, after: int) returns (next: int, ok: bool)
    requires Sound(s)
    ensures ok <==> next != 0
    ensures forall t :: NextReached(s, after, after, t) ==> next == t
    ensures next != 0 ==> NextReached(s, after, after, next)
    ensures next != 0 ==> s.zone.Some? && OnTheClock(s, next)
  {
    hide Sound, Reached, OnTheClock;
    var v := Walk(s, after, FirstAfter(after, 0));
    ghost var seen :| Lists(s, after, after + 1, seen) && v == Shown(FirstAfter(after, 0), seen);
    ShownFirstAfter(after, seen);
    NextFromWalk(s, after, after, seen);
    next := v.next;
    ok := !IsZero(next);
    if ok { ReachedOnTheClock(s, after, next); }
  }

  lemma ReachedOnTheClock(s: Schedule, from: int, t: int)
    requires Reached(s, from, t)
    ensures s.zone.Some? && OnTheClock(s, t)
  {
    hide Occurs, Starved, OnTheClock;
    OccursOnTheClock(s, t);
  }

  lemma NextFromWalk(s: Schedule, from: int, after: int, ts: seq<int>)
    requires Lists(s, from, after + 1, ts)
    ensures if ts != [] && ts[|ts| - 1] > after then NextReached(s, from, after, ts[|ts| - 1])
      else forall t :: !NextReached(s, from, after, t)
    ensures forall t :: NextReached(s, from, after, t) ==> ts != [] && t == ts[|ts| - 1]
  {
    hide Reached;
    if ts != [] { assert ts[|ts| - 1] in ts; }
    forall t | Reached(s, from, t) && after < t ensures ts != [] && after < ts[|ts| - 1] <= t {
      if t in ts { var i :| 0 <= i < |ts| && ts[i] == t; }
    }
  }

  lemma {:induction false} ShownFirstAfter(after: int, ts: seq<int>)
    requires forall i :: 0 <= i < |ts| - 1 ==> ts[i] <= after
    ensures Shown(FirstAfter(after, 0), ts) == FirstAfter(after, if ts != [] && ts[|ts| - 1] > after then ts[|ts| - 1] else 0)
  {
    if ts != [] { ShownFirstAfter(after, ts[..|ts| - 1]); }
  }

  method Between(s: Schedule, from: int, to: int) returns (out: seq<int>)
    requires Sound(s)
    ensures Increasing(out)
    ensures forall t :: t in out <==> Reached(s, from, t) && t < to
    ensures forall t :: t in out ==> s.zone.Some? && OnTheClock(s, t)
  {
    hide Sound, Reached, Lists, Shown, OnTheClock;
    var v := Walk(s, from, Collect(to, []));
    ghost var seen :| Lists(s, from, Collect(to, []).Limit(), seen) && v == Shown(Collect(to, []), seen);
    BetweenFromWalk(s, from, to, seen);
    out := v.out;
    forall t | t in out ensures s.zone.Some? && OnTheClock(s, t) { ReachedOnTheClock(s, from, t); }
  }

  function UpTo(to: int, ts: seq<int>): seq<int> {
    if ts != [] && ts[|ts| - 1] >= to then ts[..|ts| - 1] else ts
  }

  lemma BetweenFromWalk(s: Schedule, from: int, to: int, ts: seq<int>)
    requires Lists(s, from, Collect(to, []).Limit(), ts)
    ensures Shown(Collect(to, []), ts) == Collect(to, UpTo(to, ts))
    ensures Increasing(UpTo(to, ts))
    ensures forall t :: t in UpTo(to, ts) <==> Reached(s, from, t) && t < to
  {
    hide Reached, Shown;
    ShownCollect(to, ts);
    if ts != [] { assert ts == ts[..|ts| - 1] + [ts[|ts| - 1]]; }
  }

  lemma {:induction false} ShownCollect(to: int, ts: seq<int>)
    requires forall i :: 0 <= i < |ts| - 1 ==> ts[i] < to
    ensures Shown(Collect(to, []), ts) == Collect(to, UpTo(to, ts))
  {
    if ts != [] {
      ShownCollect(to, ts[..|ts| - 1]);
      assert ts == ts[..|ts| - 1] + [ts[|ts| - 1]];
    }
  }

  /** Before it is cut short, the period at `at` runs from the last occurrence up to `at` to the next one, or to the schedule's end. */
  ghost predicate FullPeriod(s: Schedule, at: int, start: int, end: int) {
    && LastReached(s, at, start) && start != 0
    && (forall t :: NextReached(s, s.start, at, t) && t != 0 ==> end == t)
    && ((forall t :: NextReached(s, s.start, at, t) ==> t == 0) ==> end == s.end)
  }

  /** A period that would run to full ends at end: after its open days, if it has any and they are over sooner. */
  ghost predicate OpenUntil(s: Schedule, start: int, full: int, end: int)
    requires s.zone.Some?
  {
    if s.openDays == 0 then end == full
    else exists closes ::
      DaysLater(s.zone.value, start, s.openDays, closes) && end == if full != 0 && full <= closes then full else closes
  }

  method PeriodAt(s: Schedule, at: int) returns (start: int, end: int, ok: bool)
    requires Sound(s)
    ensures ok ==> s.zone.Some? && exists full :: FullPeriod(s, at, start, full) && OpenUntil(s, start, full, end)
    ensures !ok ==> (start, end) == (0, 0) && forall t :: LastReached(s, at, t) ==> t == 0
  {
    hide Sound, Reached, DateIn, LocalDay, TimeOfDay, DaysLater;
    var v := Walk(s, s.start, Around(at, 0, 0));
    ghost var seen :| Lists(s, s.start, at + 1, seen) && v == Shown(Around(at, 0, 0), seen);
    ShownAround(at, seen);
    PeriodFromWalk(s, at, seen);
    start, end := v.start, v.end;
    if IsZero(start) {
      return 0, 0, false;
    }
    ReachedIsValid(s, start);
    if IsZero(end) {
      end := s.end;
    }
    ghost var full := end;
    if s.openDays > 0 {
      DateInIsDaysLater(s.zone.value, start, s.openDays);
      var closes := DateIn(s.zone.value, LocalDay(s.zone.value, start) + s.openDays, TimeOfDay(s.zone.value, start));
      if IsZero(end) || closes < end {
        end := closes;
      }
    }
    ok := true;
    assert FullPeriod(s, at, start, full) && OpenUntil(s, start, full, end);
  }

  lemma ReachedIsValid(s: Schedule, t: int)
    requires Reached(s, s.start, t)
    ensures s.zone.Some? && s.openDays >= 0
  {
  }

  /** What the walk leaves in the variables of Period. */
  function AroundStart(at: int, ts: seq<int>): int {
    if ts == [] then 0
    else if ts[|ts| - 1] <= at then ts[|ts| - 1]
    else if |ts| > 1 then ts[|ts| - 2] else 0
  }

  function AroundEnd(at: int, ts: seq<int>): int {
    if ts != [] && ts[|ts| - 1] > at && AroundStart(at, ts) != 0 then ts[|ts| - 1] else 0
  }

  lemma {:induction false} ShownAround(at: int, ts: seq<int>)
    requires forall i :: 0 <= i < |ts| - 1 ==> ts[i] <= at
    ensures Shown(Around(at, 0, 0), ts) == Around(at, AroundStart(at, ts), AroundEnd(at, ts))
  {
    if ts != [] { ShownAround(at, ts[..|ts| - 1]); }
  }

  lemma PeriodFromWalk(s: Schedule, at: int, ts: seq<int>)
    requires Lists(s, s.start, at + 1, ts)
    ensures var start, end := AroundStart(at, ts), AroundEnd(at, ts);
      && (start != 0 ==> FullPeriod(s, at, start, if end == 0 then s.end else end))
      && (start == 0 ==> forall t :: LastReached(s, at, t) ==> t == 0)
  {
    hide Reached;
    NextFromWalk(s, s.start, at, ts);
    if ts != [] { assert ts[|ts| - 1] in ts; }
    if |ts| > 1 { assert ts[|ts| - 2] in ts; }
    forall t | Reached(s, s.start, t) && t <= at ensures ts != [] && t <= AroundStart(at, ts) && AroundStart(at, ts) in ts {
      var i :| 0 <= i < |ts| && ts[i] == t;
    }
  }

  // ------------------------------------------------------------------ laws

  /** If anything can be reached after an instant, there is a first such occurrence. */
  lemma {:induction false} FirstExists(s: Schedule, from: int, after: int, u: int) returns (t: int)
    requires Reached(s, from, u) && after < u
    ensures NextReached(s, from, after, t) && t <= u
    decreases u - after
  {
    hide Reached;
    if earlier :| Reached(s, from, earlier) && after < earlier < u {
      t := FirstExists(s, from, after, earlier);
    } else {
      t := u;
    }
  }

  /** If anything up to an instant can be reached, there is a last such occurrence. */
  lemma {:induction false} LastExists(s: Schedule, at: int, u: int) returns (t: int)
    requires Reached(s, s.start, u) && u <= at
    ensures LastReached(s, at, t) && u <= t
    decreases at - u
  {
    hide Reached;
    if later :| Reached(s, s.start, later) && u < later <= at {
      t := LastExists(s, at, later);
    } else {
      t := u;
    }
  }

  /** The two periods start together, or the earlier ends by the start of the later. */
  predicate Disjoint(start1: int, end1: int, start2: int, end2: int) {
    start1 == start2 || (start1 < start2 && 0 != end1 <= start2) || (start2 < start1 && 0 != end2 <= start1)
  }

  /** An occurrence at the zero instant, which reads as none, with occurrences on either side of it. */
  ghost predicate ZeroBetween(s: Schedule) {
    && Reached(s, s.start, 0)
    && (exists a :: Reached(s, s.start, a) && a < 0)
    && (exists b :: Reached(s, s.start, b) && 0 < b && b != s.end)
  }

  /**
    Periods do not overlap, whatever two instants are asked about, unless an
    occurrence falls on the zero instant between two others.
   */
  lemma PeriodsDisjoint(s: Schedule, at1: int, start1: int, end1: int, at2: int, start2: int, end2: int)
    requires !ZeroBetween(s)
    requires FullPeriod(s, at1, start1, end1) && FullPeriod(s, at2, start2, end2)
    ensures Disjoint(start1, end1, start2, end2)
  {
    hide Reached;
    if start1 < start2 { EndsBeforeNext(s, at1, start1, end1, start2); }
    if start2 < start1 { EndsBeforeNext(s, at2, start2, end2, start1); }
  }

  lemma EndsBeforeNext(s: Schedule, at: int, start: int, end: int, later: int)
    requires !ZeroBetween(s) && FullPeriod(s, at, start, end)
    requires Reached(s, s.start, later) && start < later && later != 0
    ensures 0 != end <= later
  {
    hide Reached;
    assert at < later;
    var t := FirstExists(s, s.start, at, later);
  }

  /** With an occurrence on the zero instant between two others, two periods do overlap. */
  lemma ZeroMakesOverlap(s: Schedule) returns (at1: int, start1: int, end1: int, at2: int, start2: int, end2: int)
    requires ZeroBetween(s)
    ensures FullPeriod(s, at1, start1, end1) && FullPeriod(s, at2, start2, end2)
    ensures !Disjoint(start1, end1, start2, end2)
  {
    hide Reached;
    var a :| Reached(s, s.start, a) && a < 0;
    var b :| Reached(s, s.start, b) && 0 < b && b != s.end;
    at1, at2 := -1, b;
    start1 := LastExists(s, -1, a);
    start2 := LastExists(s, b, b);
    assert NextReached(s, s.start, -1, 0);
    end1 := s.end;
    EndIsNotBefore(s, b);
    if next :| NextReached(s, s.start, b, next) { end2 := next; } else { end2 := s.end; }
  }

  lemma EndIsNotBefore(s: Schedule, t: int)
    requires Reached(s, s.start, t)
    ensures s.end == 0 || t <= s.end
  {
  }

  /** A period starts with the last occurrence and ends with the first after it, or with the schedule where none follows. */
  lemma PeriodIsBetween(s: Schedule, at: int, start: int, end: int)
    requires FullPeriod(s, at, start, end)
    ensures Reached(s, s.start, start) && start <= at && start != 0
    ensures forall t :: Reached(s, s.start, t) ==> t <= start || at < t
    ensures (forall t :: Reached(s, s.start, t) ==> t <= start) ==> end == s.end
    ensures forall t :: Reached(s, s.start, t) && start < t && !(at < 0 && Reached(s, s.start, 0)) ==>
      Reached(s, s.start, end) && start < end <= t
  {
    hide Reached;
    forall t | Reached(s, s.start, t) && start < t && !(at < 0 && Reached(s, s.start, 0))
      ensures Reached(s, s.start, end) && start < end <= t
    {
      var u := FirstExists(s, s.start, at, t);
    }
  }

  /** Every instant up to the schedule's end lies in its own period. */
  lemma PeriodHoldsInstant(s: Schedule, at: int, start: int, end: int)
    requires FullPeriod(s, at, start, end)
    ensures start <= at
    ensures end == 0 || at < end || end == s.end
  {
    hide Reached;
    if end != 0 && end != s.end {
      var t :| NextReached(s, s.start, at, t) && t != 0;
    }
  }

  /** A period ends by the time its open days are over. */
  ghost predicate ClosesBy(s: Schedule, start: int, full: int, end: int)
    requires s.zone.Some?
  {
    exists closes :: DaysLater(s.zone.value, start, s.openDays, closes) && end <= closes && (end == closes || end == full)
  }

  /** Without open days a period runs in full; they can only bring the end nearer, to their own end, and never before the start. */
  lemma OpenDaysOnlyShorten(s: Schedule, start: int, full: int, end: int)
    requires ValidSchedule(s) && Sound(s) && OpenUntil(s, start, full, end)
    ensures s.openDays == 0 ==> end == full
    ensures full == 0 || end <= full
    ensures s.openDays > 0 ==> ClosesBy(s, start, full, end) && (full == 0 || start < full ==> start < end)
  {
    if s.openDays > 0 {
      var z := s.zone.value;
      var lo :| OffsetsWithin(z, lo);
      assert lo <= z.offset(start) < lo + DAY;
      assert lo <= z.wallOffset(start + z.offset(start) + s.openDays * DAY) < lo + DAY;
    }
  }

  lemma OpenDaysKeepPeriods(s: Schedule, days: nat, from: int, k: int)
    requires s.zone.Some? && s.rule.Some?
    ensures Unproductive(s.(openDays := days), from, k) <==> Unproductive(s, from, k)
    ensures forall t :: HeldBy(s.(openDays := days), from, k, t) <==> HeldBy(s, from, k, t)
  {
    var u := s.(openDays := days);
    assert First(u) == First(s) && forall n :: At(u, n) == At(s, n);
    hide At, First, InPeriod;
    assert forall t :: HeldBy(u, from, k, t) <==> HeldBy(s, from, k, t);
  }

  lemma OpenDaysKeepStarved(s: Schedule, days: nat, from: int, t: int)
    requires s.openDays >= 0
    ensures Starved(s.(openDays := days), from, t) <==> Starved(s, from, t)
  {
    hide HeldBy, Unproductive;
    var u := s.(openDays := days);
    if ValidSchedule(s) && s.rule.Some? {
      forall k ensures (Unproductive(u, from, k) <==> Unproductive(s, from, k)) && (HeldBy(u, from, k, t) <==> HeldBy(s, from, k, t)) {
        OpenDaysKeepPeriods(s, days, from, k);
      }
      assert Jump(u, from) == Jump(s, from);
      hide Jump, ValidSchedule;
      forall h ensures GivesUp(u, from, h) <==> GivesUp(s, from, h) {
        assert forall k :: Barren(u, from)(k) == Barren(s, from)(k);
      }
    }
  }

  /** How long a period stays open is nothing to the occurrences, so Next and Between do not depend on it. */
  lemma OpenDaysKeepOccurrences(s: Schedule, days: nat, from: int, t: int)
    requires s.openDays >= 0
    ensures Reached(s.(openDays := days), from, t) <==> Reached(s, from, t)
  {
    var u := s.(openDays := days);
    if s.zone.Some? {
      assert First(u) == First(s) && forall n :: At(u, n) == At(s, n);
      hide At, First, InPeriod, Starved;
      assert forall n :: NamesDay(u, n) <==> NamesDay(s, n);
      hide NamesDay;
      OpenDaysKeepStarved(s, days, from, t);
    }
  }
}
