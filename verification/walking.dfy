/**
  The walk that all queries share: a loop over the periods of a rule (or over a
  sorted list of dates) that shows each occurrence to a visitor until the
  visitor has enough, the schedule ends, or 4000 periods in a row had nothing.
  `Lists` is the exact set it shows, in order.
 */
module Walking {
  import opened Calendar
  import opened EmptyRuns
  import opened Options
  import opened Rules
  import opened Schedules
  import opened Sorting

  // ------------------------------------------------------------ visitors

  /** The three closures handed to walk, with the variables each one captures. */
  datatype Visitor =
    | FirstAfter(after: int, next: int)
    | Collect(to: int, out: seq<int>)
    | Around(at: int, start: int, end: int)
  {
    /** The closure asks for more exactly while it is shown instants below this one. */
    function Limit(): int {
      match this
      case FirstAfter(after, _) => after + 1
      case Collect(to, _) => to
      case Around(at, _, _) => at + 1
    }

    function Visit(t: int): (r: (Visitor, bool))
      ensures r.0.Limit() == Limit()
      ensures r.1 <==> t < Limit()
    {
      match this
      case FirstAfter(after, next) =>
        if t > after then (FirstAfter(after, t), false) else (this, true)
      case Collect(to, out) =>
        if t >= to then (this, false) else (Collect(to, out + [t]), true)
      case Around(at, start, end) =>
        if t > at then (if IsZero(start) then this else Around(at, start, t), false)
        else (Around(at, t, end), true)
    }
  }

  function Shown(v: Visitor, ts: seq<int>): (r: Visitor)
    ensures r.Limit() == v.Limit()
  {
    if ts == [] then v else Shown(v, ts[..|ts| - 1]).Visit(ts[|ts| - 1]).0
  }

  ghost predicate Increasing(ts: seq<int>) {
    forall i, j :: 0 <= i < j < |ts| ==> ts[i] < ts[j]
  }

  /**
    ts lists, in order, every occurrence the walk can reach below the limit,
    and then the first one at or above it, if there is one.
   */
  ghost predicate Lists(s: Schedule, from: int, limit: int, ts: seq<int>) {
    && Increasing(ts)
    && (forall t :: t in ts ==> Reached(s, from, t))
    && (forall t :: Reached(s, from, t) ==> t in ts || (ts != [] && limit <= ts[|ts| - 1] < t))
    && (forall i :: 0 <= i < |ts| - 1 ==> ts[i] < limit)
  }

  // ---------------------------------------------------------------- walk

  ghost predicate PastEnd(s: Schedule, k: int)
    requires s.zone.Some? && s.rule.Some?
  {
    !IsZero(s.end) && exists n :: InPeriod(s.rule.value, First(s), k, n) && At(s, n) > s.end
  }

  /** cs is the expansion of the k-th period. */
  ghost predicate IsPeriod(s: Schedule, k: int, cs: seq<Civil>)
    requires s.zone.Some? && s.rule.Some?
  {
    && Ascending(cs)
    && forall c :: c in cs <==> ValidDate(c) && InPeriod(s.rule.value, First(s), k, DayNumber(c))
  }

  /** What showing the occurrences of the k-th period comes to: seen were shown, and limit may have stopped it. */
  ghost predicate Delivered(s: Schedule, from: int, k: int, limit: int, stop: bool, seen: seq<int>)
    requires s.zone.Some? && s.rule.Some?
  {
    && Increasing(seen)
    && (forall t :: t in seen ==> HeldBy(s, from, k, t))
    && (forall t :: HeldBy(s, from, k, t) ==> t in seen || (stop && seen != [] && limit <= seen[|seen| - 1] < t))
    && (forall i :: 0 <= i < |seen| - 1 ==> seen[i] < limit)
    && (!stop && seen != [] ==> seen[|seen| - 1] < limit)
    && (stop && (seen == [] || seen[|seen| - 1] < limit) ==> PastEnd(s, k))
  }

  /** The dates of one period, shown to the visitor. */
  method VisitPeriod(s: Schedule, from: int, ghost k: int, cs: seq<Civil>, v0: Visitor)
    returns (v: Visitor, found: bool, stop: bool, ghost seen: seq<int>)
    requires ValidSchedule(s) && Sound(s) && s.rule.Some?
    requires IsPeriod(s, k, cs)
    ensures v == Shown(v0, seen)
    ensures found <==> seen != []
    ensures Delivered(s, from, k, v0.Limit(), stop, seen)
  {
    hide At, IsPeriod, Sound, ValidSchedule, DayNumber, Shown, Visitor.Visit, Visitor.Limit, Showing, Delivered, InRange, IsInstants;
    ZoneIsSet(s);
    ghost var ts := InstantsOfDates(s, from, k, cs);
    v, found, stop, seen := v0, false, false, [];
    ShowingNone(s, from, v0, ts);
    for i := 0 to |cs|
      invariant Showing(s, from, v0, ts, i, v, seen)
      invariant found <==> seen != []
    {
      var t := At(s, DayNumber(cs[i]));
      assert t == ts[i];
      if !IsZero(s.end) && t > s.end {
        DeliveredUpTo(s, from, k, v0, ts, i, true, v, seen);
        return v, found, true, seen;
      }
      if t < s.start || t < from {
        ShowingSkips(s, from, v0, ts, i, v, seen);
        continue;
      }
      found := true;
      var r := v.Visit(t);
      if !r.1 {
        DeliveredByStop(s, from, k, v0, ts, i, v, seen);
        return r.0, found, true, seen + [t];
      }
      ShowingOneMore(s, from, v0, ts, i, v, seen);
      seen := seen + [t];
      v := r.0;
    }
    DeliveredUpTo(s, from, k, v0, ts, |ts|, false, v, seen);
  }

  /** The first i instants of ts have been shown where they are wanted, and the visitor asked for more. */
  ghost predicate Showing(s: Schedule, from: int, v0: Visitor, ts: seq<int>, i: int, v: Visitor, seen: seq<int>) {
    && 0 <= i <= |ts|
    && v == Shown(v0, seen)
    && seen == Kept(s, from, ts[..i])
    && (seen != [] ==> seen[|seen| - 1] < v0.Limit())
  }

  lemma ShowingNone(s: Schedule, from: int, v0: Visitor, ts: seq<int>)
    ensures Showing(s, from, v0, ts, 0, v0, [])
  {
  }

  lemma ShowingSkips(s: Schedule, from: int, v0: Visitor, ts: seq<int>, i: nat, v: Visitor, seen: seq<int>)
    requires Showing(s, from, v0, ts, i, v, seen) && i < |ts| && (ts[i] < s.start || ts[i] < from)
    ensures Showing(s, from, v0, ts, i + 1, v, seen)
  {
    hide Shown, Kept;
    KeptNext(s, from, ts, i);
  }

  lemma ShowingOneMore(s: Schedule, from: int, v0: Visitor, ts: seq<int>, i: nat, v: Visitor, seen: seq<int>)
    requires Showing(s, from, v0, ts, i, v, seen) && i < |ts|
    requires s.start <= ts[i] && from <= ts[i] && (IsZero(s.end) || ts[i] <= s.end) && v.Visit(ts[i]).1
    ensures Showing(s, from, v0, ts, i + 1, v.Visit(ts[i]).0, seen + [ts[i]])
  {
    hide Kept;
    KeptNext(s, from, ts, i);
    ShownOneMore(v0, seen, ts[i]);
  }

  /** The instants of a list that are in the schedule's range and not before from. */
  ghost function Kept(s: Schedule, from: int, ts: seq<int>): seq<int> {
    if ts == [] then []
    else
      var last := ts[|ts| - 1];
      Kept(s, from, ts[..|ts| - 1]) + (if InRange(s, last) && from <= last then [last] else [])
  }

  lemma KeptNext(s: Schedule, from: int, ts: seq<int>, i: nat)
    requires i < |ts|
    ensures Kept(s, from, ts[..i + 1]) == Kept(s, from, ts[..i]) + (if InRange(s, ts[i]) && from <= ts[i] then [ts[i]] else [])
    ensures InRange(s, ts[i]) <==> s.start <= ts[i] && (IsZero(s.end) || ts[i] <= s.end)
  {
    assert ts[..i + 1][..i] == ts[..i];
  }

  lemma {:induction false} KeptMeaning(s: Schedule, from: int, ts: seq<int>)
    requires Increasing(ts)
    ensures Increasing(Kept(s, from, ts))
    ensures forall t :: t in Kept(s, from, ts) <==> t in ts && InRange(s, t) && from <= t
  {
    if ts != [] {
      var front := ts[..|ts| - 1];
      KeptMeaning(s, from, front);
      assert ts == front + [ts[|ts| - 1]];
      var kept := Kept(s, from, front);
      forall j | 0 <= j < |kept| ensures kept[j] < ts[|ts| - 1] {
        assert kept[j] in kept;
        var i :| 0 <= i < |front| && front[i] == kept[j];
        assert ts[i] < ts[|ts| - 1];
      }
    }
  }

  /** ts lists the instants of the k-th period of the schedule. */
  ghost predicate IsInstants(s: Schedule, from: int, k: int, ts: seq<int>)
    requires s.zone.Some? && s.rule.Some?
  {
    && Increasing(ts)
    && (forall t :: HeldBy(s, from, k, t) <==> InRange(s, t) && from <= t && t in ts)
    && (forall t :: t in ts && t > s.end && !IsZero(s.end) ==> PastEnd(s, k))
  }

  /** The period ran out, or one of its instants is past the schedule's end. */
  lemma DeliveredUpTo(s: Schedule, from: int, k: int, v0: Visitor, ts: seq<int>, i: nat, stop: bool, v: Visitor, seen: seq<int>)
    requires s.zone.Some? && s.rule.Some? && IsInstants(s, from, k, ts)
    requires Showing(s, from, v0, ts, i, v, seen)
    requires if stop then i < |ts| && !IsZero(s.end) && ts[i] > s.end else i == |ts|
    ensures v == Shown(v0, seen) && Delivered(s, from, k, v0.Limit(), stop, seen)
  {
    hide HeldBy, PastEnd, Kept, Shown;
    KeptMeaning(s, from, ts[..i]);
    assert ts == ts[..i] + ts[i..];
    if stop {
      assert ts[i] in ts;
      assert forall j :: i <= j < |ts| ==> ts[i] <= ts[j];
      assert forall t :: t in ts[i..] ==> !InRange(s, t);
    }
  }

  /** The visitor asked for no more when it was shown instant i. */
  lemma DeliveredByStop(s: Schedule, from: int, k: int, v0: Visitor, ts: seq<int>, i: nat, v: Visitor, seen: seq<int>)
    requires s.zone.Some? && s.rule.Some? && IsInstants(s, from, k, ts)
    requires Showing(s, from, v0, ts, i, v, seen) && i < |ts|
    requires s.start <= ts[i] && from <= ts[i] && (IsZero(s.end) || ts[i] <= s.end) && !v.Visit(ts[i]).1
    ensures v.Visit(ts[i]).0 == Shown(v0, seen + [ts[i]])
    ensures Delivered(s, from, k, v0.Limit(), true, seen + [ts[i]])
  {
    hide HeldBy, PastEnd, Kept, Visitor.Limit, Visitor.Visit, Shown, Delivered, IsInstants;
    ShownOneMore(v0, seen, ts[i]);
    KeptNext(s, from, ts, i);
    LastDelivered(s, from, k, v0.Limit(), ts, i);
  }

  lemma LastDelivered(s: Schedule, from: int, k: int, limit: int, ts: seq<int>, i: nat)
    requires s.zone.Some? && s.rule.Some? && IsInstants(s, from, k, ts) && i < |ts|
    requires var seen := Kept(s, from, ts[..i]); seen == [] || seen[|seen| - 1] < limit
    requires Kept(s, from, ts[..i + 1]) == Kept(s, from, ts[..i]) + [ts[i]] && limit <= ts[i]
    ensures Delivered(s, from, k, limit, true, Kept(s, from, ts[..i + 1]))
  {
    hide HeldBy, PastEnd, Kept, InRange;
    KeptMeaning(s, from, ts[..i + 1]);
    var all := Kept(s, from, ts[..i + 1]);
    forall j | 0 <= j < |all| - 1 ensures all[j] < limit {
      assert j < |all| - 2 ==> all[j] < all[|all| - 2];
    }
    forall t | t in ts ensures t in ts[..i + 1] || ts[i] < t {
      assert ts == ts[..i + 1] + ts[i + 1..];
    }
  }

  lemma ShownOneMore(v: Visitor, ts: seq<int>, t: int)
    ensures Shown(v, ts + [t]) == Shown(v, ts).Visit(t).0
  {
    assert (ts + [t])[..|ts|] == ts;
  }

  /** The dates of a period as instants: ascending, and those of the period's occurrences in range. */
  lemma InstantsOfDates(s: Schedule, from: int, k: int, cs: seq<Civil>) returns (ts: seq<int>)
    requires ValidSchedule(s) && Sound(s) && s.rule.Some?
    requires IsPeriod(s, k, cs)
    ensures |ts| == |cs| && forall j :: 0 <= j < |cs| ==> ts[j] == At(s, DayNumber(cs[j]))
    ensures IsInstants(s, from, k, ts)
  {
    hide At, First, DayNumber, ValidDate, InPeriod, WeekdaysKnown, ValidRule;
    ts := seq(|cs|, j requires 0 <= j < |cs| => At(s, DayNumber(cs[j])));
    forall j, p | 0 <= j < p < |cs| ensures ts[j] < ts[p] {
      AtAscends(s, DayNumber(cs[j]), DayNumber(cs[p]));
    }
    HeldInDates(s, from, k, cs);
    forall t | t in ts && t > s.end && !IsZero(s.end) ensures PastEnd(s, k) {
      var j :| 0 <= j < |cs| && ts[j] == t;
      assert cs[j] in cs;
    }
  }

  lemma HeldInDates(s: Schedule, from: int, k: int, cs: seq<Civil>)
    requires s.zone.Some? && s.rule.Some?
    requires IsPeriod(s, k, cs)
    ensures forall t :: HeldBy(s, from, k, t) <==> InRange(s, t) && from <= t && exists j :: 0 <= j < |cs| && At(s, DayNumber(cs[j])) == t
  {
    hide InPeriod, At, First, DayNumber, CivilOf, ValidDate, InRange;
    forall t | HeldBy(s, from, k, t) ensures exists j :: 0 <= j < |cs| && At(s, DayNumber(cs[j])) == t {
      var n :| InPeriod(s.rule.value, First(s), k, n) && At(s, n) == t;
      CivilOfIsValid(n);
      assert CivilOf(n) in cs;
    }
    forall t, j | 0 <= j < |cs| && At(s, DayNumber(cs[j])) == t && InRange(s, t) && from <= t ensures HeldBy(s, from, k, t) {
      assert cs[j] in cs;
    }
  }

  // ---------------------------------------------- what a finished walk saw

  /** One of the periods from the jump up to k holds t. */
  ghost predicate HeldBefore(s: Schedule, from: int, k: int, t: int)
    requires ValidSchedule(s) && s.rule.Some?
  {
    exists j :: Jump(s, from) <= j < k && HeldBy(s, from, j, t)
  }

  /** seen is everything held by the periods from the jump up to k, all of it below the limit. */
  ghost predicate WalkedTo(s: Schedule, from: int, limit: int, k: int, seen: seq<int>)
    requires ValidSchedule(s) && s.rule.Some?
  {
    && Increasing(seen)
    && (forall t :: t in seen <==> HeldBefore(s, from, k, t))
    && (forall i :: 0 <= i < |seen| ==> seen[i] < limit)
  }

  ghost predicate NoGiveUpBefore(s: Schedule, from: int, k: int)
    requires ValidSchedule(s) && s.rule.Some?
  {
    NoRunBefore(Barren(s, from), Jump(s, from), MAX_EMPTY_PERIODS, k)
  }

  /** What the periods walked so far hold, the walk reaches. */
  lemma HeldBeforeIsReached(s: Schedule, from: int, k: int, t: int)
    requires ValidSchedule(s) && Sound(s) && s.rule.Some?
    requires NoGiveUpBefore(s, from, k) && HeldBefore(s, from, k, t)
    ensures Reached(s, from, t)
  {
    hide HeldBy, RunEndsAt, Barren, Jump, Occurs, Sound, ValidSchedule;
    ZoneIsSet(s);
    HeldBySomePeriod(s, from, t);
    var j :| Jump(s, from) <= j < k && HeldBy(s, from, j, t);
    if Starved(s, from, t) {
      var h, i :| GivesUp(s, from, h) && h <= i && HeldBy(s, from, i, t);
      HeldInOrder(s, from, j, t, i, t);
    }
  }

  /** A reached occurrence is in some period that the jump did not skip. */
  lemma ReachedIsHeld(s: Schedule, from: int, t: int) returns (j: int)
    requires ValidSchedule(s) && Sound(s) && s.rule.Some?
    requires Reached(s, from, t)
    ensures Jump(s, from) <= j && HeldBy(s, from, j, t)
    ensures forall h :: GivesUp(s, from, h) ==> j < h
  {
    hide HeldBy, GivesUp, Occurs, Sound, ValidSchedule;
    ZoneIsSet(s);
    HeldBySomePeriod(s, from, t);
    var i: nat :| HeldBy(s, from, i, t);
    j := i;
    if j < Jump(s, from) { JumpLosesNothing(s, from, j); }
  }

  lemma GivenUpLists(s: Schedule, from: int, limit: int, k: int, seen: seq<int>)
    requires ValidSchedule(s) && Sound(s) && s.rule.Some?
    requires WalkedTo(s, from, limit, k, seen) && NoGiveUpBefore(s, from, k) && GivesUp(s, from, k)
    ensures Lists(s, from, limit, seen)
  {
    hide HeldBy, GivesUp, Reached, Sound, ValidSchedule, NoGiveUpBefore, Jump, HeldBefore;
    ZoneIsSet(s);
    forall t | t in seen ensures Reached(s, from, t) {
      HeldBeforeIsReached(s, from, k, t);
    }
    forall t | Reached(s, from, t) ensures t in seen {
      var j := ReachedIsHeld(s, from, t);
      HeldByIsHeldBefore(s, from, k, j, t);
    }
  }

  lemma PastEndIsLast(s: Schedule, from: int, k: int, j: int, t: int)
    requires ValidSchedule(s) && Sound(s) && s.rule.Some?
    requires PastEnd(s, k) && k < j
    ensures !HeldBy(s, from, j, t)
  {
    hide InPeriod, At, First, WeekdaysKnown, ValidRule;
    if HeldBy(s, from, j, t) {
      var n :| InPeriod(s.rule.value, First(s), j, n) && At(s, n) == t;
      var p :| InPeriod(s.rule.value, First(s), k, p) && At(s, p) > s.end;
      PeriodsInOrder(s.rule.value, First(s), k, j, p, n);
      AtAscends(s, p, n);
    }
  }

  lemma HeldByIsHeldBefore(s: Schedule, from: int, k: int, j: int, t: int)
    requires ValidSchedule(s) && s.rule.Some?
    requires Jump(s, from) <= j < k && HeldBy(s, from, j, t)
    ensures HeldBefore(s, from, k, t)
  {
  }

  lemma HeldBeforeNext(s: Schedule, from: int, k: int, t: int)
    requires ValidSchedule(s) && s.rule.Some? && Jump(s, from) <= k
    ensures HeldBefore(s, from, k + 1, t) <==> HeldBefore(s, from, k, t) || HeldBy(s, from, k, t)
  {
    hide HeldBy, ValidSchedule, Jump;
    ZoneIsSet(s);
  }

  lemma HeldBeforeIsEarlier(s: Schedule, from: int, k: int, t: int, u: int)
    requires ValidSchedule(s) && Sound(s) && s.rule.Some?
    requires HeldBefore(s, from, k, t) && HeldBy(s, from, k, u)
    ensures t < u
  {
    hide HeldBy, ValidSchedule, Sound, Jump;
    ZoneIsSet(s);
    var j :| Jump(s, from) <= j < k && HeldBy(s, from, j, t);
    HeldInOrder(s, from, j, t, k, u);
  }

  /** The occurrences of period k, appended to those of the periods before it, stay in order. */
  lemma AppendPeriod(s: Schedule, from: int, limit: int, k: int, seen: seq<int>, now: seq<int>, stop: bool)
    requires ValidSchedule(s) && Sound(s) && s.rule.Some?
    requires Jump(s, from) <= k && WalkedTo(s, from, limit, k, seen)
    requires Delivered(s, from, k, limit, stop, now)
    ensures Increasing(seen + now)
    ensures forall t :: t in seen + now ==> HeldBefore(s, from, k + 1, t)
    ensures !stop ==> WalkedTo(s, from, limit, k + 1, seen + now)
  {
    hide HeldBy, Sound, ValidSchedule, Jump, PastEnd, HeldBefore;
    ZoneIsSet(s);
    forall t, u | t in seen && u in now ensures t < u {
      HeldBeforeIsEarlier(s, from, k, t, u);
    }
    InOrder(seen, now);
    forall t ensures HeldBefore(s, from, k + 1, t) <==> HeldBefore(s, from, k, t) || HeldBy(s, from, k, t) {
      HeldBeforeNext(s, from, k, t);
    }
  }

  lemma InOrder(a: seq<int>, b: seq<int>)
    requires Increasing(a) && Increasing(b)
    requires forall t, u :: t in a && u in b ==> t < u
    ensures Increasing(a + b)
  {
    forall i, j | 0 <= i < j < |a + b| ensures (a + b)[i] < (a + b)[j] {
      if i < |a| <= j { assert (a + b)[i] in a && (a + b)[j] in b; }
    }
  }

  /** The occurrences after those of a period at which the walk stopped. */
  lemma AfterStop(s: Schedule, from: int, limit: int, k: int, now: seq<int>, j: int, t: int)
    requires ValidSchedule(s) && Sound(s) && s.rule.Some?
    requires Delivered(s, from, k, limit, true, now) && k < j && HeldBy(s, from, j, t)
    ensures now != [] && limit <= now[|now| - 1] < t
  {
    hide HeldBy, PastEnd, Sound, ValidSchedule;
    ZoneIsSet(s);
    if now == [] || now[|now| - 1] < limit {
      PastEndIsLast(s, from, k, j, t);
    } else {
      assert now[|now| - 1] in now;
      HeldInOrder(s, from, k, now[|now| - 1], j, t);
    }
  }

  lemma StoppedLists(s: Schedule, from: int, limit: int, k: int, seen: seq<int>, now: seq<int>)
    requires ValidSchedule(s) && Sound(s) && s.rule.Some?
    requires Jump(s, from) <= k && WalkedTo(s, from, limit, k, seen)
    requires NoGiveUpBefore(s, from, k + 1) && Delivered(s, from, k, limit, true, now)
    ensures Lists(s, from, limit, seen + now)
  {
    hide HeldBy, GivesUp, Reached, Sound, ValidSchedule, NoGiveUpBefore, Jump, PastEnd, HeldBefore;
    ZoneIsSet(s);
    AppendPeriod(s, from, limit, k, seen, now, true);
    forall t | t in seen + now ensures Reached(s, from, t) {
      HeldBeforeIsReached(s, from, k + 1, t);
    }
    forall t | Reached(s, from, t) && t !in seen + now ensures now != [] && limit <= now[|now| - 1] < t {
      var j := ReachedIsHeld(s, from, t);
      if j < k { HeldByIsHeldBefore(s, from, k, j, t); }
      if j > k { AfterStop(s, from, limit, k, now, j, t); }
    }
  }

  ghost predicate IsFar(s: Schedule, from: int, limit: int, far: int)
    requires s.zone.Some? && s.rule.Some?
  {
    forall k, t :: far <= k && HeldBy(s, from, k, t) ==> limit <= t
  }

  /** Far enough on, every occurrence is at or past the limit: what makes an endless walk end. */
  lemma FarPeriods(s: Schedule, from: int, limit: int) returns (far: int)
    requires ValidSchedule(s) && Sound(s) && s.rule.Some?
    ensures IsFar(s, from, limit, far)
  {
    hide InPeriod, At, First, WeekdaysKnown, ValidRule, InRange;
    var n := FarDays(s, limit);
    var r, first := s.rule.value, First(s);
    far := if Index(r.freq, n) - Index(r.freq, DayNumber(first)) < 0 then 1 else Index(r.freq, n) - Index(r.freq, DayNumber(first)) + 1;
    forall k, t | far <= k && HeldBy(s, from, k, t) ensures limit <= t {
      var p :| InPeriod(r, first, k, p) && At(s, p) == t;
      if p < n { PeriodIsNotBefore(r, first, k, p, n); }
    }
  }

  lemma PeriodIsNotBefore(r: Rule, first: Civil, k: int, p: int, n: int)
    requires ValidRule(r) && InPeriod(r, first, k, p) && p <= n && k >= 0
    ensures k <= Index(r.freq, n) - Index(r.freq, DayNumber(first))
  {
    hide Index, Selected;
    IndexMonotone(r.freq, p, n);
    assert k <= k * r.interval;
  }

  lemma FarDays(s: Schedule, limit: int) returns (n: int)
    requires s.zone.Some? && NarrowZone(s.zone.value)
    ensures forall p :: n <= p ==> limit <= At(s, p)
  {
    var lo :| OffsetsWithin(s.zone.value, lo);
    n := (limit + lo + DAY) / DAY + 1;
    var clock := TimeOfDay(s.zone.value, s.start) / SECOND * SECOND;
    ClockIsInDay(TimeOfDay(s.zone.value, s.start));
    hide TimeOfDay;
    forall p | n <= p ensures limit <= At(s, p) {
      assert n * DAY <= p * DAY;
      assert s.zone.value.wallOffset(p * DAY + clock) < lo + DAY;
    }
  }

  // ---------------------------------------------------------------- walk

  /** The state of the walk before period k: what has been shown, and how long it has been without an occurrence. */
  ghost predicate Walking(s: Schedule, from: int, v0: Visitor, k: int, empty: int, v: Visitor, seen: seq<int>)
    requires ValidSchedule(s) && s.rule.Some?
  {
    && Jump(s, from) <= k && 0 <= empty <= MAX_EMPTY_PERIODS
    && v == Shown(v0, seen)
    && WalkedTo(s, from, v0.Limit(), k, seen)
    && Counts(Barren(s, from), Jump(s, from), MAX_EMPTY_PERIODS, k, empty)
  }

  lemma WalkBegins(s: Schedule, from: int, v: Visitor)
    requires ValidSchedule(s) && s.rule.Some?
    ensures Walking(s, from, v, Jump(s, from), 0, v, [])
  {
    hide HeldBy, Unproductive, Jump, ValidSchedule;
    ZoneIsSet(s);
  }

  lemma WalkGoesOn(s: Schedule, from: int, v0: Visitor, far: int, k: int, empty: int, v: Visitor, seen: seq<int>, now: seq<int>)
    requires ValidSchedule(s) && Sound(s) && s.rule.Some?
    requires Walking(s, from, v0, k, empty, v, seen) && empty < MAX_EMPTY_PERIODS
    requires Delivered(s, from, k, v0.Limit(), false, now) && IsFar(s, from, v0.Limit(), far)
    ensures Walking(s, from, v0, k + 1, if now == [] then empty + 1 else 0, Shown(v, now), seen + now)
    ensures now != [] ==> k < far
  {
    hide HeldBy, Jump, ValidSchedule, Sound, Counts, WalkedTo, Unproductive, Delivered, Shown;
    ZoneIsSet(s);
    DeliveredProductive(s, from, k, v0.Limit(), now);
    AppendPeriod(s, from, v0.Limit(), k, seen, now, false);
    CountsOn(Barren(s, from), Jump(s, from), MAX_EMPTY_PERIODS, k, empty);
    ShownMore(v0, seen, now);
  }

  lemma WalkStops(s: Schedule, from: int, v0: Visitor, k: int, empty: int, v: Visitor, seen: seq<int>, now: seq<int>)
    requires ValidSchedule(s) && Sound(s) && s.rule.Some?
    requires Walking(s, from, v0, k, empty, v, seen) && empty < MAX_EMPTY_PERIODS
    requires Delivered(s, from, k, v0.Limit(), true, now)
    ensures Shown(v, now) == Shown(v0, seen + now) && Lists(s, from, v0.Limit(), seen + now)
  {
    hide HeldBy, Jump, ValidSchedule, Sound, Counts, WalkedTo, Delivered, Shown, Lists, NoRunBefore, Barren;
    ZoneIsSet(s);
    CountsOn(Barren(s, from), Jump(s, from), MAX_EMPTY_PERIODS, k, empty);
    StoppedLists(s, from, v0.Limit(), k, seen, now);
    ShownMore(v0, seen, now);
  }

  lemma WalkGivesUp(s: Schedule, from: int, v0: Visitor, k: int, v: Visitor, seen: seq<int>)
    requires ValidSchedule(s) && Sound(s) && s.rule.Some?
    requires Walking(s, from, v0, k, MAX_EMPTY_PERIODS, v, seen)
    ensures v == Shown(v0, seen) && Lists(s, from, v0.Limit(), seen)
  {
    hide HeldBy, Jump, ValidSchedule, Sound, WalkedTo, Shown, Lists, RunEndsAt, NoRunBefore, Barren;
    ZoneIsSet(s);
    GivenUpLists(s, from, v0.Limit(), k, seen);
  }

  /** For a sound schedule the expansion answers, and gives the rule's own dates. */
  lemma PeriodOfSchedule(s: Schedule, k: int, cs: Option<seq<Civil>>)
    requires ValidSchedule(s) && Sound(s) && s.rule.Some?
    requires cs.None? <==> OutOfRange(s.rule.value, First(s), k)
    requires cs.Some? ==> Ascending(cs.value)
    requires cs.Some? ==>
      forall c :: c in cs.value <==> ValidDate(c) && Expanded(s.rule.value, First(s), k, DayNumber(c))
    ensures cs.Some? && IsPeriod(s, k, cs.value)
  {
    hide First, ValidDate, InPeriod, DayNumber, Ascending, Expanded, OutOfRange, ValidSchedule, Sound, WeekdaysKnown, ValidRule;
    ZoneIsSet(s);
    RuleOfSchedule(s);
    KnownStaysInRange(s.rule.value, First(s), k);
    forall n ensures Expanded(s.rule.value, First(s), k, n) <==> InPeriod(s.rule.value, First(s), k, n) {
      ExpandedIsMeant(s.rule.value, First(s), k, n);
    }
  }

  /** One turn of the walk: expand period k and show its occurrences. */
  method WalkPeriod(s: Schedule, first: Civil, from: int, ghost v0: Visitor, ghost far: int,
      k: nat, ghost empty: int, v: Visitor, ghost seen: seq<int>)
    returns (next: Visitor, found: bool, stop: bool, ghost all: seq<int>)
    requires ValidSchedule(s) && Sound(s) && s.rule.Some? && first == First(s)
    requires Walking(s, from, v0, k, empty, v, seen) && empty < MAX_EMPTY_PERIODS
    requires IsFar(s, from, v0.Limit(), far)
    ensures stop ==> next == Shown(v0, all) && Lists(s, from, v0.Limit(), all)
    ensures !stop ==> Walking(s, from, v0, k + 1, if found then 0 else empty + 1, next, all)
    ensures !stop && found ==> k < far
  {
    hide First, CivilOf, LocalDay, ValidRule, WeekdaysKnown, Walking, Lists, Delivered, Shown, HeldBy, Visitor.Limit,
      ValidDate, InPeriod, DayNumber, ValidSchedule, Sound, Jump, Ascending, IsPeriod, IsFar;
    ZoneIsSet(s);
    RuleOfSchedule(s);
    var period := Period(s.rule.value, first, k);
    PeriodOfSchedule(s, k, period);
    var cs := period.value;
    ghost var now;
    next, found, stop, now := VisitPeriod(s, from, k, cs, v);
    SameLimit(s, from, v0, k, empty, v, seen);
    all := seen + now;
    if stop {
      WalkStops(s, from, v0, k, empty, v, seen, now);
    } else {
      WalkGoesOn(s, from, v0, far, k, empty, v, seen, now);
    }
  }

  lemma JumpOfWalk(s: Schedule, from: int)
    requires ValidSchedule(s) && s.rule.Some?
    ensures ValidRule(s.rule.value) && First(s) == CivilOf(LocalDay(s.zone.value, s.start))
    ensures Jump(s, from) == if from > s.start then StartPeriod(s.rule.value, First(s), CivilOf(LocalDay(s.zone.value, from))) else 0
  {
    hide CivilOf, LocalDay, StartPeriod, PeriodsBetween, ValidRule;
  }

  method WalkRule(s: Schedule, from: int, v0: Visitor) returns (v: Visitor, ghost seen: seq<int>)
    requires ValidSchedule(s) && Sound(s) && s.rule.Some?
    ensures v == Shown(v0, seen)
    ensures Lists(s, from, v0.Limit(), seen)
  {
    hide First, StartPeriod, PeriodsBetween, Walking, Lists, Shown, HeldBy, Visitor.Limit, ValidSchedule, ValidRule,
      Sound, Jump, CivilOf, LocalDay, IsFar;
    ZoneIsSet(s);
    JumpOfWalk(s, from);
    var rule, first := s.rule.value, CivilOf(LocalDay(s.zone.value, s.start));
    var k: nat := 0;
    if from > s.start {
      k := StartPeriod(rule, first, CivilOf(LocalDay(s.zone.value, from)));
    }
    ghost var far := FarPeriods(s, from, v0.Limit());
    v, seen := v0, [];
    WalkBegins(s, from, v0);
    var empty := 0;
    while empty < MAX_EMPTY_PERIODS
      invariant 0 <= empty <= MAX_EMPTY_PERIODS
      invariant Walking(s, from, v0, k, empty, v, seen)
      decreases if k < far then far - k else 0, MAX_EMPTY_PERIODS - empty
    {
      var found, stop;
      v, found, stop, seen := WalkPeriod(s, first, from, v0, far, k, empty, v, seen);
      if stop {
        return;
      }
      if found {
        empty := 0;
      } else {
        empty := empty + 1;
      }
      k := k + 1;
    }
    WalkGivesUp(s, from, v0, k, v, seen);
  }

  lemma SameLimit(s: Schedule, from: int, v0: Visitor, k: int, empty: int, v: Visitor, seen: seq<int>)
    requires ValidSchedule(s) && s.rule.Some? && Walking(s, from, v0, k, empty, v, seen)
    ensures v.Limit() == v0.Limit()
  {
  }

  lemma DeliveredProductive(s: Schedule, from: int, k: int, limit: int, now: seq<int>)
    requires s.zone.Some? && s.rule.Some?
    requires Delivered(s, from, k, limit, false, now)
    ensures Unproductive(s, from, k) <==> now == []
    ensures now != [] ==> HeldBy(s, from, k, now[|now| - 1]) && now[|now| - 1] < limit
  {
    hide HeldBy;
    if now != [] { assert now[|now| - 1] in now; }
  }

  lemma {:induction false} ShownMore(v: Visitor, seen: seq<int>, now: seq<int>)
    ensures Shown(Shown(v, seen), now) == Shown(v, seen + now)
  {
    if now == [] {
      assert seen + now == seen;
    } else {
      ShownMore(v, seen, now[..|now| - 1]);
      assert (seen + now)[..|seen + now| - 1] == seen + now[..|now| - 1];
    }
  }

  // ------------------------------------------------------- lists of dates

  /** The first i instants of a sorted list have been shown where they are wanted, repeats once. */
  ghost predicate ShowingDates(s: Schedule, from: int, v0: Visitor, ts: seq<int>, i: int, v: Visitor, seen: seq<int>) {
    && 0 <= i <= |ts|
    && v == Shown(v0, seen)
    && Increasing(seen)
    && (forall t :: t in seen <==> t in ts[..i] && InRange(s, t) && from <= t)
    && (forall j :: 0 <= j < |seen| ==> seen[j] < v0.Limit())
  }

  /** ts holds the instants of the schedule's dates, earliest first. */
  ghost predicate IsDateList(s: Schedule, ts: seq<int>)
    requires s.zone.Some?
  {
    && (forall i, j :: 0 <= i < j < |ts| ==> ts[i] <= ts[j])
    && (forall t :: t in ts <==> exists d :: d in s.dates && At(s, DayNumber(d)) == t)
  }

  lemma ShowingDatesNone(s: Schedule, from: int, v0: Visitor, ts: seq<int>)
    ensures ShowingDates(s, from, v0, ts, 0, v0, [])
  {
  }

  lemma ShowingDatesSkips(s: Schedule, from: int, v0: Visitor, ts: seq<int>, i: nat, v: Visitor, seen: seq<int>)
    requires ShowingDates(s, from, v0, ts, i, v, seen) && i < |ts|
    requires (i > 0 && ts[i] == ts[i - 1]) || !InRange(s, ts[i]) || ts[i] < from
    ensures ShowingDates(s, from, v0, ts, i + 1, v, seen)
  {
    hide Shown, InRange;
    assert ts[..i + 1] == ts[..i] + [ts[i]];
    if i > 0 { assert ts[i - 1] in ts[..i]; }
  }

  lemma ShowingDatesOneMore(s: Schedule, from: int, v0: Visitor, ts: seq<int>, i: nat, v: Visitor, seen: seq<int>)
    requires s.zone.Some? && IsDateList(s, ts)
    requires ShowingDates(s, from, v0, ts, i, v, seen) && i < |ts|
    requires i == 0 || ts[i] != ts[i - 1]
    requires InRange(s, ts[i]) && from <= ts[i]
    ensures Increasing(seen + [ts[i]])
    ensures v.Visit(ts[i]).0 == Shown(v0, seen + [ts[i]])
    ensures v.Visit(ts[i]).1 ==> ShowingDates(s, from, v0, ts, i + 1, v.Visit(ts[i]).0, seen + [ts[i]])
  {
    hide Shown, InRange, At, DayNumber, Visitor.Visit;
    ShownOneMore(v0, seen, ts[i]);
    assert ts[..i + 1] == ts[..i] + [ts[i]];
    assert forall j :: 0 <= j < |seen| ==> seen[j] in seen;
  }

  lemma DateListReached(s: Schedule, from: int, ts: seq<int>)
    requires ValidSchedule(s) && s.rule.None? && IsDateList(s, ts)
    ensures forall t :: Reached(s, from, t) <==> t in ts && InRange(s, t) && from <= t
  {
    hide At, InRange, DayNumber, ValidDate;
    forall t ensures Reached(s, from, t) <==> t in ts && InRange(s, t) && from <= t {
      if Reached(s, from, t) {
        var n :| NamesDay(s, n) && At(s, n) == t;
      }
      if t in ts && InRange(s, t) && from <= t {
        var d :| d in s.dates && At(s, DayNumber(d)) == t;
        assert NamesDay(s, DayNumber(d));
      }
    }
  }

  lemma DatesListed(s: Schedule, from: int, v0: Visitor, ts: seq<int>, v: Visitor, seen: seq<int>)
    requires ValidSchedule(s) && s.rule.None? && IsDateList(s, ts)
    requires ShowingDates(s, from, v0, ts, |ts|, v, seen)
    ensures v == Shown(v0, seen) && Lists(s, from, v0.Limit(), seen)
  {
    hide Shown, Reached, IsDateList, InRange, ValidSchedule;
    DateListReached(s, from, ts);
    assert ts[..|ts|] == ts;
  }

  lemma DatesStopped(s: Schedule, from: int, v0: Visitor, ts: seq<int>, i: nat, v: Visitor, seen: seq<int>)
    requires ValidSchedule(s) && s.rule.None? && IsDateList(s, ts)
    requires ShowingDates(s, from, v0, ts, i, v, seen) && i < |ts|
    requires InRange(s, ts[i]) && from <= ts[i] && v0.Limit() <= ts[i]
    requires Increasing(seen + [ts[i]])
    ensures Lists(s, from, v0.Limit(), seen + [ts[i]])
  {
    hide Shown, Reached, At, InRange, ValidSchedule, DayNumber;
    DateListReached(s, from, ts);
    forall t | t in ts ensures t in ts[..i] || ts[i] <= t {
      assert ts == ts[..i] + ts[i..];
    }
  }

  function DateInstants(s: Schedule): (ts: seq<int>)
    requires s.zone.Some?
    ensures |ts| == |s.dates|
    ensures forall i :: 0 <= i < |s.dates| ==> ts[i] == At(s, DayNumber(s.dates[i]))
  {
    hide At, DayNumber;
    seq(|s.dates|, i requires 0 <= i < |s.dates| => At(s, DayNumber(s.dates[i])))
  }

  lemma SortedDates(s: Schedule)
    requires s.zone.Some?
    ensures IsDateList(s, Sort((t, u) => t < u, DateInstants(s)))
  {
    hide At, DayNumber, Sort, DateInstants;
    var less := (t: int, u: int) => t < u;
    SortIsSorted(less, DateInstants(s));
    SortIsPermutation(less, DateInstants(s));
  }

  method WalkDates(s: Schedule, from: int, v0: Visitor) returns (v: Visitor, ghost seen: seq<int>)
    requires ValidSchedule(s) && s.rule.None?
    ensures v == Shown(v0, seen)
    ensures Lists(s, from, v0.Limit(), seen)
  {
    hide At, DayNumber, Sort, DateInstants, IsDateList, ShowingDates, ValidSchedule, Shown, Lists,
      Visitor.Visit, Visitor.Limit, Increasing, InRange;
    ZoneIsSet(s);
    SortedDates(s);
    var ts := Sort((t, u) => t < u, DateInstants(s));
    v, seen := v0, [];
    ShowingDatesNone(s, from, v0, ts);
    for i := 0 to |ts|
      invariant ShowingDates(s, from, v0, ts, i, v, seen)
    {
      var t := ts[i];
      if i > 0 && t == ts[i - 1] {
        ShowingDatesSkips(s, from, v0, ts, i, v, seen);
        continue;
      }
      if InRange(s, t) && from <= t {
        ShowingDatesOneMore(s, from, v0, ts, i, v, seen);
        var r := v.Visit(t);
        if !r.1 {
          SameLimitShown(s, from, v0, ts, i, v, seen);
          DatesStopped(s, from, v0, ts, i, v, seen);
          return r.0, seen + [t];
        }
        v, seen := r.0, seen + [t];
      } else {
        ShowingDatesSkips(s, from, v0, ts, i, v, seen);
      }
    }
    DatesListed(s, from, v0, ts, v, seen);
  }

  lemma SameLimitShown(s: Schedule, from: int, v0: Visitor, ts: seq<int>, i: int, v: Visitor, seen: seq<int>)
    requires ShowingDates(s, from, v0, ts, i, v, seen)
    ensures v.Limit() == v0.Limit()
  {
    hide InRange;
  }

  // ----------------------------------------------------------- the queries

  /** The visitor was shown exactly what can be reached, in order, up to where it had enough. */
  ghost predicate ShownWalk(s: Schedule, from: int, v0: Visitor, v: Visitor) {
    exists ts :: Lists(s, from, v0.Limit(), ts) && v == Shown(v0, ts)
  }

  /** The walk all queries share. */
  method Walk(s: Schedule, from: int, v0: Visitor) returns (v: Visitor)
    requires Sound(s)
    ensures ShownWalk(s, from, v0, v)
  {
    hide Sound, Lists;
    if !ValidSchedule(s) {
      NothingReached(s, from, v0);
      return v0;
    }
    ghost var seen;
    if s.rule.None? {
      v, seen := WalkDates(s, from, v0);
    } else {
      v, seen := WalkRule(s, from, v0);
    }
  }

  lemma NothingReached(s: Schedule, from: int, v0: Visitor)
    requires !ValidSchedule(s)
    ensures Lists(s, from, v0.Limit(), []) && v0 == Shown(v0, [])
  {
  }
}
