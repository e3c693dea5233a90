/**
  The gate: which routes anyone may call, by an allowlist of actions, and the two
  halves a table is mounted as, one that asks the authorizer and one that does not.
 */
module Gates {
  import opened Sorting
  import opened Operations
  import opened Routes
  import opened Serving

  datatype Split = Split(anonymous: seq<Route>, gated: seq<Route>)

  /** The allowlist names the route's action, and those of all its alternatives. */
  predicate OpenTo(r: Route, allowed: set<string>) {
    r.action != "" && r.action in allowed && forall a :: a in r.alternatives ==> a in allowed
  }

  function Kept(routes: seq<Route>, allowed: set<string>, open: bool): seq<Route> {
    if routes == [] then []
    else
      var r := routes[|routes| - 1];
      Kept(routes[..|routes| - 1], allowed, open) + if OpenTo(r, allowed) == open then [r] else []
  }

  method AllAllowed(allowed: set<string>, actions: seq<string>) returns (all: bool)
    ensures all <==> forall a :: a in actions ==> a in allowed
  {
    for i := 0 to |actions|
      invariant forall a :: a in actions[..i] ==> a in allowed
    {
      assert actions[..i + 1] == actions[..i] + [actions[i]];
      if actions[i] !in allowed { return false; }
    }
    assert actions[..|actions|] == actions;
    all := true;
  }

  /** Each route to one half, in order. */
  method Anonymous(routes: seq<Route>, actions: seq<string>) returns (split: Split)
    ensures split.anonymous == Kept(routes, set a | a in actions, true)
    ensures split.gated == Kept(routes, set a | a in actions, false)
  {
    var allowed: set<string> := {};
    for i := 0 to |actions|
      invariant allowed == set a | a in actions[..i]
    {
      assert actions[..i + 1] == actions[..i] + [actions[i]];
      allowed := allowed + {actions[i]};
    }
    assert actions[..|actions|] == actions;
    split := Split([], []);
    for i := 0 to |routes|
      invariant split.anonymous == Kept(routes[..i], allowed, true) && split.gated == Kept(routes[..i], allowed, false)
    {
      assert routes[..i + 1][..i] == routes[..i];
      var r := routes[i];
      var all := AllAllowed(allowed, r.alternatives);
      if r.action != "" && r.action in allowed && all {
        split := split.(anonymous := split.anonymous + [r]);
        continue;
      }
      split := split.(gated := split.gated + [r]);
    }
    assert routes[..|routes|] == routes;
  }

  /** The halves share no route and lose none. */
  lemma {:induction false} HalvesPartition(routes: seq<Route>, allowed: set<string>)
    ensures multiset(Kept(routes, allowed, true)) + multiset(Kept(routes, allowed, false)) == multiset(routes)
  {
    hide OpenTo, Kept;
    NothingKept(allowed);
    if routes != [] {
      var k := |routes| - 1;
      HalvesPartition(routes[..k], allowed);
      KeptNext(routes, allowed, true);
      KeptNext(routes, allowed, false);
      OneMore(routes[..k], routes[k]);
      OneMore(Kept(routes[..k], allowed, OpenTo(routes[k], allowed)), routes[k]);
      assert routes == routes[..k] + [routes[k]];
    }
  }

  lemma NothingKept(allowed: set<string>)
    ensures Kept([], allowed, true) == [] && Kept([], allowed, false) == []
  {
  }

  lemma KeptNext(routes: seq<Route>, allowed: set<string>, open: bool)
    requires routes != []
    ensures
      var k := |routes| - 1;
      var before := Kept(routes[..k], allowed, open);
      Kept(routes, allowed, open) == if OpenTo(routes[k], allowed) == open then before + [routes[k]] else before
  {
    hide OpenTo;
  }

  lemma OneMore(routes: seq<Route>, r: Route)
    ensures multiset(routes + [r]) == multiset(routes) + multiset{r}
  {
  }

  lemma {:induction false} KeptAre(routes: seq<Route>, allowed: set<string>, open: bool, r: Route)
    ensures r in Kept(routes, allowed, open) <==> r in routes && OpenTo(r, allowed) == open
  {
    hide OpenTo;
    if routes != [] {
      KeptAre(routes[..|routes| - 1], allowed, open, r);
      assert routes == routes[..|routes| - 1] + [routes[|routes| - 1]];
    }
  }

  /** A route in the open half has an action, and every action of it is on the list; every such route is there. */
  lemma OpenHalf(routes: seq<Route>, allowed: set<string>, r: Route)
    ensures r in Kept(routes, allowed, true) <==>
      r in routes && r.action != "" && forall a :: a == r.action || a in r.alternatives ==> a in allowed
  {
    KeptAre(routes, allowed, true, r);
  }

  // -------------------------------------------- what the gate lets pass

  /** The actions of a route are those of the operations at its address. */
  lemma ActionsOfRoute(base: string, ops: seq<Operation>, asks: bool, op: Operation, action: string)
    requires Sound(ops) && op in ops
    ensures Group(ops, AddressOf(op)) != [] && DefaultOf(Group(ops, AddressOf(op))).Some?
    ensures
      var r := RouteFor(base, ops, asks, AddressOf(op));
      (action == r.action || action in r.alternatives) <==>
        exists o :: o in Group(ops, AddressOf(op)) && o.action == action
  {
    hide AddressOf, Group, DefaultOf, Sort, Selected;
    FirstOfAddress(ops, op);
    var group := Group(ops, AddressOf(op));
    DefaultIsIn(group, op);
    var default := DefaultOf(group).value;
    var r := RouteFor(base, ops, asks, AddressOf(op));
    GroupApart(ops, AddressOf(op));
    if |group| != 1 {
      forall o ensures o in Selected(group) <==> o in group && o.whenQuery != "" {
        SelectedAre(group, o);
      }
      if o :| o in group && o.action == action {
        if o.whenQuery == "" {
          SelectorIsOne(group, o, default);
        } else {
          var i :| 0 <= i < |Selected(group)| && Selected(group)[i] == o;
          assert Actions(Selected(group))[i] == action;
        }
      }
    }
  }

  /** A route is open exactly when every operation a request to it can run is on the allowlist. */
  lemma OpenIsEveryAnswer(base: string, ops: seq<Operation>, asks: bool, op: Operation, allowed: set<string>)
    requires Sound(ops) && op in ops && forall o :: o in ops ==> o.action != ""
    ensures Group(ops, AddressOf(op)) != [] && DefaultOf(Group(ops, AddressOf(op))).Some?
    ensures
      var r := RouteFor(base, ops, asks, AddressOf(op));
      OpenTo(r, allowed) <==> forall q :: Served(r, q).action in allowed
  {
    hide AddressOf, Group, DefaultOf, Served, RouteFor, Sound, Present;
    FirstOfAddress(ops, op);
    var a := AddressOf(op);
    var group := Group(ops, a);
    var r := RouteFor(base, ops, asks, a);
    ActionsOfRoute(base, ops, asks, op, r.action);
    GroupHolds(ops, a, group[0]);
    forall o | o in group ensures o in ops && AddressOf(o) == a && Served(r, Asking(o)) == o {
      GroupHolds(ops, a, o);
      EveryOperationReached(base, ops, asks, o);
    }
    if OpenTo(r, allowed) {
      forall q ensures Served(r, q).action in allowed {
        RequestIsAnswered(base, ops, asks, op, q);
        ActionsOfRoute(base, ops, asks, op, Served(r, q).action);
      }
    }
    if forall q :: Served(r, q).action in allowed {
      forall x | x == r.action || x in r.alternatives ensures x in allowed {
        ActionsOfRoute(base, ops, asks, op, x);
        var o :| o in group && o.action == x;
        assert Served(r, Asking(o)) == o;
      }
    }
  }

  // ------------------------------------------------ the mounted halves

  predicate Asks(r: Route) {
    r.handler.asks
  }

  /** The operations that a valid declaration dispatches, in the order of their names. */
  method DispatchedOperations(s: Spec) returns (ops: seq<Operation>)
    requires Valid(s)
    ensures Sound(ops) && (forall o :: o in ops ==> o.action != "")
    ensures forall o :: o in ops <==> exists n :: n in s.operations && s.operations[n] == o && !o.handled
  {
    hide WellDeclared, AddressOf, ActionsApart, RequestsApart, AllDefaulted, Sound;
    var names := SortedKeys(s.operations);
    ops := [];
    for i := 0 to |names|
      invariant ops == Dispatched(s, names[..i])
    {
      assert names[..i + 1][..i] == names[..i];
      var op := s.operations[names[i]];
      if op.handled {
        assert ops + [] == ops;
        continue;
      }
      ops := ops + [op];
    }
    assert names[..|names|] == names;
    DispatchedIsSound(s, names);
    forall o ensures o in ops <==> exists n :: n in s.operations && s.operations[n] == o && !o.handled {
      DispatchedAre(s, names, o);
    }
    forall o | o in ops ensures o.action != "" {
      var n :| n in s.operations && s.operations[n] == o && !o.handled;
      assert Declared(s, n);
      HasAction(n, o);
    }
  }

  lemma HasAction(name: string, op: Operation)
    requires WellDeclared(name, op)
    ensures op.action != ""
  {
  }

  /**
    The table mounted twice: the open routes, whose handlers ask nobody, and the
    gated routes, whose handlers ask about every action.
   */
  method MountSplit(s: Spec, allowlist: seq<string>) returns (split: Split, ops: seq<Operation>)
    requires Valid(s)
    ensures Sound(ops) && (forall o :: o in ops ==> o.action != "")
    ensures forall o :: o in ops <==> exists n :: n in s.operations && s.operations[n] == o && !o.handled
    ensures
      var allowed := set a | a in allowlist;
      && split.anonymous == Kept(Merged(s.base, ops, false, |ops|), allowed, true)
      && split.gated == Kept(Merged(s.base, ops, true, |ops|), allowed, false)
  {
    ops := DispatchedOperations(s);
    SoundAnswered(ops);
    var open := MergeAlternatives(s.base, ops, false);
    var gated := MergeAlternatives(s.base, ops, true);
    var a := Anonymous(open, allowlist);
    var g := Anonymous(gated, allowlist);
    split := Split(a.anonymous, g.gated);
  }

  /**
    Whatever the request, an operation runs without the authorizer having been asked
    about its action only if the allowlist names that action.
   */
  lemma NothingSlipsThrough(base: string, ops: seq<Operation>, allowed: set<string>, r: Route, q: Query)
    requires Sound(ops) && forall o :: o in ops ==> o.action != ""
    requires r in Kept(Merged(base, ops, false, |ops|), allowed, true) || r in Kept(Merged(base, ops, true, |ops|), allowed, false)
    ensures Asks(r) || Served(r, q).action in allowed
  {
    hide AddressOf, Group, DefaultOf, Served, RouteFor, OpenTo, Addresses, Merged, Kept, Sound;
    SoundAnswered(ops);
    var open := r in Kept(Merged(base, ops, false, |ops|), allowed, true);
    KeptAre(Merged(base, ops, !open, |ops|), allowed, open, r);
    var i :| 0 <= i < |Merged(base, ops, !open, |ops|)| && Merged(base, ops, !open, |ops|)[i] == r;
    var op := RouteOf(base, ops, !open, i);
    assert ops[..|ops|] == ops;
    MergedAre(base, ops, !open, |ops|);
    RouteAsks(base, ops, !open, AddressOf(op));
    OpenIsEveryAnswer(base, ops, !open, op, allowed);
  }

  lemma RouteAsks(base: string, ops: seq<Operation>, asks: bool, a: string)
    requires Group(ops, a) != [] && DefaultOf(Group(ops, a)).Some?
    ensures Asks(RouteFor(base, ops, asks, a)) == asks
  {
    hide Group, DefaultOf;
  }

  predicate HasRoute(half: seq<Route>, base: string, op: Operation) {
    exists r :: r in half && At(r, base, op)
  }

  /** Each operation dispatched has its route in one half and none in the other. */
  lemma OneHalfEach(base: string, ops: seq<Operation>, allowed: set<string>, op: Operation)
    requires Sound(ops) && op in ops
    ensures Answered(ops)
    ensures HasRoute(Kept(Merged(base, ops, false, |ops|), allowed, true), base, op)
      <==> !HasRoute(Kept(Merged(base, ops, true, |ops|), allowed, false), base, op)
  {
    hide AddressOf, Group, DefaultOf, RouteFor, OpenTo, Addresses, Merged, Kept, HasRoute, Sound;
    SoundAnswered(ops);
    HalfHolds(base, ops, allowed, op, false);
    HalfHolds(base, ops, allowed, op, true);
    FirstOfAddress(ops, op);
    SameGate(base, ops, allowed, AddressOf(op));
  }

  lemma SameGate(base: string, ops: seq<Operation>, allowed: set<string>, a: string)
    requires Group(ops, a) != [] && DefaultOf(Group(ops, a)).Some?
    ensures OpenTo(RouteFor(base, ops, false, a), allowed) == OpenTo(RouteFor(base, ops, true, a), allowed)
  {
    hide Group, DefaultOf, Selected, Sort;
  }

  lemma HalfHolds(base: string, ops: seq<Operation>, allowed: set<string>, op: Operation, asks: bool)
    requires Sound(ops) && op in ops
    ensures Group(ops, AddressOf(op)) != [] && DefaultOf(Group(ops, AddressOf(op))).Some?
    ensures HasRoute(Kept(Merged(base, ops, asks, |ops|), allowed, !asks), base, op)
      <==> OpenTo(RouteFor(base, ops, asks, AddressOf(op)), allowed) == !asks
  {
    hide AddressOf, Group, DefaultOf, RouteFor, OpenTo, Addresses, Merged, Kept, At, Sound, HasRoute;
    SoundAnswered(ops);
    var out := Merged(base, ops, asks, |ops|);
    var k := PlaceOf(base, ops, asks, op);
    OneRoutePerAddress(base, ops, asks);
    forall i | 0 <= i < |out| && At(out[i], base, op) ensures i == k {
      AtOnePlace(out[i], out[k], base, op);
    }
    RouteInHalf(out, allowed, !asks, base, op, k);
  }

  lemma RouteInHalf(out: seq<Route>, allowed: set<string>, open: bool, base: string, op: Operation, k: nat)
    requires k < |out| && At(out[k], base, op)
    requires forall i :: 0 <= i < |out| && At(out[i], base, op) ==> i == k
    ensures HasRoute(Kept(out, allowed, open), base, op) <==> OpenTo(out[k], allowed) == open
  {
    hide OpenTo, Kept, At;
    assert out[k] in out;
    KeptAre(out, allowed, open, out[k]);
    if r :| r in Kept(out, allowed, open) && At(r, base, op) {
      KeptAre(out, allowed, open, r);
      var i :| 0 <= i < |out| && out[i] == r;
    }
  }

  lemma AtOnePlace(r: Route, t: Route, base: string, op: Operation)
    requires At(r, base, op) && At(t, base, op)
    ensures (r.verb, r.path) == (t.verb, t.path)
  {
  }
}
