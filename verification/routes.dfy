/**
  The routes that serve declared operations: one for each address, with a handler
  that picks among the operations there by the query.
 */
module Routes {
  import opened Options
  import opened Sorting
  import opened Operations
  import T = Text

  type Query = map<string, seq<string>>

  /**
    A handler runs one operation, or chooses one for the request. `asks` says that
    the authorizer is asked about the operation's action before it runs.
   */
  datatype Handler =
    | Runs(op: Operation, asks: bool)
    | Selecting(default: Operation, sorted: seq<Operation>, asks: bool)

  datatype Route = Route(verb: string, path: string, action: string, alternatives: seq<string>, handler: Handler)

  // ----------------------------------------------------------- handling

  /** The first value of a query parameter, or nothing. */
  function QueryGet(q: Query, name: string): string {
    if name in q && q[name] != [] then q[name][0] else ""
  }

  predicate Present(q: Query, op: Operation) {
    QueryGet(q, op.whenQuery) != ""
  }

  function Chosen(default: Operation, sorted: seq<Operation>, q: Query): Operation {
    if sorted == [] then default
    else if Present(q, sorted[0]) then sorted[0]
    else Chosen(default, sorted[1..], q)
  }

  /** The operation a request to the route runs. */
  function Served(r: Route, q: Query): Operation {
    match r.handler
    case Runs(op, _) => op
    case Selecting(default, sorted, _) => Chosen(default, sorted, q)
  }

  method Handle(r: Route, q: Query) returns (op: Operation)
    ensures op == Served(r, q)
  {
    match r.handler
    case Runs(o, _) => op := o;
    case Selecting(default, sorted, _) =>
      for i := 0 to |sorted|
        invariant Chosen(default, sorted, q) == Chosen(default, sorted[i..], q)
      {
        assert sorted[i..][0] == sorted[i] && sorted[i..][1..] == sorted[i + 1..];
        if Present(q, sorted[i]) { return sorted[i]; }
      }
      op := default;
  }

  // ------------------------------------------------------------ merging

  function Group(ops: seq<Operation>, address: string): seq<Operation> {
    if ops == [] then []
    else Group(ops[..|ops| - 1], address) + if AddressOf(ops[|ops| - 1]) == address then [ops[|ops| - 1]] else []
  }

  function Selected(group: seq<Operation>): seq<Operation> {
    if group == [] then []
    else Selected(group[..|group| - 1]) + if group[|group| - 1].whenQuery != "" then [group[|group| - 1]] else []
  }

  /** The operation of the group that no parameter selects; of several, the last. */
  function DefaultOf(group: seq<Operation>): Option<Operation> {
    if group == [] then None
    else if group[|group| - 1].whenQuery == "" then Some(group[|group| - 1])
    else DefaultOf(group[..|group| - 1])
  }

  predicate BySelector(a: Operation, b: Operation) {
    T.Less(a.whenQuery, b.whenQuery)
  }

  function Actions(ops: seq<Operation>): (r: seq<string>)
    ensures |r| == |ops| && forall i :: 0 <= i < |r| ==> r[i] == ops[i].action
  {
    seq(|ops|, i requires 0 <= i < |ops| => ops[i].action)
  }

  /** Every operation has one at its address that no parameter selects. */
  ghost predicate Answered(ops: seq<Operation>) {
    forall i :: 0 <= i < |ops| ==> DefaultOf(Group(ops, AddressOf(ops[i]))).Some?
  }

  function PlainRoute(base: string, op: Operation, asks: bool): Route {
    Route(op.verb, base + op.path, op.action, [], Runs(op, asks))
  }

  function MergedRoute(path: string, group: seq<Operation>, asks: bool): Route
    requires DefaultOf(group).Some?
  {
    var d := DefaultOf(group).value;
    Route(d.verb, path, d.action, Actions(Selected(group)), Selecting(d, Sort(BySelector, Selected(group)), asks))
  }

  /** The routes after the first n operations: one where the address is the operation's own, one at the first of a shared one. */
  function Merged(base: string, ops: seq<Operation>, asks: bool, n: nat): seq<Route>
    requires n <= |ops| && Answered(ops)
  {
    if n == 0 then []
    else
      var op := ops[n - 1];
      var group := Group(ops, AddressOf(op));
      Merged(base, ops, asks, n - 1)
      + if |group| == 1 then [PlainRoute(base, op, asks)]
        else if Group(ops[..n - 1], AddressOf(op)) != [] then []
        else [MergedRoute(base + op.path, group, asks)]
  }

  method SplitGroup(group: seq<Operation>) returns (default: Option<Operation>, others: seq<Operation>)
    ensures default == DefaultOf(group) && others == Selected(group)
  {
    default, others := None, [];
    for i := 0 to |group|
      invariant default == DefaultOf(group[..i]) && others == Selected(group[..i])
    {
      assert group[..i + 1][..i] == group[..i];
      if group[i].whenQuery == "" { default := Some(group[i]); } else { others := others + [group[i]]; }
    }
    assert group[..|group|] == group;
  }

  ghost predicate Grouped(ops: seq<Operation>, groups: map<string, seq<Operation>>) {
    forall a :: Group(ops, a) == if a in groups then groups[a] else []
  }

  method GroupByAddress(ops: seq<Operation>) returns (groups: map<string, seq<Operation>>)
    ensures Grouped(ops, groups)
  {
    hide AddressOf;
    groups := map[];
    for i := 0 to |ops|
      invariant Grouped(ops[..i], groups)
    {
      GroupNext(ops, i);
      var address := AddressOf(ops[i]);
      groups := groups[address := (if address in groups then groups[address] else []) + [ops[i]]];
    }
    assert ops[..|ops|] == ops;
  }

  /** The shared addresses among the first i operations. */
  ghost predicate SeenShared(ops: seq<Operation>, i: nat, seen: set<string>)
    requires i <= |ops|
  {
    forall a :: a in seen <==> |Group(ops, a)| != 1 && Group(ops[..i], a) != []
  }

  /** The groups by address, then the routes in the order of the operations. */
  method MergeAlternatives(base: string, ops: seq<Operation>, asks: bool) returns (out: seq<Route>)
    requires Answered(ops)
    ensures out == Merged(base, ops, asks, |ops|)
  {
    hide AddressOf, Sort, Group, Merged, Grouped, SeenShared, DefaultOf, Selected;
    var groups := GroupByAddress(ops);
    out := [];
    var seen: set<string> := {};
    NothingMerged(base, ops, asks);
    for i := 0 to |ops|
      invariant out == Merged(base, ops, asks, i) && SeenShared(ops, i, seen)
    {
      var address := AddressOf(ops[i]);
      MergedNext(base, ops, asks, i);
      OwnGroup(ops, i, groups);
      SeenNextShared(ops, i, seen);
      var group := groups[address];
      if |group| == 1 {
        out := out + [PlainRoute(base, ops[i], asks)];
        continue;
      }
      if address in seen { continue; }
      seen := seen + {address};
      var default, others := SplitGroup(group);
      out := out + [Route(default.value.verb, base + ops[i].path, default.value.action, Actions(others),
                          Selecting(default.value, Sort(BySelector, others), asks))];
    }
  }

  lemma NothingMerged(base: string, ops: seq<Operation>, asks: bool)
    requires Answered(ops)
    ensures Merged(base, ops, asks, 0) == [] && SeenShared(ops, 0, {})
  {
  }

  lemma MergedNext(base: string, ops: seq<Operation>, asks: bool, i: nat)
    requires Answered(ops) && i < |ops|
    ensures
      var op := ops[i];
      var group := Group(ops, AddressOf(op));
      && DefaultOf(group).Some?
      && (|group| == 1 ==> Merged(base, ops, asks, i + 1) == Merged(base, ops, asks, i) + [PlainRoute(base, op, asks)])
      && (|group| != 1 && Group(ops[..i], AddressOf(op)) != [] ==> Merged(base, ops, asks, i + 1) == Merged(base, ops, asks, i))
      && (|group| != 1 && Group(ops[..i], AddressOf(op)) == [] ==>
        Merged(base, ops, asks, i + 1) == Merged(base, ops, asks, i) + [MergedRoute(base + op.path, group, asks)])
  {
    hide AddressOf, Group, MergedRoute, DefaultOf;
  }

  lemma SeenNextShared(ops: seq<Operation>, i: nat, seen: set<string>)
    requires i < |ops| && SeenShared(ops, i, seen)
    ensures
      var a := AddressOf(ops[i]);
      && (|Group(ops, a)| == 1 || a in seen ==> SeenShared(ops, i + 1, seen))
      && (|Group(ops, a)| != 1 ==> SeenShared(ops, i + 1, seen + {a}) && (a in seen <==> Group(ops[..i], a) != []))
  {
    hide AddressOf, Group;
    GroupNext(ops, i);
  }

  lemma GroupNext(ops: seq<Operation>, i: nat)
    requires i < |ops|
    ensures forall a :: Group(ops[..i + 1], a) == Group(ops[..i], a) + if AddressOf(ops[i]) == a then [ops[i]] else []
  {
    assert ops[..i + 1][..i] == ops[..i];
  }

  lemma {:induction false} GroupHolds(ops: seq<Operation>, address: string, op: Operation)
    ensures op in Group(ops, address) <==> op in ops && AddressOf(op) == address
  {
    hide AddressOf;
    if ops != [] {
      GroupHolds(ops[..|ops| - 1], address, op);
      assert ops == ops[..|ops| - 1] + [ops[|ops| - 1]];
    }
  }

  lemma OwnGroup(ops: seq<Operation>, i: nat, groups: map<string, seq<Operation>>)
    requires i < |ops| && Grouped(ops, groups)
    ensures AddressOf(ops[i]) in groups && groups[AddressOf(ops[i])] == Group(ops, AddressOf(ops[i]))
  {
    hide AddressOf, Group;
    GroupHolds(ops, AddressOf(ops[i]), ops[i]);
  }

  // ------------------------------------------------ what a table builds

  /** The operations a table dispatches, in the order of their names. */
  function Dispatched(s: Spec, names: seq<string>): seq<Operation>
    requires forall n :: n in names ==> n in s.operations
  {
    if names == [] then []
    else
      var op := s.operations[names[|names| - 1]];
      Dispatched(s, names[..|names| - 1]) + if op.handled then [] else [op]
  }

  /** What a valid declaration says of the operations that are dispatched. */
  ghost predicate Sound(ops: seq<Operation>) {
    && Answered(ops)
    && (forall i :: 0 <= i < |ops| ==> ops[i].verb in METHODS)
    && (forall i, j :: 0 <= i < j < |ops| && AddressOf(ops[i]) == AddressOf(ops[j]) ==> ops[i].whenQuery != ops[j].whenQuery)
  }

  lemma {:induction false} DispatchedAre(s: Spec, names: seq<string>, op: Operation)
    requires forall n :: n in names ==> n in s.operations
    ensures op in Dispatched(s, names) <==> exists n :: n in names && s.operations[n] == op && !op.handled
  {
    if names != [] {
      DispatchedAre(s, names[..|names| - 1], op);
      assert names == names[..|names| - 1] + [names[|names| - 1]];
    }
  }

  lemma {:induction false} DefaultIsIn(group: seq<Operation>, op: Operation)
    ensures op in group && op.whenQuery == "" ==> DefaultOf(group).Some?
    ensures DefaultOf(group).Some? ==> DefaultOf(group).value in group && DefaultOf(group).value.whenQuery == ""
  {
    if group != [] {
      DefaultIsIn(group[..|group| - 1], op);
      assert group == group[..|group| - 1] + [group[|group| - 1]];
    }
  }

  /** One request, one operation: no two that are dispatched are the same. */
  lemma {:induction false} DispatchedApart(s: Spec, names: seq<string>)
    requires Valid(s) && InOrder(names) && forall n :: n in names ==> n in s.operations
    ensures
      var ops := Dispatched(s, names);
      forall i, j :: 0 <= i < j < |ops| && AddressOf(ops[i]) == AddressOf(ops[j]) ==> ops[i].whenQuery != ops[j].whenQuery
  {
    hide AddressOf, WellDeclared, AllDefaulted, ActionsApart;
    if names != [] {
      var k := |names| - 1;
      var before := Dispatched(s, names[..k]);
      DispatchedApart(s, names[..k]);
      forall i | 0 <= i < |before| && AddressOf(before[i]) == AddressOf(s.operations[names[k]])
        ensures before[i].whenQuery != s.operations[names[k]].whenQuery
      {
        DispatchedAre(s, names[..k], before[i]);
        var n :| n in names[..k] && s.operations[n] == before[i];
        EarlierName(names, n);
        RequestApart(s, n, names[k]);
      }
    }
  }

  lemma EarlierName(names: seq<string>, n: string)
    requires InOrder(names) && names != [] && n in names[..|names| - 1]
    ensures n != names[|names| - 1]
  {
    T.LessTrans(n, n, n);
  }

  lemma RequestApart(s: Spec, a: string, b: string)
    requires RequestsApart(s, false) && RequestsApart(s, true) && Declared(s, a) && Declared(s, b) && a != b
    ensures AddressOf(s.operations[a]) == AddressOf(s.operations[b]) ==> s.operations[a].whenQuery != s.operations[b].whenQuery
  {
    hide AddressOf;
  }

  /** A valid declaration gives operations that the merge can serve. */
  lemma DispatchedIsSound(s: Spec, names: seq<string>)
    requires Valid(s) && InOrder(names) && forall n :: n in names <==> n in s.operations
    ensures Sound(Dispatched(s, names))
  {
    hide AddressOf, RequestsApart, ActionsApart, Dispatched, UsableName, UsableAction;
    var ops := Dispatched(s, names);
    DispatchedApart(s, names);
    forall i | 0 <= i < |ops|
      ensures ops[i].verb in METHODS && DefaultOf(Group(ops, AddressOf(ops[i]))).Some?
    {
      DispatchedAre(s, names, ops[i]);
      var n :| n in names && s.operations[n] == ops[i] && !ops[i].handled;
      assert Declared(s, n) && WellDeclared(n, s.operations[n]);
      var d := if ops[i].whenQuery == "" then n else var d :| Defaults(s, n, d); d;
      var op := s.operations[d];
      assert op.whenQuery == "" && AddressOf(op) == AddressOf(ops[i]) && d in names && !op.handled;
      DispatchedAre(s, names, op);
      GroupHolds(ops, AddressOf(ops[i]), op);
      DefaultIsIn(Group(ops, AddressOf(ops[i])), op);
    }
  }

  // ---------------------------------------------- one route an address

  /** The addresses in the order they first appear. */
  function Addresses(ops: seq<Operation>): seq<string> {
    if ops == [] then []
    else
      var before := Addresses(ops[..|ops| - 1]);
      var a := AddressOf(ops[|ops| - 1]);
      if a in before then before else before + [a]
  }

  lemma {:induction false} AddressesAre(ops: seq<Operation>, a: string)
    ensures a in Addresses(ops) <==> Group(ops, a) != []
    ensures Distinct(Addresses(ops))
  {
    hide AddressOf;
    if ops != [] {
      AddressesAre(ops[..|ops| - 1], a);
    }
  }

  function RouteFor(base: string, ops: seq<Operation>, asks: bool, a: string): Route
    requires Group(ops, a) != [] && DefaultOf(Group(ops, a)).Some?
  {
    var group := Group(ops, a);
    if |group| == 1 then PlainRoute(base, group[0], asks) else MergedRoute(base + group[0].path, group, asks)
  }

  lemma AddressIsVerbAndPath(a: Operation, b: Operation)
    requires a.verb in METHODS && b.verb in METHODS
    ensures AddressOf(a) == AddressOf(b) ==> a.verb == b.verb && a.path == b.path
  {
    var x, y := AddressOf(a), AddressOf(b);
    assert x[|a.verb|] == ' ' && y[|b.verb|] == ' ';
    assert forall i :: 0 <= i < |a.verb| ==> x[i] == a.verb[i] && a.verb[i] != ' ';
    assert forall i :: 0 <= i < |b.verb| ==> y[i] == b.verb[i] && b.verb[i] != ' ';
    if x == y {
      assert |a.verb| == |b.verb|;
      assert a.verb == x[..|a.verb|] && b.verb == y[..|b.verb|];
      assert a.path == x[|a.verb| + 1..] && b.path == y[|b.verb| + 1..];
    }
  }
}
