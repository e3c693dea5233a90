/**
  What the merged routes serve: one route for each address, the right operation
  for every request, and no operation out of reach.
 */
module Serving {
  import opened Sorting
  import opened Operations
  import opened Routes
  import T = Text

  // ---------------------------------------------- one route an address

  lemma FirstOfAddress(ops: seq<Operation>, op: Operation)
    requires Sound(ops) && op in ops
    ensures
      var group := Group(ops, AddressOf(op));
      && group != [] && DefaultOf(group).Some?
      && group[0].verb == op.verb && group[0].path == op.path && DefaultOf(group).value.verb == op.verb
  {
    hide AddressOf, Group;
    var group := Group(ops, AddressOf(op));
    GroupHolds(ops, AddressOf(op), op);
    GroupHolds(ops, AddressOf(op), group[0]);
    var i :| 0 <= i < |ops| && ops[i] == op;
    DefaultIsIn(group, op);
    GroupHolds(ops, AddressOf(op), DefaultOf(group).value);
    forall o | o in ops && AddressOf(o) == AddressOf(op) ensures o.verb == op.verb && o.path == op.path {
      AddressIsVerbAndPath(o, op);
    }
  }

  /** The merge gives the routes of the addresses, in the order they first appear. */
  lemma {:induction false} MergedAre(base: string, ops: seq<Operation>, asks: bool, n: nat)
    requires Sound(ops) && n <= |ops|
    ensures |Merged(base, ops, asks, n)| == |Addresses(ops[..n])|
    ensures forall i :: 0 <= i < |Addresses(ops[..n])| ==>
      var a := Addresses(ops[..n])[i];
      && Group(ops, a) != [] && DefaultOf(Group(ops, a)).Some?
      && Merged(base, ops, asks, n)[i] == RouteFor(base, ops, asks, a)
  {
    hide AddressOf, Group, DefaultOf, Sound, MergedRoute, Merged, Addresses;
    SoundAnswered(ops);
    if n == 0 {
      NothingYet(base, ops, asks);
    } else {
      var op := ops[n - 1];
      var a := AddressOf(op);
      MergedAre(base, ops, asks, n - 1);
      assert ops[..n] == ops[..n - 1] + [op];
      FirstOfAddress(ops, op);
      MergedNext(base, ops, asks, n - 1);
      AddressesAre(ops[..n - 1], a);
      AddressesNext(ops, n - 1);
      OnlyOne(ops, n - 1);
    }
  }

  lemma NothingYet(base: string, ops: seq<Operation>, asks: bool)
    requires Answered(ops)
    ensures Merged(base, ops, asks, 0) == [] && Addresses(ops[..0]) == []
  {
  }

  lemma SoundAnswered(ops: seq<Operation>)
    requires Sound(ops)
    ensures Answered(ops)
  {
  }

  lemma AddressesNext(ops: seq<Operation>, i: nat)
    requires i < |ops|
    ensures
      var before, a := Addresses(ops[..i]), AddressOf(ops[i]);
      Addresses(ops[..i + 1]) == if a in before then before else before + [a]
  {
    hide AddressOf;
    assert ops[..i + 1][..i] == ops[..i];
  }

  /** An operation alone at its address has none before it, and is the group's one. */
  lemma OnlyOne(ops: seq<Operation>, i: nat)
    requires i < |ops|
    ensures |Group(ops, AddressOf(ops[i]))| == 1 ==>
      Group(ops[..i], AddressOf(ops[i])) == [] && Group(ops, AddressOf(ops[i]))[0] == ops[i]
  {
    hide AddressOf;
    var a := AddressOf(ops[i]);
    GroupHolds(ops, a, ops[i]);
    GroupNext(ops, i);
    GroupGrows(ops, i + 1, a);
  }

  lemma {:induction false} GroupGrows(ops: seq<Operation>, n: nat, a: string)
    requires n <= |ops|
    ensures |Group(ops[..n], a)| <= |Group(ops, a)|
    decreases |ops|
  {
    hide AddressOf;
    if n < |ops| {
      assert ops[..|ops| - 1][..n] == ops[..n];
      GroupGrows(ops[..|ops| - 1], n, a);
    } else {
      assert ops[..n] == ops;
    }
  }

  predicate At(r: Route, base: string, op: Operation) {
    r.verb == op.verb && r.path == base + op.path
  }

  lemma RouteIsAt(base: string, ops: seq<Operation>, asks: bool, op: Operation)
    requires Sound(ops) && op in ops
    ensures Group(ops, AddressOf(op)) != [] && DefaultOf(Group(ops, AddressOf(op))).Some?
    ensures At(RouteFor(base, ops, asks, AddressOf(op)), base, op)
  {
    hide AddressOf, Group, DefaultOf, Sound;
    FirstOfAddress(ops, op);
  }

  /**
    The routes are one for each address of the operations dispatched: no two
    routes share an address, every operation has its route, and every route is
    some operation's.
   */
  lemma OneRoutePerAddress(base: string, ops: seq<Operation>, asks: bool)
    requires Sound(ops)
    ensures
      var out := Merged(base, ops, asks, |ops|);
      && (forall i, j :: 0 <= i < j < |out| ==> (out[i].verb, out[i].path) != (out[j].verb, out[j].path))
      && (forall op :: op in ops ==> exists r :: r in out && At(r, base, op))
      && (forall r :: r in out ==> exists op :: op in ops && At(r, base, op))
  {
    hide AddressOf, Group, DefaultOf, Sound, RouteFor, At, Addresses, Merged;
    var all := Addresses(ops);
    SoundAnswered(ops);
    var out := Merged(base, ops, asks, |ops|);
    AddressesAre(ops, "");
    forall i | 0 <= i < |out| ensures exists op :: op in ops && At(out[i], base, op) {
      var op := RouteOf(base, ops, asks, i);
    }
    forall i, j | 0 <= i < j < |out| ensures (out[i].verb, out[i].path) != (out[j].verb, out[j].path) {
      var x := RouteOf(base, ops, asks, i);
      var y := RouteOf(base, ops, asks, j);
      SamePlace(base, x, y, out[i], out[j]);
    }
    forall op | op in ops ensures exists r :: r in out && At(r, base, op) {
      var i := PlaceOf(base, ops, asks, op);
      assert out[i] in out;
    }
  }

  lemma RouteOf(base: string, ops: seq<Operation>, asks: bool, i: nat) returns (op: Operation)
    requires Sound(ops) && i < |Merged(base, ops, asks, |ops|)|
    ensures i < |Addresses(ops)| && op in ops && AddressOf(op) == Addresses(ops)[i]
    ensures At(Merged(base, ops, asks, |ops|)[i], base, op)
  {
    hide AddressOf, Group, DefaultOf, RouteFor, At, Addresses, Merged;
    assert ops[..|ops|] == ops;
    MergedAre(base, ops, asks, |ops|);
    var a := Addresses(ops)[i];
    op := Group(ops, a)[0];
    GroupHolds(ops, a, op);
    RouteIsAt(base, ops, asks, op);
  }

  lemma PlaceOf(base: string, ops: seq<Operation>, asks: bool, op: Operation) returns (i: nat)
    requires Sound(ops) && op in ops
    ensures Group(ops, AddressOf(op)) != [] && DefaultOf(Group(ops, AddressOf(op))).Some?
    ensures i < |Merged(base, ops, asks, |ops|)| && At(Merged(base, ops, asks, |ops|)[i], base, op)
    ensures Merged(base, ops, asks, |ops|)[i] == RouteFor(base, ops, asks, AddressOf(op))
  {
    hide AddressOf, Group, DefaultOf, RouteFor, At, Addresses, Merged;
    assert ops[..|ops|] == ops;
    MergedAre(base, ops, asks, |ops|);
    RouteIsAt(base, ops, asks, op);
    AddressesAre(ops, AddressOf(op));
    i :| 0 <= i < |Addresses(ops)| && Addresses(ops)[i] == AddressOf(op);
  }

  lemma SamePlace(base: string, x: Operation, y: Operation, r: Route, s: Route)
    requires At(r, base, x) && At(s, base, y)
    ensures (r.verb, r.path) == (s.verb, s.path) ==> AddressOf(x) == AddressOf(y)
  {
    assert (base + x.path)[|base|..] == x.path && (base + y.path)[|base|..] == y.path;
  }

  // ------------------------------------------------ the right operation

  /** A selector is present when the parameter's first value is not empty, whatever values follow. */
  lemma FirstValueSelects(q: Query, op: Operation, value: string, rest: seq<string>)
    ensures Present(q[op.whenQuery := [value] + rest], op) <==> value != ""
    ensures op.whenQuery !in q || q[op.whenQuery] == [] ==> !Present(q, op)
  {
    assert ([value] + rest)[0] == value;
  }

  /** Among the operations of an address, the present selector that comes first, or else the default. */
  ghost predicate Answers(group: seq<Operation>, q: Query, op: Operation) {
    && op in group
    && (op.whenQuery == "" ==> forall o :: o in group && o.whenQuery != "" ==> !Present(q, o))
    && (op.whenQuery != "" ==>
      && Present(q, op)
      && forall o :: o in group && o.whenQuery != "" && Present(q, o) ==> o == op || T.Less(op.whenQuery, o.whenQuery))
  }

  ghost predicate SelectorsApart(group: seq<Operation>) {
    forall i, j :: 0 <= i < j < |group| ==> group[i].whenQuery != group[j].whenQuery
  }

  lemma {:induction false} ChosenIsFirst(default: Operation, sorted: seq<Operation>, q: Query)
    ensures (forall o :: o in sorted ==> !Present(q, o)) ==> Chosen(default, sorted, q) == default
    ensures (exists o :: o in sorted && Present(q, o)) ==>
      exists i :: 0 <= i < |sorted| && Chosen(default, sorted, q) == sorted[i] && Present(q, sorted[i])
        && forall j :: 0 <= j < i ==> !Present(q, sorted[j])
  {
    hide Present;
    if sorted != [] {
      ChosenIsFirst(default, sorted[1..], q);
      assert sorted == [sorted[0]] + sorted[1..];
      if Present(q, sorted[0]) {
        assert Chosen(default, sorted, q) == sorted[0];
      } else if exists o :: o in sorted && Present(q, o) {
        var i :| 0 <= i < |sorted[1..]| && Chosen(default, sorted[1..], q) == sorted[1..][i] && Present(q, sorted[1..][i])
          && forall j :: 0 <= j < i ==> !Present(q, sorted[1..][j]);
        assert sorted[i + 1] == sorted[1..][i];
        forall j | 0 <= j < i + 1 ensures !Present(q, sorted[j]) {
          if j > 0 { assert sorted[j] == sorted[1..][j - 1]; }
        }
      }
    }
  }

  lemma {:induction false} SelectedAre(group: seq<Operation>, op: Operation)
    ensures op in Selected(group) <==> op in group && op.whenQuery != ""
  {
    if group != [] {
      SelectedAre(group[..|group| - 1], op);
      assert group == group[..|group| - 1] + [group[|group| - 1]];
    }
  }

  lemma SelectorOrder(s: seq<Operation>)
    ensures Orders(BySelector, s)
  {
    forall x, y, z: Operation ensures !BySelector(x, y) && !BySelector(y, z) ==> !BySelector(x, z) {
      T.LessTrans(x.whenQuery, y.whenQuery, z.whenQuery);
      T.LessTrans(z.whenQuery, y.whenQuery, x.whenQuery);
      T.LessTrans(y.whenQuery, z.whenQuery, x.whenQuery);
      T.LessTrans(x.whenQuery, z.whenQuery, x.whenQuery);
    }
    forall x, y: Operation ensures BySelector(x, y) ==> !BySelector(y, x) {
      T.LessTrans(x.whenQuery, y.whenQuery, x.whenQuery);
    }
  }

  /** The first present selector in the sorted order is the least present one. */
  lemma ChosenIsLeast(group: seq<Operation>, q: Query)
    requires SelectorsApart(group) && DefaultOf(group).Some?
    ensures Answers(group, q, Chosen(DefaultOf(group).value, Sort(BySelector, Selected(group)), q))
  {
    hide Sort, Selected, Present, SelectorsApart, BySelector, DefaultOf, Chosen;
    var sorted := Sort(BySelector, Selected(group));
    var default := DefaultOf(group).value;
    var op := Chosen(default, sorted, q);
    SelectorOrder(Selected(group));
    SortIsSorted(BySelector, Selected(group));
    SortIsPermutation(BySelector, Selected(group));
    forall o ensures o in sorted <==> o in group && o.whenQuery != "" { SelectedAre(group, o); }
    DefaultIsIn(group, default);
    ChosenIsFirst(default, sorted, q);
    if o :| o in sorted && Present(q, o) {
      var i :| 0 <= i < |sorted| && op == sorted[i] && Present(q, sorted[i]) && forall j :: 0 <= j < i ==> !Present(q, sorted[j]);
      assert sorted[i] in sorted;
      forall p | p in group && p.whenQuery != "" && Present(q, p) ensures p == op || T.Less(op.whenQuery, p.whenQuery) {
        var j :| 0 <= j < |sorted| && sorted[j] == p;
        SortedPair(sorted, i, j);
        SelectorIsOne(group, p, op);
      }
    }
  }

  lemma SortedPair(sorted: seq<Operation>, i: nat, j: nat)
    requires Sorted(BySelector, sorted) && i <= j < |sorted|
    ensures i == j || sorted[i].whenQuery == sorted[j].whenQuery || T.Less(sorted[i].whenQuery, sorted[j].whenQuery)
  {
    T.LessTrans(sorted[i].whenQuery, sorted[j].whenQuery, sorted[i].whenQuery);
  }

  lemma SelectorIsOne(group: seq<Operation>, a: Operation, b: Operation)
    requires SelectorsApart(group) && a in group && b in group
    ensures a.whenQuery == b.whenQuery ==> a == b
  {
    var i :| 0 <= i < |group| && group[i] == a;
    var j :| 0 <= j < |group| && group[j] == b;
  }

  lemma {:induction false} GroupApart(ops: seq<Operation>, a: string)
    requires forall i, j :: 0 <= i < j < |ops| && AddressOf(ops[i]) == AddressOf(ops[j]) ==> ops[i].whenQuery != ops[j].whenQuery
    ensures SelectorsApart(Group(ops, a))
  {
    hide AddressOf;
    if ops != [] {
      var k := |ops| - 1;
      var before := Group(ops[..k], a);
      GroupApart(ops[..k], a);
      if AddressOf(ops[k]) == a {
        forall i | 0 <= i < |before| ensures before[i].whenQuery != ops[k].whenQuery {
          GroupHolds(ops[..k], a, before[i]);
          var j :| 0 <= j < k && ops[j] == before[i];
        }
      }
    }
  }

  /**
    A request to an address runs the operation whose selector is present, the least
    of them when several are, and the default when none is.
   */
  lemma RequestIsAnswered(base: string, ops: seq<Operation>, asks: bool, op: Operation, q: Query)
    requires Sound(ops) && op in ops
    ensures Group(ops, AddressOf(op)) != [] && DefaultOf(Group(ops, AddressOf(op))).Some?
    ensures Answers(Group(ops, AddressOf(op)), q, Served(RouteFor(base, ops, asks, AddressOf(op)), q))
  {
    hide AddressOf, Group, DefaultOf, Chosen, Sort, Selected, SelectorsApart, Present;
    FirstOfAddress(ops, op);
    var group := Group(ops, AddressOf(op));
    GroupApart(ops, AddressOf(op));
    ChosenIsLeast(group, q);
    if |group| == 1 {
      DefaultIsIn(group, op);
      assert group[0] == DefaultOf(group).value;
    }
  }

  /** The request that asks for one operation and nothing else. */
  function Asking(op: Operation): Query {
    if op.whenQuery == "" then map[] else map[op.whenQuery := ["1"]]
  }

  /** Every operation that is dispatched answers some request. */
  lemma EveryOperationReached(base: string, ops: seq<Operation>, asks: bool, op: Operation)
    requires Sound(ops) && op in ops
    ensures Group(ops, AddressOf(op)) != [] && DefaultOf(Group(ops, AddressOf(op))).Some?
    ensures Served(RouteFor(base, ops, asks, AddressOf(op)), Asking(op)) == op
  {
    hide AddressOf, Group, DefaultOf, Chosen, Sort, Selected, SelectorsApart, RouteFor, Served;
    RequestIsAnswered(base, ops, asks, op, Asking(op));
    var group := Group(ops, AddressOf(op));
    GroupApart(ops, AddressOf(op));
    GroupHolds(ops, AddressOf(op), op);
    SelectorIsOne(group, Served(RouteFor(base, ops, asks, AddressOf(op)), Asking(op)), op);
  }
}
