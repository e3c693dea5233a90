/**
  One table and the split, side by side: whatever operations arrive, in whatever
  order, both give the same answers.
 */
module Simulation {
  import opened Entities
  import opened EntityTables
  import opened PerCollection

  /** The id an operation mints, when it may make a row. */
  function Minted(op: Op): set<string> {
    if op.Create? || op.Upsert? then {op.id} else {}
  }

  predicate OfKnownType(types: seq<TypeDefinition>, op: Op) {
    op.Create? || op.Upsert? ==> op.typeId in TableFor(types)
  }

  /** No two operations mint one id, as random ids do not. */
  ghost predicate Fresh(ops: seq<Op>) {
    forall i, j :: 0 <= i < j < |ops| ==> Minted(ops[i]) !! Minted(ops[j])
  }

  function MintedBy(ops: seq<Op>): set<string> {
    if ops == [] then {} else MintedBy(ops[..|ops| - 1]) + Minted(ops[|ops| - 1])
  }

  lemma {:induction false} MintedAre(ops: seq<Op>, id: string)
    ensures id in MintedBy(ops) <==> exists i :: 0 <= i < |ops| && id in Minted(ops[i])
  {
    if ops != [] {
      var k := |ops| - 1;
      MintedAre(ops[..k], id);
      assert forall i :: 0 <= i < k ==> ops[..k][i] == ops[i];
    }
  }

  lemma StepKeys(rows: Rows, op: Op, answer: Answer, after: Rows)
    requires Step(rows, op, answer, after)
    ensures after.Keys <= rows.Keys + Minted(op)
  {
    hide Lists, KeyOf;
  }

  method PerformOnOne(b: Backend, op: Op) returns (answer: Answer)
    requires b.Kept()
    modifies b
    ensures b.Kept() && Step(old(b.entities), op, answer, b.entities)
  {
    hide Step, Valid;
    match op
    case Create(typeId, properties, id, now) => var r := b.CreateEntity(typeId, properties, id, now); answer := One(r);
    case Get(id) => var r := b.GetEntity(id); answer := One(r);
    case Update(id, properties, now) => var r := b.UpdateEntity(id, properties, now); answer := One(r);
    case Delete(id, now) => var r := b.DeleteEntity(id, now); answer := Done(r);
    case Upsert(typeId, properties, keyFields, id, now) =>
      var r := b.UpsertEntity(typeId, properties, keyFields, id, now); answer := One(r);
    case List(filter) => var r := b.ListEntities(filter); answer := Many(r);
  }

  method PerformOnSplit(b: PerCollectionBackend, op: Op) returns (answer: Answer)
    requires b.Kept() && (op.Create? || op.Upsert? ==> op.typeId in b.tableFor)
    requires Minted(op) !! b.ids.Keys
    modifies b
    ensures b.Kept() && Step(old(b.Entities()), op, answer, b.Entities())
  {
    hide Step, Valid, InStep, Whole;
    match op
    case Create(typeId, properties, id, now) => var r := b.CreateEntity(typeId, properties, id, now); answer := One(r);
    case Get(id) => var r := b.GetEntity(id); answer := One(r);
    case Update(id, properties, now) => var r := b.UpdateEntity(id, properties, now); answer := One(r);
    case Delete(id, now) => var r := b.DeleteEntity(id, now); answer := Done(r);
    case Upsert(typeId, properties, keyFields, id, now) =>
      var r := b.UpsertEntity(typeId, properties, keyFields, id, now); answer := One(r);
    case List(filter) => var r := b.ListEntities(filter); answer := Many(r);
  }

  /** From empty stores, both backends answer every run of operations alike. */
  method SameAnswers(idsTable: string, types: seq<TypeDefinition>, ops: seq<Op>)
    returns (one: seq<Answer>, split: seq<Answer>)
    requires idsTable != "" && Fresh(ops) && forall op :: op in ops ==> OfKnownType(types, op)
    requires forall i :: 0 <= i < |types| ==> types[i].collection != ""
    ensures one == split && |one| == |ops|
  {
    hide Step, Valid, Whole, InStep, MintedBy;
    var a := new Backend();
    var made := NewPerCollectionBackend(idsTable, types);
    var b := made.value;
    one, split := [], [];
    NothingMinted(ops);
    assert b.Entities() == map[];
    for i := 0 to |ops|
      invariant a.Kept() && b.Kept() && b.Entities() == a.entities && b.tableFor == TableFor(types)
      invariant one == split && |one| == i && b.ids.Keys <= MintedBy(ops[..i])
    {
      var op := ops[i];
      NextMinted(ops, i);
      assert OfKnownType(types, op);
      ghost var rows := a.entities;
      var x := PerformOnOne(a, op);
      var y := PerformOnSplit(b, op);
      StepIsOne(rows, op, x, y, a.entities, b.Entities());
      StepKeys(rows, op, x, a.entities);
      one, split := one + [x], split + [y];
    }
  }

  lemma NothingMinted(ops: seq<Op>)
    ensures MintedBy(ops[..0]) == {}
  {
  }

  lemma NextMinted(ops: seq<Op>, i: nat)
    requires Fresh(ops) && i < |ops|
    ensures MintedBy(ops[..i + 1]) == MintedBy(ops[..i]) + Minted(ops[i])
    ensures Minted(ops[i]) !! MintedBy(ops[..i])
  {
    assert ops[..i + 1][..i] == ops[..i];
    forall id | id in Minted(ops[i]) ensures id !in MintedBy(ops[..i]) {
      MintedAre(ops[..i], id);
      assert forall j :: 0 <= j < i ==> Minted(ops[j]) !! Minted(ops[i]);
    }
  }
}
