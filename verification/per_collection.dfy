/**
  The backend that splits entities over one table for each collection, with a
  registry from id to type. Every operation keeps the registry and the tables in
  step, and answers as the one table that holds all their rows would.
 */
module PerCollection {
  import opened Options
  import opened Entities
  import opened EntityTables
  import opened Sorting

  /** A declared type and the collection that stores it. */
  datatype TypeDefinition = TypeDefinition(name: string, collection: string)

  /** The table of a type, as the last declaration of the type says. */
  function TableFor(types: seq<TypeDefinition>): map<string, string> {
    if types == [] then map[]
    else TableFor(types[..|types| - 1])[types[|types| - 1].name := types[|types| - 1].collection]
  }

  /** The collections, each once, in the order of declaration; a type may name none. */
  method DistinctCollections(types: seq<TypeDefinition>) returns (out: seq<string>)
    ensures Distinct(out)
    ensures forall c :: c in out <==> c != "" && exists i :: 0 <= i < |types| && types[i].collection == c
  {
    var seen: set<string> := {};
    out := [];
    for i := 0 to |types|
      invariant Distinct(out) && forall c :: c in out <==> c in seen
      invariant forall c :: c in seen <==> c != "" && exists k :: 0 <= k < i && types[k].collection == c
    {
      var c := types[i].collection;
      if c == "" || c in seen { continue; }
      seen := seen + {c};
      out := out + [c];
    }
  }

  lemma {:induction false} TablesDeclared(types: seq<TypeDefinition>, name: string)
    ensures name in TableFor(types) <==> exists i :: 0 <= i < |types| && types[i].name == name
    ensures name in TableFor(types) ==> exists i :: 0 <= i < |types| && types[i].collection == TableFor(types)[name]
  {
    if types != [] {
      var k := |types| - 1;
      TablesDeclared(types[..k], name);
      assert forall i :: 0 <= i < k ==> types[..k][i] == types[i];
      if name == types[k].name {
        assert TableFor(types)[name] == types[k].collection;
      }
    }
  }

  // -------------------------------------------- the split as one table

  /** The registry and the tables agree: an id is registered exactly where its row is. */
  ghost predicate InStep(tableFor: map<string, string>, ids: map<string, string>, tables: map<string, Rows>) {
    && (forall id :: id in ids ==> ids[id] in tableFor && tableFor[ids[id]] in tables && id in tables[tableFor[ids[id]]])
    && (forall t, id :: t in tables && id in tables[t] ==>
      id in ids && tableFor[ids[id]] == t && tables[t][id].typeId == ids[id])
  }

  ghost function Whole(tableFor: map<string, string>, ids: map<string, string>, tables: map<string, Rows>): (rows: Rows)
    requires InStep(tableFor, ids, tables)
    ensures rows.Keys == ids.Keys
    ensures forall id :: id in ids ==> rows[id] == tables[tableFor[ids[id]]][id]
  {
    map id | id in ids :: tables[tableFor[ids[id]]][id]
  }

  lemma WholeAt(tableFor: map<string, string>, ids: map<string, string>, tables: map<string, Rows>, t: string, id: string)
    requires InStep(tableFor, ids, tables) && t in tables && id in tables[t]
    ensures id in Whole(tableFor, ids, tables) && Whole(tableFor, ids, tables)[id] == tables[t][id]
  {
  }

  /** A row changed in its table, its type as it was. */
  lemma RowPut(tableFor: map<string, string>, ids: map<string, string>, tables: map<string, Rows>, t: string, id: string, e: Entity)
    requires InStep(tableFor, ids, tables) && t in tables && id in tables[t] && e.typeId == tables[t][id].typeId
    ensures InStep(tableFor, ids, tables[t := tables[t][id := e]])
    ensures Whole(tableFor, ids, tables[t := tables[t][id := e]]) == Whole(tableFor, ids, tables)[id := e]
  {
    PutStays(tableFor, ids, tables, t, id, e);
  }

  lemma PutStays(tableFor: map<string, string>, ids: map<string, string>, tables: map<string, Rows>, t: string, id: string, e: Entity)
    requires InStep(tableFor, ids, tables) && t in tables && id in tables[t] && e.typeId == tables[t][id].typeId
    ensures InStep(tableFor, ids, tables[t := tables[t][id := e]])
  {
  }

  /** A new row put in the table of its type, and registered under it. */
  lemma RowAdded(tableFor: map<string, string>, ids: map<string, string>, tables: map<string, Rows>, e: Entity)
    requires InStep(tableFor, ids, tables) && e.typeId in tableFor && tableFor[e.typeId] in tables && e.id !in ids
    ensures
      var t := tableFor[e.typeId];
      && InStep(tableFor, ids[e.id := e.typeId], tables[t := tables[t][e.id := e]])
      && Whole(tableFor, ids[e.id := e.typeId], tables[t := tables[t][e.id := e]]) == Whole(tableFor, ids, tables)[e.id := e]
  {
    AddedStays(tableFor, ids, tables, e);
    var t := tableFor[e.typeId];
    var more := tables[t := tables[t][e.id := e]];
    var rows := Whole(tableFor, ids[e.id := e.typeId], more);
    forall id | id in ids ensures rows[id] == Whole(tableFor, ids, tables)[id] {
    }
    WholeAt(tableFor, ids[e.id := e.typeId], more, t, e.id);
  }

  lemma AddedStays(tableFor: map<string, string>, ids: map<string, string>, tables: map<string, Rows>, e: Entity)
    requires InStep(tableFor, ids, tables) && e.typeId in tableFor && tableFor[e.typeId] in tables && e.id !in ids
    ensures var t := tableFor[e.typeId]; InStep(tableFor, ids[e.id := e.typeId], tables[t := tables[t][e.id := e]])
  {
  }

  /** A table keeps what the whole keeps. */
  lemma PartIsValid(tableFor: map<string, string>, ids: map<string, string>, tables: map<string, Rows>, t: string)
    requires InStep(tableFor, ids, tables) && t in tables && Valid(Whole(tableFor, ids, tables))
    ensures Valid(tables[t])
  {
    var rows := Whole(tableFor, ids, tables);
    forall a, b | Live(tables[t], a) && Live(tables[t], b) && InTheWay(tables[t], b, tables[t][a]) ensures a == b {
      WholeAt(tableFor, ids, tables, t, a);
      WholeAt(tableFor, ids, tables, t, b);
      assert Live(rows, a) && Live(rows, b) && InTheWay(rows, b, rows[a]);
    }
    forall id | id in tables[t] ensures tables[t][id].id == id {
      WholeAt(tableFor, ids, tables, t, id);
    }
  }

  /** A row is in the way of an entity in the whole exactly when it is in the table of its type. */
  lemma ConflictIsLocal(tableFor: map<string, string>, ids: map<string, string>, tables: map<string, Rows>, id: string, e: Entity)
    requires InStep(tableFor, ids, tables) && e.typeId in tableFor && tableFor[e.typeId] in tables
    ensures InTheWay(Whole(tableFor, ids, tables), id, e) <==> InTheWay(tables[tableFor[e.typeId]], id, e)
  {
  }

  // ------------------------------------------------------- the backend

  /** An id minted for an upsert is one the tables can tell apart: unused, or used where the row would go anyway. */
  ghost predicate Apart(tableFor: map<string, string>, ids: map<string, string>, typeId: string, id: string)
  {
    id in ids && typeId in tableFor ==> ids[id] in tableFor && tableFor[ids[id]] == tableFor[typeId]
  }

  /**
    The split answers an upsert as one table would: the row is merged into one
    that is in its way, or its id is one the tables can tell apart.
   */
  ghost predicate Seen(tableFor: map<string, string>, ids: map<string, string>, tables: map<string, Rows>, e: Entity)
    requires e.typeId in tableFor && tableFor[e.typeId] in tables
  {
    Apart(tableFor, ids, e.typeId, e.id) || exists id :: InTheWay(tables[tableFor[e.typeId]], id, e)
  }

  class PerCollectionBackend {
    const idsTable: string
    const tableFor: map<string, string>
    const allTables: seq<string>
    var ids: map<string, string>
    var tables: map<string, Rows>

    constructor (idsTable: string, types: seq<TypeDefinition>)
      requires forall i :: 0 <= i < |types| ==> types[i].collection != ""
      ensures Kept() && this.idsTable == idsTable && tableFor == TableFor(types) && ids == map[]
    {
      var all := DistinctCollections(types);
      forall n | n in TableFor(types) ensures TableFor(types)[n] in all {
        TablesDeclared(types, n);
      }
      this.idsTable := idsTable;
      tableFor := TableFor(types);
      allTables := all;
      ids := map[];
      tables := map t | t in all :: map[];
    }

    ghost predicate Kept()
      reads this
    {
      && Distinct(allTables) && tables.Keys == (set t | t in allTables)
      && (forall n :: n in tableFor ==> tableFor[n] in tables)
      && InStep(tableFor, ids, tables) && Valid(Whole(tableFor, ids, tables))
    }

    /** The one table this stands for. */
    ghost function Entities(): Rows
      reads this
      requires Kept()
    {
      Whole(tableFor, ids, tables)
    }

    /** The table an id is in, by the registry; the id of no entity is in none. */
    method ResolveTable(id: string) returns (r: Result<string>)
      requires Kept()
      ensures r == if id in Entities() then Ok(tableFor[Entities()[id].typeId]) else Err(NotFound)
      ensures r.Ok? ==> r.value in tables && id in tables[r.value] && tables[r.value][id] == Entities()[id]
      ensures r.Err? ==> id !in Entities()
    {
      if id !in ids { return Err(NotFound); }
      if ids[id] !in tableFor { return Err(UnknownType); }
      r := Ok(tableFor[ids[id]]);
    }

    method CreateEntity(typeId: string, properties: Properties, id: string, now: int) returns (r: Result<Entity>)
      requires Kept()
      modifies this`ids, this`tables
      ensures Kept()
      ensures typeId in tableFor ==> Step(old(Entities()), Create(typeId, properties, id, now), One(r), Entities())
      ensures typeId !in tableFor ==> r == Err(UnknownType) && Entities() == old(Entities())
    {
      hide InStep, Valid;
      if typeId !in tableFor { return Err(UnknownType); }
      var table := tableFor[typeId];
      ghost var before := Entities();
      if id in ids { return Err(AlreadyExists); }
      var e := NewEntity(typeId, properties, None, id, now);
      RowAdded(tableFor, ids, tables, e);
      ids := ids[id := typeId];
      tables := tables[table := tables[table][id := e]];
      r := Ok(e);
      StepKeepsValid(before, Create(typeId, properties, id, now), One(r), Whole(tableFor, ids, tables));
    }

    method GetEntity(id: string) returns (r: Result<Entity>)
      requires Kept()
      ensures Step(Entities(), Get(id), One(r), Entities())
    {
      hide InStep, Valid;
      var t := ResolveTable(id);
      if t.Err? { return Err(NotFound); }
      r := if Live(tables[t.value], id) then Ok(tables[t.value][id]) else Err(NotFound);
    }

    method UpdateEntity(id: string, properties: Properties, now: int) returns (r: Result<Entity>)
      requires Kept()
      modifies this`tables
      ensures Kept() && Step(old(Entities()), Update(id, properties, now), One(r), Entities())
    {
      hide InStep, Valid;
      ghost var before := Entities();
      var t := ResolveTable(id);
      if t.Err? { return Err(NotFound); }
      if !Live(tables[t.value], id) { return Err(NotFound); }
      r := Ok(Patched(tables[t.value][id], properties, now));
      RowPut(tableFor, ids, tables, t.value, id, r.value);
      tables := tables[t.value := tables[t.value][id := r.value]];
      StepKeepsValid(before, Update(id, properties, now), One(r), Whole(tableFor, ids, tables));
    }

    method DeleteEntity(id: string, now: int) returns (r: Result<()>)
      requires Kept()
      modifies this`tables
      ensures Kept() && Step(old(Entities()), Delete(id, now), Done(r), Entities())
    {
      hide InStep, Valid;
      ghost var before := Entities();
      var t := ResolveTable(id);
      if t.Err? { return Err(NotFound); }
      if !Live(tables[t.value], id) { return Err(NotFound); }
      var gone := SoftDeleted(tables[t.value][id], now);
      RowPut(tableFor, ids, tables, t.value, id, gone);
      tables := tables[t.value := tables[t.value][id := gone]];
      r := Ok(());
      StepKeepsValid(before, Delete(id, now), Done(r), Whole(tableFor, ids, tables));
    }

    /**
      The row goes to the table of its type, and the id it ends up under is
      registered unless it is already: the row in its way has its id there. An id
      that another collection holds is not seen: the row is made, stays out of
      the registry, and no answer of one table is like it.
     */
    method UpsertEntity(typeId: string, properties: Properties, keyFields: Option<seq<string>>, id: string, now: int)
        returns (r: Result<Entity>)
      requires Kept()
      modifies this`ids, this`tables
      ensures typeId !in tableFor ==> Kept() && r == Err(UnknownType) && Entities() == old(Entities())
      ensures typeId in tableFor && (keyFields.None? || keyFields.value == []) ==>
        Kept() && Step(old(Entities()), Upsert(typeId, properties, keyFields, id, now), One(r), Entities())
      ensures typeId in tableFor && keyFields.Some? && keyFields.value != [] ==>
        var e := NewEntity(typeId, properties, Some(KeyOf(keyFields.value, properties)), id, now);
        var op := Upsert(typeId, properties, keyFields, id, now);
        if old(Seen(tableFor, ids, tables, e)) then Kept() && Step(old(Entities()), op, One(r), Entities())
        else
          && r == Ok(e) && ids == old(ids)
          && tables == old(tables)[tableFor[typeId] := old(tables)[tableFor[typeId]][id := e]]
          && !Kept() && forall after :: !Step(old(Entities()), op, One(r), after)
    {
      hide Valid, KeyOf, InStep, Whole, Apart, InTheWay, Upserted, Seen;
      if typeId !in tableFor { return Err(UnknownType); }
      var table := tableFor[typeId];
      if keyFields.None? { return Err(UnknownType); }
      if keyFields.value == [] { return Err(UniqueKeyNotDefined); }
      var e := NewEntity(typeId, properties, Some(KeyOf(keyFields.value, properties)), id, now);
      ghost var before := Entities();
      ghost var seen := Seen(tableFor, ids, tables, e);
      PartIsValid(tableFor, ids, tables, table);
      var rows, out := InsertOrMerge(tables[table], e);
      r := out;
      if seen {
        UpsertedWhole(tableFor, ids, tables, e, rows, out);
        UpsertKeepsValid(before, e, out, Whole(tableFor, Registered(ids, typeId, out), tables[table := rows]));
      } else {
        UpsertedUnseen(tableFor, ids, tables, e, rows, out);
      }
      if out.Err? {
        RefusedUnchanged(tables[table], e, out, rows);
        assert tables[table := tables[table]] == tables;
        return;
      }
      tables := tables[table := rows];
      if out.value.id !in ids { ids := ids[out.value.id := typeId]; }
    }

    /**
      One type's entities come from its table; all entities come table by table,
      and are put in order again when there was more than one.
     */
    method ListEntities(f: Filter) returns (out: seq<Entity>)
      requires Kept()
      ensures Step(Entities(), List(f), Many(out), Entities())
    {
      hide Before, Matches, Valid, Sort;
      var chosen := allTables;
      if f.typeId != "" {
        if f.typeId !in tableFor {
          NoneOfUnknownType(tableFor, ids, tables, f);
          return [];
        }
        chosen := [tableFor[f.typeId]];
      }
      out := [];
      for i := 0 to |chosen|
        invariant CollectedFrom(tables, chosen[..i], f, out)
        invariant i == 0 ==> out == []
        invariant i <= 1 ==> forall j, k :: 0 <= j < k < |out| ==> Before(out[j], out[k])
      {
        PartIsValid(tableFor, ids, tables, chosen[i]);
        var listing := Select(tables[chosen[i]], f);
        CollectedNext(tableFor, ids, tables, chosen, i, f, out, listing);
        assert [] + listing == listing;
        out := out + listing;
      }
      assert chosen[..|chosen|] == chosen;
      CollectedWhole(tableFor, ids, tables, chosen, f, out);
      if |chosen| > 1 {
        SortedLists(Entities(), f, out);
        out := Sort(Before, out);
      }
    }
  }

  /** The backend for a schema, or nothing when the registry has no name or a type says no collection. */
  method NewPerCollectionBackend(idsTable: string, types: seq<TypeDefinition>) returns (b: Option<PerCollectionBackend>)
    ensures b.None? <==> idsTable == "" || exists i :: 0 <= i < |types| && types[i].collection == ""
    ensures b.Some? ==>
      && fresh(b.value) && b.value.Kept() && b.value.Entities() == map[]
      && b.value.idsTable == idsTable && b.value.tableFor == TableFor(types) && b.value.ids == map[]
  {
    if idsTable == "" { return None; }
    for i := 0 to |types|
      invariant forall k :: 0 <= k < i ==> types[k].collection != ""
    {
      if types[i].collection == "" { return None; }
    }
    var made := new PerCollectionBackend(idsTable, types);
    b := Some(made);
  }

  /** The tables chosen so far have given what matches in them, each row once. */
  ghost predicate CollectedFrom(tables: map<string, Rows>, chosen: seq<string>, f: Filter, out: seq<Entity>)
    requires forall t :: t in chosen ==> t in tables
  {
    Distinct(out) && forall e :: e in out <==>
      exists t :: t in chosen && e.id in tables[t] && tables[t][e.id] == e && Matches(e, f)
  }

  lemma CollectedNext(tableFor: map<string, string>, ids: map<string, string>, tables: map<string, Rows>,
      chosen: seq<string>, i: nat, f: Filter, out: seq<Entity>, listing: seq<Entity>)
    requires InStep(tableFor, ids, tables) && Distinct(chosen) && i < |chosen| && forall t :: t in chosen ==> t in tables
    requires CollectedFrom(tables, chosen[..i], f, out) && Lists(tables[chosen[i]], f, listing)
    ensures CollectedFrom(tables, chosen[..i + 1], f, out + listing)
  {
    hide Before, Matches;
    assert chosen[..i + 1] == chosen[..i] + [chosen[i]];
    forall j, k | 0 <= j < |out| && 0 <= k < |listing| ensures out[j] != listing[k] {
      assert out[j] in out && listing[k] in listing;
      InOneTable(tableFor, ids, tables, chosen, i, out[j].id);
    }
    forall j, k | 0 <= j < k < |listing| ensures listing[j] != listing[k] {
      BeforeOrders(listing[j], listing[k], listing[j]);
    }
  }

  lemma InOneTable(tableFor: map<string, string>, ids: map<string, string>, tables: map<string, Rows>,
      chosen: seq<string>, i: nat, id: string)
    requires InStep(tableFor, ids, tables) && Distinct(chosen) && i < |chosen| && forall t :: t in chosen ==> t in tables
    ensures id in tables[chosen[i]] ==> forall t :: t in chosen[..i] ==> id !in tables[t]
  {
    hide InStep;
    assert chosen[i] in chosen;
    HeldIn(tableFor, ids, tables, chosen[i], id);
    forall t | t in chosen[..i] ensures id in tables[chosen[i]] ==> id !in tables[t] {
      var j :| 0 <= j < i && chosen[..i][j] == t;
      assert chosen[j] == t;
      HeldIn(tableFor, ids, tables, t, id);
    }
  }

  lemma HeldIn(tableFor: map<string, string>, ids: map<string, string>, tables: map<string, Rows>, t: string, id: string)
    requires InStep(tableFor, ids, tables) && t in tables
    ensures id in tables[t] ==> id in ids && ids[id] in tableFor && tableFor[ids[id]] == t
  {
  }

  lemma NoneOfUnknownType(tableFor: map<string, string>, ids: map<string, string>, tables: map<string, Rows>, f: Filter)
    requires InStep(tableFor, ids, tables) && f.typeId != "" && f.typeId !in tableFor
    ensures Lists(Whole(tableFor, ids, tables), f, [])
  {
  }

  lemma CollectedWhole(tableFor: map<string, string>, ids: map<string, string>, tables: map<string, Rows>,
      chosen: seq<string>, f: Filter, out: seq<Entity>)
    requires InStep(tableFor, ids, tables) && forall t :: t in chosen ==> t in tables
    requires (forall t :: t in tables ==> t in chosen) || (f.typeId != "" && f.typeId in tableFor && chosen == [tableFor[f.typeId]])
    requires CollectedFrom(tables, chosen, f, out)
    ensures Collected(Whole(tableFor, ids, tables), f, out)
  {
  }

  ghost function Registered(ids: map<string, string>, typeId: string, out: Result<Entity>): map<string, string> {
    if out.Err? || out.value.id in ids then ids else ids[out.value.id := typeId]
  }

  lemma SameConflicts(tableFor: map<string, string>, ids: map<string, string>, tables: map<string, Rows>, e: Entity)
    requires InStep(tableFor, ids, tables) && e.typeId in tableFor && tableFor[e.typeId] in tables
    ensures forall id :: InTheWay(Whole(tableFor, ids, tables), id, e) <==> InTheWay(tables[tableFor[e.typeId]], id, e)
  {
    hide InTheWay, InStep;
    forall id ensures InTheWay(Whole(tableFor, ids, tables), id, e) <==> InTheWay(tables[tableFor[e.typeId]], id, e) {
      ConflictIsLocal(tableFor, ids, tables, id, e);
    }
  }

  lemma MergedWhole(tableFor: map<string, string>, ids: map<string, string>, tables: map<string, Rows>,
      e: Entity, rows: Rows, out: Result<Entity>, id: string)
    requires InStep(tableFor, ids, tables) && Valid(Whole(tableFor, ids, tables))
    requires e.typeId in tableFor && tableFor[e.typeId] in tables
    requires InTheWay(tables[tableFor[e.typeId]], id, e) && Upserted(tables[tableFor[e.typeId]], e, out, rows)
    ensures
      var more := tables[tableFor[e.typeId] := rows];
      && out.Ok? && out.value.id in ids && InStep(tableFor, ids, more)
      && Upserted(Whole(tableFor, ids, tables), e, out, Whole(tableFor, ids, more))
  {
    hide InStep, Valid;
    var t := tableFor[e.typeId];
    PartIsValid(tableFor, ids, tables, t);
    ConflictIsOne(tables[t], id, e);
    var whole := Whole(tableFor, ids, tables);
    ConflictIsLocal(tableFor, ids, tables, id, e);
    ConflictIsOne(whole, id, e);
    OwnId(tableFor, ids, tables, t, id);
    WholeAt(tableFor, ids, tables, t, id);
    RowPut(tableFor, ids, tables, t, id, Patched(tables[t][id], e.properties, e.updatedAt));
  }

  /** Merging in the table of the type is merging in the whole. */
  lemma UpsertedWhole(tableFor: map<string, string>, ids: map<string, string>, tables: map<string, Rows>,
      e: Entity, rows: Rows, out: Result<Entity>)
    requires InStep(tableFor, ids, tables) && Valid(Whole(tableFor, ids, tables))
    requires e.typeId in tableFor && tableFor[e.typeId] in tables
    requires Seen(tableFor, ids, tables, e)
    requires Upserted(tables[tableFor[e.typeId]], e, out, rows)
    ensures
      var more := tables[tableFor[e.typeId] := rows];
      var known := Registered(ids, e.typeId, out);
      InStep(tableFor, known, more) && Upserted(Whole(tableFor, ids, tables), e, out, Whole(tableFor, known, more))
  {
    hide InStep, Valid, Whole, InTheWay;
    var t := tableFor[e.typeId];
    SameConflicts(tableFor, ids, tables, e);
    if id :| InTheWay(tables[t], id, e) {
      MergedWhole(tableFor, ids, tables, e, rows, out, id);
    } else {
      RegisteredHere(tableFor, ids, tables, e);
      if e.id !in ids {
        RowAdded(tableFor, ids, tables, e);
      } else {
        assert tables[t := tables[t]] == tables;
      }
    }
  }

  /** What is not seen is made in its table under an id that the registry has elsewhere; one table would refuse it. */
  lemma UpsertedUnseen(tableFor: map<string, string>, ids: map<string, string>, tables: map<string, Rows>,
      e: Entity, rows: Rows, out: Result<Entity>)
    requires InStep(tableFor, ids, tables)
    requires e.typeId in tableFor && tableFor[e.typeId] in tables
    requires !Seen(tableFor, ids, tables, e)
    requires Upserted(tables[tableFor[e.typeId]], e, out, rows)
    ensures out == Ok(e) && e.id in ids && rows == tables[tableFor[e.typeId]][e.id := e]
    ensures !InStep(tableFor, ids, tables[tableFor[e.typeId] := rows])
    ensures forall after :: !Upserted(Whole(tableFor, ids, tables), e, out, after)
  {
    CollisionUnseen(tableFor, ids, tables, e);
    SameConflicts(tableFor, ids, tables, e);
    hide InTheWay;
    var t := tableFor[e.typeId];
    var more := tables[t := rows];
    assert e.id in more[t];
  }

  /** The answer of the table is an answer of the whole exactly when the row is merged or its id can be told apart. */
  lemma SeenExactly(tableFor: map<string, string>, ids: map<string, string>, tables: map<string, Rows>,
      e: Entity, rows: Rows, out: Result<Entity>)
    requires InStep(tableFor, ids, tables) && Valid(Whole(tableFor, ids, tables))
    requires e.typeId in tableFor && tableFor[e.typeId] in tables
    requires Upserted(tables[tableFor[e.typeId]], e, out, rows)
    ensures Seen(tableFor, ids, tables, e) <==> exists after :: Upserted(Whole(tableFor, ids, tables), e, out, after)
  {
    hide InStep, Valid, Whole, InTheWay, Upserted, Seen;
    if Seen(tableFor, ids, tables, e) {
      UpsertedWhole(tableFor, ids, tables, e, rows, out);
    } else {
      UpsertedUnseen(tableFor, ids, tables, e, rows, out);
    }
  }

  /** The member of one collection whose id the next group is given. */
  function AMember(): Entity {
    NewEntity("member", map[], None, "1", 0)
  }

  function AGroup(): Entity {
    NewEntity("group", map[], Some([None]), "1", 1)
  }

  /** One table would refuse the group and the split makes it. */
  lemma AnswersDiffer()
    ensures
      var tableFor := map["member" := "members", "group" := "groups"];
      var ids, tables := map["1" := "member"], map["members" := map["1" := AMember()], "groups" := map[]];
      && InStep(tableFor, ids, tables) && Valid(Whole(tableFor, ids, tables))
      && Upserted(tables["groups"], AGroup(), Ok(AGroup()), map["1" := AGroup()])
      && Upserted(Whole(tableFor, ids, tables), AGroup(), Err(AlreadyExists), Whole(tableFor, ids, tables))
      && forall after :: !Upserted(Whole(tableFor, ids, tables), AGroup(), Ok(AGroup()), after)
  {
    var tableFor := map["member" := "members", "group" := "groups"];
    var ids, tables := map["1" := "member"], map["members" := map["1" := AMember()], "groups" := map[]];
    assert tables["members"].Keys == {"1"};
    assert tableFor["member"] == "members";
    var whole := Whole(tableFor, ids, tables);
    assert whole["1"] == AMember();
  }

  lemma RegisteredHere(tableFor: map<string, string>, ids: map<string, string>, tables: map<string, Rows>, e: Entity)
    requires InStep(tableFor, ids, tables) && e.typeId in tableFor && tableFor[e.typeId] in tables
    requires Apart(tableFor, ids, e.typeId, e.id)
    ensures e.id in tables[tableFor[e.typeId]] <==> e.id in ids
    ensures Whole(tableFor, ids, tables).Keys == ids.Keys
  {
  }

  lemma RefusedUnchanged(rows: Rows, e: Entity, out: Result<Entity>, after: Rows)
    requires Upserted(rows, e, out, after) && out.Err?
    ensures after == rows
  {
  }

  /** One table refuses an id it holds; the split does not see the id in another table. */
  lemma CollisionUnseen(tableFor: map<string, string>, ids: map<string, string>, tables: map<string, Rows>, e: Entity)
    requires InStep(tableFor, ids, tables) && e.typeId in tableFor && tableFor[e.typeId] in tables
    requires !Apart(tableFor, ids, e.typeId, e.id)
    ensures e.id in Whole(tableFor, ids, tables) && e.id !in tables[tableFor[e.typeId]]
  {
  }

  lemma OwnId(tableFor: map<string, string>, ids: map<string, string>, tables: map<string, Rows>, t: string, id: string)
    requires InStep(tableFor, ids, tables) && Valid(Whole(tableFor, ids, tables)) && t in tables && id in tables[t]
    ensures tables[t][id].id == id && id in ids
  {
    WholeAt(tableFor, ids, tables, t, id);
  }
}
