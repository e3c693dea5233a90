/**
  The backend that keeps every entity in one table, and the query that both
  backends put to a table: the live rows that match, in order.
 */
module EntityTables {
  import opened Options
  import opened Entities
  import opened Sorting

  // ------------------------------------------------------------ ordering

  lemma BeforeSorts(s: seq<Entity>)
    ensures Orders(Before, s)
  {
    hide Before;
    forall x, y | x in s && y in s && Before(x, y) ensures !Before(y, x) {
      BeforeOrders(x, y, x);
    }
    forall x, y, z | x in s && y in s && z in s && !Before(x, y) && !Before(y, z) ensures !Before(x, z) {
      NotBefore(x, y, z);
    }
  }

  lemma NotBefore(x: Entity, y: Entity, z: Entity)
    requires !Before(x, y) && !Before(y, z)
    ensures !Before(x, z)
  {
    hide Before;
    BeforeOrders(x, y, z);
    BeforeOrders(y, z, x);
    BeforeOrders(z, y, x);
    BeforeOrders(x, z, x);
    SamePlace(x, y, z);
  }

  lemma SamePlace(x: Entity, y: Entity, z: Entity)
    ensures x.createdAt == y.createdAt && x.id == y.id ==> Before(x, z) == Before(y, z) && Before(z, x) == Before(z, y)
    ensures z.createdAt == y.createdAt && z.id == y.id ==> Before(x, z) == Before(x, y) && Before(z, x) == Before(y, x)
  {
  }

  /** What the rows that match come to, in any order and each once. */
  ghost predicate Collected(rows: Rows, f: Filter, found: seq<Entity>) {
    Distinct(found) && forall e :: e in found <==> e.id in rows && rows[e.id] == e && Matches(e, f)
  }

  /** Putting them in order makes the listing. */
  lemma SortedLists(rows: Rows, f: Filter, found: seq<Entity>)
    requires Collected(rows, f, found)
    ensures Lists(rows, f, Sort(Before, found))
  {
    hide Before, Matches, Sort;
    BeforeSorts(found);
    SortIsSorted(Before, found);
    SortIsPermutation(Before, found);
    var out := Sort(Before, found);
    DistinctIsMultiplicity(found);
    DistinctIsMultiplicity(out);
    forall i, j | 0 <= i < j < |out| ensures Before(out[i], out[j]) {
      assert out[i] in found && out[j] in found && out[i] != out[j];
      BeforeOrders(out[i], out[j], out[i]);
    }
  }

  /** A query on one table: select, filter, order by creation time and id. */
  method Select(rows: Rows, f: Filter) returns (out: seq<Entity>)
    requires forall id :: id in rows ==> rows[id].id == id
    ensures Lists(rows, f, out)
  {
    hide Before, Matches, Sort;
    var found: seq<Entity> := [];
    var todo := rows.Keys;
    while todo != {}
      invariant todo <= rows.Keys && Distinct(found)
      invariant forall e :: e in found <==> e.id in rows && e.id !in todo && rows[e.id] == e && Matches(e, f)
    {
      var id :| id in todo;
      todo := todo - {id};
      if Matches(rows[id], f) { found := found + [rows[id]]; }
    }
    SortedLists(rows, f, found);
    out := Sort(Before, found);
  }

  // --------------------------------------------------------- one table

  class Backend {
    var entities: Rows

    constructor ()
      ensures entities == map[]
    {
      entities := map[];
    }

    ghost predicate Kept()
      reads this
    {
      Valid(entities)
    }

    method CreateEntity(typeId: string, properties: Properties, id: string, now: int) returns (r: Result<Entity>)
      requires Kept()
      modifies this
      ensures Kept() && Step(old(entities), Create(typeId, properties, id, now), One(r), entities)
    {
      ghost var before := entities;
      if id in entities {
        r := Err(AlreadyExists);
      } else {
        r := Ok(NewEntity(typeId, properties, None, id, now));
        entities := entities[id := r.value];
      }
      StepKeepsValid(before, Create(typeId, properties, id, now), One(r), entities);
    }

    method GetEntity(id: string) returns (r: Result<Entity>)
      ensures Step(entities, Get(id), One(r), entities)
    {
      r := if Live(entities, id) then Ok(entities[id]) else Err(NotFound);
    }

    method UpdateEntity(id: string, properties: Properties, now: int) returns (r: Result<Entity>)
      requires Kept()
      modifies this
      ensures Kept() && Step(old(entities), Update(id, properties, now), One(r), entities)
    {
      ghost var before := entities;
      if Live(entities, id) {
        r := Ok(Patched(entities[id], properties, now));
        entities := entities[id := r.value];
      } else {
        r := Err(NotFound);
      }
      StepKeepsValid(before, Update(id, properties, now), One(r), entities);
    }

    method DeleteEntity(id: string, now: int) returns (r: Result<()>)
      requires Kept()
      modifies this
      ensures Kept() && Step(old(entities), Delete(id, now), Done(r), entities)
    {
      ghost var before := entities;
      if Live(entities, id) {
        entities := entities[id := SoftDeleted(entities[id], now)];
        r := Ok(());
      } else {
        r := Err(NotFound);
      }
      StepKeepsValid(before, Delete(id, now), Done(r), entities);
    }

    method UpsertEntity(typeId: string, properties: Properties, keyFields: Option<seq<string>>, id: string, now: int)
        returns (r: Result<Entity>)
      requires Kept()
      modifies this
      ensures Kept() && Step(old(entities), Upsert(typeId, properties, keyFields, id, now), One(r), entities)
    {
      ghost var before := entities;
      if keyFields.None? { return Err(UnknownType); }
      if keyFields.value == [] { return Err(UniqueKeyNotDefined); }
      var e := NewEntity(typeId, properties, Some(KeyOf(keyFields.value, properties)), id, now);
      entities, r := InsertOrMerge(entities, e);
      StepKeepsValid(before, Upsert(typeId, properties, keyFields, id, now), One(r), entities);
    }

    method ListEntities(f: Filter) returns (out: seq<Entity>)
      requires Kept()
      ensures Step(entities, List(f), Many(out), entities)
    {
      out := Select(entities, f);
    }
  }

  /** The insert that merges into the row in its way, when there is one. */
  method InsertOrMerge(rows: Rows, e: Entity) returns (after: Rows, r: Result<Entity>)
    requires Valid(rows)
    ensures Upserted(rows, e, r, after)
  {
    if id :| id in rows && InTheWay(rows, id, e) {
      ConflictIsOne(rows, id, e);
      r := Ok(Patched(rows[id], e.properties, e.updatedAt));
      after := rows[id := r.value];
    } else if e.id in rows {
      r, after := Err(AlreadyExists), rows;
    } else {
      r, after := Ok(e), rows[e.id := e];
    }
  }

  lemma ConflictIsOne(rows: Rows, id: string, e: Entity)
    requires Valid(rows) && InTheWay(rows, id, e)
    ensures forall b :: InTheWay(rows, b, e) ==> b == id
  {
    forall b | InTheWay(rows, b, e) ensures b == id {
      assert InTheWay(rows, b, rows[id]);
    }
  }
}
