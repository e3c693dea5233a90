/**
  Entities in one table: what each operation of the backend answers and how it
  changes the rows. The database's part is explicit: the primary key on the id,
  the partial unique index on the type and its key, and the order of a listing.
 */
module Entities {
  import opened Options
  import T = Text

  /** A document's top level: each property and its value as JSON text. */
  type Properties = map<string, string>

  type UniqueKey = seq<Option<string>>

  datatype Entity = Entity(
    id: string, typeId: string, properties: Properties, uniqueKey: Option<UniqueKey>,
    createdAt: int, updatedAt: int, deletedAt: Option<int>)

  type Rows = map<string, Entity>

  datatype Failure = NotFound | AlreadyExists | UniqueKeyNotDefined | UnknownType

  datatype Result<+V> = Ok(value: V) | Err(failure: Failure)

  /** What a listing asks for: one type or, when that is empty, all; and what the document must contain. */
  datatype Filter = Filter(typeId: string, contains: Option<Properties -> bool>)

  /**
    One call, with what it takes from outside: the id it would mint, the time,
    and for an upsert the unique key that the active schema gives the type.
   */
  datatype Op =
    | Create(typeId: string, properties: Properties, id: string, now: int)
    | Get(id: string)
    | Update(id: string, properties: Properties, now: int)
    | Delete(id: string, now: int)
    | Upsert(typeId: string, properties: Properties, keyFields: Option<seq<string>>, id: string, now: int)
    | List(filter: Filter)

  datatype Answer = One(entity: Result<Entity>) | Done(result: Result<()>) | Many(entities: seq<Entity>)

  // ------------------------------------------------------------- one row

  predicate Live(rows: Rows, id: string) {
    id in rows && rows[id].deletedAt.None?
  }

  function NewEntity(typeId: string, properties: Properties, key: Option<UniqueKey>, id: string, now: int): Entity {
    Entity(id, typeId, properties, key, now, now, None)
  }

  /** A patch sets the properties it names and leaves the others. */
  function Patched(e: Entity, properties: Properties, now: int): Entity {
    e.(properties := e.properties + properties, updatedAt := now)
  }

  function SoftDeleted(e: Entity, now: int): Entity {
    e.(deletedAt := Some(now), updatedAt := now)
  }

  /** The values of the key properties in order; one that is missing is null. */
  function KeyOf(fields: seq<string>, properties: Properties): (key: UniqueKey)
    ensures |key| == |fields|
  {
    seq(|fields|, i requires 0 <= i < |fields| =>
      if fields[i] in properties && properties[fields[i]] != "null" then Some(properties[fields[i]]) else None)
  }

  /** The row that the partial unique index finds in the way of e. */
  predicate InTheWay(rows: Rows, id: string, e: Entity) {
    Live(rows, id) && rows[id].typeId == e.typeId && e.uniqueKey.Some? && rows[id].uniqueKey == e.uniqueKey
  }

  /** Rows under their own ids, and never two live ones of a type with one key. */
  ghost predicate Valid(rows: Rows) {
    && (forall id :: id in rows ==> rows[id].id == id)
    && forall a, b :: Live(rows, a) && Live(rows, b) && InTheWay(rows, b, rows[a]) ==> a == b
  }

  // ------------------------------------------------------------ listings

  predicate Before(a: Entity, b: Entity) {
    a.createdAt < b.createdAt || (a.createdAt == b.createdAt && T.Less(a.id, b.id))
  }

  predicate Matches(e: Entity, f: Filter) {
    && e.deletedAt.None?
    && (f.typeId == "" || e.typeId == f.typeId)
    && (f.contains.Some? ==> f.contains.value(e.properties))
  }

  /** The listing holds the live rows that match, each once, oldest first and by id among equals. */
  ghost predicate Lists(rows: Rows, f: Filter, out: seq<Entity>) {
    && (forall i, j :: 0 <= i < j < |out| ==> Before(out[i], out[j]))
    && (forall e :: e in out <==> e.id in rows && rows[e.id] == e && Matches(e, f))
  }

  // --------------------------------------------------------------- steps

  ghost predicate Upserted(rows: Rows, e: Entity, answer: Result<Entity>, after: Rows) {
    if id :| InTheWay(rows, id, e) then
      answer == Ok(Patched(rows[id], e.properties, e.updatedAt)) && after == rows[id := answer.value]
    else if e.id in rows then answer == Err(AlreadyExists) && after == rows
    else answer == Ok(e) && after == rows[e.id := e]
  }

  /** What an operation on one table may answer, and the rows it leaves. */
  ghost predicate Step(rows: Rows, op: Op, answer: Answer, after: Rows) {
    match op
    case Create(typeId, properties, id, now) =>
      var e := NewEntity(typeId, properties, None, id, now);
      if id in rows then answer == One(Err(AlreadyExists)) && after == rows
      else answer == One(Ok(e)) && after == rows[id := e]
    case Get(id) =>
      after == rows && answer == One(if Live(rows, id) then Ok(rows[id]) else Err(NotFound))
    case Update(id, properties, now) =>
      if Live(rows, id) then
        answer == One(Ok(Patched(rows[id], properties, now))) && after == rows[id := Patched(rows[id], properties, now)]
      else answer == One(Err(NotFound)) && after == rows
    case Delete(id, now) =>
      if Live(rows, id) then answer == Done(Ok(())) && after == rows[id := SoftDeleted(rows[id], now)]
      else answer == Done(Err(NotFound)) && after == rows
    case Upsert(typeId, properties, keyFields, id, now) =>
      if keyFields.None? then answer == One(Err(UnknownType)) && after == rows
      else if keyFields.value == [] then answer == One(Err(UniqueKeyNotDefined)) && after == rows
      else
        var e := NewEntity(typeId, properties, Some(KeyOf(keyFields.value, properties)), id, now);
        answer.One? && Upserted(rows, e, answer.entity, after)
    case List(filter) =>
      after == rows && answer.Many? && Lists(rows, filter, answer.entities)
  }

  // ------------------------------------------------- one answer to a step

  lemma BeforeOrders(a: Entity, b: Entity, c: Entity)
    ensures Before(a, b) && Before(b, c) ==> Before(a, c)
    ensures Before(a, b) || Before(b, a) || (a.createdAt == b.createdAt && a.id == b.id)
    ensures !(Before(a, b) && Before(b, a)) && !Before(a, a)
  {
    T.LessTrans(a.id, b.id, c.id);
    T.LessTrans(a.id, a.id, a.id);
  }

  /** A table has one listing for a filter: the order leaves nothing open. */
  lemma {:induction false} ListingIsOne(rows: Rows, f: Filter, a: seq<Entity>, b: seq<Entity>)
    requires Lists(rows, f, a) && Lists(rows, f, b)
    ensures a == b
  {
    OrderIsOne(a, b);
  }

  lemma {:induction false} OrderIsOne(a: seq<Entity>, b: seq<Entity>)
    requires forall i, j :: 0 <= i < j < |a| ==> Before(a[i], a[j])
    requires forall i, j :: 0 <= i < j < |b| ==> Before(b[i], b[j])
    requires forall e :: e in a <==> e in b
    ensures a == b
  {
    hide Before;
    BothEmpty(a, b);
    if a != [] {
      var m, n := |a| - 1, |b| - 1;
      LastIsLast(a, b);
      forall e ensures e in a[..m] <==> e in b[..n] {
        AllButLast(a, e);
        AllButLast(b, e);
      }
      OrderIsOne(a[..m], b[..n]);
      assert a == a[..m] + [a[m]] && b == b[..n] + [b[n]];
    }
  }

  lemma BothEmpty(a: seq<Entity>, b: seq<Entity>)
    requires forall e :: e in a <==> e in b
    ensures a == [] <==> b == []
  {
    if a != [] { assert a[0] in b; }
    if b != [] { assert b[0] in a; }
  }

  lemma LastIsLast(a: seq<Entity>, b: seq<Entity>)
    requires a != [] && b != []
    requires forall i, j :: 0 <= i < j < |a| ==> Before(a[i], a[j])
    requires forall i, j :: 0 <= i < j < |b| ==> Before(b[i], b[j])
    requires forall e :: e in a <==> e in b
    ensures a[|a| - 1] == b[|b| - 1]
  {
    hide Before;
    var x, y := a[|a| - 1], b[|b| - 1];
    assert x in b && y in a;
    var i :| 0 <= i < |b| && b[i] == x;
    var j :| 0 <= j < |a| && a[j] == y;
    BeforeOrders(x, y, x);
  }

  lemma AllButLast(a: seq<Entity>, e: Entity)
    requires a != [] && forall i, j :: 0 <= i < j < |a| ==> Before(a[i], a[j])
    ensures e in a[..|a| - 1] <==> e in a && e != a[|a| - 1]
  {
    hide Before;
    BeforeOrders(e, e, e);
    if e in a && e != a[|a| - 1] {
      var i :| 0 <= i < |a| && a[i] == e;
      assert a[..|a| - 1][i] == e;
    }
    if e in a[..|a| - 1] {
      var i :| 0 <= i < |a| - 1 && a[i] == e;
    }
  }

  lemma StepIsOne(rows: Rows, op: Op, a: Answer, b: Answer, afterA: Rows, afterB: Rows)
    requires Valid(rows) && Step(rows, op, a, afterA) && Step(rows, op, b, afterB)
    ensures a == b && afterA == afterB
  {
    hide Before, Matches;
    match op
    case List(filter) => ListingIsOne(rows, filter, a.entities, b.entities);
    case _ =>
  }

  lemma PutKeepsValid(rows: Rows, e: Entity)
    requires Valid(rows)
    requires e.deletedAt.None? ==> forall b :: InTheWay(rows, b, e) ==> b == e.id
    ensures Valid(rows[e.id := e])
  {
    var after := rows[e.id := e];
    forall a, b | Live(after, a) && Live(after, b) && InTheWay(after, b, after[a]) ensures a == b {
      if a != e.id && b != e.id {
        assert Live(rows, a) && Live(rows, b) && InTheWay(rows, b, rows[a]);
      } else if a != e.id {
        assert InTheWay(rows, a, e);
      } else if b != e.id {
        assert InTheWay(rows, b, e);
      }
    }
  }

  /** Every step keeps ids their own and keys unique among live rows. */
  lemma StepKeepsValid(rows: Rows, op: Op, answer: Answer, after: Rows)
    requires Valid(rows) && Step(rows, op, answer, after)
    ensures Valid(after)
  {
    hide Lists, KeyOf;
    match op
    case Create(typeId, properties, id, now) =>
      PutKeepsValid(rows, NewEntity(typeId, properties, None, id, now));
    case Update(id, properties, now) =>
      if Live(rows, id) { PatchKeepsValid(rows, id, properties, now); }
    case Delete(id, now) =>
      if Live(rows, id) { PutKeepsValid(rows, SoftDeleted(rows[id], now)); }
    case Upsert(typeId, properties, keyFields, id, now) =>
      if keyFields.Some? && keyFields.value != [] {
        UpsertKeepsValid(rows, NewEntity(typeId, properties, Some(KeyOf(keyFields.value, properties)), id, now), answer.entity, after);
      }
    case _ =>
  }

  lemma PatchKeepsValid(rows: Rows, id: string, properties: Properties, now: int)
    requires Valid(rows) && Live(rows, id)
    ensures Valid(rows[id := Patched(rows[id], properties, now)])
  {
    var e := Patched(rows[id], properties, now);
    forall b | InTheWay(rows, b, e) ensures b == e.id {
      assert InTheWay(rows, b, rows[id]);
    }
    PutKeepsValid(rows, e);
  }

  lemma UpsertKeepsValid(rows: Rows, e: Entity, answer: Result<Entity>, after: Rows)
    requires Valid(rows) && Upserted(rows, e, answer, after)
    ensures Valid(after)
  {
    if id :| InTheWay(rows, id, e) {
      forall b | InTheWay(rows, b, e) ensures b == id {
        assert InTheWay(rows, b, rows[id]);
      }
      PatchKeepsValid(rows, id, e.properties, e.updatedAt);
    } else if e.id !in rows {
      PutKeepsValid(rows, e);
    }
  }
}
