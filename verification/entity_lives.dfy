/**
  What becomes of an entity: made, read, patched, merged into and deleted, by
  operations one after the other. The answers of later operations are what an
  earlier one is held to.
 */
module EntityLives {
  import opened Options
  import opened Entities
  import T = Text

  // --------------------------------------------------- one after another

  datatype Call = Call(op: Op, answer: Answer, after: Rows)

  /** The calls follow on each other, each a step of the table. */
  ghost predicate Runs(rows: Rows, calls: seq<Call>) {
    if calls == [] then true
    else
      var before, last := calls[..|calls| - 1], calls[|calls| - 1];
      Runs(rows, before) && Step(End(rows, before), last.op, last.answer, last.after)
  }

  function End(rows: Rows, calls: seq<Call>): Rows {
    if calls == [] then rows else calls[|calls| - 1].after
  }

  // -------------------------------------------------------------- deleted

  /** The id was given out, and no answer shows the entity any more. */
  ghost predicate Gone(rows: Rows, id: string) {
    && id in rows
    && (forall answer, after :: Step(rows, Get(id), answer, after) ==> answer == One(Err(NotFound)))
    && (forall patch, now, answer, after :: Step(rows, Update(id, patch, now), answer, after) ==> answer == One(Err(NotFound)))
    && (forall now, answer, after :: Step(rows, Delete(id, now), answer, after) ==> answer == Done(Err(NotFound)))
    && (forall f, answer, after, e :: Step(rows, List(f), answer, after) && e in answer.entities ==> e.id != id)
  }

  lemma GoneIsNotLive(rows: Rows, id: string)
    requires forall k :: k in rows ==> rows[k].id == k
    ensures Gone(rows, id) <==> id in rows && !Live(rows, id)
  {
    if id in rows && Live(rows, id) {
      assert Step(rows, Get(id), One(Ok(rows[id])), rows);
    }
  }

  /** A delete that is answered leaves the entity gone; one that is not changes nothing. */
  lemma DeletedIsGone(rows: Rows, id: string, now: int, answer: Answer, after: Rows)
    requires Valid(rows) && Step(rows, Delete(id, now), answer, after)
    ensures answer == Done(Ok(())) ==>
      && Gone(after, id) && Live(rows, id)
      && after[id].deletedAt == Some(now) && after[id].updatedAt == now && after[id].properties == rows[id].properties
    ensures answer != Done(Ok(())) ==> answer == Done(Err(NotFound)) && after == rows && (id in rows ==> Gone(rows, id))
  {
    GoneIsNotLive(after, id);
  }

  lemma GoneStays(rows: Rows, op: Op, answer: Answer, after: Rows, id: string)
    requires Valid(rows) && Gone(rows, id) && Step(rows, op, answer, after)
    ensures Valid(after) && Gone(after, id)
  {
    hide Gone, Lists, KeyOf;
    StepKeepsValid(rows, op, answer, after);
    GoneIsNotLive(rows, id);
    GoneIsNotLive(after, id);
  }

  /** What is deleted is gone for good, whatever is called after. */
  lemma {:induction false} GoneForGood(rows: Rows, calls: seq<Call>, id: string)
    requires Valid(rows) && Gone(rows, id) && Runs(rows, calls)
    ensures Valid(End(rows, calls)) && Gone(End(rows, calls), id)
  {
    hide Valid, Gone, Step;
    if calls != [] {
      GoneForGood(rows, calls[..|calls| - 1], id);
      var last := calls[|calls| - 1];
      GoneStays(End(rows, calls[..|calls| - 1]), last.op, last.answer, last.after, id);
    }
  }

  /** The key of a deleted entity is free: an upsert with it makes a new one, and leaves the old one gone. */
  lemma KeyIsFree(rows: Rows, id: string, now: int, after: Rows,
      properties: Properties, fields: seq<string>, minted: string, later: int, answer: Answer, end: Rows)
    requires Valid(rows) && Live(rows, id) && Step(rows, Delete(id, now), Done(Ok(())), after)
    requires fields != [] && rows[id].uniqueKey == Some(KeyOf(fields, properties)) && minted !in rows
    requires Step(after, Upsert(rows[id].typeId, properties, Some(fields), minted, later), answer, end)
    ensures answer.One? && answer.entity.Ok? && answer.entity.value.id == minted && answer.entity.value.properties == properties
    ensures Gone(end, id) && Live(end, minted)
  {
    hide KeyOf;
    DeletedIsGone(rows, id, now, Done(Ok(())), after);
    StepKeepsValid(rows, Delete(id, now), Done(Ok(())), after);
    GoneIsNotLive(after, id);
    forall k ensures !InTheWay(after, k, NewEntity(rows[id].typeId, properties, Some(KeyOf(fields, properties)), minted, later)) {
      if k in rows && k != id && Live(rows, k) { assert InTheWay(rows, k, rows[id]) ==> k == id; }
    }
    GoneStays(after, Upsert(rows[id].typeId, properties, Some(fields), minted, later), answer, end, id);
  }

  // ------------------------------------------------------- made and patched

  /** A value as it reads: the property, or nothing where it is not there. */
  function Property(e: Entity, name: string): Option<string> {
    if name in e.properties then Some(e.properties[name]) else None
  }

  /** What is made is read back as given, live, and listed under its type. */
  lemma CreatedIsRead(rows: Rows, typeId: string, properties: Properties, id: string, now: int, answer: Answer, after: Rows)
    requires Valid(rows) && Step(rows, Create(typeId, properties, id, now), answer, after)
    ensures answer == One(Err(AlreadyExists)) <==> id in rows
    ensures id !in rows ==>
      && answer.One? && answer.entity.Ok?
      && Step(after, Get(id), answer, after)
      && var e := answer.entity.value;
        && e.id == id && e.typeId == typeId && e.properties == properties && e.createdAt == now && e.updatedAt == now
        && forall f, list, end :: Step(after, List(f), list, end) ==>
          (e in list.entities <==> (f.typeId == "" || f.typeId == typeId) && (f.contains.Some? ==> f.contains.value(properties)))
  {
    hide Before;
  }

  /** After an update the entity reads the patch where it names a property, and itself elsewhere. */
  lemma UpdatedIsRead(rows: Rows, id: string, patch: Properties, now: int, answer: Answer, after: Rows)
    requires Valid(rows) && Step(rows, Update(id, patch, now), answer, after)
    ensures answer == One(Err(NotFound)) <==> !Live(rows, id)
    ensures Live(rows, id) ==>
      && answer.One? && answer.entity.Ok? && Step(after, Get(id), answer, after)
      && var was, e := rows[id], answer.entity.value;
        && (forall n :: Property(e, n) == if n in patch then Some(patch[n]) else Property(was, n))
        && e.id == id && e.typeId == was.typeId && e.uniqueKey == was.uniqueKey
        && e.createdAt == was.createdAt && e.updatedAt == now
  {
  }

  /** An upsert leaves one live entity with its key, that reads what it gave; a second merges into the same. */
  lemma UpsertedIsRead(rows: Rows, typeId: string, properties: Properties, fields: seq<string>, id: string, now: int,
      answer: Answer, after: Rows)
    requires Valid(rows) && fields != []
    requires Step(rows, Upsert(typeId, properties, Some(fields), id, now), answer, after)
    requires answer.One? && answer.entity.Ok?
    ensures var e := answer.entity.value;
      && Step(after, Get(e.id), answer, after)
      && e.typeId == typeId && e.uniqueKey == Some(KeyOf(fields, properties)) && e.updatedAt == now
      && (forall n :: n in properties ==> Property(e, n) == Some(properties[n]))
      && (e.id in rows ==>
        && Live(rows, e.id) && e.createdAt == rows[e.id].createdAt
        && forall n :: n !in properties ==> Property(e, n) == Property(rows[e.id], n))
      && (e.id !in rows ==> e.id == id && e.properties == properties && e.createdAt == now)
      && forall minted, later, more, again, end ::
        KeyOf(fields, more) == KeyOf(fields, properties)
        && Step(after, Upsert(typeId, more, Some(fields), minted, later), again, end) ==>
          again.One? && again.entity.Ok? && again.entity.value.id == e.id
  {
    hide KeyOf;
    var e := answer.entity.value;
    StepKeepsValid(rows, Upsert(typeId, properties, Some(fields), id, now), answer, after);
    forall minted, later, more, again, end |
      KeyOf(fields, more) == KeyOf(fields, properties)
      && Step(after, Upsert(typeId, more, Some(fields), minted, later), again, end)
      ensures again.One? && again.entity.Ok? && again.entity.value.id == e.id
    {
      var made := NewEntity(typeId, more, Some(KeyOf(fields, more)), minted, later);
      assert InTheWay(after, e.id, made);
      forall k | InTheWay(after, k, made) ensures k == e.id { assert InTheWay(after, k, after[e.id]); }
    }
  }

  /** Two sets of properties are under one key when each key field has the same value, and none is as good as null. */
  lemma KeysAgree(fields: seq<string>, a: Properties, b: Properties)
    ensures KeyOf(fields, a) == KeyOf(fields, b) <==> forall f :: f in fields ==> Given(a, f) == Given(b, f)
  {
    if KeyOf(fields, a) == KeyOf(fields, b) {
      forall f | f in fields ensures Given(a, f) == Given(b, f) {
        var i :| 0 <= i < |fields| && fields[i] == f;
        assert KeyOf(fields, a)[i] == KeyOf(fields, b)[i];
      }
    } else {
      var i :| 0 <= i < |fields| && KeyOf(fields, a)[i] != KeyOf(fields, b)[i];
      assert fields[i] in fields;
    }
  }

  /** The value of a property as JSON text, null where it is missing. */
  function Given(p: Properties, f: string): string {
    if f in p then p[f] else "null"
  }

  // --------------------------------------------------------- the others

  /** The one entity that a call is about. */
  function About(op: Op, answer: Answer): set<string> {
    match op
    case Update(id, _, _) => {id}
    case Delete(id, _) => {id}
    case Get(_) => {}
    case List(_) => {}
    case _ => if answer.One? && answer.entity.Ok? then {answer.entity.value.id} else {}
  }

  /** No call touches any other row, and no row is ever lost. */
  lemma OthersAreLeft(rows: Rows, op: Op, answer: Answer, after: Rows, id: string)
    requires Valid(rows) && Step(rows, op, answer, after)
    ensures id in rows ==>
      && id in after && after[id].id == id && after[id].typeId == rows[id].typeId
      && after[id].createdAt == rows[id].createdAt && after[id].uniqueKey == rows[id].uniqueKey
    ensures id !in About(op, answer) ==> (id in rows <==> id in after) && (id in rows ==> after[id] == rows[id])
  {
    hide KeyOf, Lists;
  }

  function FailureOf(answer: Answer): Option<Failure> {
    match answer
    case One(Err(f)) => Some(f)
    case Done(Err(f)) => Some(f)
    case _ => None
  }

  /** What calls are refused for, and that a call that is refused changes nothing. */
  lemma Refused(rows: Rows, op: Op, answer: Answer, after: Rows)
    requires Valid(rows) && Step(rows, op, answer, after)
    ensures FailureOf(answer).Some? ==> after == rows
    ensures FailureOf(answer) == Some(UnknownType) <==> op.Upsert? && op.keyFields.None?
    ensures FailureOf(answer) == Some(UniqueKeyNotDefined) <==> op.Upsert? && op.keyFields == Some([])
    ensures FailureOf(answer) == Some(NotFound) <==> (op.Get? || op.Update? || op.Delete?) && !Live(rows, op.id)
    ensures FailureOf(answer) == Some(AlreadyExists) ==> (op.Create? || op.Upsert?) && op.id in rows
  {
    hide KeyOf, Lists;
  }

  /** A listing goes by the time of creation, and by id where that is one. */
  lemma ListedByTime(rows: Rows, f: Filter, out: seq<Entity>, i: nat, j: nat)
    requires Lists(rows, f, out) && i < j < |out|
    ensures out[i].createdAt <= out[j].createdAt
    ensures out[i].createdAt == out[j].createdAt ==> T.Less(out[i].id, out[j].id)
  {
  }
}
