/**
  What a declaration asks of the rows of a table, field by field and index by
  index, said without the columns, constraints and indexes that it is turned into.
 */
module DeclaredRows {
  import opened Sorting
  import opened Tables
  import opened Migrations
  import opened TestCopies

  // ------------------------------------------------------------ two rows

  /** Both rows have the value, and it is the same. */
  predicate Shares(a: Row, b: Row, name: string) {
    Get(a, name) != Null && Get(a, name) == Get(b, name)
  }

  /** The row is one that the index is about. */
  predicate Concerns(ix: DeclaredIndex, row: Row) {
    && (ix.notDeleted ==> Get(row, "deleted") == Truth(false))
    && forall c :: c in ix.conditions ==> IsMet(c, row)
  }

  predicate IsMet(c: Condition, row: Row) {
    if c.op == NotEmpty then Get(row, c.field) !in [Null, Text("")] else Get(row, c.field) == Truth(c.op == IsTrue)
  }

  /** The rows agree on all that the index names: on the place in the document, or on every field. */
  predicate Repeats(ix: DeclaredIndex, a: Row, b: Row) {
    match ix.path
    case Some(p) => p.read(Get(a, p.field)) == p.read(Get(b, p.field)) && p.read(Get(a, p.field)) != Null
    case None => forall n :: n in ix.fields ==> Shares(a, b, n)
  }

  /** Two rows may be in one table: they differ in the key, in each unique field, and in what each unique index names. */
  ghost predicate MayMeet(o: Object, a: Row, b: Row) {
    && !(forall f :: f in o.fields && f.primary ==> Shares(a, b, f.name))
    && (forall f :: f in o.fields && f.unique && !f.primary ==> !Shares(a, b, f.name))
    && forall ix :: ix in o.indexes && ix.unique && Concerns(ix, a) && Concerns(ix, b) ==> !Repeats(ix, a, b)
  }

  lemma ClashOver(names: seq<string>, a: Row, b: Row)
    ensures Clash(Over(names), a, b) <==> forall n :: n in names ==> Shares(a, b, n)
  {
    hide Get;
    var ix := Over(names);
    assert IndexKey(ix, a) == Picked(a, names) && IndexKey(ix, b) == Picked(b, names);
    PickedAgree(names, a, b);
  }

  lemma PickedAgree(names: seq<string>, a: Row, b: Row)
    ensures Picked(a, names) == Picked(b, names) && Null !in Picked(a, names) <==> forall n :: n in names ==> Shares(a, b, n)
  {
    hide Get;
    if forall n :: n in names ==> Shares(a, b, n) {
      forall i | 0 <= i < |names| ensures Picked(a, names)[i] == Picked(b, names)[i] && Picked(a, names)[i] != Null {
        assert names[i] in names;
      }
    }
    if Picked(a, names) == Picked(b, names) && Null !in Picked(a, names) {
      forall n | n in names ensures Shares(a, b, n) {
        var i :| 0 <= i < |names| && names[i] == n;
        assert Picked(a, names)[i] == Get(a, n) && Picked(b, names)[i] == Get(b, n);
      }
    }
  }

  lemma ClashKey(o: Object, a: Row, b: Row)
    ensures Clash(Over(Primaries(o.fields)), a, b) <==> forall f :: f in o.fields && f.primary ==> Shares(a, b, f.name)
  {
    hide Clash, Shares, Primaries;
    ClashOver(Primaries(o.fields), a, b);
    forall n ensures n in Primaries(o.fields) <==> exists f :: f in o.fields && f.primary && f.name == n {
      PrimariesAre(o.fields, n);
    }
  }

  lemma ConcernsCovers(ix: DeclaredIndex, row: Row)
    ensures Covers(IndexOn(ix, false), row) <==> Concerns(ix, row)
  {
    hide Get;
    var all := ConditionsOf(ix);
    var own := Condition("deleted", IsFalse);
    forall c ensures Holds(c, row) <==> IsMet(c, row) { HoldsIsMet(c, row); }
    hide IsMet, Holds;
    if Concerns(ix, row) {
      forall c | c in all ensures Holds(c, row) {
        assert c in ix.conditions || (ix.notDeleted && c == own);
        OwnHolds(row);
      }
    }
    if forall c :: c in all ==> Holds(c, row) {
      assert forall c :: c in ix.conditions ==> c in all;
      assert ix.notDeleted ==> own in all by { if ix.notDeleted { assert all[0] == own; } }
      OwnHolds(row);
    }
  }

  lemma OwnHolds(row: Row)
    ensures Holds(Condition("deleted", IsFalse), row) <==> Get(row, "deleted") == Truth(false)
  {
  }

  lemma HoldsIsMet(c: Condition, row: Row)
    ensures Holds(c, row) <==> IsMet(c, row)
  {
  }

  lemma ClashIndex(ix: DeclaredIndex, a: Row, b: Row)
    ensures Clash(IndexOn(ix, false), a, b) <==> Concerns(ix, a) && Concerns(ix, b) && Repeats(ix, a, b)
  {
    hide Get, Covers, Concerns, ConditionsOf;
    ConcernsCovers(ix, a);
    ConcernsCovers(ix, b);
    if ix.path.None? {
      assert [] + ix.fields == ix.fields;
      PickedAgree(ix.fields, a, b);
      assert IndexKey(IndexOn(ix, false), a) == Picked(a, ix.fields) && IndexKey(IndexOn(ix, false), b) == Picked(b, ix.fields);
    } else {
      hide Picked;
      KeyOfPath(ix, a);
      KeyOfPath(ix, b);
    }
  }

  lemma KeyOfPath(ix: DeclaredIndex, row: Row)
    requires ix.path.Some?
    ensures IndexKey(IndexOn(ix, false), row) == [ix.path.value.read(Get(row, ix.path.value.field))]
  {
    hide Get;
  }

  // ---------------------------------------------------------- all the rows

  ghost predicate NoneClashes(list: seq<Index>, a: Row, b: Row) {
    forall ix :: ix in list && ix.unique ==> !Clash(ix, a, b)
  }

  lemma NoneJoined(x: seq<Index>, y: seq<Index>, a: Row, b: Row)
    ensures NoneClashes(x + y, a, b) <==> NoneClashes(x, a, b) && NoneClashes(y, a, b)
  {
    hide Clash;
    if NoneClashes(x + y, a, b) {
      forall ix | ix in x && ix.unique ensures !Clash(ix, a, b) { assert ix in x + y; }
      forall ix | ix in y && ix.unique ensures !Clash(ix, a, b) { assert ix in x + y; }
    }
  }

  lemma UniquesClash(o: Object, a: Row, b: Row)
    ensures NoneClashes(Overs(Singles(UniqueFields(o.fields))), a, b)
      <==> forall f :: f in o.fields && f.unique && !f.primary ==> !Shares(a, b, f.name)
  {
    hide Clash, Shares, UniqueFields;
    var unique := UniqueFields(o.fields);
    var list := Overs(Singles(unique));
    forall i | 0 <= i < |unique| ensures list[i] == Over([unique[i]]) && (Clash(list[i], a, b) <==> Shares(a, b, unique[i])) {
      ClashOver([unique[i]], a, b);
      assert unique[i] in [unique[i]];
    }
    if NoneClashes(list, a, b) {
      forall f | f in o.fields && f.unique && !f.primary ensures !Shares(a, b, f.name) {
        UniqueFieldsAre(o.fields, f.name);
        var i :| 0 <= i < |unique| && unique[i] == f.name;
        assert list[i] in list;
      }
    }
    if forall f :: f in o.fields && f.unique && !f.primary ==> !Shares(a, b, f.name) {
      forall i | 0 <= i < |unique| ensures !Clash(list[i], a, b) { UniqueFieldsAre(o.fields, unique[i]); }
    }
  }

  lemma IndexesClash(o: Object, a: Row, b: Row)
    ensures NoneClashes(IndexList(o, false), a, b)
      <==> forall ix :: ix in o.indexes && ix.unique && Concerns(ix, a) && Concerns(ix, b) ==> !Repeats(ix, a, b)
  {
    hide Clash, Concerns, Repeats, IndexOn, UniqueFields;
    var list := IndexList(o, false);
    forall i | 0 <= i < |o.indexes|
      ensures list[i] == IndexOn(o.indexes[i], false) && list[i].unique == o.indexes[i].unique
      ensures Clash(list[i], a, b) <==> Concerns(o.indexes[i], a) && Concerns(o.indexes[i], b) && Repeats(o.indexes[i], a, b)
    {
      ClashIndex(o.indexes[i], a, b);
      UniqueIsKept(o.indexes[i]);
    }
    if NoneClashes(list, a, b) {
      forall i | 0 <= i < |o.indexes| && o.indexes[i].unique && Concerns(o.indexes[i], a) && Concerns(o.indexes[i], b)
        ensures !Repeats(o.indexes[i], a, b)
      {
        assert list[i] in list;
      }
    }
  }

  lemma UniqueIsKept(ix: DeclaredIndex)
    ensures IndexOn(ix, false).unique == ix.unique
  {
  }

  lemma ConstraintsClash(o: Object, a: Row, b: Row)
    ensures NoneClashes(Constraints(o), a, b) <==> MayMeet(o, a, b)
  {
    hide Clash, Shares, Concerns, Repeats, Primaries, UniqueFields, IndexList;
    var key := [Over(Primaries(o.fields))];
    NoneJoined(key, Overs(Singles(UniqueFields(o.fields))), a, b);
    NoneJoined(key + Overs(Singles(UniqueFields(o.fields))), IndexList(o, false), a, b);
    ClashKey(o, a, b);
    assert key[0] in key;
    UniquesClash(o, a, b);
    IndexesClash(o, a, b);
  }

  ghost predicate AllMayMeet(o: Object, rows: seq<Row>) {
    forall i, j :: 0 <= i < j < |rows| ==> MayMeet(o, rows[i], rows[j])
  }

  lemma MeetsEachTwo(list: seq<Index>, rows: seq<Row>)
    ensures Meets(list, rows) <==> forall i, j :: 0 <= i < j < |rows| ==> NoneClashes(list, rows[i], rows[j])
  {
    hide Clash;
    if Meets(list, rows) {
      forall i, j, ix | 0 <= i < j < |rows| && ix in list && ix.unique ensures !Clash(ix, rows[i], rows[j]) {
        var k :| 0 <= k < |list| && list[k] == ix;
        assert NoClash(list[k], rows);
      }
    }
    if forall i, j :: 0 <= i < j < |rows| ==> NoneClashes(list, rows[i], rows[j]) {
      forall k | 0 <= k < |list| && list[k].unique ensures NoClash(list[k], rows) {
        assert list[k] in list;
      }
    }
  }

  /**
    Rows meet the constraints of an object's live table exactly when every two of
    them differ in the key, in each unique field that both give, and in what each
    unique index that is about both names.
   */
  lemma RowsMeetDeclared(o: Object, d: Dialect, rows: seq<Row>)
    requires Validated(o) && Fresh(o, d, false).Some?
    ensures Admits(Fresh(o, d, false).value, rows) <==> AllMayMeet(o, rows)
  {
    hide Validated, Admits, Meets, Fresh, Constraints, NoneClashes, MayMeet;
    FreshAdmits(o, d, false, rows);
    MeetsEachTwo(Constraints(o), rows);
    forall i, j | 0 <= i < j < |rows| ensures NoneClashes(Constraints(o), rows[i], rows[j]) <==> MayMeet(o, rows[i], rows[j]) {
      ConstraintsClash(o, rows[i], rows[j]);
    }
  }

  // ------------------------------------------------------- the table itself

  lemma DistinctJoined(a: seq<string>, b: seq<string>)
    ensures Distinct(a + b) <==> Distinct(a) && Distinct(b) && forall n :: n in a ==> n !in b
  {
    var all := a + b;
    if Distinct(all) {
      forall i, j | 0 <= i < j < |a| ensures a[i] != a[j] { assert all[i] == a[i] && all[j] == a[j]; }
      DistinctParts(a, b);
    }
    if Distinct(a) && Distinct(b) && forall n :: n in a ==> n !in b {
      forall i, j | 0 <= i < j < |all| ensures all[i] != all[j] {
        assert i < |a| <= j ==> all[i] in a && all[j] in b;
      }
    }
  }

  /** A table is made exactly when no two fields have one name, none of a copy the run's, and there is a key. */
  lemma TableRefused(o: Object, d: Dialect, test: bool)
    ensures Created(o, d, test).Some? <==>
      && (forall i, j :: 0 <= i < j < |o.fields| ==> o.fields[i].name != o.fields[j].name)
      && (test ==> forall f :: f in o.fields ==> f.name != RUN_ID)
      && (test || exists f :: f in o.fields && f.primary)
  {
    hide Primaries, UniqueFields, Names, Distinct, ColumnOf;
    var cs := ColumnsOf(o.fields, d);
    NamesJoined(RunColumns(test), cs);
    DistinctJoined(Names(RunColumns(test)), Names(cs));
    RunNames(test);
    NamesOfFields(o.fields, d);
    if !test { AnyPrimary(o.fields); }
    FieldNames(o.fields, d, RUN_ID);
  }

  /** The live table has the object's name, and the copy that test runs share another. */
  lemma CopyStandsApart(o: Object)
    ensures Physical(o, false) == o.table
    ensures Physical(o, true) == o.table + "_test" != Physical(o, false)
  {
    assert |Physical(o, true)| > |o.table|;
  }

  lemma RunNames(test: bool)
    ensures Names(RunColumns(test)) == RunKey(test) && Distinct(RunKey(test))
  {
    assert Names(RunColumns(true)) == [RUN_ID];
  }

  lemma NamesOfFields(fields: seq<Field>, d: Dialect)
    ensures Distinct(Names(ColumnsOf(fields, d))) <==> forall i, j :: 0 <= i < j < |fields| ==> fields[i].name != fields[j].name
  {
    var names := Names(ColumnsOf(fields, d));
    assert forall i :: 0 <= i < |fields| ==> names[i] == fields[i].name;
    if Distinct(names) {
      forall i, j | 0 <= i < j < |fields| ensures fields[i].name != fields[j].name { assert names[i] != names[j]; }
    }
  }

  lemma AnyPrimary(fields: seq<Field>)
    ensures Primaries(fields) == [] <==> !exists f :: f in fields && f.primary
  {
    hide Primaries;
    if f :| f in fields && f.primary { PrimariesAre(fields, f.name); }
    if Primaries(fields) != [] { PrimariesAre(fields, Primaries(fields)[0]); }
  }

  // --------------------------------------------------------------- one row

  /** A row is refused for a NULL exactly in a field that is required or of the key, or for the run it is of. */
  lemma NullsRefused(o: Object, d: Dialect, test: bool, row: Row)
    requires Created(o, d, test).Some?
    ensures NotNulls(Created(o, d, test).value.columns, row) <==>
      && (forall f :: f in o.fields && (f.required || f.primary) ==> Get(row, f.name) != Null)
      && (test ==> Get(row, RUN_ID) != Null)
  {
    hide Distinct, Primaries, UniqueFields, Names, NotNulls;
    FieldNulls(o.fields, d, row);
    RunNulls(test, ColumnsOf(o.fields, d), row);
  }

  lemma FieldNulls(fields: seq<Field>, d: Dialect, row: Row)
    ensures NotNulls(ColumnsOf(fields, d), row) <==>
      forall f :: f in fields && (f.required || f.primary) ==> Get(row, f.name) != Null
  {
    hide Get, ColumnType, DefaultClause;
    var cs := ColumnsOf(fields, d);
    if NotNulls(cs, row) {
      forall i | 0 <= i < |fields| && (fields[i].required || fields[i].primary) ensures Get(row, fields[i].name) != Null {
        assert cs[i] in cs;
      }
    }
  }

  lemma RunNulls(test: bool, cs: seq<Column>, row: Row)
    ensures NotNulls(RunColumns(test) + cs, row) <==> NotNulls(cs, row) && (test ==> Get(row, RUN_ID) != Null)
  {
    hide Get;
    var all := RunColumns(test) + cs;
    if NotNulls(all, row) {
      forall c | c in cs && c.notNull ensures Get(row, c.name) != Null { assert c in all; }
      if test { assert all[0] in all; }
    }
  }

  /** Whole numbers, numbers and truths have types of their own; the dialects part only on bytes and documents. */
  lemma ColumnTypes(ft: FieldType)
    ensures (ColumnType(ft, Sqlite) == ColumnType(ft, Postgres)) <==> !(ft.TypeBytes? || ft.TypeJson? || ft.TypeGeometry?)
    ensures forall d :: ColumnType(ft, d) == "bigint" <==> ft.TypeInt?
    ensures forall d :: ColumnType(ft, d) == "double precision" <==> ft.TypeFloat?
    ensures forall d :: ColumnType(ft, d) == "boolean" <==> ft.TypeBool?
    ensures forall d :: ColumnType(ft, d) in ["bytea", "blob"] <==> ft.TypeBytes?
    ensures ColumnType(ft, Postgres) == "bytea" <==> ft.TypeBytes?
    ensures ColumnType(ft, Postgres) == "jsonb" <==> ft.TypeJson? || ft.TypeGeometry?
    ensures ColumnType(ft, Sqlite) == "text" <==> !(ft.TypeInt? || ft.TypeFloat? || ft.TypeBool? || ft.TypeBytes?)
  {
  }
}
