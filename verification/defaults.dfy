/**
  What a field reads in a row that never gave it: in the rows a table held when
  the field was added, and in the rows a write stores without it.
 */
module Defaults {
  import opened Options
  import opened Sorting
  import opened Tables
  import opened Migrations

  /** What a column of the type reads for want of anything better. */
  predicate Plain(ft: FieldType, v: Value) {
    match ft
    case TypeInt => v == Number(0)
    case TypeFloat => v == Number(0)
    case TypeBool => v == Truth(false)
    case TypeJson => v == Null
    case TypeGeometry => v == Null
    case _ => v == Text("")
  }

  /** What the rows already there read in an added field. */
  predicate ReadsAdded(f: Field, v: Value) {
    if f.default.Some? then v == f.default.value
    else if f.nullable && !f.required then v == Null
    else Plain(f.ftype, v)
  }

  /** What a row stored by a write that leaves the field out reads, before it is refused for a NULL. */
  predicate ReadsLeftOut(f: Field, v: Value) {
    if f.default.Some? then v == f.default.value
    else if f.nullable || f.required || f.primary then v == Null
    else Plain(f.ftype, v)
  }

  /** From its n-th column on the table has one for the field, with the default that adding it gives. */
  ghost predicate HasAdded(t: Table, n: nat, f: Field, d: Dialect) {
    exists j :: n <= j < |t.columns| && t.columns[j].name == f.name && t.columns[j].default == AddedColumn(f, d).default
  }

  lemma AddedGrows(t: Table, u: Table, n: nat, f: Field, d: Dialect)
    requires Grown(t, u) && HasAdded(t, n, f, d)
    ensures HasAdded(u, n, f, d)
  {
    hide AddedColumn;
    var j :| n <= j < |t.columns| && t.columns[j].name == f.name && t.columns[j].default == AddedColumn(f, d).default;
    assert SameColumn(t, t.columns[j], u.columns[j]);
  }

  lemma FieldAdded(t: Table, before: seq<Statement>, table: string, f: Field, d: Dialect, test: bool)
    requires Sound(t) && !f.primary && f.name !in Names(t.columns)
    requires FieldStatements(table, f, Names(t.columns), d, test).Some?
    requires ExecAll(t, before + FieldStatements(table, f, Names(t.columns), d, test).value).Some?
    ensures HasAdded(ExecAll(t, before + FieldStatements(table, f, Names(t.columns), d, test).value).value, |t.columns|, f, d)
  {
    hide Sound, ExecAll, Grown, AddedColumn, Names, HasAdded;
    var more := FieldStatements(table, f, Names(t.columns), d, test).value;
    var added := before + [more[0]];
    if |more| == 1 {
      assert before + more == added;
    } else {
      assert before + more == added + [more[1]];
      ExecAppended(t, added, more[1]);
    }
    ExecAppended(t, before, more[0]);
    ExecAllGrows(t, before);
    var u := ExecAll(t, before).value;
    LastIsAdded(t, u, f, d);
    ExecGrows(u, more[0]);
    if |more| == 2 {
      ExecGrows(ExecAll(t, added).value, more[1]);
      AddedGrows(ExecAll(t, added).value, ExecAll(t, before + more).value, |t.columns|, f, d);
    }
  }

  lemma LastIsAdded(t: Table, u: Table, f: Field, d: Dialect)
    requires Grown(t, u) && Exec(u, AddColumn(AddedColumn(f, d))).Some?
    ensures HasAdded(Exec(u, AddColumn(AddedColumn(f, d))).value, |t.columns|, f, d)
  {
    var v := Exec(u, AddColumn(AddedColumn(f, d))).value;
    assert v.columns[|u.columns|] == AddedColumn(f, d);
  }

  lemma {:induction false} AllAdded(t: Table, table: string, fields: seq<Field>, d: Dialect, test: bool)
    requires Sound(t) && Additions(table, fields, Names(t.columns), d, test).Some?
    requires ExecAll(t, Additions(table, fields, Names(t.columns), d, test).value).Some?
    ensures forall f :: f in fields && !f.primary && f.name !in Names(t.columns) ==>
      HasAdded(ExecAll(t, Additions(table, fields, Names(t.columns), d, test).value).value, |t.columns|, f, d)
  {
    hide Sound, ExecAll, Grown, FieldStatements, Names, HasAdded;
    if fields != [] {
      var k := |fields| - 1;
      var before := Additions(table, fields[..k], Names(t.columns), d, test).value;
      var sts := Additions(table, fields, Names(t.columns), d, test).value;
      assert fields == fields[..k] + [fields[k]];
      AdditionsStep(t, before, table, fields[k], d, test);
      AllAdded(t, table, fields[..k], d, test);
      forall f | f in fields[..k] && !f.primary && f.name !in Names(t.columns)
        ensures HasAdded(ExecAll(t, sts).value, |t.columns|, f, d)
      {
        AddedGrows(ExecAll(t, before).value, ExecAll(t, sts).value, |t.columns|, f, d);
      }
      if !fields[k].primary && fields[k].name !in Names(t.columns) { FieldAdded(t, before, table, fields[k], d, test); }
    }
  }

  lemma MigratedHasAdded(t: Table, o: Object, d: Dialect, test: bool, taken: bool, f: Field)
    requires Sound(t) && Migrated(Some(t), o, d, test, taken).1
    requires f in o.fields && !f.primary && f.name !in Names(t.columns)
    ensures HasAdded(Migrated(Some(t), o, d, test, taken).0.value, |t.columns|, f, d)
  {
    hide Sound, Additions, ExecAll, Relax, Each, Names, HasAdded, Grown, IndexStatements;
    AllAdded(t, Physical(o, test), o.fields, d, test);
    var sts := Additions(Physical(o, test), o.fields, Names(t.columns), d, test).value;
    ExecAllGrows(t, sts);
    var u := ExecAll(t, sts).value;
    RelaxGrows(u, o, d, test, taken);
    var v := Relax(u, o, d, test, taken).table;
    AddedGrows(u, v, |t.columns|, f, d);
    EachGrows(v, IndexStatements(o, d, test));
    AddedGrows(v, Each(v, IndexStatements(o, d, test)).table, |t.columns|, f, d);
  }

  lemma AddedDefault(f: Field, d: Dialect)
    requires !f.primary
    ensures ReadsAdded(f, DefaultOf(AddedColumn(f, d)))
  {
  }

  /**
    After a migration that goes through, every row that was there reads in each
    added field what the field declares: its default, or no value where that is
    meant, or the zero, false or empty text of its type.
   */
  lemma HeldRowsReadDeclared(t: Table, o: Object, d: Dialect, test: bool, taken: bool, f: Field, i: nat)
    requires Sound(t) && i < |t.rows| && Migrated(Some(t), o, d, test, taken).1
    requires f in o.fields && !f.primary && f.name !in Names(t.columns)
    ensures var u := Migrated(Some(t), o, d, test, taken).0.value;
      && |u.rows| == |t.rows| && ReadsAdded(f, Get(u.rows[i], f.name))
      && forall n :: n in t.rows[i] ==> Get(u.rows[i], n) == t.rows[i][n]
  {
    hide Sound, Migrated, AddedColumn, ReadsAdded;
    MigratedGrows(Some(t), o, d, test, taken);
    var u := Migrated(Some(t), o, d, test, taken).0.value;
    MigratedHasAdded(t, o, d, test, taken, f);
    var j :| |t.columns| <= j < |u.columns| && u.columns[j].name == f.name && u.columns[j].default == AddedColumn(f, d).default;
    assert GrownRow(t, u, t.rows[i], u.rows[i]);
    AddedDefault(f, d);
  }

  /** A write to a fresh table that leaves a field out stores what the field declares. */
  lemma FreshRowsReadDeclared(o: Object, d: Dialect, test: bool, given: Row, f: Field)
    requires Created(o, d, test).Some? && f in o.fields && f.name !in given
    ensures ReadsLeftOut(f, Get(Stored(Created(o, d, test).value, given), f.name))
  {
    hide Created, ColumnOf, WellFormed, Stored, Get, ReadsLeftOut;
    CreatedIsSound(o, d, test);
    CreatedHasField(o, d, test, f);
    StoredGet(Created(o, d, test).value, given, ColumnOf(f, d));
    FreshDefault(f, d);
  }

  lemma FreshDefault(f: Field, d: Dialect)
    ensures ColumnOf(f, d).name == f.name && ReadsLeftOut(f, DefaultOf(ColumnOf(f, d)))
  {
  }

  lemma CreatedHasField(o: Object, d: Dialect, test: bool, f: Field)
    requires Created(o, d, test).Some? && f in o.fields
    ensures ColumnOf(f, d) in Created(o, d, test).value.columns
  {
    hide Distinct, Primaries, UniqueFields, ColumnOf, Names;
    var i :| 0 <= i < |o.fields| && o.fields[i] == f;
    assert Created(o, d, test).value.columns[|RunColumns(test)| + i] == ColumnOf(f, d);
  }
}
