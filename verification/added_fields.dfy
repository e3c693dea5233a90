/**
  What a migration does for the fields that are new to a table: when it is refused
  for one, which indexes the table has after it, and what a unique one asks of rows.
 */
module AddedFields {
  import opened Options
  import opened Tables
  import opened Migrations
  import opened DeclaredRows
  import T = TestCopies

  /** The field is new to a table with these columns. */
  predicate Added(held: seq<string>, f: Field) {
    !f.primary && f.name !in held
  }

  predicate AddedUnique(held: seq<string>, f: Field) {
    Added(held, f) && f.unique
  }

  predicate TooLong(table: string, name: string) {
    |table| + 1 + |name| + 3 > 63
  }

  /** A table that is there is refused new fields exactly for a unique one whose index would have too long a name. */
  lemma {:induction false} RefusedForName(table: string, fields: seq<Field>, held: seq<string>, d: Dialect, test: bool)
    ensures Additions(table, fields, held, d, test).None? <==>
      exists f :: f in fields && AddedUnique(held, f) && TooLong(table, f.name)
  {
    hide AddedColumn, UniqueIndex;
    if fields != [] {
      var k := |fields| - 1;
      RefusedForName(table, fields[..k], held, d, test);
      assert fields == fields[..k] + [fields[k]];
      assert |UniqueName(table, fields[k].name)| == |table| + 1 + |fields[k].name| + 3;
    }
  }

  ghost predicate Creates(sts: seq<Statement>, name: string, ix: Index) {
    exists i :: 0 <= i < |sts| && sts[i] == CreateIndex(name, ix)
  }

  lemma CreatesJoined(a: seq<Statement>, b: seq<Statement>, name: string, ix: Index)
    ensures Creates(a + b, name, ix) <==> Creates(a, name, ix) || Creates(b, name, ix)
  {
    var all := a + b;
    if i :| 0 <= i < |a| && a[i] == CreateIndex(name, ix) { assert all[i] == a[i]; }
    if i :| 0 <= i < |b| && b[i] == CreateIndex(name, ix) { assert all[|a| + i] == b[i]; }
    if i :| 0 <= i < |all| && all[i] == CreateIndex(name, ix) { assert if i < |a| then a[i] == all[i] else b[i - |a|] == all[i]; }
  }

  /** The index of a new unique field, and no other, is created. */
  lemma {:induction false} AdditionsCreate(
      table: string, fields: seq<Field>, held: seq<string>, d: Dialect, test: bool, name: string, ix: Index)
    requires Additions(table, fields, held, d, test).Some?
    ensures Creates(Additions(table, fields, held, d, test).value, name, ix) <==>
      exists f :: f in fields && AddedUnique(held, f) && name == UniqueName(table, f.name) && ix == UniqueIndex(f.name, test)
  {
    hide AddedColumn, UniqueIndex, UniqueName, Creates;
    if fields == [] {
      NothingCreated(name, ix);
    } else {
      var k := |fields| - 1;
      AdditionsCreate(table, fields[..k], held, d, test, name, ix);
      assert fields == fields[..k] + [fields[k]];
      var more := FieldStatements(table, fields[k], held, d, test).value;
      CreatesJoined(Additions(table, fields[..k], held, d, test).value, more, name, ix);
      FieldCreates(table, fields[k], held, d, test, name, ix);
    }
  }

  lemma NothingCreated(name: string, ix: Index)
    ensures !Creates([], name, ix)
  {
  }

  lemma FieldCreates(table: string, f: Field, held: seq<string>, d: Dialect, test: bool, name: string, ix: Index)
    requires FieldStatements(table, f, held, d, test).Some?
    ensures Creates(FieldStatements(table, f, held, d, test).value, name, ix) <==>
      AddedUnique(held, f) && name == UniqueName(table, f.name) && ix == UniqueIndex(f.name, test)
  {
    hide AddedColumn, UniqueIndex, UniqueName;
    var sts := FieldStatements(table, f, held, d, test).value;
    if AddedUnique(held, f) { assert sts[1] == CreateIndex(UniqueName(table, f.name), UniqueIndex(f.name, test)); }
  }

  /** The table has the indexes it had, and those that were created. */
  ghost predicate Gained(t: Table, u: Table, sts: seq<Statement>) {
    && (forall n :: n in t.indexes ==> n in u.indexes && u.indexes[n] == t.indexes[n])
    && (forall n :: n in u.indexes && n !in t.indexes ==> Creates(sts, n, u.indexes[n]))
    && (forall n, ix :: Creates(sts, n, ix) ==> n in u.indexes)
  }

  lemma GainedNext(t: Table, u: Table, sts: seq<Statement>, st: Statement)
    requires Gained(t, u, sts) && Exec(u, st).Some?
    ensures Gained(t, Exec(u, st).value, sts + [st])
  {
    hide NoClash, HasColumns, HasColumn, Creates;
    var v := Exec(u, st).value;
    forall n, ix ensures Creates(sts + [st], n, ix) <==> Creates(sts, n, ix) || st == CreateIndex(n, ix) {
      CreatesJoined(sts, [st], n, ix);
      CreatesOne(st, n, ix);
    }
    forall n | n in v.indexes && n !in t.indexes ensures Creates(sts + [st], n, v.indexes[n]) {
      assert n in u.indexes || st == CreateIndex(n, v.indexes[n]);
    }
  }

  lemma CreatesOne(st: Statement, n: string, ix: Index)
    ensures Creates([st], n, ix) <==> st == CreateIndex(n, ix)
  {
    assert [st][0] == st;
  }

  lemma GainedNothing(t: Table)
    ensures Gained(t, t, [])
  {
  }

  lemma {:induction false} ExecAllGains(t: Table, sts: seq<Statement>)
    requires ExecAll(t, sts).Some?
    ensures Gained(t, ExecAll(t, sts).value, sts)
  {
    hide Gained, Exec;
    GainedNothing(t);
    if sts != [] {
      var k := |sts| - 1;
      ExecAllGains(t, sts[..k]);
      GainedNext(t, ExecAll(t, sts[..k]).value, sts[..k], sts[k]);
      assert sts == sts[..k] + [sts[k]];
    }
  }

  lemma {:induction false} EachGains(t: Table, sts: seq<Statement>)
    requires Each(t, sts).ok
    ensures Gained(t, Each(t, sts).table, sts)
  {
    hide Gained, Exec;
    GainedNothing(t);
    if sts != [] {
      var k := |sts| - 1;
      EachGains(t, sts[..k]);
      GainedNext(t, Each(t, sts[..k]).table, sts[..k], sts[k]);
      assert sts == sts[..k] + [sts[k]];
    }
  }

  lemma RelaxKeepsIndexes(t: Table, o: Object, d: Dialect, test: bool, taken: bool)
    ensures Relax(t, o, d, test, taken).table.indexes == t.indexes
  {
    hide Orphans, Admits, NotNulls, HasColumn, ExecAll, Drops;
    var orphans := Orphans(t, t.columns, o, test);
    OrphansDroppable(t, o, test);
    DropAll(t, orphans);
  }

  /** The index that a copy of this name needs of its own for a unique field. */
  ghost predicate CopyIndex(table: string, o: Object, d: Dialect, name: string, ix: Index) {
    exists f :: f in o.fields && f.unique && !f.primary
      && name == HeldName(UniqueName(table, f.name), d) && ix == UniqueIndex(f.name, true)
  }

  ghost predicate OneOf(table: string, ixs: seq<DeclaredIndex>, d: Dialect, test: bool, name: string, ix: Index) {
    exists i :: 0 <= i < |ixs| && name == HeldName(IndexName(table, ixs[i]), d) && ix == IndexOn(ixs[i], test)
  }

  ghost predicate DeclaresIndex(o: Object, d: Dialect, test: bool, name: string, ix: Index) {
    (test && CopyIndex(Physical(o, true), o, d, name, ix)) || OneOf(Physical(o, test), o.indexes, d, test, name, ix)
  }

  lemma StatementsDeclare(o: Object, d: Dialect, test: bool, name: string, ix: Index)
    ensures Creates(IndexStatements(o, d, test), name, ix) <==> DeclaresIndex(o, d, test, name, ix)
  {
    hide UniqueFields, HeldName, UniqueName, IndexName, IndexOn, UniqueIndex, Physical, Creates;
    var table := Physical(o, test);
    var own := if test then UniqueStatements(table, UniqueFields(o.fields), d) else [];
    var declared := DeclaredStatements(table, o.indexes, d, test);
    CreatesJoined(own, declared, name, ix);
    UniquesCreate(table, o, d, name, ix);
    NothingCreated(name, ix);
    DeclaredCreate(table, o.indexes, d, test, name, ix);
  }

  lemma UniquesCreate(table: string, o: Object, d: Dialect, name: string, ix: Index)
    ensures Creates(UniqueStatements(table, UniqueFields(o.fields), d), name, ix) <==> CopyIndex(table, o, d, name, ix)
  {
    hide UniqueFields, HeldName, UniqueName, UniqueIndex;
    var unique := UniqueFields(o.fields);
    var sts := UniqueStatements(table, unique, d);
    if i :| 0 <= i < |sts| && sts[i] == CreateIndex(name, ix) { UniqueFieldsAre(o.fields, unique[i]); }
    if CopyIndex(table, o, d, name, ix) {
      var f :| f in o.fields && f.unique && !f.primary
        && name == HeldName(UniqueName(table, f.name), d) && ix == UniqueIndex(f.name, true);
      UniqueFieldsAre(o.fields, f.name);
      var i :| 0 <= i < |unique| && unique[i] == f.name;
      assert sts[i] == CreateIndex(name, ix);
    }
  }

  lemma DeclaredCreate(table: string, ixs: seq<DeclaredIndex>, d: Dialect, test: bool, name: string, ix: Index)
    ensures Creates(DeclaredStatements(table, ixs, d, test), name, ix) <==> OneOf(table, ixs, d, test, name, ix)
  {
    hide HeldName, IndexName, IndexOn;
    var sts := DeclaredStatements(table, ixs, d, test);
    if OneOf(table, ixs, d, test, name, ix) {
      var i :| 0 <= i < |ixs| && name == HeldName(IndexName(table, ixs[i]), d) && ix == IndexOn(ixs[i], test);
      assert sts[i] == CreateIndex(name, ix);
    }
  }

  ghost predicate AddsIndex(t: Table, o: Object, test: bool, name: string, ix: Index) {
    exists f :: f in o.fields && AddedUnique(Names(t.columns), f)
      && name == UniqueName(Physical(o, test), f.name) && ix == UniqueIndex(f.name, test)
  }

  /**
    After a migration that goes through, a table that was there has the indexes it
    had, unchanged, and those of its new unique fields and its declared indexes; every
    one of these names is taken, and nothing else is there.
   */
  lemma MigratedIndexes(t: Table, o: Object, d: Dialect, test: bool, taken: bool, name: string)
    requires Migrated(Some(t), o, d, test, taken).1
    ensures var held := Migrated(Some(t), o, d, test, taken).0.value.indexes;
      && (name in t.indexes ==> name in held && held[name] == t.indexes[name])
      && (name in held && name !in t.indexes ==>
           AddsIndex(t, o, test, name, held[name]) || DeclaresIndex(o, d, test, name, held[name]))
      && (forall ix :: AddsIndex(t, o, test, name, ix) || DeclaresIndex(o, d, test, name, ix) ==> name in held)
      && (forall ix :: AddsIndex(t, o, test, name, ix) && name !in t.indexes ==> AddsIndex(t, o, test, name, held[name]))
  {
    hide Additions, ExecAll, Relax, Each, IndexStatements, Creates, DeclaresIndex, AddedUnique, UniqueName, UniqueIndex, Physical;
    var added := Additions(Physical(o, test), o.fields, Names(t.columns), d, test).value;
    var declared := IndexStatements(o, d, test);
    var u := ExecAll(t, added).value;
    var v := Relax(u, o, d, test, taken).table;
    ExecAllGains(t, added);
    RelaxKeepsIndexes(u, o, d, test, taken);
    EachGains(v, declared);
    forall ix ensures Creates(added, name, ix) <==> AddsIndex(t, o, test, name, ix) {
      AdditionsCreate(Physical(o, test), o.fields, Names(t.columns), d, test, name, ix);
    }
    forall ix ensures Creates(declared, name, ix) <==> DeclaresIndex(o, d, test, name, ix) {
      StatementsDeclare(o, d, test, name, ix);
    }
  }

  /** A new unique field asks of rows that no two of a run share it, unless an index had the name already. */
  lemma AddedUniqueAsks(t: Table, o: Object, d: Dialect, test: bool, taken: bool, f: Field, rows: seq<Row>, i: nat, j: nat)
    requires Migrated(Some(t), o, d, test, taken).1
    requires f in o.fields && AddedUnique(Names(t.columns), f) && UniqueName(Physical(o, test), f.name) !in t.indexes
    requires i < j < |rows| && Admits(Migrated(Some(t), o, d, test, taken).0.value, rows)
    ensures !(SameRun(rows[i], rows[j], test) && Shares(rows[i], rows[j], f.name))
  {
    assert Migrated(Some(t), o, d, test, taken).0.Some?;
    hide AddedUnique, UniqueName, UniqueIndex, Physical, Get, NoClash, Clash;
    var u, name := Migrated(Some(t), o, d, test, taken).0.value, UniqueName(Physical(o, test), f.name);
    MigratedIndexes(t, o, d, test, taken, name);
    assert AddsIndex(t, o, test, name, UniqueIndex(f.name, test));
    var g :| g in o.fields && name == UniqueName(Physical(o, test), g.name) && u.indexes[name] == UniqueIndex(g.name, test);
    T.NamesDiffer(Physical(o, test), f.name, g.name);
    UniqueClash(rows, f.name, test, i, j);
  }

  lemma UniqueClash(rows: seq<Row>, name: string, test: bool, i: nat, j: nat)
    requires i < j < |rows|
    ensures UniqueIndex(name, test).unique
    ensures NoClash(UniqueIndex(name, test), rows) ==> !(SameRun(rows[i], rows[j], test) && Shares(rows[i], rows[j], name))
  {
    hide Get, Clash;
    ClashOver(RunKey(test) + [name], rows[i], rows[j]);
  }
}
