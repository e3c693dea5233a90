/**
  A database brought to a declared specification: the tables it holds, the
  migration that changes them statement by statement, and what any number of
  migrations, finished or cut short, keep.
 */
module Databases {
  import opened Options
  import opened Sorting
  import opened Tables
  import opened Migrations

  /** The objects with a live table and a copy for test runs, and the ones with a live table only. */
  datatype Spec = Spec(objects: seq<Object>, settings: seq<Object>)

  datatype Job = Job(declared: Object, test: bool)

  datatype Run = Run(tables: map<string, Table>, ok: bool)

  function Target(j: Job): string {
    Physical(j.declared, j.test)
  }

  function Held(tables: map<string, Table>, j: Job): Option<Table> {
    if Target(j) in tables then Some(tables[Target(j)]) else None
  }

  function Taken(tables: map<string, Table>, j: Job): bool {
    Target(j) + REBUILD_SUFFIX in tables
  }

  function RunJob(tables: map<string, Table>, d: Dialect, j: Job): Run {
    var r := Migrated(Held(tables, j), j.declared, d, j.test, Taken(tables, j));
    Run(if r.0.Some? then tables[Target(j) := r.0.value] else tables, r.1)
  }

  /** The jobs in order; the first that fails is the last that runs. */
  function RunJobs(tables: map<string, Table>, d: Dialect, jobs: seq<Job>): Run {
    if jobs == [] then Run(tables, true)
    else
      var p := RunJobs(tables, d, jobs[..|jobs| - 1]);
      if !p.ok then p else RunJob(p.tables, d, jobs[|jobs| - 1])
  }

  function JobsFor(objects: seq<Object>, test: bool): (r: seq<Job>)
    ensures |r| == |objects| && forall i :: 0 <= i < |r| ==> r[i] == Job(objects[i], test)
  {
    seq(|objects|, i requires 0 <= i < |objects| => Job(objects[i], test))
  }

  function Jobs(s: Spec): seq<Job> {
    JobsFor(s.objects + s.settings, false) + JobsFor(s.objects, true)
  }

  function MigratedAll(tables: map<string, Table>, d: Dialect, s: Spec): Run {
    RunJobs(tables, d, Jobs(s))
  }

  /** No two of a specification's tables share a name, as its validation claims them. */
  predicate DistinctTargets(jobs: seq<Job>) {
    forall i, j :: 0 <= i < j < |jobs| ==> Target(jobs[i]) != Target(jobs[j])
  }

  predicate AllSound(tables: map<string, Table>) {
    forall n :: n in tables ==> Sound(tables[n])
  }

  /** Every table is still there and has lost nothing. */
  ghost predicate AllGrown(before: map<string, Table>, after: map<string, Table>) {
    forall n :: n in before ==> n in after && Grown(before[n], after[n])
  }

  // ------------------------------------------------ any number of runs

  lemma AllGrownTwice(a: map<string, Table>, b: map<string, Table>, c: map<string, Table>)
    requires AllSound(b) && AllGrown(a, b) && AllGrown(b, c)
    ensures AllGrown(a, c)
  {
    hide Grown, Sound;
    forall n | n in a ensures Grown(a[n], c[n]) {
      SoundIsWellFormed(b[n]);
      GrownTwice(a[n], b[n], c[n]);
    }
  }

  lemma AllGrownItself(tables: map<string, Table>)
    ensures AllGrown(tables, tables)
  {
    hide Grown;
    forall n | n in tables ensures Grown(tables[n], tables[n]) {
      GrownItself(tables[n]);
    }
  }

  lemma JobGrows(tables: map<string, Table>, d: Dialect, j: Job)
    requires AllSound(tables)
    ensures AllSound(RunJob(tables, d, j).tables) && AllGrown(tables, RunJob(tables, d, j).tables)
  {
    hide Grown, Sound, Migrated;
    MigratedGrows(Held(tables, j), j.declared, d, j.test, Taken(tables, j));
    AllGrownItself(tables);
  }

  lemma {:induction false} JobsGrow(tables: map<string, Table>, d: Dialect, jobs: seq<Job>)
    requires AllSound(tables)
    ensures AllSound(RunJobs(tables, d, jobs).tables) && AllGrown(tables, RunJobs(tables, d, jobs).tables)
  {
    hide AllGrown, AllSound, RunJob;
    if jobs == [] {
      AllGrownItself(tables);
    } else {
      JobsGrow(tables, d, jobs[..|jobs| - 1]);
      var p := RunJobs(tables, d, jobs[..|jobs| - 1]);
      if p.ok {
        JobGrows(p.tables, d, jobs[|jobs| - 1]);
        AllGrownTwice(tables, p.tables, RunJob(p.tables, d, jobs[|jobs| - 1]).tables);
      }
    }
  }

  /** The tables after migrating to each specification in turn, whether or not each run went through. */
  function AfterHistory(tables: map<string, Table>, d: Dialect, specs: seq<Spec>): map<string, Table> {
    if specs == [] then tables
    else MigratedAll(AfterHistory(tables, d, specs[..|specs| - 1]), d, specs[|specs| - 1]).tables
  }

  /**
    Across every sequence of specifications, related or not, no table, column,
    key, constraint, index, row or value is ever lost, and every added column
    reads its default in the rows that were there.
   */
  lemma {:induction false} HistoryGrows(tables: map<string, Table>, d: Dialect, specs: seq<Spec>)
    requires AllSound(tables)
    ensures AllSound(AfterHistory(tables, d, specs)) && AllGrown(tables, AfterHistory(tables, d, specs))
  {
    hide AllGrown, AllSound, RunJobs;
    if specs == [] {
      AllGrownItself(tables);
    } else {
      var k := |specs| - 1;
      HistoryGrows(tables, d, specs[..k]);
      var p := AfterHistory(tables, d, specs[..k]);
      JobsGrow(p, d, Jobs(specs[k]));
      AllGrownTwice(tables, p, MigratedAll(p, d, specs[k]).tables);
    }
  }

  // ------------------------------------------------- a run that finishes

  ghost predicate JobSettled(tables: map<string, Table>, d: Dialect, j: Job) {
    Target(j) in tables && Settled(tables[Target(j)], j.declared, d, j.test)
  }

  ghost predicate AllSettled(tables: map<string, Table>, d: Dialect, jobs: seq<Job>) {
    forall i :: 0 <= i < |jobs| ==> JobSettled(tables, d, jobs[i])
  }

  /**
    After a run that finishes, every table stores its declared fields, has its
    indexes, and no column outside the key refuses a row for leaving out a value
    that no declared field supplies.
   */
  lemma {:induction false} JobsSettle(tables: map<string, Table>, d: Dialect, jobs: seq<Job>)
    requires AllSound(tables) && DistinctTargets(jobs) && RunJobs(tables, d, jobs).ok
    ensures AllSettled(RunJobs(tables, d, jobs).tables, d, jobs)
  {
    hide AllSound, Settled, Migrated;
    if jobs != [] {
      var k := |jobs| - 1;
      JobsSettle(tables, d, jobs[..k]);
      JobsGrow(tables, d, jobs[..k]);
      var p := RunJobs(tables, d, jobs[..k]).tables;
      HeldSound(p, jobs[k]);
      MigratedSettles(Held(p, jobs[k]), jobs[k].declared, d, jobs[k].test, Taken(p, jobs[k]));
      forall i | 0 <= i < k ensures JobSettled(RunJob(p, d, jobs[k]).tables, d, jobs[i]) {
        assert JobSettled(p, d, jobs[..k][i]);
      }
      MigratedKeeps(Held(p, jobs[k]), jobs[k].declared, d, jobs[k].test, Taken(p, jobs[k]));
    }
  }

  lemma HeldSound(tables: map<string, Table>, j: Job)
    requires AllSound(tables)
    ensures Held(tables, j).Some? ==> Sound(Held(tables, j).value)
  {
    hide Sound;
  }

  lemma MigratedKeeps(held: Option<Table>, o: Object, d: Dialect, test: bool, taken: bool)
    ensures Migrated(held, o, d, test, taken).1 ==> Migrated(held, o, d, test, taken).0.Some?
  {
    hide Evolved, Each, Created, IndexStatements;
  }

  lemma {:induction false} SettledJobsStay(tables: map<string, Table>, d: Dialect, jobs: seq<Job>)
    requires AllSettled(tables, d, jobs)
    ensures RunJobs(tables, d, jobs) == Run(tables, true)
  {
    hide Settled, Migrated;
    if jobs != [] {
      var k := |jobs| - 1;
      assert JobSettled(tables, d, jobs[k]);
      forall i | 0 <= i < k ensures JobSettled(tables, d, jobs[..k][i]) {
        assert JobSettled(tables, d, jobs[i]);
      }
      SettledJobsStay(tables, d, jobs[..k]);
      var j := jobs[k];
      SettledStays(tables[Target(j)], j.declared, d, j.test, Taken(tables, j));
      assert tables[Target(j) := tables[Target(j)]] == tables;
    }
  }

  /** A second migration of what one finished leaves every table exactly as it is. */
  lemma MigrateTwice(tables: map<string, Table>, d: Dialect, s: Spec)
    requires AllSound(tables) && DistinctTargets(Jobs(s)) && MigratedAll(tables, d, s).ok
    ensures MigratedAll(MigratedAll(tables, d, s).tables, d, s) == MigratedAll(tables, d, s)
  {
    hide AllSound, RunJobs, AllSettled;
    JobsSettle(tables, d, Jobs(s));
    SettledJobsStay(MigratedAll(tables, d, s).tables, d, Jobs(s));
  }

  // ------------------------------------------------------- the database

  /** The position SQLite reports for a key column, from 1, and 0 for the others. */
  function PkOrdinal(key: seq<string>, name: string): (p: nat)
    ensures p <= |key|
    ensures p == 0 <==> name !in key
    ensures p > 0 ==> key[p - 1] == name
  {
    if key == [] then 0
    else if key[|key| - 1] == name then |key|
    else PkOrdinal(key[..|key| - 1], name)
  }

  lemma CountTo(s: set<nat>, n: nat)
    requires forall p :: p in s <==> 1 <= p <= n
    ensures |s| == n
  {
    if n == 0 {
      assert s == {};
    } else {
      CountTo(s - {n}, n - 1);
    }
  }

  /** The clauses of a create statement, one field after another. */
  method DeclareTable(o: Object, d: Dialect, test: bool)
      returns (columns: seq<Column>, primaries: seq<string>, uniques: seq<seq<string>>)
    ensures columns == RunColumns(test) + ColumnsOf(o.fields, d)
    ensures primaries == RunKey(test) + Primaries(o.fields)
    ensures uniques == if test then [] else Singles(UniqueFields(o.fields))
  {
    hide Primaries, UniqueFields, ColumnOf;
    columns, primaries, uniques := RunColumns(test), RunKey(test), [];
    NoFields(o.fields, d);
    for i := 0 to |o.fields|
      invariant columns == RunColumns(test) + ColumnsOf(o.fields[..i], d)
      invariant primaries == RunKey(test) + Primaries(o.fields[..i])
      invariant uniques == if test then [] else Singles(UniqueFields(o.fields[..i]))
    {
      FieldDeclared(o.fields, i, d);
      var f := o.fields[i];
      columns := columns + [ColumnOf(f, d)];
      if f.primary { primaries := primaries + [f.name]; }
      if f.unique && !f.primary && !test { uniques := uniques + [[f.name]]; }
    }
    assert o.fields[..|o.fields|] == o.fields;
  }

  lemma NoFields(fields: seq<Field>, d: Dialect)
    ensures ColumnsOf(fields[..0], d) == [] && Primaries(fields[..0]) == [] && Singles(UniqueFields(fields[..0])) == []
  {
  }

  lemma FieldDeclared(fields: seq<Field>, i: nat, d: Dialect)
    requires i < |fields|
    ensures ColumnsOf(fields[..i + 1], d) == ColumnsOf(fields[..i], d) + [ColumnOf(fields[i], d)]
    ensures Primaries(fields[..i + 1]) == Primaries(fields[..i]) + if fields[i].primary then [fields[i].name] else []
    ensures Singles(UniqueFields(fields[..i + 1])) ==
      Singles(UniqueFields(fields[..i])) + if fields[i].unique && !fields[i].primary then [[fields[i].name]] else []
  {
    assert fields[..i + 1][..i] == fields[..i];
  }

  class Database {
    const dialect: Dialect
    var tables: map<string, Table>

    constructor (dialect: Dialect)
      ensures this.dialect == dialect && tables == map[]
    {
      this.dialect := dialect;
      tables := map[];
    }

    /** A database holds every table to its constraints. */
    predicate Valid()
      reads this
    {
      AllSound(tables)
    }

    method Execute(table: string, st: Statement) returns (ok: bool)
      requires table in tables
      modifies this`tables
      ensures ok == Exec(old(tables)[table], st).Some?
      ensures tables == if ok then old(tables)[table := Exec(old(tables)[table], st).value] else old(tables)
    {
      var r := Exec(tables[table], st);
      ok := r.Some?;
      if ok { tables := tables[table := r.value]; }
    }

    method Transact(table: string, sts: seq<Statement>) returns (ok: bool)
      requires table in tables
      modifies this`tables
      ensures ok == ExecAll(old(tables)[table], sts).Some?
      ensures tables == if ok then old(tables)[table := ExecAll(old(tables)[table], sts).value] else old(tables)
    {
      var saved := tables;
      for i := 0 to |sts|
        invariant table in tables
        invariant ExecAll(saved[table], sts[..i]) == Some(tables[table])
        invariant tables == saved[table := tables[table]]
      {
        assert sts[..i + 1][..i] == sts[..i];
        ok := Execute(table, sts[i]);
        if !ok {
          RefusedStays(saved[table], sts, i + 1);
          tables := saved;
          return;
        }
      }
      assert sts[..|sts|] == sts;
      ok := true;
    }

    /** The declared table, built field by field, unless one of that name is there. */
    method CreateTable(o: Object, test: bool) returns (ok: bool)
      modifies this`tables
      ensures ok == (Physical(o, test) in old(tables) || Created(o, dialect, test).Some?)
      ensures tables ==
        if Physical(o, test) in old(tables) || !ok then old(tables)
        else old(tables)[Physical(o, test) := Created(o, dialect, test).value]
    {
      var columns, primaries, uniques := DeclareTable(o, dialect, test);
      if Physical(o, test) in tables { return true; }
      ok := Distinct(Names(columns)) && primaries != [];
      if ok { tables := tables[Physical(o, test) := Table(columns, primaries, uniques, map[], [])]; }
    }

    /** The statements a held table needs, and the key columns it lacks. */
    method AlterObject(o: Object, held: seq<string>, test: bool) returns (stmts: Option<seq<Statement>>, missing: seq<string>)
      ensures stmts == Additions(Physical(o, test), o.fields, held, dialect, test)
      ensures stmts.Some? ==> forall n :: n in missing <==> n !in held && n in Primaries(o.fields)
    {
      hide Additions, AddedColumn, Primaries, UniqueIndex, UniqueName, Physical;
      var have := set n | n in held;
      var table := Physical(o, test);
      var out: seq<Statement> := [];
      missing := [];
      NothingYet(table, o.fields, held, dialect, test);
      for i := 0 to |o.fields|
        invariant Additions(table, o.fields[..i], held, dialect, test) == Some(out)
        invariant forall n :: n in missing <==> n !in held && n in Primaries(o.fields[..i])
      {
        AdditionsNext(table, o.fields, held, dialect, test, i);
        var f := o.fields[i];
        if f.name in have {
          assert out + [] == out;
        } else if f.primary {
          assert out + [] == out;
          missing := missing + [f.name];
        } else {
          var more := [AddColumn(AddedColumn(f, dialect))];
          if f.unique {
            var index := UniqueName(table, f.name);
            if |index| > MAX_IDENTIFIER { return None, []; }
            more := [AddColumn(AddedColumn(f, dialect)), CreateIndex(index, UniqueIndex(f.name, test))];
          }
          assert FieldStatements(table, f, held, dialect, test) == Some(more);
          out := out + more;
        }
      }
      assert o.fields[..|o.fields|] == o.fields;
      stmts := Some(out);
    }

    /** The columns that refuse a row without them, in place. */
    method BlockingColumns(table: string) returns (names: seq<string>)
      requires table in tables
      ensures names == BlockingNames(tables[table], tables[table].columns)
    {
      var t := tables[table];
      names := [];
      for i := 0 to |t.columns|
        invariant names == BlockingNames(t, t.columns[..i])
      {
        assert t.columns[..i + 1][..i] == t.columns[..i];
        if Blocks(t, t.columns[i]) { names := names + [t.columns[i].name]; }
      }
      assert t.columns[..|t.columns|] == t.columns;
    }

    method RelaxOrphans(o: Object, test: bool) returns (ok: bool)
      requires Valid() && Physical(o, test) in tables
      modifies this`tables
      ensures
        var table := Physical(o, test);
        var r := Relax(old(tables)[table], o, dialect, test, table + REBUILD_SUFFIX in old(tables));
        ok == r.ok && tables == old(tables)[table := r.table]
    {
      var table := Physical(o, test);
      ghost var t := tables[table];
      var blocking := BlockingColumns(table);
      var orphans := [];
      for i := 0 to |blocking|
        invariant orphans == Undeclared(blocking[..i], o, test)
      {
        assert blocking[..i + 1][..i] == blocking[..i];
        if !Declares(o, test, blocking[i]) { orphans := orphans + [blocking[i]]; }
      }
      assert blocking[..|blocking|] == blocking;
      OrphansInTwo(t, t.columns, o, test);
      assert tables[table := t] == tables;
      if orphans == [] {
        ok := true;
      } else if dialect.Postgres? {
        ok := Transact(table, Drops(orphans));
      } else {
        ok := RebuildNullable(table, orphans);
      }
    }

    /**
      SQLite has no statement that drops NOT NULL, so the table is copied into
      one declared anew, which then takes its name.
     */
    method RebuildNullable(table: string, relax: seq<string>) returns (ok: bool)
      requires Valid() && table in tables
      modifies this`tables
      ensures ok == (table + REBUILD_SUFFIX !in old(tables) && Copied(old(tables)[table], relax).Some?)
      ensures tables == if ok then old(tables)[table := Copied(old(tables)[table], relax).value] else old(tables)
    {
      hide Sound, Admits, NotNulls, Copied, CopiedColumns, Distinct, HasColumns;
      var saved := tables;
      var t := tables[table];
      SoundKey(t);
      var defs, keys := Redeclare(t, relax);
      var scratch := table + REBUILD_SUFFIX;
      SuffixDiffers(table);
      if scratch in tables { return false; }
      tables := tables[scratch := Table(defs, keys, t.uniques, map[], [])];
      var copy := Table(defs, keys, t.uniques, map[], t.rows);
      CopyChecked(t, copy, relax);
      if !Admits(copy, copy.rows) || exists row :: row in copy.rows && !NotNulls(copy.columns, row) {
        tables := saved;
        return false;
      }
      tables := tables[scratch := copy];
      tables := tables - {table};
      tables := (tables - {scratch})[table := tables[scratch]];
      assert tables == saved[table := copy];
      CopyNames(t, relax);
      RecreateIndexes(table, t);
      ok := true;
    }

    /** The indexes of the table that was copied, one by one: none can be refused. */
    method RecreateIndexes(table: string, t: Table)
      requires table in tables && tables[table].indexes == map[]
      requires Sound(t) && Names(tables[table].columns) == Names(t.columns) && tables[table].rows == t.rows
      modifies this`tables
      ensures tables == old(tables)[table := old(tables)[table].(indexes := t.indexes)]
    {
      hide Sound, Exec, Names;
      ghost var copy := tables[table];
      var todo := t.indexes.Keys;
      assert t.indexes - todo == map[];
      assert copy.(indexes := map[]) == copy;
      while todo != {}
        invariant todo <= t.indexes.Keys
        invariant tables == old(tables)[table := copy.(indexes := t.indexes - todo)]
      {
        var n :| n in todo;
        IndexStands(t, copy.(indexes := t.indexes - todo), n);
        var _ := Execute(table, CreateIndex(n, t.indexes[n]));
        assert (t.indexes - todo)[n := t.indexes[n]] == t.indexes - (todo - {n});
        todo := todo - {n};
      }
      assert t.indexes - {} == t.indexes;
    }

    method EvolveTable(o: Object, test: bool) returns (ok: bool)
      requires Valid() && Physical(o, test) in tables
      modifies this`tables
      ensures
        var table := Physical(o, test);
        var r := Evolved(old(tables)[table], o, dialect, test, table + REBUILD_SUFFIX in old(tables));
        ok == r.ok && tables == old(tables)[table := r.table]
    {
      hide Sound, Physical, Additions, ExecAll, Relax, Grown;
      var table := Physical(o, test);
      ghost var t := tables[table];
      assert tables[table := t] == tables;
      NoStatements(t);
      SuffixDiffers(table);
      var stmts, _ := AlterObject(o, Names(tables[table].columns), test);
      if stmts.None? { return false; }
      if |stmts.value| > 0 {
        ok := Transact(table, stmts.value);
        if !ok { return; }
        ExecAllGrows(t, stmts.value);
      }
      ok := RelaxOrphans(o, test);
    }

    /** Each statement on its own, up to the first that is refused. */
    method ExecuteEach(table: string, stmts: seq<Statement>) returns (ok: bool)
      requires table in tables
      modifies this`tables
      ensures ok == Each(old(tables)[table], stmts).ok
      ensures tables == old(tables)[table := Each(old(tables)[table], stmts).table]
    {
      hide Exec;
      ghost var t := tables[table];
      assert tables == tables[table := t];
      for i := 0 to |stmts|
        invariant table in tables && Each(t, stmts[..i]) == Step(tables[table], true)
        invariant tables == old(tables)[table := tables[table]]
      {
        assert stmts[..i + 1][..i] == stmts[..i];
        ok := Execute(table, stmts[i]);
        if !ok {
          EachStopped(t, stmts, i + 1);
          return;
        }
      }
      assert stmts[..|stmts|] == stmts;
      ok := true;
    }

    method MigrateTable(o: Object, test: bool) returns (ok: bool)
      requires Valid()
      modifies this`tables
      ensures Run(tables, ok) == RunJob(old(tables), dialect, Job(o, test))
    {
      hide Sound, Created, Evolved, Each, IndexStatements, Physical;
      var table := Physical(o, test);
      SuffixDiffers(table);
      ok := CreateTable(o, test);
      if !ok { return; }
      if Created(o, dialect, test).Some? { CreatedIsSound(o, dialect, test); }
      ok := EvolveTable(o, test);
      if !ok { return; }
      ok := ExecuteEach(table, IndexStatements(o, dialect, test));
    }

    /** Every table of a specification in turn, the live ones first; the first failure ends the run. */
    method Migrate(s: Spec) returns (ok: bool)
      requires Valid()
      modifies this`tables
      ensures Valid() && AllGrown(old(tables), tables)
      ensures Run(tables, ok) == MigratedAll(old(tables), dialect, s)
    {
      hide RunJobs, RunJob, AllSound, AllGrown;
      var stored := s.objects + s.settings;
      ghost var jobs := Jobs(s);
      AllGrownItself(tables);
      NoJobs(tables, dialect, jobs);
      for i := 0 to |stored|
        invariant AllSound(tables) && AllGrown(old(tables), tables)
        invariant RunJobs(old(tables), dialect, jobs[..i]) == Run(tables, true)
      {
        ghost var before := tables;
        JobsStep(old(tables), dialect, jobs, i);
        JobGrows(tables, dialect, jobs[i]);
        ok := MigrateTable(stored[i], false);
        AllGrownTwice(old(tables), before, tables);
        if !ok { return; }
      }
      for i := |stored| to |stored| + |s.objects|
        invariant AllSound(tables) && AllGrown(old(tables), tables)
        invariant RunJobs(old(tables), dialect, jobs[..i]) == Run(tables, true)
      {
        ghost var before := tables;
        JobsStep(old(tables), dialect, jobs, i);
        JobGrows(tables, dialect, jobs[i]);
        ok := MigrateTable(s.objects[i - |stored|], true);
        AllGrownTwice(old(tables), before, tables);
        if !ok { return; }
      }
      assert jobs[..|jobs|] == jobs;
      ok := true;
    }
  }

  lemma NoJobs(tables: map<string, Table>, d: Dialect, jobs: seq<Job>)
    ensures RunJobs(tables, d, jobs[..0]) == Run(tables, true)
  {
  }

  lemma JobsStep(tables: map<string, Table>, d: Dialect, jobs: seq<Job>, i: nat)
    requires i < |jobs| && RunJobs(tables, d, jobs[..i]).ok
    ensures RunJobs(tables, d, jobs[..i + 1]) == RunJob(RunJobs(tables, d, jobs[..i]).tables, d, jobs[i])
    ensures !RunJobs(tables, d, jobs[..i + 1]).ok ==> RunJobs(tables, d, jobs) == RunJobs(tables, d, jobs[..i + 1])
  {
    hide RunJob;
    assert jobs[..i + 1][..i] == jobs[..i];
    if !RunJobs(tables, d, jobs[..i + 1]).ok {
      JobsStopped(tables, d, jobs, i + 1);
    }
  }

  lemma NoStatements(t: Table)
    ensures ExecAll(t, []) == Some(t)
  {
  }

  lemma SuffixDiffers(table: string)
    ensures table + REBUILD_SUFFIX != table
  {
    assert |table + REBUILD_SUFFIX| > |table|;
  }

  function BlockingNames(t: Table, cs: seq<Column>): seq<string> {
    if cs == [] then []
    else BlockingNames(t, cs[..|cs| - 1]) + if Blocks(t, cs[|cs| - 1]) then [cs[|cs| - 1].name] else []
  }

  function Undeclared(names: seq<string>, o: Object, test: bool): seq<string> {
    if names == [] then []
    else
      Undeclared(names[..|names| - 1], o, test)
      + if Declares(o, test, names[|names| - 1]) then [] else [names[|names| - 1]]
  }

  lemma {:induction false} OrphansInTwo(t: Table, cs: seq<Column>, o: Object, test: bool)
    ensures Undeclared(BlockingNames(t, cs), o, test) == Orphans(t, cs, o, test)
  {
    hide Blocks, Declares;
    if cs != [] {
      OrphansInTwo(t, cs[..|cs| - 1], o, test);
      var c := cs[|cs| - 1];
      var before := BlockingNames(t, cs[..|cs| - 1]);
      if Blocks(t, c) {
        assert (before + [c.name])[..|before|] == before;
      } else {
        assert before + [] == before;
      }
    }
  }

  /** The clauses of the copy, from what SQLite reports of each column in order. */
  method Redeclare(t: Table, relax: seq<string>) returns (defs: seq<Column>, keys: seq<string>)
    requires Distinct(t.key) && HasColumns(t, t.key)
    ensures defs == CopiedColumns(t, relax) && keys == t.key
  {
    hide KeysSeen, Names, PkOrdinal, Distinct, HasColumns;
    var relaxed := set n | n in relax;
    var keyAt: map<nat, string> := map[];
    defs := [];
    NoKeysSeen(t.key, Names(t.columns));
    for i := 0 to |t.columns|
      invariant defs == CopiedColumns(t, relax)[..i]
      invariant KeysSeen(t.key, Names(t.columns)[..i], keyAt)
    {
      var c := t.columns[i];
      var pk := PkOrdinal(t.key, c.name);
      defs := defs + [c.(notNull := (c.notNull && c.name !in relaxed) || pk > 0)];
      KeySeen(t.key, Names(t.columns)[..i], keyAt, c.name);
      if pk > 0 { keyAt := keyAt[pk := c.name]; }
      assert Names(t.columns)[..i + 1] == Names(t.columns)[..i] + [c.name];
    }
    assert Names(t.columns)[..|t.columns|] == Names(t.columns);
    KeyPositions(t, keyAt);
    keys := [];
    for i := 1 to |keyAt| + 1
      invariant keys == t.key[..i - 1]
    {
      keys := keys + [keyAt[i]];
    }
  }

  /** The positions recorded so far are right, and every key column seen so far has one. */
  ghost predicate KeysSeen(key: seq<string>, names: seq<string>, keyAt: map<nat, string>) {
    && (forall p :: p in keyAt ==> 1 <= p <= |key| && keyAt[p] == key[p - 1])
    && forall k :: 0 <= k < |key| && key[k] in names ==> k + 1 in keyAt
  }

  lemma NoKeysSeen(key: seq<string>, names: seq<string>)
    ensures KeysSeen(key, names[..0], map[])
  {
  }

  lemma KeySeen(key: seq<string>, names: seq<string>, keyAt: map<nat, string>, n: string)
    requires Distinct(key) && KeysSeen(key, names, keyAt)
    ensures var pk := PkOrdinal(key, n);
      KeysSeen(key, names + [n], if pk > 0 then keyAt[pk := n] else keyAt)
  {
  }

  lemma KeyPositions(t: Table, keyAt: map<nat, string>)
    requires HasColumns(t, t.key) && KeysSeen(t.key, Names(t.columns), keyAt)
    ensures |keyAt| == |t.key| && forall p :: 1 <= p <= |t.key| ==> p in keyAt && keyAt[p] == t.key[p - 1]
  {
    forall p | 1 <= p <= |t.key| ensures p in keyAt {
      assert HasColumn(t, t.key[p - 1]);
    }
    CountTo(keyAt.Keys, |t.key|);
  }

  /** The copy refuses the rows exactly as declared: its indexes come after and were met already. */
  lemma CopyChecked(t: Table, copy: Table, relax: seq<string>)
    requires Sound(t)
    requires copy == Table(CopiedColumns(t, relax), t.key, t.uniques, map[], t.rows)
    ensures Copied(t, relax).Some? <==>
      Admits(copy, copy.rows) && forall row :: row in copy.rows ==> NotNulls(copy.columns, row)
    ensures Copied(t, relax).Some? ==> Copied(t, relax).value == copy.(indexes := t.indexes)
  {
    hide NoClash, NotNulls, WellFormed;
  }

  lemma SoundKey(t: Table)
    requires Sound(t)
    ensures Distinct(t.key) && HasColumns(t, t.key)
  {
  }

  lemma CopyNames(t: Table, relax: seq<string>)
    ensures Names(CopiedColumns(t, relax)) == Names(t.columns)
  {
  }

  lemma IndexStands(t: Table, copy: Table, n: string)
    requires Sound(t) && Names(copy.columns) == Names(t.columns) && copy.rows == t.rows
    requires n in t.indexes && n !in copy.indexes
    ensures Exec(copy, CreateIndex(n, t.indexes[n])) == Some(copy.(indexes := copy.indexes[n := t.indexes[n]]))
  {
    hide NoClash, NotNulls, IndexColumns;
    assert HasColumns(t, IndexColumns(t.indexes[n]));
  }

  lemma {:induction false} EachStopped(t: Table, sts: seq<Statement>, k: nat)
    requires k <= |sts| && !Each(t, sts[..k]).ok
    ensures Each(t, sts) == Each(t, sts[..k])
    decreases |sts|
  {
    if k < |sts| {
      assert sts[..|sts| - 1][..k] == sts[..k];
      EachStopped(t, sts[..|sts| - 1], k);
    } else {
      assert sts[..k] == sts;
    }
  }

  lemma {:induction false} JobsStopped(tables: map<string, Table>, d: Dialect, jobs: seq<Job>, k: nat)
    requires k <= |jobs| && !RunJobs(tables, d, jobs[..k]).ok
    ensures RunJobs(tables, d, jobs) == RunJobs(tables, d, jobs[..k])
    decreases |jobs|
  {
    if k < |jobs| {
      assert jobs[..|jobs| - 1][..k] == jobs[..k];
      JobsStopped(tables, d, jobs[..|jobs| - 1], k);
    } else {
      assert jobs[..k] == jobs;
    }
  }

  lemma {:induction false} RefusedStays(t: Table, sts: seq<Statement>, k: nat)
    requires k <= |sts| && ExecAll(t, sts[..k]).None?
    ensures ExecAll(t, sts).None?
    decreases |sts|
  {
    if k < |sts| {
      assert sts[..|sts| - 1][..k] == sts[..k];
      RefusedStays(t, sts[..|sts| - 1], k);
    } else {
      assert sts[..k] == sts;
    }
  }

  lemma NothingYet(table: string, fields: seq<Field>, held: seq<string>, d: Dialect, test: bool)
    ensures Additions(table, fields[..0], held, d, test) == Some([]) && Primaries(fields[..0]) == []
  {
  }

  lemma AdditionsNext(table: string, fields: seq<Field>, held: seq<string>, d: Dialect, test: bool, i: nat)
    requires i < |fields| && Additions(table, fields[..i], held, d, test).Some?
    ensures match FieldStatements(table, fields[i], held, d, test)
      case None => Additions(table, fields, held, d, test).None?
      case Some(more) =>
        Additions(table, fields[..i + 1], held, d, test) == Some(Additions(table, fields[..i], held, d, test).value + more)
    ensures Primaries(fields[..i + 1]) == Primaries(fields[..i]) + if fields[i].primary then [fields[i].name] else []
  {
    hide FieldStatements;
    assert fields[..i + 1][..i] == fields[..i];
    if FieldStatements(table, fields[i], held, d, test).None? {
      TooLongStays(table, fields, held, d, test, i + 1);
    }
  }

  lemma {:induction false} TooLongStays(table: string, fields: seq<Field>, held: seq<string>, d: Dialect, test: bool, k: nat)
    requires k <= |fields| && Additions(table, fields[..k], held, d, test).None?
    ensures Additions(table, fields, held, d, test).None?
    decreases |fields|
  {
    if k < |fields| {
      assert fields[..|fields| - 1][..k] == fields[..k];
      TooLongStays(table, fields[..|fields| - 1], held, d, test, k);
    } else {
      assert fields[..k] == fields;
    }
  }
}
