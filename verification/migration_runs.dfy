/**
  What can be counted on after any migrations: what is kept of a table, spelt out,
  that the last specification is in force, and that its tables are there.
 */
module MigrationRuns {
  import opened Tables
  import opened Migrations
  import opened Databases

  /** A table that has grown takes no rows that it would not have taken. */
  lemma GrownKeepsConstraints(t: Table, u: Table, rows: seq<Row>)
    requires Grown(t, u) && Admits(u, rows)
    ensures Admits(t, rows)
  {
    hide NoClash;
  }

  /** The column is there as it was, but may take NULL now, and must not if it is of the key. */
  predicate KeepsColumn(t: Table, u: Table, i: nat)
    requires i < |t.columns|
  {
    && i < |u.columns|
    && u.columns[i].name == t.columns[i].name
    && u.columns[i].ctype == t.columns[i].ctype && u.columns[i].default == t.columns[i].default
    && (u.columns[i].notNull ==> t.columns[i].notNull || t.columns[i].name in t.key)
  }

  predicate KeepsRow(t: Table, u: Table, i: nat)
    requires i < |t.rows|
  {
    i < |u.rows| && forall n :: n in t.rows[i] ==> Get(u.rows[i], n) == t.rows[i][n]
  }

  /**
    Whatever specifications are migrated to in turn, a table is still there with its
    columns in their places, its rows in theirs, no row besides, and every constraint.
   */
  lemma NothingIsLost(tables: map<string, Table>, d: Dialect, specs: seq<Spec>, name: string, rows: seq<Row>)
    requires AllSound(tables) && name in tables
    ensures name in AfterHistory(tables, d, specs)
    ensures var t, u := tables[name], AfterHistory(tables, d, specs)[name];
      && (forall i :: 0 <= i < |t.columns| ==> KeepsColumn(t, u, i))
      && |u.rows| == |t.rows| && (forall i :: 0 <= i < |t.rows| ==> KeepsRow(t, u, i))
      && (Admits(u, rows) ==> Admits(t, rows))
  {
    hide Sound, AfterHistory, Admits;
    HistoryGrows(tables, d, specs);
    var t, u := tables[name], AfterHistory(tables, d, specs)[name];
    if Admits(u, rows) { GrownKeepsConstraints(t, u, rows); }
    forall i | 0 <= i < |t.columns| ensures KeepsColumn(t, u, i) { assert SameColumn(t, t.columns[i], u.columns[i]); }
    forall i | 0 <= i < |t.rows| ensures KeepsRow(t, u, i) { assert GrownRow(t, u, t.rows[i], u.rows[i]); }
  }

  /** The specification that was migrated to last, if that run went through, is in force, whatever came before. */
  lemma LastIsInForce(tables: map<string, Table>, d: Dialect, specs: seq<Spec>, last: Spec)
    requires AllSound(tables) && DistinctTargets(Jobs(last))
    requires MigratedAll(AfterHistory(tables, d, specs), d, last).ok
    ensures AllSettled(AfterHistory(tables, d, specs + [last]), d, Jobs(last))
  {
    hide AllSound, RunJobs, AllSettled, DistinctTargets, Jobs, AllGrown;
    HistoryGrows(tables, d, specs);
    assert (specs + [last])[..|specs|] == specs;
    JobsSettle(AfterHistory(tables, d, specs), d, Jobs(last));
  }

  lemma {:induction false} TargetsAreThere(tables: map<string, Table>, d: Dialect, jobs: seq<Job>, j: Job)
    requires j in jobs && RunJobs(tables, d, jobs).ok
    ensures Target(j) in RunJobs(tables, d, jobs).tables
  {
    hide Migrated, Target;
    var k := |jobs| - 1;
    var p := RunJobs(tables, d, jobs[..k]);
    FinishedHasTable(p.tables, d, jobs[k]);
    assert jobs == jobs[..k] + [jobs[k]];
    if j in jobs[..k] { TargetsAreThere(tables, d, jobs[..k], j); }
  }

  lemma FinishedHasTable(tables: map<string, Table>, d: Dialect, j: Job)
    requires RunJob(tables, d, j).ok
    ensures Target(j) in RunJob(tables, d, j).tables
    ensures forall n :: n in tables ==> n in RunJob(tables, d, j).tables
  {
    hide Evolved, Each, Created, Target, IndexStatements;
  }

  /** After a run that finishes every object has its table and the copy for test runs, and settings have their tables. */
  lemma TablesAreThere(tables: map<string, Table>, d: Dialect, s: Spec, o: Object)
    requires MigratedAll(tables, d, s).ok
    ensures o in s.objects ==> o.table in MigratedAll(tables, d, s).tables && o.table + "_test" in MigratedAll(tables, d, s).tables
    ensures o in s.settings ==> o.table in MigratedAll(tables, d, s).tables
  {
    hide RunJobs;
    if o in s.objects + s.settings {
      InJobs(s, o);
      TargetsAreThere(tables, d, Jobs(s), Job(o, false));
      if o in s.objects { TargetsAreThere(tables, d, Jobs(s), Job(o, true)); }
    }
  }

  lemma InJobs(s: Spec, o: Object)
    ensures o in s.objects + s.settings ==> Job(o, false) in Jobs(s)
    ensures o in s.objects ==> Job(o, true) in Jobs(s)
  {
    var live, copies := JobsFor(s.objects + s.settings, false), JobsFor(s.objects, true);
    if i :| 0 <= i < |s.objects + s.settings| && (s.objects + s.settings)[i] == o { assert live[i] in live; }
    if i :| 0 <= i < |s.objects| && s.objects[i] == o { assert copies[i] in copies; }
  }
}
