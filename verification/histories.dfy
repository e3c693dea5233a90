/**
  The life of a database: migrations to whatever specifications, and between them
  the rows that its constraints take. Nothing that was written is ever lost.
 */
module Histories {
  import opened Options
  import opened Sorting
  import opened Tables
  import opened Migrations
  import opened Databases

  /** A migration, or one row given to a table by the columns it names. */
  datatype Event = Migrate(spec: Spec) | Insert(table: string, given: Row)

  /** The row as stored, or nothing when a column is unknown or a constraint is not met. */
  ghost function Inserted(t: Table, given: Row): Option<Table> {
    var row := Stored(t, given);
    if (forall n :: n in given ==> HasColumn(t, n)) && NotNulls(t.columns, row) && Admits(t, t.rows + [row])
    then Some(t.(rows := t.rows + [row])) else None
  }

  ghost function AfterEvent(tables: map<string, Table>, d: Dialect, e: Event): map<string, Table> {
    match e
    case Migrate(spec) => MigratedAll(tables, d, spec).tables
    case Insert(name, given) =>
      if name !in tables then tables
      else match Inserted(tables[name], given)
        case None => tables
        case Some(t) => tables[name := t]
  }

  ghost function AfterEvents(tables: map<string, Table>, d: Dialect, events: seq<Event>): map<string, Table> {
    if events == [] then tables
    else AfterEvent(AfterEvents(tables, d, events[..|events| - 1]), d, events[|events| - 1])
  }

  function FirstRows(t: Table, n: nat): Table
    requires n <= |t.rows|
  {
    t.(rows := t.rows[..n])
  }

  /** u holds all that t held, and maybe rows after. */
  ghost predicate Continues(t: Table, u: Table) {
    |t.rows| <= |u.rows| && Grown(t, FirstRows(u, |t.rows|))
  }

  ghost predicate AllContinue(before: map<string, Table>, after: map<string, Table>) {
    forall n :: n in before ==> n in after && Continues(before[n], after[n])
  }

  lemma GrownContinues(t: Table, u: Table)
    requires Grown(t, u)
    ensures Continues(t, u)
  {
    assert u.rows[..|u.rows|] == u.rows;
  }

  lemma FirstRowsGrow(t: Table, u: Table, n: nat)
    requires Grown(t, u) && n <= |t.rows|
    ensures Grown(FirstRows(t, n), FirstRows(u, n))
  {
    hide Get;
    assert forall i :: 0 <= i < n ==> GrownRow(t, u, t.rows[i], u.rows[i]);
    assert forall i :: 0 <= i < |t.columns| ==> SameColumn(t, t.columns[i], u.columns[i]);
  }

  lemma ContinuesTwice(t: Table, u: Table, v: Table)
    requires WellFormed(u) && Continues(t, u) && Continues(u, v)
    ensures Continues(t, v)
  {
    var n := |t.rows|;
    FirstRowsGrow(u, FirstRows(v, |u.rows|), n);
    assert v.rows[..|u.rows|][..n] == v.rows[..n];
    FirstRowsFormed(u, n);
    GrownTwice(t, FirstRows(u, n), FirstRows(v, n));
  }

  lemma FirstRowsFormed(t: Table, n: nat)
    requires WellFormed(t) && n <= |t.rows|
    ensures WellFormed(FirstRows(t, n))
  {
    hide Distinct;
  }

  lemma InsertedContinues(t: Table, given: Row)
    requires Sound(t) && Inserted(t, given).Some?
    ensures Sound(Inserted(t, given).value) && Continues(t, Inserted(t, given).value)
  {
    hide NoClash, Distinct, Grown, Get;
    var u := Inserted(t, given).value;
    assert FirstRows(u, |t.rows|) == t by { assert u.rows[..|t.rows|] == t.rows; }
    GrownItself(t);
    assert Stored(t, given).Keys == set n | n in Names(t.columns);
  }

  lemma EventContinues(tables: map<string, Table>, d: Dialect, e: Event)
    requires AllSound(tables)
    ensures AllSound(AfterEvent(tables, d, e)) && AllContinue(tables, AfterEvent(tables, d, e))
  {
    hide Sound, Continues, RunJobs, Grown, Inserted;
    AllGrownItself(tables);
    match e {
      case Migrate(spec) => JobsGrow(tables, d, Jobs(spec));
      case Insert(name, given) =>
        if name in tables && Inserted(tables[name], given).Some? { InsertedContinues(tables[name], given); }
    }
    var after := AfterEvent(tables, d, e);
    forall n | n in tables && Grown(tables[n], after[n]) ensures Continues(tables[n], after[n]) {
      GrownContinues(tables[n], after[n]);
    }
  }

  lemma AllContinueTwice(a: map<string, Table>, b: map<string, Table>, c: map<string, Table>)
    requires AllSound(b) && AllContinue(a, b) && AllContinue(b, c)
    ensures AllContinue(a, c)
  {
    hide Continues, Sound;
    forall n | n in a ensures Continues(a[n], c[n]) {
      SoundIsWellFormed(b[n]);
      ContinuesTwice(a[n], b[n], c[n]);
    }
  }

  /**
    Across every history of migrations, finished or failed, and of rows written
    between them, no table, column, key, constraint, index, row or value is lost.
   */
  lemma {:induction false} EventsContinue(tables: map<string, Table>, d: Dialect, events: seq<Event>)
    requires AllSound(tables)
    ensures AllSound(AfterEvents(tables, d, events)) && AllContinue(tables, AfterEvents(tables, d, events))
  {
    hide AllSound, AllContinue, AfterEvent;
    if events == [] {
      NothingHappens(tables, d);
    } else {
      var k := |events| - 1;
      EventsContinue(tables, d, events[..k]);
      var p := AfterEvents(tables, d, events[..k]);
      EventContinues(p, d, events[k]);
      AllContinueTwice(tables, p, AfterEvent(p, d, events[k]));
    }
  }

  lemma NothingHappens(tables: map<string, Table>, d: Dialect)
    ensures AllContinue(tables, tables)
  {
    hide Grown, Continues;
    AllGrownItself(tables);
    forall n | n in tables ensures Continues(tables[n], tables[n]) { GrownContinues(tables[n], tables[n]); }
  }
}
