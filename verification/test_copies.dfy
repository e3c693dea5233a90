/**
  The copy of a table that test runs share: rows carry the id of their run, and
  the copy's key and unique constraints hold each run to what the live table
  demands, never two runs to each other. Removing a run removes its rows alone.
 */
module TestCopies {
  import opened Options
  import opened Sorting
  import opened Tables
  import opened Migrations
  import opened Databases

  // ------------------------------------------------------ the fresh tables

  predicate Declared(o: Object, name: string) {
    exists f :: f in o.fields && f.name == name
  }

  function FieldNameList(fields: seq<Field>): (r: seq<string>)
    ensures |r| == |fields| && forall i :: 0 <= i < |r| ==> r[i] == fields[i].name
  {
    seq(|fields|, i requires 0 <= i < |fields| => fields[i].name)
  }

  function IndexNameList(ixs: seq<DeclaredIndex>): (r: seq<string>)
    ensures |r| == |ixs| && forall i :: 0 <= i < |r| ==> r[i] == ixs[i].name
  {
    seq(|ixs|, i requires 0 <= i < |ixs| => ixs[i].name)
  }

  /** What an object is refused for when its specification loads, as far as its tables go. */
  ghost predicate Validated(o: Object) {
    && Distinct(FieldNameList(o.fields)) && !Declared(o, RUN_ID)
    && (exists f :: f in o.fields && f.primary)
    && Distinct(IndexNameList(o.indexes))
    && (forall test, i :: 0 <= i < |o.indexes| ==> |IndexName(Physical(o, test), o.indexes[i])| <= MAX_IDENTIFIER)
    && forall i, n :: 0 <= i < |o.indexes| && n in IndexColumns(IndexOn(o.indexes[i], false)) ==> Declared(o, n)
  }

  /** The table as the first migration leaves it. */
  function Fresh(o: Object, d: Dialect, test: bool): Option<Table> {
    Migrated(None, o, d, test, false).0
  }

  /** The indexes of the table in the order they are created, and the names they are created under. */
  function IndexList(o: Object, test: bool): (r: seq<Index>)
    ensures |r| == (if test then |UniqueFields(o.fields)| else 0) + |o.indexes|
  {
    var unique := UniqueFields(o.fields);
    (if test then seq(|unique|, i requires 0 <= i < |unique| => UniqueIndex(unique[i], true)) else [])
    + seq(|o.indexes|, i requires 0 <= i < |o.indexes| => IndexOn(o.indexes[i], test))
  }

  function NameList(o: Object, d: Dialect, test: bool): (r: seq<string>)
    ensures |r| == (if test then |UniqueFields(o.fields)| else 0) + |o.indexes|
  {
    var table, unique := Physical(o, test), UniqueFields(o.fields);
    (if test then seq(|unique|, i requires 0 <= i < |unique| => HeldName(UniqueName(table, unique[i]), d)) else [])
    + seq(|o.indexes|, i requires 0 <= i < |o.indexes| => HeldName(IndexName(table, o.indexes[i]), d))
  }

  lemma StatementsPair(o: Object, d: Dialect, test: bool)
    ensures |IndexStatements(o, d, test)| == |IndexList(o, test)|
    ensures forall i :: 0 <= i < |IndexList(o, test)| ==>
      IndexStatements(o, d, test)[i] == CreateIndex(NameList(o, d, test)[i], IndexList(o, test)[i])
  {
    hide UniqueFields;
  }

  /** The index in this place is the one its name stands for: no earlier one took the name. */
  predicate First(names: seq<string>, i: nat)
    requires i < |names|
  {
    forall j :: 0 <= j < i ==> names[j] != names[i]
  }

  /** The table holds, for each name, the first index created under it. */
  ghost predicate HoldsFirst(indexes: map<string, Index>, names: seq<string>, list: seq<Index>)
    requires |names| == |list|
  {
    && (forall i :: 0 <= i < |names| ==> names[i] in indexes)
    && (forall i :: 0 <= i < |names| && First(names, i) ==> indexes[names[i]] == list[i])
    && (forall n :: n in indexes ==> exists i :: 0 <= i < |names| && names[i] == n && First(names, i))
  }

  lemma {:induction false} EachOnEmpty(t: Table, sts: seq<Statement>, names: seq<string>, list: seq<Index>)
    requires t.rows == [] && t.indexes == map[]
    requires |sts| == |names| == |list|
    requires forall i :: 0 <= i < |sts| ==> sts[i] == CreateIndex(names[i], list[i]) && HasColumns(t, IndexColumns(list[i]))
    ensures Each(t, sts).ok && Each(t, sts).table == t.(indexes := Each(t, sts).table.indexes)
    ensures HoldsFirst(Each(t, sts).table.indexes, names, list)
  {
    hide IndexColumns, HasColumn;
    if sts != [] {
      var k := |sts| - 1;
      EachOnEmpty(t, sts[..k], names[..k], list[..k]);
      var u := Each(t, sts[..k]).table;
      ExecOnEmpty(t, u, names[k], list[k]);
      HoldsFirstNext(u.indexes, names, list, k);
    }
  }

  lemma ExecOnEmpty(t: Table, u: Table, name: string, ix: Index)
    requires t.rows == [] && u == t.(indexes := u.indexes) && HasColumns(t, IndexColumns(ix))
    ensures Exec(u, CreateIndex(name, ix)) == Some(u.(indexes := if name in u.indexes then u.indexes else u.indexes[name := ix]))
  {
    hide IndexColumns, Names;
  }

  lemma FirstInPrefix(names: seq<string>, k: nat, i: nat)
    requires i < k <= |names|
    ensures First(names, i) == First(names[..k], i)
  {
  }

  lemma HoldsFirstNext(indexes: map<string, Index>, names: seq<string>, list: seq<Index>, k: nat)
    requires |names| == |list| == k + 1 && HoldsFirst(indexes, names[..k], list[..k])
    ensures HoldsFirst(if names[k] in indexes then indexes else indexes[names[k] := list[k]], names, list)
  {
    hide First;
    var m := if names[k] in indexes then indexes else indexes[names[k] := list[k]];
    LastFirst(indexes, names, list, k);
    forall i | 0 <= i < k ensures First(names, i) == First(names[..k], i) && names[i] == names[..k][i] {
      FirstInPrefix(names, k, i);
    }
  }

  lemma LastFirst(indexes: map<string, Index>, names: seq<string>, list: seq<Index>, k: nat)
    requires |names| == |list| == k + 1 && HoldsFirst(indexes, names[..k], list[..k])
    ensures First(names, k) <==> names[k] !in indexes
  {
    if names[k] in indexes {
      var i :| 0 <= i < k && names[..k][i] == names[k] && First(names[..k], i);
      assert names[i] == names[k];
    }
    forall j | 0 <= j < k ensures names[j] in indexes {
      assert names[..k][j] == names[j];
    }
  }

  lemma DeclaredHeld(o: Object, d: Dialect, test: bool, n: string)
    requires Created(o, d, test).Some?
    ensures HasColumn(Created(o, d, test).value, n) <==> Declares(o, test, n)
  {
    FieldNames(o.fields, d, n);
    NamesJoined(RunColumns(test), ColumnsOf(o.fields, d));
    assert Names(RunColumns(test)) == RunKey(test) by { assert Names(RunColumns(true)) == [RUN_ID]; }
  }

  lemma CreatedValid(o: Object, d: Dialect, test: bool)
    requires Validated(o)
    ensures Created(o, d, test).Some?
  {
    hide Primaries, IndexColumns, Names, Distinct, FieldNameList;
    CreatedNames(o, d, test);
    var f :| f in o.fields && f.primary;
    PrimariesAre(o.fields, f.name);
  }

  lemma CreatedNames(o: Object, d: Dialect, test: bool)
    requires Distinct(FieldNameList(o.fields)) && !Declared(o, RUN_ID)
    ensures Distinct(Names(RunColumns(test) + ColumnsOf(o.fields, d)))
  {
    hide ColumnType, DefaultClause;
    var list := FieldNameList(o.fields);
    assert Names(ColumnsOf(o.fields, d)) == list;
    NamesJoined(RunColumns(test), ColumnsOf(o.fields, d));
    assert Names(RunColumns(test)) == RunKey(test) by { assert Names(RunColumns(true)) == [RUN_ID]; }
    forall n | n in list ensures n != RUN_ID {
      var i :| 0 <= i < |list| && list[i] == n;
      assert o.fields[i] in o.fields;
    }
    KeyDistinct(test, list, list);
  }

  /** What the first migration of a valid object makes: nothing is refused. */
  lemma FreshShape(o: Object, d: Dialect, test: bool)
    requires Validated(o)
    ensures Created(o, d, test).Some? && Migrated(None, o, d, test, false).1 && Fresh(o, d, test).Some?
    ensures var t := Fresh(o, d, test).value;
      && t == Created(o, d, test).value.(indexes := t.indexes)
      && HoldsFirst(t.indexes, NameList(o, d, test), IndexList(o, test))
  {
    hide Validated, Created, Evolved, Each, IndexStatements, HoldsFirst;
    CreatedValid(o, d, test);
    var t := Created(o, d, test).value;
    CreatedEmpty(o, d, test);
    CreatedEvolves(o, d, test);
    StatementsPair(o, d, test);
    IndexColumnsHeld(o, d, test);
    EachOnEmpty(t, IndexStatements(o, d, test), NameList(o, d, test), IndexList(o, test));
  }

  lemma CreatedEmpty(o: Object, d: Dialect, test: bool)
    requires Created(o, d, test).Some?
    ensures Created(o, d, test).value.rows == [] && Created(o, d, test).value.indexes == map[]
  {
  }

  lemma CreatedEvolves(o: Object, d: Dialect, test: bool)
    requires Validated(o) && Created(o, d, test).Some?
    ensures Evolved(Created(o, d, test).value, o, d, test, false) == Step(Created(o, d, test).value, true)
  {
    hide Validated, Created, Additions, Orphans;
    var t := Created(o, d, test).value;
    forall f | f in o.fields ensures HasColumn(t, f.name) {
      DeclaredHeld(o, d, test, f.name);
    }
    NothingToAdd(t, Physical(o, test), o.fields, d, test);
    forall c | c in t.columns ensures Declares(o, test, c.name) {
      DeclaredHeld(o, d, test, c.name);
      var i :| 0 <= i < |t.columns| && t.columns[i] == c;
      assert Names(t.columns)[i] == c.name;
    }
    NoOrphans(t, o, test);
  }

  lemma IndexColumnsHeld(o: Object, d: Dialect, test: bool)
    requires Validated(o) && Created(o, d, test).Some?
    ensures forall i :: 0 <= i < |IndexList(o, test)| ==>
      HasColumns(Created(o, d, test).value, IndexColumns(IndexList(o, test)[i]))
  {
    hide Validated, Created, IndexColumns, IndexList, Declares;
    var t := Created(o, d, test).value;
    forall i, n | 0 <= i < |IndexList(o, test)| && n in IndexColumns(IndexList(o, test)[i]) ensures HasColumn(t, n) {
      DeclaredHeld(o, d, test, n);
      IndexDeclares(o, test, i, n);
    }
  }

  lemma IndexDeclares(o: Object, test: bool, i: nat, n: string)
    requires Validated(o) && i < |IndexList(o, test)| && n in IndexColumns(IndexList(o, test)[i])
    ensures Declares(o, test, n)
  {
    hide UniqueFields, IndexColumns;
    var m := if test then |UniqueFields(o.fields)| else 0;
    if i < m {
      var u := UniqueFields(o.fields)[i];
      UniqueFieldsAre(o.fields, u);
      UniqueIndexColumns(u);
    } else {
      var k := i - m;
      RunIndexColumns(o.indexes[k], test);
      assert IndexList(o, test)[i] == IndexOn(o.indexes[k], test);
      if n in IndexColumns(IndexOn(o.indexes[k], false)) {
        assert Declared(o, n);
      } else {
        assert n in RunKey(test);
      }
    }
  }

  lemma UniqueIndexColumns(u: string)
    ensures IndexColumns(UniqueIndex(u, true)) == [RUN_ID, u]
  {
  }

  lemma RunIndexColumns(ix: DeclaredIndex, test: bool)
    ensures IndexColumns(IndexOn(ix, test)) == RunKey(test) + IndexColumns(IndexOn(ix, false))
  {
  }

  // ------------------------------------------------------- index names

  lemma {:induction false} UniqueFieldsDistinct(fields: seq<Field>)
    requires Distinct(FieldNameList(fields))
    ensures Distinct(UniqueFields(fields))
  {
    if fields != [] {
      var k := |fields| - 1;
      assert FieldNameList(fields[..k]) == FieldNameList(fields)[..k];
      UniqueFieldsDistinct(fields[..k]);
      var n := fields[k].name;
      UniqueFieldsAre(fields[..k], n);
      forall f | f in fields[..k] ensures f.name != n {
        var i :| 0 <= i < k && fields[i] == f;
        assert FieldNameList(fields)[i] == f.name && FieldNameList(fields)[k] == n;
      }
    }
  }

  lemma NamesDiffer(table: string, a: string, b: string)
    ensures UniqueName(table, a) == UniqueName(table, b) ==> a == b
    ensures UniqueName(table, a) != table + "_" + b + "_idx"
  {
    var x, y, z := UniqueName(table, a), UniqueName(table, b), table + "_" + b + "_idx";
    assert x[|table| + 1..|x| - 3] == a && y[|table| + 1..|y| - 3] == b;
    assert x[|x| - 1] == 'q' && z[|z| - 1] == 'x';
  }

  lemma IndexNamesDiffer(table: string, a: DeclaredIndex, b: DeclaredIndex)
    ensures IndexName(table, a) == IndexName(table, b) ==> a.name == b.name
  {
    var x, y := IndexName(table, a), IndexName(table, b);
    assert x[|table| + 1..|x| - 4] == a.name && y[|table| + 1..|y| - 4] == b.name;
  }

  /** The names of the unique fields' indexes are not cut: SQLite cuts none, and Postgres none of 63 bytes or fewer. */
  predicate NamesFit(o: Object, d: Dialect, test: bool) {
    d.Postgres? && test ==>
      forall u :: u in UniqueFields(o.fields) ==> |UniqueName(Physical(o, test), u)| <= MAX_IDENTIFIER
  }

  /** Every unique index is kept: none asks for a name that an earlier index took. */
  predicate Kept(names: seq<string>, list: seq<Index>)
    requires |names| == |list|
  {
    forall i :: 0 <= i < |list| ==> list[i].unique ==> First(names, i)
  }

  /** Names that are not cut are all different, so every unique index is kept. */
  lemma FittingNamesKept(o: Object, d: Dialect, test: bool)
    requires Validated(o) && NamesFit(o, d, test)
    ensures Kept(NameList(o, d, test), IndexList(o, test))
  {
    hide UniqueFields, UniqueName, IndexName, IndexColumns, Physical;
    var table, unique := Physical(o, test), UniqueFields(o.fields);
    var names := NameList(o, d, test);
    var m := if test then |unique| else 0;
    UniqueFieldsDistinct(o.fields);
    forall i, j | 0 <= j < i < |names| ensures names[j] != names[i] {
      if i < m {
        NamesDiffer(table, unique[j], unique[i]);
      } else if j < m {
        UniqueNotIndex(table, unique[j], o.indexes[i - m]);
      } else {
        IndexNamesDiffer(table, o.indexes[j - m], o.indexes[i - m]);
        assert IndexNameList(o.indexes)[j - m] != IndexNameList(o.indexes)[i - m];
      }
    }
  }

  lemma UniqueNotIndex(table: string, a: string, ix: DeclaredIndex)
    ensures UniqueName(table, a) != IndexName(table, ix)
  {
    NamesDiffer(table, a, ix.name);
  }

  /** A field that begins as a declared index is named, to the length that is kept, takes its name on Postgres. */
  lemma LongNameTakesIndex(table: string, ix: DeclaredIndex, rest: string)
    requires |IndexName(table, ix)| == MAX_IDENTIFIER
    ensures HeldName(UniqueName(table, ix.name + "_idx" + rest), Postgres) == IndexName(table, ix)
  {
    var x := UniqueName(table, ix.name + "_idx" + rest);
    assert x == IndexName(table, ix) + (rest + "_uq");
    assert x[..MAX_IDENTIFIER] == IndexName(table, ix);
  }

  /** Fields that agree for long enough get one index between them on Postgres. */
  lemma LongNamesMerge(table: string, a: string, b: string, k: nat)
    requires k <= |a| && k <= |b| && a[..k] == b[..k] && |table| + 1 + k >= MAX_IDENTIFIER
    ensures HeldName(UniqueName(table, a), Postgres) == HeldName(UniqueName(table, b), Postgres)
  {
    var x, y := UniqueName(table, a), UniqueName(table, b);
    forall i | 0 <= i < MAX_IDENTIFIER ensures x[i] == y[i] {
      if i > |table| {
        assert x[i] == a[..k][i - |table| - 1] && y[i] == b[..k][i - |table| - 1];
      }
    }
    assert x[..MAX_IDENTIFIER] == y[..MAX_IDENTIFIER];
  }

  // -------------------------------------------- what each run is held to

  /** One run's rows as the live table would hold them, without the run's id. */
  function RowsOf(rows: seq<Row>, run: Value): seq<Row> {
    if rows == [] then []
    else RowsOf(rows[..|rows| - 1], run) + if Get(rows[|rows| - 1], RUN_ID) == run then [rows[|rows| - 1] - {RUN_ID}] else []
  }

  lemma {:induction false} RowsOfAre(rows: seq<Row>, run: Value, row: Row)
    ensures row in RowsOf(rows, run) <==> exists r :: r in rows && Get(r, RUN_ID) == run && r - {RUN_ID} == row
  {
    if rows != [] {
      RowsOfAre(rows[..|rows| - 1], run, row);
      assert rows == rows[..|rows| - 1] + [rows[|rows| - 1]];
    }
  }

  lemma StrippedReads(ix: Index, row: Row)
    requires RUN_ID !in IndexColumns(ix)
    ensures IndexKey(ix, row - {RUN_ID}) == IndexKey(ix, row) && Covers(ix, row - {RUN_ID}) == Covers(ix, row)
  {
    IndexKeyReads(ix, row - {RUN_ID}, row);
  }

  lemma NoClashNext(ix: Index, rows: seq<Row>, row: Row)
    ensures NoClash(ix, rows + [row]) <==> NoClash(ix, rows) && forall r :: r in rows ==> !Clash(ix, r, row)
  {
    hide Clash;
    var all := rows + [row];
    if NoClash(ix, all) {
      forall i, j | 0 <= i < j < |rows| ensures !Clash(ix, rows[i], rows[j]) {
        assert all[i] == rows[i] && all[j] == rows[j];
      }
      forall r | r in rows ensures !Clash(ix, r, row) {
        var i :| 0 <= i < |rows| && rows[i] == r;
        assert all[i] == r && all[|rows|] == row;
      }
    }
  }

  /** The same constraint with the run's id in front. */
  function PerRun(ix: Index): Index {
    ix.(fields := [RUN_ID] + ix.fields)
  }

  lemma PerRunClash(ix: Index, a: Row, b: Row)
    requires RUN_ID !in IndexColumns(ix) && Get(b, RUN_ID) != Null
    ensures Clash(PerRun(ix), a, b) <==> Get(a, RUN_ID) == Get(b, RUN_ID) && Clash(ix, a - {RUN_ID}, b - {RUN_ID})
  {
    StrippedReads(ix, a);
    StrippedReads(ix, b);
    PerRunKey(ix, a);
    PerRunKey(ix, b);
  }

  lemma PerRunKey(ix: Index, row: Row)
    ensures IndexKey(PerRun(ix), row) == [Get(row, RUN_ID)] + IndexKey(ix, row)
    ensures IndexKey(PerRun(ix), row)[0] == Get(row, RUN_ID) && IndexKey(PerRun(ix), row)[1..] == IndexKey(ix, row)
  {
    assert Picked(row, PerRun(ix).fields) == [Get(row, RUN_ID)] + Picked(row, ix.fields);
  }

  ghost predicate EachRunClear(ix: Index, rows: seq<Row>) {
    forall run :: run != Null ==> NoClash(ix, RowsOf(rows, run))
  }

  /** A constraint with the run's id in front is the constraint alone, run by run. */
  lemma {:induction false} PerRunClear(ix: Index, rows: seq<Row>)
    requires RUN_ID !in IndexColumns(ix) && forall r :: r in rows ==> Get(r, RUN_ID) != Null
    ensures NoClash(PerRun(ix), rows) <==> EachRunClear(ix, rows)
  {
    hide NoClash, Clash, PerRun, IndexColumns;
    if rows == [] {
      NothingClashes(ix);
    } else {
      var k := |rows| - 1;
      var row := rows[k];
      var own := Get(row, RUN_ID);
      assert rows == rows[..k] + [row];
      PerRunClear(ix, rows[..k]);
      NoClashNext(PerRun(ix), rows[..k], row);
      NoClashNext(ix, RowsOf(rows[..k], own), row - {RUN_ID});
      RunMates(ix, rows[..k], row);
      forall run | run != own ensures RowsOf(rows, run) == RowsOf(rows[..k], run) {
      }
      assert RowsOf(rows, own) == RowsOf(rows[..k], own) + [row - {RUN_ID}];
      RunsExtended(ix, rows, own);
    }
  }

  lemma NothingClashes(ix: Index)
    ensures NoClash(ix, []) && NoClash(PerRun(ix), [])
    ensures forall run :: RowsOf([], run) == []
  {
  }

  lemma RunMates(ix: Index, rows: seq<Row>, row: Row)
    requires RUN_ID !in IndexColumns(ix) && Get(row, RUN_ID) != Null
    ensures (forall r :: r in rows ==> !Clash(PerRun(ix), r, row))
      <==> forall m :: m in RowsOf(rows, Get(row, RUN_ID)) ==> !Clash(ix, m, row - {RUN_ID})
  {
    hide Clash, IndexColumns, PerRun;
    var own := Get(row, RUN_ID);
    forall r | r in rows
      ensures Clash(PerRun(ix), r, row) ==> r - {RUN_ID} in RowsOf(rows, own) && Clash(ix, r - {RUN_ID}, row - {RUN_ID})
    {
      PerRunClash(ix, r, row);
      RowsOfAre(rows, own, r - {RUN_ID});
    }
    forall m | m in RowsOf(rows, own)
      ensures Clash(ix, m, row - {RUN_ID}) ==> exists r :: r in rows && Clash(PerRun(ix), r, row)
    {
      RowsOfAre(rows, own, m);
      var r :| r in rows && Get(r, RUN_ID) == own && r - {RUN_ID} == m;
      PerRunClash(ix, r, row);
    }
  }

  lemma RunsExtended(ix: Index, rows: seq<Row>, own: Value)
    requires |rows| > 0 && own != Null
    requires forall run :: run != own ==> RowsOf(rows, run) == RowsOf(rows[..|rows| - 1], run)
    requires NoClash(ix, RowsOf(rows, own)) ==> NoClash(ix, RowsOf(rows[..|rows| - 1], own))
    ensures EachRunClear(ix, rows) <==> EachRunClear(ix, rows[..|rows| - 1]) && NoClash(ix, RowsOf(rows, own))
  {
    hide NoClash, RowsOf;
    var before := rows[..|rows| - 1];
    if EachRunClear(ix, rows) {
      forall run | run != Null ensures NoClash(ix, RowsOf(before, run)) {
        assert NoClash(ix, RowsOf(rows, run));
      }
    }
    if EachRunClear(ix, before) && NoClash(ix, RowsOf(rows, own)) {
      forall run | run != Null ensures NoClash(ix, RowsOf(rows, run)) {
        assert NoClash(ix, RowsOf(before, run));
      }
    }
  }

  function Overs(columns: seq<seq<string>>): (r: seq<Index>)
    ensures |r| == |columns| && forall i :: 0 <= i < |r| ==> r[i] == Over(columns[i])
  {
    seq(|columns|, i requires 0 <= i < |columns| => Over(columns[i]))
  }

  /** What the object declares of its rows: its key, its unique fields, its indexes. */
  function Constraints(o: Object): seq<Index> {
    [Over(Primaries(o.fields))] + Overs(Singles(UniqueFields(o.fields))) + IndexList(o, false)
  }

  function AllPerRun(list: seq<Index>): (r: seq<Index>)
    ensures |r| == |list| && forall i :: 0 <= i < |r| ==> r[i] == PerRun(list[i])
  {
    seq(|list|, i requires 0 <= i < |list| => PerRun(list[i]))
  }

  ghost predicate Meets(list: seq<Index>, rows: seq<Row>) {
    forall i :: 0 <= i < |list| ==> list[i].unique ==> NoClash(list[i], rows)
  }

  /** The copy states what the live table states, each constraint with the run's id in front. */
  lemma CopyStates(o: Object)
    ensures [Over(RunKey(true) + Primaries(o.fields))] + [] + IndexList(o, true) == AllPerRun(Constraints(o))
  {
    hide UniqueFields, Primaries, IndexOn;
    var unique := UniqueFields(o.fields);
    var copy, live := IndexList(o, true), IndexList(o, false);
    assert Over(RunKey(true) + Primaries(o.fields)) == PerRun(Over(Primaries(o.fields)));
    forall i | 0 <= i < |unique| ensures copy[i] == PerRun(Over([unique[i]])) {
    }
    forall i | 0 <= i < |live| ensures copy[|unique| + i] == PerRun(live[i]) {
      IndexOnPerRun(o.indexes[i]);
    }
  }

  lemma IndexOnPerRun(ix: DeclaredIndex)
    ensures IndexOn(ix, true) == PerRun(IndexOn(ix, false))
  {
    var fields := if ix.path.Some? then [] else ix.fields;
    assert [] + fields == fields;
  }

  /** The copy has every unique index; the live table always has, since its names are measured. */
  predicate NamesKept(o: Object, d: Dialect) {
    Kept(NameList(o, d, true), IndexList(o, true))
  }

  lemma FreshAdmits(o: Object, d: Dialect, test: bool, rows: seq<Row>)
    requires Validated(o) && (test ==> NamesKept(o, d)) && Fresh(o, d, test).Some?
    ensures Admits(Fresh(o, d, test).value, rows) <==> Meets(if test then AllPerRun(Constraints(o)) else Constraints(o), rows)
  {
    hide Validated, Admits, Meets, HoldsFirst, Kept, IndexList, NameList, Fresh, UniqueFields, Primaries, Created;
    FreshShape(o, d, test);
    CreatedClauses(o, d, test);
    if !test { FittingNamesKept(o, d, test); }
    AdmitsByList(Fresh(o, d, test).value, NameList(o, d, test), IndexList(o, test), rows);
    if test {
      CopyStates(o);
      assert Overs([]) == [];
    } else {
      assert [] + Primaries(o.fields) == Primaries(o.fields);
    }
  }

  lemma AdmitsByList(t: Table, names: seq<string>, list: seq<Index>, rows: seq<Row>)
    requires |names| == |list| && HoldsFirst(t.indexes, names, list) && Kept(names, list)
    ensures Admits(t, rows) <==> Meets([Over(t.key)] + Overs(t.uniques) + list, rows)
  {
    hide NoClash, First;
    var k := 1 + |t.uniques|;
    var all := [Over(t.key)] + Overs(t.uniques) + list;
    if Meets(all, rows) {
      assert NoClash(all[0], rows);
      forall u | u in t.uniques ensures NoClash(Over(u), rows) {
        var i :| 0 <= i < |t.uniques| && t.uniques[i] == u;
        assert all[1 + i] == Over(u);
      }
      forall n | n in t.indexes && t.indexes[n].unique ensures NoClash(t.indexes[n], rows) {
        var i :| 0 <= i < |names| && names[i] == n && First(names, i);
        assert all[k + i] == list[i];
      }
    }
  }

  lemma CreatedClauses(o: Object, d: Dialect, test: bool)
    requires Created(o, d, test).Some?
    ensures Created(o, d, test).value.key == RunKey(test) + Primaries(o.fields)
    ensures Created(o, d, test).value.uniques == if test then [] else Singles(UniqueFields(o.fields))
  {
  }

  lemma ConstraintReads(o: Object, ix: Index)
    requires Validated(o) && ix in Constraints(o)
    ensures RUN_ID !in IndexColumns(ix)
  {
    hide IndexColumns, UniqueFields, Primaries, IndexOn;
    if ix == Over(Primaries(o.fields)) {
      OverColumns(Primaries(o.fields));
      PrimariesAre(o.fields, RUN_ID);
    } else if ix in Overs(Singles(UniqueFields(o.fields))) {
      var i :| 0 <= i < |UniqueFields(o.fields)| && ix == Over([UniqueFields(o.fields)[i]]);
      OverColumns([UniqueFields(o.fields)[i]]);
      UniqueFieldsAre(o.fields, RUN_ID);
    } else {
      var i :| 0 <= i < |o.indexes| && ix == IndexOn(o.indexes[i], false);
    }
  }

  ghost predicate AllClear(list: seq<Index>, rows: seq<Row>) {
    forall i :: 0 <= i < |list| ==> list[i].unique ==> EachRunClear(list[i], rows)
  }

  lemma MeetsPerRun(list: seq<Index>, rows: seq<Row>)
    requires forall ix :: ix in list ==> RUN_ID !in IndexColumns(ix)
    requires forall r :: r in rows ==> Get(r, RUN_ID) != Null
    ensures Meets(AllPerRun(list), rows) <==> AllClear(list, rows)
  {
    hide NoClash, IndexColumns, EachRunClear;
    forall i | 0 <= i < |list| ensures NoClash(AllPerRun(list)[i], rows) <==> EachRunClear(list[i], rows) {
      assert list[i] in list;
      PerRunClear(list[i], rows);
    }
  }

  lemma ClearEachRun(list: seq<Index>, rows: seq<Row>, run: Value)
    requires AllClear(list, rows) && run != Null
    ensures Meets(list, RowsOf(rows, run))
  {
    hide NoClash, RowsOf;
    forall i | 0 <= i < |list| && list[i].unique ensures NoClash(list[i], RowsOf(rows, run)) {
      assert EachRunClear(list[i], rows);
    }
  }

  lemma EachRunIsClear(list: seq<Index>, rows: seq<Row>)
    requires RunsMeet(list, rows)
    ensures AllClear(list, rows)
  {
    hide NoClash, RowsOf;
    forall i | 0 <= i < |list| && list[i].unique ensures EachRunClear(list[i], rows) {
      forall run | run != Null ensures NoClash(list[i], RowsOf(rows, run)) {
        assert Meets(list, RowsOf(rows, run));
      }
    }
  }

  ghost predicate RunsMeet(list: seq<Index>, rows: seq<Row>) {
    forall run :: run != Null ==> Meets(list, RowsOf(rows, run))
  }

  lemma RunsMeetClear(list: seq<Index>, rows: seq<Row>)
    ensures RunsMeet(list, rows) <==> AllClear(list, rows)
  {
    hide Meets, AllClear;
    if AllClear(list, rows) {
      forall run | run != Null ensures Meets(list, RowsOf(rows, run)) {
        ClearEachRun(list, rows, run);
      }
    }
    if RunsMeet(list, rows) {
      EachRunIsClear(list, rows);
    }
  }

  /** Each run's rows alone are rows the live table takes. */
  ghost predicate EachRunAdmitted(live: Table, rows: seq<Row>) {
    forall run :: run != Null ==> Admits(live, RowsOf(rows, run))
  }

  lemma RunsAdmitted(o: Object, d: Dialect, rows: seq<Row>)
    requires Validated(o) && Fresh(o, d, false).Some?
    ensures EachRunAdmitted(Fresh(o, d, false).value, rows) <==> RunsMeet(Constraints(o), rows)
  {
    hide Validated, Admits, Meets, NamesKept, Fresh, Constraints, RowsOf;
    forall run | run != Null
      ensures Admits(Fresh(o, d, false).value, RowsOf(rows, run)) <==> Meets(Constraints(o), RowsOf(rows, run))
    {
      FreshAdmits(o, d, false, RowsOf(rows, run));
    }
  }

  /**
    The rows of a fresh test copy meet its key and unique constraints exactly when
    each run's rows alone meet the live table's: a run is held to everything the
    live table demands, and never to another run.
   */
  lemma RunsStandAlone(o: Object, d: Dialect, rows: seq<Row>)
    requires Validated(o) && NamesKept(o, d)
    requires forall r :: r in rows ==> Get(r, RUN_ID) != Null
    ensures Fresh(o, d, true).Some? && Fresh(o, d, false).Some?
    ensures Admits(Fresh(o, d, true).value, rows) <==> EachRunAdmitted(Fresh(o, d, false).value, rows)
  {
    hide Validated, Admits, Meets, NamesKept, Fresh, RunsMeet, EachRunAdmitted, Constraints, IndexColumns, AllClear;
    FreshShape(o, d, true);
    FreshShape(o, d, false);
    FreshAdmits(o, d, true, rows);
    RunsAdmitted(o, d, rows);
    forall ix | ix in Constraints(o) ensures RUN_ID !in IndexColumns(ix) {
      ConstraintReads(o, ix);
    }
    MeetsPerRun(Constraints(o), rows);
    RunsMeetClear(Constraints(o), rows);
  }

  // ------------------------------------------------------- removing a run

  function WithoutRun(rows: seq<Row>, run: Value): seq<Row> {
    if rows == [] then []
    else WithoutRun(rows[..|rows| - 1], run) + if Get(rows[|rows| - 1], RUN_ID) == run then [] else [rows[|rows| - 1]]
  }

  /** Removing a run takes all of its rows, and leaves every other run the rows it had, in order. */
  lemma {:induction false} RunRemoved(rows: seq<Row>, run: Value, other: Value)
    ensures |WithoutRun(rows, run)| + |RowsOf(rows, run)| == |rows|
    ensures RowsOf(WithoutRun(rows, run), other) == if other == run then [] else RowsOf(rows, other)
  {
    if rows != [] {
      var k := |rows| - 1;
      RunRemoved(rows[..k], run, other);
      var left := WithoutRun(rows[..k], run);
      if Get(rows[k], RUN_ID) == run {
        assert left + [] == left;
      } else {
        assert (left + [rows[k]])[..|left|] == left;
      }
    }
  }

  lemma {:induction false} RemovedStays(ix: Index, rows: seq<Row>, run: Value)
    requires NoClash(ix, rows)
    ensures NoClash(ix, WithoutRun(rows, run))
    ensures forall r :: r in WithoutRun(rows, run) ==> r in rows
  {
    hide Clash;
    if rows != [] {
      var k := |rows| - 1;
      assert rows == rows[..k] + [rows[k]];
      NoClashNext(ix, rows[..k], rows[k]);
      RemovedStays(ix, rows[..k], run);
      NoClashNext(ix, WithoutRun(rows[..k], run), rows[k]);
    }
  }

  lemma RemovalKeepsSound(t: Table, run: Value)
    requires Sound(t)
    ensures Sound(t.(rows := WithoutRun(t.rows, run)))
  {
    hide NoClash, NotNulls, IndexColumns, Distinct, WithoutRun;
    RemovedStays(Over(t.key), t.rows, run);
    forall u | u in t.uniques ensures NoClash(Over(u), WithoutRun(t.rows, run)) {
      RemovedStays(Over(u), t.rows, run);
    }
    forall n | n in t.indexes && t.indexes[n].unique ensures NoClash(t.indexes[n], WithoutRun(t.rows, run)) {
      RemovedStays(t.indexes[n], t.rows, run);
    }
  }

  function RunCount(tables: map<string, Table>, objects: seq<Object>, run: Value): nat {
    if objects == [] then 0
    else
      var table := Physical(objects[|objects| - 1], true);
      RunCount(tables, objects[..|objects| - 1], run) + if table in tables then |RowsOf(tables[table].rows, run)| else 0
  }

  predicate Copies(objects: seq<Object>, table: string) {
    exists i :: 0 <= i < |objects| && Physical(objects[i], true) == table
  }

  /** The run's rows leave the test copies of the objects, and nothing else changes. */
  ghost predicate RunGone(before: map<string, Table>, after: map<string, Table>, objects: seq<Object>, run: Value) {
    && after.Keys == before.Keys
    && forall n :: n in before ==>
      after[n] == if Copies(objects, n) then before[n].(rows := WithoutRun(before[n].rows, run)) else before[n]
  }

  /** Deletes one run's rows table by table, and counts them; a run must have an id. */
  method RemoveRun(db: Database, objects: seq<Object>, run: string) returns (removed: Option<nat>)
    requires db.Valid() && DistinctTargets(JobsFor(objects, true))
    modifies db`tables
    ensures db.Valid()
    ensures run == "" ==> removed == None && db.tables == old(db.tables)
    ensures run != "" ==>
      && removed == Some(RunCount(old(db.tables), objects, Text(run)))
      && RunGone(old(db.tables), db.tables, objects, Text(run))
  {
    hide Sound, RunGone;
    if run == "" { return None; }
    var total := 0;
    ghost var before := db.tables;
    NothingGone(before, objects, Text(run));
    for i := 0 to |objects|
      invariant db.Valid() && total == RunCount(before, objects[..i], Text(run))
      invariant RunGone(before, db.tables, objects[..i], Text(run))
    {
      var table := Physical(objects[i], true);
      RunGoneNext(before, db.tables, objects, i, Text(run));
      if table in db.tables {
        var t := db.tables[table];
        RunRemoved(t.rows, Text(run), Text(run));
        RemovalKeepsSound(t, Text(run));
        var left := WithoutRun(t.rows, Text(run));
        db.tables := db.tables[table := t.(rows := left)];
        total := total + (|t.rows| - |left|);
      }
    }
    assert objects[..|objects|] == objects;
    removed := Some(total);
  }

  lemma NothingGone(tables: map<string, Table>, objects: seq<Object>, run: Value)
    ensures RunGone(tables, tables, objects[..0], run)
  {
  }

  lemma RunGoneNext(before: map<string, Table>, now: map<string, Table>, objects: seq<Object>, i: nat, run: Value)
    requires i < |objects| && DistinctTargets(JobsFor(objects, true)) && RunGone(before, now, objects[..i], run)
    ensures var table := Physical(objects[i], true);
      && (table in now <==> table in before)
      && (table in now ==> now[table] == before[table])
      && RunGone(before, if table in now then now[table := now[table].(rows := WithoutRun(now[table].rows, run))] else now,
                 objects[..i + 1], run)
      && RunCount(before, objects[..i + 1], run) ==
        RunCount(before, objects[..i], run) + if table in before then |RowsOf(before[table].rows, run)| else 0
  {
    hide Physical, WithoutRun, RowsOf;
    assert objects[..i + 1][..i] == objects[..i];
    CopiesNext(objects, i);
  }

  lemma CopiesNext(objects: seq<Object>, i: nat)
    requires i < |objects| && DistinctTargets(JobsFor(objects, true))
    ensures !Copies(objects[..i], Physical(objects[i], true))
    ensures forall n :: Copies(objects[..i + 1], n) <==> Copies(objects[..i], n) || n == Physical(objects[i], true)
  {
    hide Physical;
    forall j | 0 <= j < i ensures Physical(objects[j], true) != Physical(objects[i], true) {
      assert Target(JobsFor(objects, true)[j]) != Target(JobsFor(objects, true)[i]);
    }
    forall n ensures Copies(objects[..i + 1], n) <==> Copies(objects[..i], n) || n == Physical(objects[i], true) {
      assert objects[..i + 1][i] == objects[i];
      assert forall j :: 0 <= j < i ==> objects[..i + 1][j] == objects[..i][j];
    }
  }

  /** The rows in the first k objects' copies. */
  function RowCount(tables: map<string, Table>, objects: seq<Object>, k: nat): nat
    requires k <= |objects|
  {
    if k == 0 then 0
    else
      var table := Physical(objects[k - 1], true);
      RowCount(tables, objects, k - 1) + if table in tables then |tables[table].rows| else 0
  }

  /** What is counted is what the copies hold less than before. */
  lemma {:induction false} RunCounted(
      before: map<string, Table>, after: map<string, Table>, objects: seq<Object>, run: Value, k: nat)
    requires k <= |objects| && RunGone(before, after, objects, run)
    ensures RowCount(before, objects, k) == RowCount(after, objects, k) + RunCount(before, objects[..k], run)
  {
    hide Physical, WithoutRun, RowsOf;
    if k > 0 {
      RunCounted(before, after, objects, run, k - 1);
      assert objects[..k][..k - 1] == objects[..k - 1];
      var table := Physical(objects[k - 1], true);
      if table in before {
        assert Copies(objects, table);
        RunRemoved(before[table].rows, run, run);
      }
    }
  }
}
