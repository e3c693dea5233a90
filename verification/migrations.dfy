/**
  Bringing stored tables to a declared shape: what one migration does to one
  table, as functions of the table it finds. The statements that do it are in
  the Databases module.
 */
module Migrations {
  import opened Options
  import opened Sorting
  import opened Tables

  const RUN_ID := "run_id"
  const TEST_SUFFIX := "_test"
  const REBUILD_SUFFIX := "__rebuild"
  const MAX_IDENTIFIER := 63

  datatype Dialect = Sqlite | Postgres

  datatype FieldType =
    | TypeString | TypeText | TypeInt | TypeFloat | TypeBool
    | TypeJson | TypeTimestamp | TypeEnum | TypeBytes | TypeGeometry

  datatype Field = Field(
    name: string, ftype: FieldType,
    primary: bool, required: bool, unique: bool, nullable: bool,
    default: Option<Value>)

  datatype DeclaredIndex = DeclaredIndex(
    name: string, fields: seq<string>, path: Option<PathRef>,
    unique: bool, notDeleted: bool, conditions: seq<Condition>)

  /** A declared object; `table` is the physical name of its live table. */
  datatype Object = Object(table: string, fields: seq<Field>, indexes: seq<DeclaredIndex>)

  // ------------------------------------------------------ declared columns

  function ColumnType(ft: FieldType, d: Dialect): string {
    match ft
    case TypeInt => "bigint"
    case TypeFloat => "double precision"
    case TypeBool => "boolean"
    case TypeBytes => if d.Postgres? then "bytea" else "blob"
    case TypeJson => if d.Postgres? then "jsonb" else "text"
    case TypeGeometry => if d.Postgres? then "jsonb" else "text"
    case _ => "text"
  }

  function DefaultClause(f: Field): Option<Value> {
    if f.default.Some? then f.default
    else if f.required || f.primary || f.nullable || f.ftype.TypeJson? || f.ftype.TypeGeometry? then None
    else if f.ftype.TypeInt? || f.ftype.TypeFloat? then Some(Number(0))
    else if f.ftype.TypeBool? then Some(Truth(false))
    else Some(Text(""))
  }

  function ColumnOf(f: Field, d: Dialect): Column {
    Column(f.name, ColumnType(f.ftype, d), f.required || f.primary, DefaultClause(f))
  }

  function EmptyValue(ft: FieldType): Option<Value> {
    match ft
    case TypeInt => Some(Number(0))
    case TypeFloat => Some(Number(0))
    case TypeBool => Some(Truth(false))
    case TypeJson => None
    case TypeGeometry => None
    case _ => Some(Text(""))
  }

  /** The column as added to a table that may hold rows already. */
  function AddedColumn(f: Field, d: Dialect): Column {
    if !f.required || f.default.Some? then ColumnOf(f, d)
    else match EmptyValue(f.ftype)
      case None => ColumnOf(f.(required := false), d)
      case Some(v) => ColumnOf(f, d).(default := Some(v))
  }

  function ColumnsOf(fields: seq<Field>, d: Dialect): (cs: seq<Column>)
    ensures |cs| == |fields| && forall i :: 0 <= i < |cs| ==> cs[i] == ColumnOf(fields[i], d)
  {
    seq(|fields|, i requires 0 <= i < |fields| => ColumnOf(fields[i], d))
  }

  function Primaries(fields: seq<Field>): seq<string> {
    if fields == [] then []
    else Primaries(fields[..|fields| - 1]) + var f := fields[|fields| - 1]; if f.primary then [f.name] else []
  }

  /** The fields that get a constraint of their own: a unique key field has the key. */
  function UniqueFields(fields: seq<Field>): seq<string> {
    if fields == [] then []
    else UniqueFields(fields[..|fields| - 1]) + var f := fields[|fields| - 1]; if f.unique && !f.primary then [f.name] else []
  }

  function Singles(names: seq<string>): (r: seq<seq<string>>)
    ensures |r| == |names| && forall i :: 0 <= i < |r| ==> r[i] == [names[i]]
  {
    seq(|names|, i requires 0 <= i < |names| => [names[i]])
  }

  function RunKey(test: bool): seq<string> {
    if test then [RUN_ID] else []
  }

  function RunColumns(test: bool): seq<Column> {
    if test then [Column(RUN_ID, "text", true, None)] else []
  }

  /** The table as first created; None when the statement is refused. */
  function Created(o: Object, d: Dialect, test: bool): Option<Table> {
    var columns := RunColumns(test) + ColumnsOf(o.fields, d);
    var key := RunKey(test) + Primaries(o.fields);
    if !Distinct(Names(columns)) || key == [] then None
    else Some(Table(columns, key, if test then [] else Singles(UniqueFields(o.fields)), map[], []))
  }

  function Physical(o: Object, test: bool): string {
    if test then o.table + TEST_SUFFIX else o.table
  }

  // ------------------------------------------------------ declared indexes

  function ConditionsOf(ix: DeclaredIndex): seq<Condition> {
    (if ix.notDeleted then [Condition("deleted", IsFalse)] else []) + ix.conditions
  }

  function IndexOn(ix: DeclaredIndex, test: bool): Index {
    Index(RunKey(test) + (if ix.path.Some? then [] else ix.fields), ix.path, ix.unique, ConditionsOf(ix))
  }

  /** The name the database keeps: Postgres cuts a longer one without a word. */
  function HeldName(name: string, d: Dialect): string {
    if d.Postgres? && |name| > MAX_IDENTIFIER then name[..MAX_IDENTIFIER] else name
  }

  function IndexName(table: string, ix: DeclaredIndex): string {
    table + "_" + ix.name + "_idx"
  }

  function UniqueName(table: string, field: string): string {
    table + "_" + field + "_uq"
  }

  function UniqueIndex(field: string, test: bool): Index {
    Index(RunKey(test) + [field], None, true, [])
  }

  function UniqueStatements(table: string, names: seq<string>, d: Dialect): (r: seq<Statement>)
    ensures |r| == |names|
    ensures forall i :: 0 <= i < |r| ==> r[i] == CreateIndex(HeldName(UniqueName(table, names[i]), d), UniqueIndex(names[i], true))
  {
    seq(|names|, i requires 0 <= i < |names| => CreateIndex(HeldName(UniqueName(table, names[i]), d), UniqueIndex(names[i], true)))
  }

  function DeclaredStatements(table: string, ixs: seq<DeclaredIndex>, d: Dialect, test: bool): (r: seq<Statement>)
    ensures |r| == |ixs|
    ensures forall i :: 0 <= i < |r| ==> r[i] == CreateIndex(HeldName(IndexName(table, ixs[i]), d), IndexOn(ixs[i], test))
  {
    seq(|ixs|, i requires 0 <= i < |ixs| => CreateIndex(HeldName(IndexName(table, ixs[i]), d), IndexOn(ixs[i], test)))
  }

  function IndexStatements(o: Object, d: Dialect, test: bool): seq<Statement> {
    var table := Physical(o, test);
    (if test then UniqueStatements(table, UniqueFields(o.fields), d) else [])
    + DeclaredStatements(table, o.indexes, d, test)
  }

  // -------------------------------------------------- what one table needs

  /** What one field of a table needs: nothing where its column is held, or is a missing key column. */
  function FieldStatements(table: string, f: Field, held: seq<string>, d: Dialect, test: bool): Option<seq<Statement>> {
    if f.name in held || f.primary then Some([])
    else if !f.unique then Some([AddColumn(AddedColumn(f, d))])
    else if |UniqueName(table, f.name)| > MAX_IDENTIFIER then None
    else Some([AddColumn(AddedColumn(f, d)), CreateIndex(UniqueName(table, f.name), UniqueIndex(f.name, test))])
  }

  function Additions(table: string, fields: seq<Field>, held: seq<string>, d: Dialect, test: bool): Option<seq<Statement>> {
    if fields == [] then Some([])
    else match Additions(table, fields[..|fields| - 1], held, d, test)
      case None => None
      case Some(sts) =>
        match FieldStatements(table, fields[|fields| - 1], held, d, test)
        case None => None
        case Some(more) => Some(sts + more)
  }

  predicate Blocks(t: Table, c: Column) {
    c.notNull && c.default.None? && c.name !in t.key
  }

  predicate Declares(o: Object, test: bool, name: string) {
    (test && name == RUN_ID) || exists f :: f in o.fields && f.name == name
  }

  /** The columns nobody writes any more that still refuse a row without them. */
  function Orphans(t: Table, cs: seq<Column>, o: Object, test: bool): seq<string> {
    if cs == [] then []
    else
      var c := cs[|cs| - 1];
      Orphans(t, cs[..|cs| - 1], o, test) + if Blocks(t, c) && !Declares(o, test, c.name) then [c.name] else []
  }

  function Drops(names: seq<string>): (r: seq<Statement>)
    ensures |r| == |names| && forall i :: 0 <= i < |r| ==> r[i] == DropNotNull(names[i])
  {
    seq(|names|, i requires 0 <= i < |names| => DropNotNull(names[i]))
  }

  /** A table after a step, and whether the step went through. */
  datatype Step = Step(table: Table, ok: bool)

  /** Relaxing the orphans; `taken` says that the name of the copy SQLite needs is in use. */
  function Relax(t: Table, o: Object, d: Dialect, test: bool, taken: bool): Step {
    var orphans := Orphans(t, t.columns, o, test);
    if orphans == [] then Step(t, true)
    else
      var r := if d.Postgres? then ExecAll(t, Drops(orphans)) else if taken then None else Copied(t, orphans);
      match r case None => Step(t, false) case Some(u) => Step(u, true)
  }

  function Evolved(t: Table, o: Object, d: Dialect, test: bool, taken: bool): Step {
    match Additions(Physical(o, test), o.fields, Names(t.columns), d, test)
    case None => Step(t, false)
    case Some(sts) =>
      match ExecAll(t, sts)
      case None => Step(t, false)
      case Some(u) => Relax(u, o, d, test, taken)
  }

  /** Statements outside a transaction: the ones before a refusal stand. */
  function Each(t: Table, sts: seq<Statement>): Step {
    if sts == [] then Step(t, true)
    else
      var p := Each(t, sts[..|sts| - 1]);
      if !p.ok then p
      else match Exec(p.table, sts[|sts| - 1])
        case None => Step(p.table, false)
        case Some(u) => Step(u, true)
  }

  /** One table migrated, from nothing or from whatever is there. */
  function Migrated(held: Option<Table>, o: Object, d: Dialect, test: bool, taken: bool): (Option<Table>, bool) {
    var found := if held.Some? then held else Created(o, d, test);
    match found
    case None => (None, false)
    case Some(t) =>
      var e := Evolved(t, o, d, test, taken);
      if !e.ok then (Some(e.table), false)
      else
        var r := Each(e.table, IndexStatements(o, d, test));
        (Some(r.table), r.ok)
  }

  // --------------------------------------- no table ever loses anything

  lemma {:induction false} PrimariesAre(fields: seq<Field>, n: string)
    ensures n in Primaries(fields) <==> exists f :: f in fields && f.primary && f.name == n
  {
    if fields != [] {
      PrimariesAre(fields[..|fields| - 1], n);
      assert fields == fields[..|fields| - 1] + [fields[|fields| - 1]];
    }
  }

  lemma {:induction false} UniqueFieldsAre(fields: seq<Field>, n: string)
    ensures n in UniqueFields(fields) <==> exists f :: f in fields && f.unique && !f.primary && f.name == n
  {
    if fields != [] {
      UniqueFieldsAre(fields[..|fields| - 1], n);
      assert fields == fields[..|fields| - 1] + [fields[|fields| - 1]];
    }
  }

  lemma FieldNames(fields: seq<Field>, d: Dialect, n: string)
    ensures n in Names(ColumnsOf(fields, d)) <==> exists f :: f in fields && f.name == n
  {
    var cs := ColumnsOf(fields, d);
    if f :| f in fields && f.name == n {
      var i :| 0 <= i < |fields| && fields[i] == f;
      assert Names(cs)[i] == n;
    }
  }

  lemma {:induction false} PrimariesDistinct(fields: seq<Field>, d: Dialect)
    requires Distinct(Names(ColumnsOf(fields, d)))
    ensures Distinct(Primaries(fields))
  {
    if fields != [] {
      var rest := fields[..|fields| - 1];
      assert Names(ColumnsOf(rest, d)) == Names(ColumnsOf(fields, d))[..|rest|];
      PrimariesDistinct(rest, d);
      var n := fields[|rest|].name;
      PrimariesAre(rest, n);
      FieldNames(rest, d, n);
      assert Names(ColumnsOf(fields, d))[|rest|] == n;
    }
  }

  lemma NamesJoined(a: seq<Column>, b: seq<Column>)
    ensures Names(a + b) == Names(a) + Names(b)
  {
  }

  lemma CreatedIsSound(o: Object, d: Dialect, test: bool)
    requires Created(o, d, test).Some?
    ensures Sound(Created(o, d, test).value)
  {
    hide Primaries, UniqueFields, Names, Distinct;
    var t := Created(o, d, test).value;
    CreatedKey(o, d, test);
    forall u, n | u in t.uniques && n in u ensures HasColumn(t, n) {
      UniqueFieldsAre(o.fields, n);
      FieldNames(o.fields, d, n);
      NamesJoined(RunColumns(test), ColumnsOf(o.fields, d));
    }
  }

  lemma DistinctParts(a: seq<string>, b: seq<string>)
    requires Distinct(a + b)
    ensures Distinct(b) && forall n :: n in a ==> n !in b
  {
    forall i, j | 0 <= i < j < |b| ensures b[i] != b[j] {
      assert (a + b)[|a| + i] == b[i] && (a + b)[|a| + j] == b[j];
    }
    forall i, j | 0 <= i < |a| && 0 <= j < |b| ensures a[i] != b[j] {
      assert (a + b)[i] == a[i] && (a + b)[|a| + j] == b[j];
    }
  }

  lemma CreatedKey(o: Object, d: Dialect, test: bool)
    requires Created(o, d, test).Some?
    ensures Distinct(Created(o, d, test).value.key)
    ensures HasColumns(Created(o, d, test).value, Created(o, d, test).value.key)
  {
    hide Primaries, UniqueFields, Names, Distinct;
    var t := Created(o, d, test).value;
    var cs := ColumnsOf(o.fields, d);
    NamesJoined(RunColumns(test), cs);
    DistinctParts(Names(RunColumns(test)), Names(cs));
    PrimariesDistinct(o.fields, d);
    forall n | n in Primaries(o.fields) ensures n in Names(cs) {
      PrimariesAre(o.fields, n);
      FieldNames(o.fields, d, n);
    }
    assert Names(RunColumns(test)) == RunKey(test) by { assert Names(RunColumns(true)) == [RUN_ID]; }
    KeyDistinct(test, Primaries(o.fields), Names(cs));
  }

  lemma KeyDistinct(test: bool, primaries: seq<string>, names: seq<string>)
    requires Distinct(primaries) && (forall n :: n in primaries ==> n in names)
    requires forall n :: n in RunKey(test) ==> n !in names
    ensures Distinct(RunKey(test) + primaries)
  {
    var key := RunKey(test) + primaries;
    var k := |RunKey(test)|;
    forall i, j | 0 <= i < j < |key| ensures key[i] != key[j] {
      assert primaries[j - k] in primaries;
      assert i < k ==> key[i] in RunKey(test);
    }
  }

  lemma {:induction false} EachGrows(t: Table, sts: seq<Statement>)
    requires Sound(t)
    ensures Sound(Each(t, sts).table) && Grown(t, Each(t, sts).table)
  {
    hide Grown, Exec, WellFormed, Admits, NotNulls;
    if sts == [] {
      GrownItself(t);
    } else {
      EachGrows(t, sts[..|sts| - 1]);
      var p := Each(t, sts[..|sts| - 1]);
      if p.ok && Exec(p.table, sts[|sts| - 1]).Some? {
        ExecGrows(p.table, sts[|sts| - 1]);
        GrownTwice(t, p.table, Exec(p.table, sts[|sts| - 1]).value);
      }
    }
  }

  lemma RelaxGrows(t: Table, o: Object, d: Dialect, test: bool, taken: bool)
    requires Sound(t)
    ensures Sound(Relax(t, o, d, test, taken).table) && Grown(t, Relax(t, o, d, test, taken).table)
  {
    hide Grown, Admits, NotNulls, Orphans, Copied, ExecAll, HasColumns, Distinct;
    GrownItself(t);
    var orphans := Orphans(t, t.columns, o, test);
    if d.Postgres? {
      if ExecAll(t, Drops(orphans)).Some? { ExecAllGrows(t, Drops(orphans)); }
    } else {
      if Copied(t, orphans).Some? { CopiedGrows(t, orphans); }
    }
  }

  lemma EvolvedGrows(t: Table, o: Object, d: Dialect, test: bool, taken: bool)
    requires Sound(t)
    ensures Sound(Evolved(t, o, d, test, taken).table) && Grown(t, Evolved(t, o, d, test, taken).table)
  {
    hide Grown, WellFormed, Admits, NotNulls, Additions, ExecAll, Relax;
    GrownItself(t);
    var sts := Additions(Physical(o, test), o.fields, Names(t.columns), d, test);
    if sts.Some? && ExecAll(t, sts.value).Some? {
      ExecAllGrows(t, sts.value);
      var u := ExecAll(t, sts.value).value;
      RelaxGrows(u, o, d, test, taken);
      GrownTwice(t, u, Relax(u, o, d, test, taken).table);
    }
  }

  /**
    Migrating a table, finished or cut short, loses nothing it held, adds only
    columns that read their default, and leaves it meeting its constraints.
   */
  lemma MigratedGrows(held: Option<Table>, o: Object, d: Dialect, test: bool, taken: bool)
    requires held.Some? ==> Sound(held.value)
    ensures var r := Migrated(held, o, d, test, taken).0;
      (r.Some? ==> Sound(r.value)) && (held.Some? ==> r.Some? && Grown(held.value, r.value))
  {
    hide Grown, WellFormed, Admits, NotNulls, Evolved, Each, IndexStatements, Created;
    if held.None? && Created(o, d, test).Some? { CreatedIsSound(o, d, test); }
    var found := if held.Some? then held else Created(o, d, test);
    if found.Some? {
      var t := found.value;
      EvolvedGrows(t, o, d, test, taken);
      var e := Evolved(t, o, d, test, taken);
      if e.ok {
        EachGrows(e.table, IndexStatements(o, d, test));
        GrownTwice(t, e.table, Each(e.table, IndexStatements(o, d, test)).table);
      }
    }
  }

  // --------------------------------- what a finished migration leaves

  lemma {:induction false} OrphansAre(t: Table, cs: seq<Column>, o: Object, test: bool, n: string)
    ensures n in Orphans(t, cs, o, test) <==> exists c :: c in cs && Blocks(t, c) && !Declares(o, test, c.name) && c.name == n
  {
    hide Blocks, Declares;
    if cs != [] {
      OrphansAre(t, cs[..|cs| - 1], o, test, n);
      assert cs == cs[..|cs| - 1] + [cs[|cs| - 1]];
    }
  }

  /** No column outside the key refuses a row for leaving it out, unless a declared field is stored in it. */
  predicate NothingBlocks(t: Table, o: Object, test: bool) {
    forall c :: c in t.columns && Blocks(t, c) ==> Declares(o, test, c.name)
  }

  lemma NoOrphans(t: Table, o: Object, test: bool)
    ensures Orphans(t, t.columns, o, test) == [] <==> NothingBlocks(t, o, test)
  {
    hide Blocks, Declares, Orphans;
    var orphans := Orphans(t, t.columns, o, test);
    if orphans != [] {
      OrphansAre(t, t.columns, o, test, orphans[0]);
    }
    forall c | c in t.columns && Blocks(t, c) && !Declares(o, test, c.name) ensures orphans != [] {
      OrphansAre(t, t.columns, o, test, c.name);
    }
  }

  /** Dropping NOT NULL from a list of columns outside the key is never refused. */
  lemma {:induction false} DropAll(t: Table, names: seq<string>)
    requires forall n :: n in names ==> HasColumn(t, n) && n !in t.key
    ensures ExecAll(t, Drops(names)) == Some(t.(columns := Relaxed(t.columns, names)))
  {
    if names == [] {
      assert Relaxed(t.columns, names) == t.columns;
    } else {
      var k := |names| - 1;
      assert Drops(names)[..k] == Drops(names[..k]);
      DropAll(t, names[..k]);
      var u := t.(columns := Relaxed(t.columns, names[..k]));
      assert Names(u.columns) == Names(t.columns);
      assert names[k] in names;
      RelaxedAppended(t.columns, names[..k], names[k]);
      assert names == names[..k] + [names[k]];
    }
  }

  lemma RelaxedAppended(cs: seq<Column>, names: seq<string>, n: string)
    ensures Relaxed(Relaxed(cs, names), [n]) == Relaxed(cs, names + [n])
  {
  }

  lemma OrphansDroppable(t: Table, o: Object, test: bool)
    ensures forall n :: n in Orphans(t, t.columns, o, test) ==> HasColumn(t, n) && n !in t.key
  {
    hide Declares, Orphans;
    forall n | n in Orphans(t, t.columns, o, test) ensures HasColumn(t, n) && n !in t.key {
      OrphansAre(t, t.columns, o, test, n);
      var c :| c in t.columns && Blocks(t, c) && c.name == n;
      var i :| 0 <= i < |t.columns| && t.columns[i] == c;
      assert Names(t.columns)[i] == n;
    }
  }

  /** A relaxed table: the same but for its columns, which are relaxed, the key ones aside. */
  predicate RelaxedFrom(t: Table, u: Table, orphans: seq<string>) {
    && u.key == t.key && |u.columns| == |t.columns|
    && forall i :: 0 <= i < |u.columns| ==>
      && u.columns[i].name == t.columns[i].name && u.columns[i].default == t.columns[i].default
      && (u.columns[i].notNull ==> u.columns[i].name in t.key || (t.columns[i].notNull && u.columns[i].name !in orphans))
  }

  lemma RelaxedNothingBlocks(t: Table, u: Table, o: Object, test: bool)
    requires RelaxedFrom(t, u, Orphans(t, t.columns, o, test))
    ensures NothingBlocks(u, o, test)
  {
    hide Declares, Orphans;
    forall c | c in u.columns && Blocks(u, c) ensures Declares(o, test, c.name) {
      var i :| 0 <= i < |u.columns| && u.columns[i] == c;
      assert t.columns[i] in t.columns && Blocks(t, t.columns[i]);
      OrphansAre(t, t.columns, o, test, c.name);
    }
  }

  lemma RelaxUnblocks(t: Table, o: Object, d: Dialect, test: bool, taken: bool)
    ensures var r := Relax(t, o, d, test, taken);
      Names(r.table.columns) == Names(t.columns) && (r.ok ==> NothingBlocks(r.table, o, test))
  {
    hide Orphans, NothingBlocks, ExecAll, HasColumn, Admits, NotNulls, Drops;
    var orphans := Orphans(t, t.columns, o, test);
    NoOrphans(t, o, test);
    OrphansDroppable(t, o, test);
    DropAll(t, orphans);
    var r := Relax(t, o, d, test, taken);
    if r.ok && orphans != [] {
      assert RelaxedFrom(t, r.table, orphans);
      RelaxedNothingBlocks(t, r.table, o, test);
    }
    assert Names(r.table.columns) == Names(t.columns);
  }

  /** A column outside the key refuses NULL after relaxing exactly when it did and has a default or is declared. */
  predicate RelaxedAs(t: Table, u: Table, o: Object, test: bool, i: nat)
    requires i < |t.columns| == |u.columns|
  {
    var c := t.columns[i];
    && u.columns[i] == c.(notNull := u.columns[i].notNull)
    && (c.name in t.key ==> c.notNull ==> u.columns[i].notNull)
    && (c.name !in t.key ==>
      (u.columns[i].notNull <==>
        c.notNull && (c.default.Some? || (test && c.name == RUN_ID) || exists f :: f in o.fields && f.name == c.name)))
  }

  /** Relaxing lets go of the orphans' NOT NULL and changes no other column. */
  lemma RelaxesOrphansOnly(t: Table, o: Object, d: Dialect, test: bool, taken: bool, i: nat)
    requires Distinct(Names(t.columns)) && Relax(t, o, d, test, taken).ok && i < |t.columns|
    ensures |Relax(t, o, d, test, taken).table.columns| == |t.columns|
    ensures RelaxedAs(t, Relax(t, o, d, test, taken).table, o, test, i)
  {
    hide Orphans, ExecAll, Admits, NotNulls, HasColumn, Drops;
    var orphans, c := Orphans(t, t.columns, o, test), t.columns[i];
    OrphansDroppable(t, o, test);
    DropAll(t, orphans);
    NoOrphans(t, o, test);
    assert c.name in orphans <==> Blocks(t, c) && !Declares(o, test, c.name) by {
      OrphansAre(t, t.columns, o, test, c.name);
      forall b | b in t.columns && b.name == c.name ensures b == c {
        var j :| 0 <= j < |t.columns| && t.columns[j] == b;
        assert Names(t.columns)[j] == Names(t.columns)[i];
      }
    }
  }

  /** Postgres never refuses to relax; SQLite does when the copy cannot be made. */
  lemma RelaxSucceeds(t: Table, o: Object, d: Dialect, test: bool, taken: bool)
    requires Sound(t)
    ensures Relax(t, o, d, test, taken).ok <==>
      d.Postgres? || NothingBlocks(t, o, test) || (!taken && forall row :: row in t.rows ==> Null !in Picked(row, t.key))
  {
    hide Orphans, NothingBlocks, ExecAll, HasColumn, Drops, Sound, Picked, Copied;
    var orphans := Orphans(t, t.columns, o, test);
    NoOrphans(t, o, test);
    OrphansDroppable(t, o, test);
    DropAll(t, orphans);
    CopyRefusedOnlyForNullKeys(t, orphans);
  }

  /**
    The rebuild that SQLite needs and the statement that Postgres has end in the
    same table: columns, key, constraints, indexes and rows. All it takes is that
    the key columns refuse NULL, as in every table created here.
   */
  lemma RebuildIsRelax(t: Table, o: Object, test: bool)
    requires Sound(t)
    requires forall c :: c in t.columns && c.name in t.key ==> c.notNull
    ensures Relax(t, o, Sqlite, test, false) == Relax(t, o, Postgres, test, false)
    ensures Relax(t, o, Sqlite, test, false).ok
  {
    hide Orphans, ExecAll, Drops, Admits, HasColumns, Distinct, IndexColumns;
    var orphans := Orphans(t, t.columns, o, test);
    OrphansDroppable(t, o, test);
    DropAll(t, orphans);
    forall row | row in t.rows ensures Null !in Picked(row, t.key) {
      KeyGiven(t, row);
    }
    CopyRefusedOnlyForNullKeys(t, orphans);
    forall i | 0 <= i < |t.columns| ensures CopiedColumns(t, orphans)[i] == Relaxed(t.columns, orphans)[i] {
      assert t.columns[i] in t.columns;
    }
    assert CopiedColumns(t, orphans) == Relaxed(t.columns, orphans);
  }

  lemma KeyGiven(t: Table, row: Row)
    requires HasColumns(t, t.key) && NotNulls(t.columns, row)
    requires forall c :: c in t.columns && c.name in t.key ==> c.notNull
    ensures Null !in Picked(row, t.key)
  {
    forall k | 0 <= k < |t.key| ensures Get(row, t.key[k]) != Null {
      assert HasColumn(t, t.key[k]);
      var i :| 0 <= i < |t.columns| && Names(t.columns)[i] == t.key[k];
      assert t.columns[i] in t.columns;
    }
  }

  /** Every declared field that is not a key column has its column. */
  predicate Stores(t: Table, fields: seq<Field>) {
    forall f :: f in fields && !f.primary ==> HasColumn(t, f.name)
  }

  lemma {:induction false} AdditionsComplete(t: Table, table: string, fields: seq<Field>, held: seq<string>, d: Dialect, test: bool)
    requires held == Names(t.columns)
    requires Additions(table, fields, held, d, test).Some?
    requires ExecAll(t, Additions(table, fields, held, d, test).value).Some?
    requires Sound(t)
    ensures Stores(ExecAll(t, Additions(table, fields, held, d, test).value).value, fields)
  {
    hide Sound, HasColumn, Exec, ExecAll, Grown, FieldStatements, Names;
    if fields != [] {
      var k := |fields| - 1;
      var before := Additions(table, fields[..k], held, d, test).value;
      var sts := Additions(table, fields, held, d, test).value;
      assert fields == fields[..k] + [fields[k]];
      AdditionsStep(t, before, table, fields[k], d, test);
      AdditionsComplete(t, table, fields[..k], held, d, test);
      StoresGrow(ExecAll(t, before).value, ExecAll(t, sts).value, fields[..k]);
    }
  }

  lemma StoresGrow(t: Table, u: Table, fields: seq<Field>)
    requires Grown(t, u) && Stores(t, fields)
    ensures Stores(u, fields)
  {
    hide HasColumn, Grown;
    forall f | f in fields && !f.primary ensures HasColumn(u, f.name) {
      GrownKeepsColumns(t, u, f.name);
    }
  }

  lemma SoundIsWellFormed(t: Table)
    ensures Sound(t) ==> WellFormed(t)
  {
  }

  lemma AdditionsStep(t: Table, before: seq<Statement>, table: string, f: Field, d: Dialect, test: bool)
    requires Sound(t) && FieldStatements(table, f, Names(t.columns), d, test).Some?
    requires ExecAll(t, before + FieldStatements(table, f, Names(t.columns), d, test).value).Some?
    ensures ExecAll(t, before).Some?
    ensures var u, v := ExecAll(t, before).value, ExecAll(t, before + FieldStatements(table, f, Names(t.columns), d, test).value).value;
      Grown(u, v) && (f.primary || HasColumn(v, f.name))
  {
    hide Sound, ExecAll, Grown, AddedColumn, Names;
    var more := FieldStatements(table, f, Names(t.columns), d, test).value;
    if more == [] {
      assert before + more == before;
      ExecAllGrows(t, before);
      GrownItself(ExecAll(t, before).value);
      if !f.primary { GrownKeepsColumns(t, ExecAll(t, before).value, f.name); }
    } else if |more| == 1 {
      ColumnStands(t, before, f, d);
    } else {
      assert before + more == before + [more[0]] + [more[1]];
      ExecAppended(t, before + [more[0]], more[1]);
      ColumnStands(t, before, f, d);
      var v := ExecAll(t, before + [more[0]]).value;
      ExecGrows(v, more[1]);
      var w := Exec(v, more[1]).value;
      SoundIsWellFormed(v);
      GrownTwice(ExecAll(t, before).value, v, w);
      GrownKeepsColumns(v, w, f.name);
    }
  }

  lemma ExecAppended(t: Table, sts: seq<Statement>, st: Statement)
    ensures ExecAll(t, sts + [st]) == if ExecAll(t, sts).Some? then Exec(ExecAll(t, sts).value, st) else None
  {
    assert (sts + [st])[..|sts|] == sts;
  }

  lemma ColumnStands(t: Table, before: seq<Statement>, f: Field, d: Dialect)
    requires Sound(t) && ExecAll(t, before + [AddColumn(AddedColumn(f, d))]).Some?
    ensures ExecAll(t, before).Some?
    ensures var u, v := ExecAll(t, before), ExecAll(t, before + [AddColumn(AddedColumn(f, d))]).value;
      Sound(v) && Grown(u.value, v) && HasColumn(v, f.name)
  {
    hide Sound, ExecAll, Grown;
    var add := AddColumn(AddedColumn(f, d));
    ExecAppended(t, before, add);
    ExecAllGrows(t, before);
    var u := ExecAll(t, before).value;
    ExecGrows(u, add);
    NamesAppended(u.columns, AddedColumn(f, d));
    assert Names(Exec(u, add).value.columns)[|u.columns|] == f.name;
  }

  lemma {:induction false} EachIndexes(t: Table, sts: seq<Statement>)
    requires forall st :: st in sts ==> st.CreateIndex?
    ensures Each(t, sts).table.columns == t.columns && Each(t, sts).table.key == t.key
    ensures forall n :: n in t.indexes ==> n in Each(t, sts).table.indexes
    ensures Each(t, sts).ok ==> forall st :: st in sts ==> st.name in Each(t, sts).table.indexes
  {
    hide Exec;
    if sts != [] {
      assert sts == sts[..|sts| - 1] + [sts[|sts| - 1]];
      EachIndexes(t, sts[..|sts| - 1]);
      ExecIndex(Each(t, sts[..|sts| - 1]).table, sts[|sts| - 1]);
    }
  }

  lemma ExecIndex(t: Table, st: Statement)
    requires st.CreateIndex?
    ensures Exec(t, st).Some? ==>
      var u := Exec(t, st).value;
      && u.columns == t.columns && u.key == t.key && st.name in u.indexes
      && forall n :: n in t.indexes ==> n in u.indexes
  {
    hide NoClash, HasColumns;
  }

  /** Indexes that are there are left alone. */
  lemma {:induction false} EachSettled(t: Table, sts: seq<Statement>)
    requires forall st :: st in sts ==> st.CreateIndex? && st.name in t.indexes
    ensures Each(t, sts) == Step(t, true)
  {
    if sts != [] {
      assert sts[|sts| - 1] in sts;
      EachSettled(t, sts[..|sts| - 1]);
    }
  }

  /** The state a finished migration of an object leaves its table in. */
  ghost predicate Settled(t: Table, o: Object, d: Dialect, test: bool) {
    && Stores(t, o.fields) && NothingBlocks(t, o, test)
    && forall st :: st in IndexStatements(o, d, test) ==> st.CreateIndex? && st.name in t.indexes
  }

  lemma StoresNames(t: Table, u: Table, fields: seq<Field>)
    requires Stores(t, fields) && Names(u.columns) == Names(t.columns)
    ensures Stores(u, fields)
  {
  }

  lemma EvolvedSettles(t: Table, o: Object, d: Dialect, test: bool, taken: bool)
    requires Sound(t) && Evolved(t, o, d, test, taken).ok
    ensures var r := Evolved(t, o, d, test, taken).table; Stores(r, o.fields) && NothingBlocks(r, o, test)
  {
    hide Sound, Stores, NothingBlocks, Additions, ExecAll, Relax, Names;
    var sts := Additions(Physical(o, test), o.fields, Names(t.columns), d, test).value;
    AdditionsComplete(t, Physical(o, test), o.fields, Names(t.columns), d, test);
    var u := ExecAll(t, sts).value;
    RelaxUnblocks(u, o, d, test, taken);
    StoresNames(u, Relax(u, o, d, test, taken).table, o.fields);
  }

  lemma IndexStatementsCreate(o: Object, d: Dialect, test: bool)
    ensures forall st :: st in IndexStatements(o, d, test) ==> st.CreateIndex?
  {
  }

  /** A migration that goes through stores every declared field, unblocks every orphan and has every index. */
  lemma MigratedSettles(held: Option<Table>, o: Object, d: Dialect, test: bool, taken: bool)
    requires held.Some? ==> Sound(held.value)
    requires Migrated(held, o, d, test, taken).1
    ensures Settled(Migrated(held, o, d, test, taken).0.value, o, d, test)
  {
    hide Sound, Stores, Evolved, Each, Created, Declares, IndexStatements;
    if held.None? { CreatedIsSound(o, d, test); }
    var t := if held.Some? then held.value else Created(o, d, test).value;
    EvolvedSettles(t, o, d, test, taken);
    var e := Evolved(t, o, d, test, taken).table;
    IndexStatementsCreate(o, d, test);
    EachIndexes(e, IndexStatements(o, d, test));
    StoresNames(e, Each(e, IndexStatements(o, d, test)).table, o.fields);
  }

  lemma {:induction false} NothingToAdd(t: Table, table: string, fields: seq<Field>, d: Dialect, test: bool)
    requires Stores(t, fields)
    ensures Additions(table, fields, Names(t.columns), d, test) == Some([])
  {
    if fields != [] {
      var f := fields[|fields| - 1];
      assert f in fields;
      NothingToAdd(t, table, fields[..|fields| - 1], d, test);
      var more: seq<Statement> := [];
      assert FieldStatements(table, f, Names(t.columns), d, test) == Some(more) && more + more == more;
    }
  }

  /** A settled table is migrated to itself, even one that lacks a key column. */
  lemma SettledStays(t: Table, o: Object, d: Dialect, test: bool, taken: bool)
    requires Settled(t, o, d, test)
    ensures Migrated(Some(t), o, d, test, taken) == (Some(t), true)
  {
    hide Stores, NothingBlocks, Additions, Each, Orphans, IndexStatements, Copied;
    NothingToAdd(t, Physical(o, test), o.fields, d, test);
    NoOrphans(t, o, test);
    EachSettled(t, IndexStatements(o, d, test));
  }

  ghost function ColumnNamed(t: Table, n: string): (c: Column)
    requires HasColumn(t, n)
    ensures c in t.columns && c.name == n
  {
    var i :| 0 <= i < |t.columns| && Names(t.columns)[i] == n;
    t.columns[i]
  }

  /** A row as stored: what the write names, and the defaults. */
  ghost function Stored(t: Table, given: Row): (row: Row) {
    map n | n in Names(t.columns) :: if n in given then given[n] else DefaultOf(ColumnNamed(t, n))
  }

  /**
    After a finished migration a write that names the declared fields and the key
    columns is refused for a NULL only if it gives one itself to a column that takes
    none, whatever columns earlier shapes left behind.
   */
  lemma WriteNotRefused(t: Table, o: Object, d: Dialect, test: bool, given: Row)
    requires WellFormed(t) && Settled(t, o, d, test)
    requires forall c :: c in t.columns ==> c.default != Some(Null)
    requires forall n :: Declares(o, test, n) || n in t.key ==> n in given
    ensures NotNulls(t.columns, Stored(t, given)) <==>
      forall c :: c in t.columns && c.notNull && c.name in given ==> given[c.name] != Null
  {
    hide Stores, Declares, IndexStatements, Stored, WellFormed, Get;
    forall c | c in t.columns && c.notNull
      ensures Get(Stored(t, given), c.name) != Null <==> (c.name in given ==> given[c.name] != Null)
    {
      StoredGet(t, given, c);
    }
  }

  lemma StoredGet(t: Table, given: Row, c: Column)
    requires WellFormed(t) && c in t.columns
    ensures Get(Stored(t, given), c.name) == if c.name in given then given[c.name] else DefaultOf(c)
  {
    hide HasColumns, Admits;
    var i :| 0 <= i < |t.columns| && t.columns[i] == c;
    assert Names(t.columns)[i] == c.name;
    var b := ColumnNamed(t, c.name);
    var j :| 0 <= j < |t.columns| && t.columns[j] == b;
    assert Names(t.columns)[j] == c.name;
  }

  // --------------------------------------------- when a field can be added

  /** A field's column is never refused for the rows that are there, whatever they are. */
  lemma AddedColumnFits(t: Table, f: Field, d: Dialect)
    requires f.default != Some(Null) && !f.primary && !HasColumn(t, f.name)
    ensures Exec(t, AddColumn(AddedColumn(f, d))).Some? && AddedColumn(f, d).name == f.name
  {
    hide HasColumn;
  }

  /** Two rows take part in one run; a live table is a single run. */
  predicate SameRun(a: Row, b: Row, test: bool) {
    test ==> Get(a, RUN_ID) == Get(b, RUN_ID) && Get(a, RUN_ID) != Null
  }

  /**
    A unique field goes into a held table exactly when its column starts out NULL
    or no run has two rows there: with two rows and a default the statements are
    refused, and the migration with them.
   */
  lemma UniqueFieldFits(t: Table, table: string, f: Field, d: Dialect, test: bool)
    requires Sound(t) && f.default != Some(Null) && f.unique && !f.primary && !HasColumn(t, f.name)
    requires f.name != RUN_ID && (test ==> HasColumn(t, RUN_ID))
    requires |UniqueName(table, f.name)| <= MAX_IDENTIFIER && UniqueName(table, f.name) !in t.indexes
    ensures ExecAll(t, FieldStatements(table, f, Names(t.columns), d, test).value).Some?
      <==> DefaultOf(AddedColumn(f, d)) == Null || forall i, j :: 0 <= i < j < |t.rows| ==> !SameRun(t.rows[i], t.rows[j], test)
  {
    hide Sound, WellFormed, AddedColumn, UniqueName, Names, NoClash;
    var c := AddedColumn(f, d);
    var ix := UniqueIndex(f.name, test);
    AddedColumnFits(t, f, d);
    var u := Exec(t, AddColumn(c)).value;
    var create := CreateIndex(UniqueName(table, f.name), ix);
    ExecTwo(t, AddColumn(c), create);
    NamesAppended(t.columns, c);
    assert IndexColumns(ix) == RunKey(test) + [f.name];
    DefaultClashes(t, c, test);
  }

  lemma ExecTwo(t: Table, a: Statement, b: Statement)
    ensures ExecAll(t, [a, b]) == match Exec(t, a) case None => None case Some(u) => Exec(u, b)
  {
    assert [a, b] == [a] + [b] && [a] == [] + [a];
    ExecAppended(t, [a], b);
    ExecAppended(t, [], a);
  }

  lemma DefaultClashes(t: Table, c: Column, test: bool)
    requires c.name != RUN_ID
    ensures NoClash(UniqueIndex(c.name, test), Extended(t.rows, c))
      <==> DefaultOf(c) == Null || forall i, j :: 0 <= i < j < |t.rows| ==> !SameRun(t.rows[i], t.rows[j], test)
  {
    var ix := UniqueIndex(c.name, test);
    var rows := Extended(t.rows, c);
    forall i, j | 0 <= i < |rows| && 0 <= j < |rows|
      ensures Clash(ix, rows[i], rows[j]) <==> DefaultOf(c) != Null && SameRun(t.rows[i], t.rows[j], test)
    {
      RunKeys(t.rows[i], c, test);
      RunKeys(t.rows[j], c, test);
      KeysAgree(Get(t.rows[i], RUN_ID), Get(t.rows[j], RUN_ID), DefaultOf(c));
    }
  }

  lemma KeysAgree(a: Value, b: Value, v: Value)
    ensures [a] + [v] == [b] + [v] && Null !in [a] + [v] <==> a == b && a != Null && v != Null
    ensures Null !in [] + [v] <==> v != Null
  {
    assert ([a] + [v])[0] == a && ([b] + [v])[0] == b && ([a] + [v])[1] == v;
    assert ([] + [v])[0] == v;
  }

  lemma RunKeys(row: Row, c: Column, test: bool)
    requires c.name != RUN_ID
    ensures IndexKey(UniqueIndex(c.name, test), row[c.name := DefaultOf(c)])
      == (if test then [Get(row, RUN_ID)] else []) + [DefaultOf(c)]
  {
  }
}
