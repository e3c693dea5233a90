/**
  Database tables as state: columns, key, constraints, indexes and rows, and the
  statements a migration runs on them. A statement either changes one table or
  fails; a list of statements in a transaction fails as a whole.
 */
module Tables {
  import opened Options
  import opened Sorting

  datatype Value = Null | Text(text: string) | Number(n: int) | Truth(b: bool)

  type Row = map<string, Value>

  datatype Column = Column(name: string, ctype: string, notNull: bool, default: Option<Value>)

  /** A path into a document column, as the function that reads it. */
  datatype PathRef = PathRef(field: string, read: Value -> Value)

  datatype Op = NotEmpty | IsTrue | IsFalse

  datatype Condition = Condition(field: string, op: Op)

  /** The columns (and the path after them) that an index is on, and the rows it covers. */
  datatype Index = Index(fields: seq<string>, path: Option<PathRef>, unique: bool, conditions: seq<Condition>)

  datatype Table = Table(
    columns: seq<Column>,
    key: seq<string>,
    uniques: seq<seq<string>>,
    indexes: map<string, Index>,
    rows: seq<Row>)

  // ------------------------------------------------------------- columns

  function Names(cs: seq<Column>): (r: seq<string>)
    ensures |r| == |cs| && forall i :: 0 <= i < |cs| ==> r[i] == cs[i].name
  {
    seq(|cs|, i requires 0 <= i < |cs| => cs[i].name)
  }

  predicate HasColumn(t: Table, name: string) {
    name in Names(t.columns)
  }

  predicate HasColumns(t: Table, names: seq<string>) {
    forall n :: n in names ==> HasColumn(t, n)
  }

  function DefaultOf(c: Column): Value {
    match c.default case Some(v) => v case None => Null
  }

  // --------------------------------------------------------- constraints

  function Get(row: Row, column: string): Value {
    if column in row then row[column] else Null
  }

  function Picked(row: Row, columns: seq<string>): (vs: seq<Value>)
    ensures |vs| == |columns| && forall i :: 0 <= i < |columns| ==> vs[i] == Get(row, columns[i])
  {
    seq(|columns|, i requires 0 <= i < |columns| => Get(row, columns[i]))
  }

  predicate Holds(c: Condition, row: Row) {
    match c.op
    case NotEmpty => Get(row, c.field) != Null && Get(row, c.field) != Text("")
    case IsTrue => Get(row, c.field) == Truth(true)
    case IsFalse => Get(row, c.field) == Truth(false)
  }

  predicate Covers(ix: Index, row: Row) {
    forall c :: c in ix.conditions ==> Holds(c, row)
  }

  /** What a unique index compares of a row. */
  function IndexKey(ix: Index, row: Row): seq<Value> {
    Picked(row, ix.fields) + match ix.path case None => [] case Some(p) => [p.read(Get(row, p.field))]
  }

  /** Two covered rows clash when their keys agree and hold no NULL, which equals nothing. */
  predicate Clash(ix: Index, a: Row, b: Row) {
    Covers(ix, a) && Covers(ix, b) && IndexKey(ix, a) == IndexKey(ix, b) && Null !in IndexKey(ix, a)
  }

  predicate NoClash(ix: Index, rows: seq<Row>) {
    forall i, j :: 0 <= i < j < |rows| ==> !Clash(ix, rows[i], rows[j])
  }

  /** A primary key or a unique constraint on these columns compares as this index does. */
  function Over(columns: seq<string>): Index {
    Index(columns, None, true, [])
  }

  predicate NotNulls(columns: seq<Column>, row: Row) {
    forall c :: c in columns ==> c.notNull ==> Get(row, c.name) != Null
  }

  /** The rows meet the table's key, its unique constraints and its unique indexes. */
  predicate Admits(t: Table, rows: seq<Row>) {
    && NoClash(Over(t.key), rows)
    && (forall u :: u in t.uniques ==> NoClash(Over(u), rows))
    && (forall n :: n in t.indexes ==> t.indexes[n].unique ==> NoClash(t.indexes[n], rows))
  }

  function IndexColumns(ix: Index): seq<string> {
    ix.fields + (match ix.path case None => [] case Some(p) => [p.field])
    + seq(|ix.conditions|, i requires 0 <= i < |ix.conditions| => ix.conditions[i].field)
  }

  predicate WellFormed(t: Table) {
    && Distinct(Names(t.columns))
    && Distinct(t.key) && HasColumns(t, t.key)
    && (forall u :: u in t.uniques ==> HasColumns(t, u))
    && (forall n :: n in t.indexes ==> HasColumns(t, IndexColumns(t.indexes[n])))
    && (forall row :: row in t.rows ==> row.Keys == set n | n in Names(t.columns))
  }

  /** What a database keeps of a table at all times: its shape, and every constraint it declares. */
  predicate Sound(t: Table) {
    WellFormed(t) && Admits(t, t.rows) && forall row :: row in t.rows ==> NotNulls(t.columns, row)
  }

  // ---------------------------------------------------------- statements

  datatype Statement = AddColumn(column: Column) | CreateIndex(name: string, index: Index) | DropNotNull(name: string)

  function Extended(rows: seq<Row>, c: Column): (r: seq<Row>)
    ensures |r| == |rows| && forall i :: 0 <= i < |rows| ==> r[i] == rows[i][c.name := DefaultOf(c)]
  {
    seq(|rows|, i requires 0 <= i < |rows| => rows[i][c.name := DefaultOf(c)])
  }

  function Relaxed(cs: seq<Column>, names: seq<string>): (r: seq<Column>)
    ensures |r| == |cs|
    ensures forall i :: 0 <= i < |cs| ==> r[i] == if cs[i].name in names then cs[i].(notNull := false) else cs[i]
  {
    seq(|cs|, i requires 0 <= i < |cs| => if cs[i].name in names then cs[i].(notNull := false) else cs[i])
  }

  /** One statement on one table; None is the database's refusal. */
  function Exec(t: Table, st: Statement): Option<Table> {
    match st
    case AddColumn(c) =>
      if HasColumn(t, c.name) || (c.notNull && DefaultOf(c) == Null) then None
      else Some(t.(columns := t.columns + [c], rows := Extended(t.rows, c)))
    case CreateIndex(name, ix) =>
      if name in t.indexes then Some(t)
      else if !HasColumns(t, IndexColumns(ix)) || (ix.unique && !NoClash(ix, t.rows)) then None
      else Some(t.(indexes := t.indexes[name := ix]))
    case DropNotNull(name) =>
      if !HasColumn(t, name) || name in t.key then None else Some(t.(columns := Relaxed(t.columns, [name])))
  }

  /** A transaction: all the statements, or none. */
  function ExecAll(t: Table, sts: seq<Statement>): Option<Table> {
    if sts == [] then Some(t)
    else match ExecAll(t, sts[..|sts| - 1])
      case None => None
      case Some(u) => Exec(u, sts[|sts| - 1])
  }

  // ------------------------------------------------------- only growing

  /**
    u is t after changes that lose nothing: the same columns in the same places,
    except that a column may have stopped refusing NULL; the same key and unique
    constraints; every index; every row with its values, and in the columns
    added since, their defaults.
   */
  ghost predicate Grown(t: Table, u: Table) {
    && |t.columns| <= |u.columns|
    && (forall i :: 0 <= i < |t.columns| ==> SameColumn(t, t.columns[i], u.columns[i]))
    && u.key == t.key && u.uniques == t.uniques
    && (forall n :: n in t.indexes ==> n in u.indexes && u.indexes[n] == t.indexes[n])
    && |u.rows| == |t.rows|
    && (forall i :: 0 <= i < |t.rows| ==> GrownRow(t, u, t.rows[i], u.rows[i]))
  }

  predicate SameColumn(t: Table, c: Column, d: Column) {
    d.name == c.name && d.ctype == c.ctype && d.default == c.default && (d.notNull ==> c.notNull || c.name in t.key)
  }

  predicate GrownRow(t: Table, u: Table, row: Row, grown: Row)
    requires |t.columns| <= |u.columns|
  {
    && (forall n :: n in row ==> n in grown && grown[n] == row[n])
    && (forall j :: |t.columns| <= j < |u.columns| ==> Get(grown, u.columns[j].name) == DefaultOf(u.columns[j]))
  }

  lemma GrownItself(t: Table)
    ensures Grown(t, t)
  {
  }

  lemma GrownTwice(t: Table, u: Table, v: Table)
    requires WellFormed(u) && Grown(t, u) && Grown(u, v)
    ensures Grown(t, v)
  {
    hide Get, Distinct;
    forall i | 0 <= i < |t.rows| ensures GrownRow(t, v, t.rows[i], v.rows[i]) {
      GrownRowTwice(t, u, v, i);
    }
  }

  lemma GrownRowTwice(t: Table, u: Table, v: Table, i: int)
    requires WellFormed(u) && Grown(t, u) && Grown(u, v) && 0 <= i < |t.rows|
    ensures GrownRow(t, v, t.rows[i], v.rows[i])
  {
    hide Distinct, HasColumns, Admits;
    assert GrownRow(t, u, t.rows[i], u.rows[i]) && GrownRow(u, v, u.rows[i], v.rows[i]);
    forall j | |t.columns| <= j < |v.columns| ensures Get(v.rows[i], v.columns[j].name) == DefaultOf(v.columns[j]) {
      if j < |u.columns| {
        assert SameColumn(u, u.columns[j], v.columns[j]);
        assert u.rows[i] in u.rows && Names(u.columns)[j] in Names(u.columns);
      }
    }
  }

  lemma GrownKeepsColumns(t: Table, u: Table, n: string)
    requires Grown(t, u) && HasColumn(t, n)
    ensures HasColumn(u, n)
  {
    var i :| 0 <= i < |t.columns| && Names(t.columns)[i] == n;
    assert SameColumn(t, t.columns[i], u.columns[i]);
    assert Names(u.columns)[i] == n;
  }

  // ------------------------------------- a statement keeps a table sound

  lemma NamesAppended(cs: seq<Column>, c: Column)
    ensures Names(cs + [c]) == Names(cs) + [c.name]
  {
  }

  lemma IndexKeyReads(ix: Index, a: Row, b: Row)
    requires forall n :: n in IndexColumns(ix) ==> Get(a, n) == Get(b, n)
    ensures IndexKey(ix, a) == IndexKey(ix, b) && Covers(ix, a) == Covers(ix, b)
  {
    var cs := IndexColumns(ix);
    forall i | 0 <= i < |ix.fields| ensures Get(a, ix.fields[i]) == Get(b, ix.fields[i]) {
      assert cs[i] == ix.fields[i];
    }
    assert Picked(a, ix.fields) == Picked(b, ix.fields);
    if ix.path.Some? {
      assert cs[|ix.fields|] == ix.path.value.field;
    }
    var k := |ix.fields| + if ix.path.Some? then 1 else 0;
    forall c | c in ix.conditions ensures Holds(c, a) == Holds(c, b) {
      var i :| 0 <= i < |ix.conditions| && ix.conditions[i] == c;
      assert cs[k + i] == c.field;
    }
  }

  lemma OverColumns(columns: seq<string>)
    ensures IndexColumns(Over(columns)) == columns
  {
  }

  /** Rows that differ only in other columns meet a constraint alike. */
  lemma NoClashReads(ix: Index, rows: seq<Row>, others: seq<Row>)
    requires |rows| == |others|
    requires forall i, n :: 0 <= i < |rows| && n in IndexColumns(ix) ==> Get(rows[i], n) == Get(others[i], n)
    ensures NoClash(ix, rows) ==> NoClash(ix, others)
  {
    hide IndexColumns, IndexKey, Covers, Get;
    forall i | 0 <= i < |rows|
      ensures IndexKey(ix, rows[i]) == IndexKey(ix, others[i]) && Covers(ix, rows[i]) == Covers(ix, others[i])
    {
      IndexKeyReads(ix, rows[i], others[i]);
    }
  }

  lemma ColumnAdded(t: Table, c: Column) returns (u: Table)
    requires WellFormed(t) && !HasColumn(t, c.name)
    ensures u == t.(columns := t.columns + [c], rows := Extended(t.rows, c))
    ensures WellFormed(u) && Grown(t, u) && (Admits(t, t.rows) ==> Admits(u, u.rows))
  {
    hide Admits, IndexColumns;
    u := t.(columns := t.columns + [c], rows := Extended(t.rows, c));
    NamesAppended(t.columns, c);
    forall i | 0 <= i < |t.rows| ensures GrownRow(t, u, t.rows[i], u.rows[i]) {
      assert t.rows[i] in t.rows;
    }
    ColumnAddedAdmits(t, c, u);
  }

  lemma ColumnAddedAdmits(t: Table, c: Column, u: Table)
    requires WellFormed(t) && !HasColumn(t, c.name)
    requires u == t.(columns := t.columns + [c], rows := Extended(t.rows, c))
    ensures Admits(t, t.rows) ==> Admits(u, u.rows)
  {
    hide NoClash, IndexColumns, HasColumn, Distinct;
    OtherColumnsKept(t, c, Over(t.key)); OverColumns(t.key);
    forall q | q in t.uniques ensures NoClash(Over(q), t.rows) ==> NoClash(Over(q), u.rows) {
      OverColumns(q);
      OtherColumnsKept(t, c, Over(q));
    }
    forall n | n in t.indexes ensures NoClash(t.indexes[n], t.rows) ==> NoClash(t.indexes[n], u.rows) {
      OtherColumnsKept(t, c, t.indexes[n]);
    }
  }

  lemma OtherColumnsKept(t: Table, c: Column, ix: Index)
    requires !HasColumn(t, c.name)
    ensures HasColumns(t, IndexColumns(ix)) && NoClash(ix, t.rows) ==> NoClash(ix, Extended(t.rows, c))
  {
    hide NoClash, IndexColumns, HasColumn;
    if HasColumns(t, IndexColumns(ix)) {
      NoClashReads(ix, t.rows, Extended(t.rows, c));
    }
  }

  /** A statement that is not refused loses nothing and leaves every constraint met. */
  lemma ExecGrows(t: Table, st: Statement)
    requires Sound(t) && Exec(t, st).Some?
    ensures Sound(Exec(t, st).value) && Grown(t, Exec(t, st).value)
  {
    hide NoClash, IndexColumns;
    match st
    case AddColumn(c) =>
      var u := ColumnAdded(t, c);
      forall row | row in u.rows ensures NotNulls(u.columns, row) {
        AddedNotNull(t, c, row);
      }
    case CreateIndex(_, _) =>
    case DropNotNull(name) =>
      assert Names(Relaxed(t.columns, [name])) == Names(t.columns);
  }

  lemma AddedNotNull(t: Table, c: Column, row: Row)
    requires !HasColumn(t, c.name) && !(c.notNull && DefaultOf(c) == Null)
    requires forall r :: r in t.rows ==> NotNulls(t.columns, r)
    requires row in Extended(t.rows, c)
    ensures NotNulls(t.columns + [c], row)
  {
    var i :| 0 <= i < |t.rows| && row == t.rows[i][c.name := DefaultOf(c)];
    assert NotNulls(t.columns, t.rows[i]);
    forall d | d in t.columns ensures d.name != c.name {
      var j :| 0 <= j < |t.columns| && t.columns[j] == d;
      assert Names(t.columns)[j] == d.name;
    }
  }

  lemma {:induction false} ExecAllGrows(t: Table, sts: seq<Statement>)
    requires Sound(t) && ExecAll(t, sts).Some?
    ensures Sound(ExecAll(t, sts).value) && Grown(t, ExecAll(t, sts).value)
  {
    hide Grown, WellFormed, Exec, Admits, NotNulls;
    if sts == [] {
      GrownItself(t);
    } else {
      ExecAllGrows(t, sts[..|sts| - 1]);
      var u := ExecAll(t, sts[..|sts| - 1]).value;
      ExecGrows(u, sts[|sts| - 1]);
      GrownTwice(t, u, Exec(u, sts[|sts| - 1]).value);
    }
  }

  // ----------------------------------- the SQLite copy that drops NOT NULL

  /** The columns the copy is declared with: a key column refuses NULL whatever it did before. */
  function CopiedColumns(t: Table, relax: seq<string>): (r: seq<Column>)
    ensures |r| == |t.columns|
    ensures forall i :: 0 <= i < |r| ==>
      r[i] == t.columns[i].(notNull := (t.columns[i].notNull && t.columns[i].name !in relax) || t.columns[i].name in t.key)
  {
    seq(|t.columns|, i requires 0 <= i < |t.columns| =>
      t.columns[i].(notNull := (t.columns[i].notNull && t.columns[i].name !in relax) || t.columns[i].name in t.key))
  }

  /** The table copied row by row into one declared anew; None when the copy refuses a row. */
  function Copied(t: Table, relax: seq<string>): Option<Table> {
    var u := t.(columns := CopiedColumns(t, relax));
    if Admits(u, u.rows) && forall row :: row in u.rows ==> NotNulls(u.columns, row) then Some(u) else None
  }

  lemma CopiedGrows(t: Table, relax: seq<string>)
    requires WellFormed(t) && Copied(t, relax).Some?
    ensures Sound(Copied(t, relax).value) && Grown(t, Copied(t, relax).value)
  {
    hide Admits, IndexColumns, NotNulls;
    assert Names(CopiedColumns(t, relax)) == Names(t.columns);
  }

  /** The copy refuses a table exactly when a row holds a NULL in its key, which SQLite alone permits. */
  lemma CopyRefusedOnlyForNullKeys(t: Table, relax: seq<string>)
    requires Sound(t)
    ensures Copied(t, relax).Some? <==> forall row :: row in t.rows ==> Null !in Picked(row, t.key)
  {
    hide NoClash, IndexColumns, Distinct;
    var u := t.(columns := CopiedColumns(t, relax));
    forall row | row in t.rows ensures NotNulls(u.columns, row) <==> Null !in Picked(row, t.key) {
      KeysNotNull(t, relax, row);
    }
  }

  lemma KeysNotNull(t: Table, relax: seq<string>, row: Row)
    requires HasColumns(t, t.key) && NotNulls(t.columns, row)
    ensures NotNulls(CopiedColumns(t, relax), row) <==> Null !in Picked(row, t.key)
  {
    var cs := CopiedColumns(t, relax);
    if NotNulls(cs, row) {
      forall k | 0 <= k < |t.key| ensures Get(row, t.key[k]) != Null {
        assert HasColumn(t, t.key[k]);
        var i :| 0 <= i < |t.columns| && Names(t.columns)[i] == t.key[k];
        assert cs[i] in cs;
      }
    }
    if Null !in Picked(row, t.key) {
      forall c | c in cs ensures c.notNull ==> Get(row, c.name) != Null {
        var i :| 0 <= i < |cs| && cs[i] == c;
        assert t.columns[i] in t.columns;
        if c.name in t.key {
          var k :| 0 <= k < |t.key| && t.key[k] == c.name;
          assert Picked(row, t.key)[k] == Get(row, c.name);
        }
      }
    }
  }
}
