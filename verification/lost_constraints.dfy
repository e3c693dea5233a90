/**
  When the copy that test runs share loses a constraint. The names of the indexes
  on unique fields are not measured, so two of them can be cut to one name, or one
  to the name of a declared index, and of two indexes under one name only the
  first is made. Whether that lets a run through depends on what is left.
 */
module LostConstraints {
  import opened Sorting
  import opened Tables
  import opened Migrations
  import opened TestCopies

  // ------------------------------------------------ what the copy is left

  /** The copy has the constraint in this place: its key, or the first index made under its name. */
  predicate Stays(o: Object, d: Dialect, i: nat)
    requires i < |Constraints(o)|
  {
    i == 0 || First(NameList(o, d, true), i - 1)
  }

  ghost predicate CopyMeets(o: Object, d: Dialect, rows: seq<Row>) {
    forall i :: 0 <= i < |Constraints(o)| ==>
      Constraints(o)[i].unique && Stays(o, d, i) ==> NoClash(PerRun(Constraints(o)[i]), rows)
  }

  lemma CopyAdmits(o: Object, d: Dialect, rows: seq<Row>)
    requires Validated(o) && Fresh(o, d, true).Some?
    ensures Admits(Fresh(o, d, true).value, rows) <==> CopyMeets(o, d, rows)
  {
    hide Validated, HoldsFirst, IndexList, NameList, Fresh, UniqueFields, Primaries, Created, NoClash, Constraints, PerRun;
    FreshShape(o, d, true);
    CreatedClauses(o, d, true);
    CopyStates(o);
    var names, list := NameList(o, d, true), IndexList(o, true);
    forall i | 0 <= i < |list| ensures AllPerRun(Constraints(o))[1 + i] == list[i] {
    }
    AdmitsFirst(Fresh(o, d, true).value, names, list, rows);
    if CopyMeets(o, d, rows) {
      assert Constraints(o)[0].unique by { KeyIsFirst(o); }
      forall i | 0 <= i < |list| && list[i].unique && First(names, i) ensures NoClash(list[i], rows) {
        assert Stays(o, d, 1 + i) && PerRun(Constraints(o)[1 + i]) == list[i];
        PerRunUnique(Constraints(o)[1 + i]);
      }
    }
    if Admits(Fresh(o, d, true).value, rows) {
      forall i | 0 <= i < |Constraints(o)| && Constraints(o)[i].unique && Stays(o, d, i)
        ensures NoClash(PerRun(Constraints(o)[i]), rows)
      {
        PerRunUnique(Constraints(o)[i]);
        if i > 0 { assert AllPerRun(Constraints(o))[1 + (i - 1)] == list[i - 1]; }
      }
    }
  }

  lemma KeyIsFirst(o: Object)
    ensures |Constraints(o)| >= 1 && Constraints(o)[0] == Over(Primaries(o.fields))
  {
  }

  lemma PerRunUnique(ix: Index)
    ensures PerRun(ix).unique == ix.unique
  {
  }

  lemma AdmitsFirst(t: Table, names: seq<string>, list: seq<Index>, rows: seq<Row>)
    requires |names| == |list| && HoldsFirst(t.indexes, names, list) && t.uniques == []
    ensures Admits(t, rows) <==>
      && NoClash(Over(t.key), rows)
      && forall i :: 0 <= i < |list| && list[i].unique && First(names, i) ==> NoClash(list[i], rows)
  {
    hide NoClash, First;
  }

  /** Rows by run: the copy meets what it has, and each run what is declared. */
  ghost predicate KeptClear(o: Object, d: Dialect, rows: seq<Row>) {
    forall i :: 0 <= i < |Constraints(o)| ==>
      Constraints(o)[i].unique && Stays(o, d, i) ==> EachRunClear(Constraints(o)[i], rows)
  }

  lemma HeldByRuns(o: Object, d: Dialect, rows: seq<Row>)
    requires Validated(o) && Fresh(o, d, true).Some? && Fresh(o, d, false).Some?
    requires forall r :: r in rows ==> Get(r, RUN_ID) != Null
    ensures Admits(Fresh(o, d, true).value, rows) <==> KeptClear(o, d, rows)
    ensures EachRunAdmitted(Fresh(o, d, false).value, rows) <==> AllClear(Constraints(o), rows)
  {
    hide Validated, Fresh, Admits, Constraints, EachRunAdmitted, AllClear, Stays, EachRunClear, NoClash, RunsMeet,
      IndexColumns, PerRun;
    CopyAdmits(o, d, rows);
    RunsAdmitted(o, d, rows);
    RunsMeetClear(Constraints(o), rows);
    forall i | 0 <= i < |Constraints(o)|
      ensures NoClash(PerRun(Constraints(o)[i]), rows) <==> EachRunClear(Constraints(o)[i], rows)
    {
      ConstraintReads(o, Constraints(o)[i]);
      PerRunClear(Constraints(o)[i], rows);
    }
  }

  // ------------------------------------------- one constraint for another

  predicate States(ix: Index, field: string, op: Op) {
    Condition(field, op) in ix.conditions
  }

  /** The condition leaves the field one value. */
  predicate Fixed(ix: Index, field: string) {
    States(ix, field, IsTrue) || States(ix, field, IsFalse)
  }

  predicate Entailed(ix: Index, c: Condition) {
    c in ix.conditions || (c.op == NotEmpty && Fixed(ix, c.field))
  }

  /** Rows that clash on one constraint clash on the other, which covers no less and compares no more. */
  predicate Implied(kept: Index, ix: Index) {
    && (forall f :: f in kept.fields ==> f in ix.fields || Fixed(ix, f))
    && (forall c :: c in kept.conditions ==> Entailed(ix, c))
  }

  /** No row is covered. */
  predicate Contradictory(ix: Index) {
    exists c :: c in ix.conditions && States(ix, c.field, IsTrue) && States(ix, c.field, IsFalse)
  }

  lemma ImpliedClash(kept: Index, ix: Index, a: Row, b: Row)
    requires kept.path.None? && ix.path.None? && Implied(kept, ix) && Clash(ix, a, b)
    ensures Clash(kept, a, b)
  {
    hide Get;
    forall c | c in kept.conditions ensures Holds(c, a) && Holds(c, b) {
      CoveredHolds(ix, a, c);
      CoveredHolds(ix, b, c);
    }
    forall i | 0 <= i < |kept.fields| ensures Get(a, kept.fields[i]) == Get(b, kept.fields[i]) != Null {
      SameField(ix, a, b, kept.fields[i]);
    }
    assert Picked(a, kept.fields) == Picked(b, kept.fields);
    assert IndexKey(kept, a) == Picked(a, kept.fields) && IndexKey(kept, b) == Picked(b, kept.fields);
  }

  lemma CoveredHolds(ix: Index, row: Row, c: Condition)
    requires Covers(ix, row) && Entailed(ix, c)
    ensures Holds(c, row)
  {
    if c !in ix.conditions {
      if States(ix, c.field, IsTrue) { assert Holds(Condition(c.field, IsTrue), row); }
      if States(ix, c.field, IsFalse) { assert Holds(Condition(c.field, IsFalse), row); }
    }
  }

  lemma SameField(ix: Index, a: Row, b: Row, f: string)
    requires ix.path.None? && Clash(ix, a, b) && (f in ix.fields || Fixed(ix, f))
    ensures Get(a, f) == Get(b, f) != Null
  {
    hide Get;
    if f in ix.fields {
      var i :| 0 <= i < |ix.fields| && ix.fields[i] == f;
      assert IndexKey(ix, a)[i] == Get(a, f) && IndexKey(ix, b)[i] == Get(b, f);
      assert IndexKey(ix, a)[i] != Null;
    } else if States(ix, f, IsTrue) {
      assert Holds(Condition(f, IsTrue), a) && Holds(Condition(f, IsTrue), b);
    } else {
      assert Holds(Condition(f, IsFalse), a) && Holds(Condition(f, IsFalse), b);
    }
  }

  lemma ContradictoryClear(ix: Index, rows: seq<Row>)
    requires Contradictory(ix)
    ensures NoClash(ix, rows)
  {
    var c :| c in ix.conditions && States(ix, c.field, IsTrue) && States(ix, c.field, IsFalse);
    var t, f := Condition(c.field, IsTrue), Condition(c.field, IsFalse);
    forall row ensures !Covers(ix, row) {
      assert Holds(t, row) ==> !Holds(f, row);
    }
  }

  // ------------------------------------------------- two rows that clash

  /** What the field is in one of two rows that clash on the constraint and are otherwise as different as can be. */
  function Witness(ix: Index, field: string, second: bool): Value {
    if States(ix, field, IsTrue) then Truth(true)
    else if States(ix, field, IsFalse) then Truth(false)
    else if field in ix.fields then Text(if States(ix, field, NotEmpty) then "a" else "")
    else if second then Text("b")
    else Text(if States(ix, field, NotEmpty) then "a" else "")
  }

  function Rival(o: Object, ix: Index, second: bool): Row {
    map n | n in [RUN_ID] + FieldNameList(o.fields) :: if n == RUN_ID then Text("run") else Witness(ix, n, second)
  }

  function Rivals(o: Object, ix: Index): seq<Row> {
    [Rival(o, ix, false), Rival(o, ix, true)]
  }

  ghost predicate OnFields(o: Object, ix: Index) {
    ix.path.None? && forall n :: n in IndexColumns(ix) ==> Declared(o, n) && n != RUN_ID
  }

  lemma RivalReads(o: Object, ix: Index, other: Index, second: bool)
    requires OnFields(o, other)
    ensures forall f :: f in other.fields ==> Get(Rival(o, ix, second) - {RUN_ID}, f) == Witness(ix, f, second)
    ensures forall c :: c in other.conditions ==> Get(Rival(o, ix, second) - {RUN_ID}, c.field) == Witness(ix, c.field, second)
  {
    hide Witness;
    forall n | n in IndexColumns(other) ensures n in FieldNameList(o.fields) && n != RUN_ID {
      var f :| f in o.fields && f.name == n;
      var i :| 0 <= i < |o.fields| && o.fields[i] == f;
      assert FieldNameList(o.fields)[i] == n;
    }
    forall f | f in other.fields ensures f in IndexColumns(other) {
    }
    forall c | c in other.conditions ensures c.field in IndexColumns(other) {
      ConditionFieldRead(other, c);
    }
  }

  lemma ConditionFieldRead(ix: Index, c: Condition)
    requires c in ix.conditions
    ensures c.field in IndexColumns(ix)
  {
    var i :| 0 <= i < |ix.conditions| && ix.conditions[i] == c;
    var fields := seq(|ix.conditions|, i requires 0 <= i < |ix.conditions| => ix.conditions[i].field);
    assert fields[i] == c.field;
    assert c.field in fields;
  }

  lemma RivalsClash(o: Object, ix: Index)
    requires OnFields(o, ix) && !Contradictory(ix)
    ensures Clash(ix, Rival(o, ix, false) - {RUN_ID}, Rival(o, ix, true) - {RUN_ID})
  {
    hide Get, Rival, IndexColumns, OnFields;
    PathIsNone(o, ix);
    RivalReads(o, ix, ix, false);
    RivalReads(o, ix, ix, true);
    var a, b := Rival(o, ix, false) - {RUN_ID}, Rival(o, ix, true) - {RUN_ID};
    forall c | c in ix.conditions ensures Holds(c, a) && Holds(c, b) {
      assert States(ix, c.field, c.op);
    }
    assert Picked(a, ix.fields) == Picked(b, ix.fields);
    assert IndexKey(ix, a) == Picked(a, ix.fields) && IndexKey(ix, b) == Picked(b, ix.fields);
  }

  lemma PathIsNone(o: Object, ix: Index)
    requires OnFields(o, ix)
    ensures ix.path.None?
  {
  }

  lemma RivalsApart(o: Object, ix: Index, other: Index)
    requires OnFields(o, other) && !Implied(other, ix)
    ensures !Clash(other, Rival(o, ix, false) - {RUN_ID}, Rival(o, ix, true) - {RUN_ID})
  {
    hide Get, Rival, IndexColumns, OnFields;
    PathIsNone(o, other);
    RivalReads(o, ix, other, false);
    RivalReads(o, ix, other, true);
    var a, b := Rival(o, ix, false) - {RUN_ID}, Rival(o, ix, true) - {RUN_ID};
    if f :| f in other.fields && f !in ix.fields && !Fixed(ix, f) {
      var i :| 0 <= i < |other.fields| && other.fields[i] == f;
      assert IndexKey(other, a)[i] == Witness(ix, f, false) && IndexKey(other, b)[i] == Witness(ix, f, true);
    } else {
      var c :| c in other.conditions && !Entailed(ix, c);
      assert !Holds(c, a);
    }
  }

  lemma BothRows(a: Row, b: Row, run: Value)
    requires Get(a, RUN_ID) == run && Get(b, RUN_ID) == run
    ensures RowsOf([a, b], run) == [a - {RUN_ID}, b - {RUN_ID}]
  {
    hide Get;
    assert [a, b][..1] == [a] && [a][..0] == [];
    assert RowsOf([], run) == [];
    assert RowsOf([a], run) == RowsOf([], run) + [a - {RUN_ID}];
    assert RowsOf([a, b], run) == RowsOf([a], run) + [b - {RUN_ID}];
  }

  lemma RivalsAreOneRun(o: Object, ix: Index)
    requires Validated(o)
    ensures forall r :: r in Rivals(o, ix) ==> Get(r, RUN_ID) == Text("run")
    ensures RowsOf(Rivals(o, ix), Text("run")) == [Rival(o, ix, false) - {RUN_ID}, Rival(o, ix, true) - {RUN_ID}]
    ensures forall run :: run != Text("run") ==> RowsOf(Rivals(o, ix), run) == []
  {
    var a, b := Rival(o, ix, false), Rival(o, ix, true);
    assert Get(a, RUN_ID) == Text("run") && Get(b, RUN_ID) == Text("run");
    hide Rival, Get, Validated;
    BothRows(a, b, Text("run"));
    forall run | run != Text("run") ensures RowsOf(Rivals(o, ix), run) == [] {
      assert [a, b][..1] == [a] && [a][..0] == [];
      assert RowsOf([], run) == [] && RowsOf([a], run) == [];
    }
  }

  /** The two rows, of one run, meet a constraint exactly when it is not met by the lost one alone. */
  lemma RivalsClear(o: Object, ix: Index, other: Index)
    requires Validated(o) && OnFields(o, ix) && OnFields(o, other) && !Contradictory(ix)
    ensures other == ix ==> !EachRunClear(other, Rivals(o, ix))
    ensures !Implied(other, ix) ==> EachRunClear(other, Rivals(o, ix))
  {
    hide Validated, OnFields, Clash, RowsOf, Rival, Rivals, Implied, Contradictory;
    RivalsAreOneRun(o, ix);
    var a, b := Rival(o, ix, false) - {RUN_ID}, Rival(o, ix, true) - {RUN_ID};
    PairClash(other, a, b);
    if other == ix {
      RivalsClash(o, ix);
      assert !NoClash(other, RowsOf(Rivals(o, ix), Text("run")));
    }
    if !Implied(other, ix) {
      RivalsApart(o, ix, other);
      NothingClashes(other);
    }
  }

  lemma PairClash(ix: Index, a: Row, b: Row)
    ensures NoClash(ix, [a, b]) <==> !Clash(ix, a, b)
  {
    hide Clash;
    var rows := [a, b];
    assert rows[0] == a && rows[1] == b;
  }

  // -------------------------------------------------- exactly when it holds

  /** No unique index of the object looks inside a document. */
  predicate PathFree(o: Object) {
    forall i :: 0 <= i < |o.indexes| ==> o.indexes[i].unique ==> o.indexes[i].path.None?
  }

  lemma ConstraintOnFields(o: Object, i: nat)
    requires Validated(o) && PathFree(o) && i < |Constraints(o)| && Constraints(o)[i].unique
    ensures OnFields(o, Constraints(o)[i])
  {
    hide IndexColumns, UniqueFields, Primaries, IndexOn, Distinct;
    var ix, m := Constraints(o)[i], |UniqueFields(o.fields)|;
    ConstraintReads(o, ix);
    if i == 0 {
      OverColumns(Primaries(o.fields));
      forall n | n in IndexColumns(ix) ensures Declared(o, n) { PrimariesAre(o.fields, n); }
    } else if i <= m {
      var u := UniqueFields(o.fields)[i - 1];
      OverColumns([u]);
      UniqueFieldsAre(o.fields, u);
      assert Declared(o, u);
    } else {
      var k := i - 1 - m;
      assert ix == IndexOn(o.indexes[k], false);
      IndexOnKeeps(o.indexes[k]);
    }
  }

  lemma IndexOnKeeps(ix: DeclaredIndex)
    ensures IndexOn(ix, false).unique == ix.unique && IndexOn(ix, false).path == ix.path
  {
  }

  /** The constraint is one that no row falls under, or one that the copy still has says as much. */
  predicate Covered(o: Object, d: Dialect, i: nat)
    requires i < |Constraints(o)|
  {
    || Contradictory(Constraints(o)[i])
    || exists j ::
      0 <= j < |Constraints(o)| && Stays(o, d, j) && Constraints(o)[j].unique && Implied(Constraints(o)[j], Constraints(o)[i])
  }

  /** The copy demands of each run what the constraint does, itself or through another. */
  predicate Upheld(o: Object, d: Dialect, i: nat)
    requires i < |Constraints(o)|
  {
    Constraints(o)[i].unique ==> Stays(o, d, i) || Covered(o, d, i)
  }

  lemma CoveredClear(o: Object, d: Dialect, i: nat, rows: seq<Row>)
    requires Validated(o) && PathFree(o) && i < |Constraints(o)| && Constraints(o)[i].unique
    requires Covered(o, d, i) && KeptClear(o, d, rows)
    ensures EachRunClear(Constraints(o)[i], rows)
  {
    hide Validated, PathFree, Constraints, Stays, Implied, Contradictory, Clash, RowsOf, OnFields;
    var ix := Constraints(o)[i];
    forall run | run != Null ensures NoClash(ix, RowsOf(rows, run)) {
      if Contradictory(ix) {
        ContradictoryClear(ix, RowsOf(rows, run));
      } else {
        var j :| 0 <= j < |Constraints(o)| && Stays(o, d, j) && Constraints(o)[j].unique && Implied(Constraints(o)[j], ix);
        ConstraintOnFields(o, i);
        ConstraintOnFields(o, j);
        PathIsNone(o, ix);
        PathIsNone(o, Constraints(o)[j]);
        assert NoClash(Constraints(o)[j], RowsOf(rows, run));
        ImpliedClear(Constraints(o)[j], ix, RowsOf(rows, run));
      }
    }
  }

  lemma ImpliedClear(kept: Index, ix: Index, rows: seq<Row>)
    requires kept.path.None? && ix.path.None? && Implied(kept, ix) && NoClash(kept, rows)
    ensures NoClash(ix, rows)
  {
    hide Clash, Implied;
    forall i, j | 0 <= i < j < |rows| ensures !Clash(ix, rows[i], rows[j]) {
      if Clash(ix, rows[i], rows[j]) { ImpliedClash(kept, ix, rows[i], rows[j]); }
    }
  }

  lemma UncoveredMisses(o: Object, d: Dialect, i: nat)
    requires Validated(o) && PathFree(o) && i < |Constraints(o)| && Constraints(o)[i].unique
    requires !Covered(o, d, i)
    ensures var rows := Rivals(o, Constraints(o)[i]);
      && (forall r :: r in rows ==> Get(r, RUN_ID) != Null)
      && KeptClear(o, d, rows) && !AllClear(Constraints(o), rows)
  {
    hide Validated, PathFree, Constraints, Stays, Implied, Contradictory, RowsOf, Rivals, OnFields, EachRunClear;
    var ix := Constraints(o)[i];
    var rows := Rivals(o, ix);
    ConstraintOnFields(o, i);
    RivalsAreOneRun(o, ix);
    RivalsClear(o, ix, ix);
    forall j | 0 <= j < |Constraints(o)| && Constraints(o)[j].unique && Stays(o, d, j)
      ensures EachRunClear(Constraints(o)[j], rows)
    {
      ConstraintOnFields(o, j);
      RivalsClear(o, ix, Constraints(o)[j]);
    }
  }

  /** The copy holds every run to what the live table demands, whatever the rows. */
  ghost predicate HoldsRuns(o: Object, d: Dialect)
    requires Fresh(o, d, true).Some? && Fresh(o, d, false).Some?
  {
    forall rows: seq<Row> :: (forall r :: r in rows ==> Get(r, RUN_ID) != Null) ==>
      (Admits(Fresh(o, d, true).value, rows) <==> EachRunAdmitted(Fresh(o, d, false).value, rows))
  }

  /**
    Where no unique index looks inside a document, the copy holds every run to
    what the live table demands, for all rows, exactly when each unique constraint
    that it lost is covered by one that it has.
   */
  lemma HoldsRunsExactly(o: Object, d: Dialect)
    requires Validated(o) && PathFree(o)
    ensures Fresh(o, d, true).Some? && Fresh(o, d, false).Some?
    ensures HoldsRuns(o, d) <==>
      forall i :: 0 <= i < |Constraints(o)| ==> Upheld(o, d, i)
  {
    hide Validated, PathFree, Fresh, Constraints, Stays, Covered, Admits, EachRunAdmitted, KeptClear, AllClear, Rivals;
    FreshShape(o, d, true);
    FreshShape(o, d, false);
    if i :| 0 <= i < |Constraints(o)| && !Upheld(o, d, i) {
      UncoveredMisses(o, d, i);
      HeldByRuns(o, d, Rivals(o, Constraints(o)[i]));
    } else {
      forall rows: seq<Row> | forall r :: r in rows ==> Get(r, RUN_ID) != Null
        ensures Admits(Fresh(o, d, true).value, rows) <==> EachRunAdmitted(Fresh(o, d, false).value, rows)
      {
        HeldByRuns(o, d, rows);
        AllCovered(o, d, rows);
      }
    }
  }

  lemma AllCovered(o: Object, d: Dialect, rows: seq<Row>)
    requires Validated(o) && PathFree(o)
    requires forall i :: 0 <= i < |Constraints(o)| ==> Upheld(o, d, i)
    ensures KeptClear(o, d, rows) <==> AllClear(Constraints(o), rows)
  {
    hide Validated, PathFree, Constraints, Stays, Covered, EachRunClear;
    if KeptClear(o, d, rows) {
      forall i | 0 <= i < |Constraints(o)| && Constraints(o)[i].unique ensures EachRunClear(Constraints(o)[i], rows) {
        assert Upheld(o, d, i);
        if !Stays(o, d, i) { CoveredClear(o, d, i, rows); }
      }
    }
  }

  // ------------------------------------------------------ unique fields

  /** A declared index that says by itself that the field is unique. */
  predicate StandsFor(ix: DeclaredIndex, u: string) {
    ix.unique && !ix.notDeleted && ix.conditions == [] && forall f :: f in ix.fields ==> f == u
  }

  /** The copy has the field's own index, or a declared one stands for it. */
  predicate FieldHeld(o: Object, d: Dialect, q: nat)
    requires q < |UniqueFields(o.fields)|
  {
    || First(NameList(o, d, true), q)
    || exists k :: 0 <= k < |o.indexes| && StandsFor(o.indexes[k], UniqueFields(o.fields)[q])
  }

  /**
    In particular, where every declared unique index is kept, the copy holds the
    runs exactly when each unique field has its own index in the copy or a declared
    one that stands for it.
   */
  lemma HoldsRunsForFields(o: Object, d: Dialect)
    requires Validated(o) && PathFree(o)
    requires forall k :: 0 <= k < |o.indexes| && o.indexes[k].unique ==>
      First(NameList(o, d, true), |UniqueFields(o.fields)| + k)
    ensures Fresh(o, d, true).Some? && Fresh(o, d, false).Some?
    ensures HoldsRuns(o, d) <==>
      forall q :: 0 <= q < |UniqueFields(o.fields)| ==> FieldHeld(o, d, q)
  {
    hide Validated, PathFree, Fresh, HoldsRuns, First, UniqueFields, Constraints, Covered, FieldHeld, NameList, Primaries;
    HoldsRunsExactly(o, d);
    PlacesOf(o);
    var m := |UniqueFields(o.fields)|;
    forall q | 0 <= q < m ensures q + 1 < |Constraints(o)| && (Upheld(o, d, q + 1) <==> FieldHeld(o, d, q)) {
      FieldCovered(o, d, q);
    }
    forall i | 0 <= i < |Constraints(o)| && (i == 0 || i > m) ensures Upheld(o, d, i) {
      if i > m { DeclaredPlace(o, i - 1 - m); }
    }
    if forall i :: 0 <= i < |Constraints(o)| ==> Upheld(o, d, i) {
      forall q | 0 <= q < m ensures FieldHeld(o, d, q) {
        assert Upheld(o, d, q + 1);
      }
    } else {
      var i :| 0 <= i < |Constraints(o)| && !Upheld(o, d, i);
      assert !FieldHeld(o, d, i - 1);
    }
  }

  lemma PlacesOf(o: Object)
    ensures |Constraints(o)| == 1 + |UniqueFields(o.fields)| + |o.indexes|
  {
  }

  lemma DeclaredPlace(o: Object, k: nat)
    requires k < |o.indexes|
    ensures 1 + |UniqueFields(o.fields)| + k < |Constraints(o)|
    ensures Constraints(o)[1 + |UniqueFields(o.fields)| + k] == IndexOn(o.indexes[k], false)
    ensures IndexOn(o.indexes[k], false).unique == o.indexes[k].unique
  {
    hide UniqueFields, Primaries;
  }

  lemma FieldPlace(o: Object, q: nat)
    requires q < |UniqueFields(o.fields)|
    ensures q + 1 < |Constraints(o)| && Constraints(o)[q + 1] == Over([UniqueFields(o.fields)[q]])
  {
    hide UniqueFields, Primaries;
  }

  lemma FieldCovered(o: Object, d: Dialect, q: nat)
    requires Validated(o) && PathFree(o) && q < |UniqueFields(o.fields)|
    requires forall k :: 0 <= k < |o.indexes| && o.indexes[k].unique ==>
      First(NameList(o, d, true), |UniqueFields(o.fields)| + k)
    ensures q + 1 < |Constraints(o)| && Constraints(o)[q + 1].unique
    ensures Stays(o, d, q + 1) || Covered(o, d, q + 1) <==> FieldHeld(o, d, q)
  {
    hide Validated, PathFree, First, UniqueFields, Constraints, NameList, Primaries, Implied, StandsFor, IndexOn;
    var u, m := UniqueFields(o.fields)[q], |UniqueFields(o.fields)|;
    FieldPlace(o, q);
    PlacesOf(o);
    forall k | 0 <= k < |o.indexes| && o.indexes[k].unique
      ensures Implied(Constraints(o)[1 + m + k], Over([u])) <==> StandsFor(o.indexes[k], u)
      ensures Stays(o, d, 1 + m + k) && Constraints(o)[1 + m + k].unique
    {
      DeclaredPlace(o, k);
      DeclaredImplies(o, k, u);
    }
    forall k | 0 <= k < |o.indexes| && StandsFor(o.indexes[k], u) ensures o.indexes[k].unique {
      StandsIsUnique(o.indexes[k], u);
    }
    forall j | 0 <= j <= m && j != q + 1 ensures !Implied(Constraints(o)[j], Over([u])) {
      OthersDoNot(o, q, j);
    }
    if Covered(o, d, q + 1) && !Stays(o, d, q + 1) {
      NotContradictory(u);
      var j :| 0 <= j < |Constraints(o)| && Stays(o, d, j) && Constraints(o)[j].unique && Implied(Constraints(o)[j], Over([u]));
      var k := j - 1 - m;
      DeclaredPlace(o, k);
      assert StandsFor(o.indexes[k], u);
    }
    if k :| 0 <= k < |o.indexes| && StandsFor(o.indexes[k], u) {
      assert Stays(o, d, 1 + m + k) && Implied(Constraints(o)[1 + m + k], Constraints(o)[q + 1]);
    }
  }

  lemma NotContradictory(u: string)
    ensures !Contradictory(Over([u]))
  {
  }

  lemma StandsIsUnique(ix: DeclaredIndex, u: string)
    requires StandsFor(ix, u)
    ensures ix.unique
  {
  }

  lemma DeclaredImplies(o: Object, k: nat, u: string)
    requires PathFree(o) && k < |o.indexes| && o.indexes[k].unique
    ensures Implied(IndexOn(o.indexes[k], false), Over([u])) <==> StandsFor(o.indexes[k], u)
  {
    var ix := o.indexes[k];
    var cs := ConditionsOf(ix);
    assert IndexOn(ix, false).fields == ix.fields;
    assert cs == [] || cs[0] in cs;
    assert cs == [] <==> !ix.notDeleted && ix.conditions == [];
  }

  lemma OthersDoNot(o: Object, q: nat, j: nat)
    requires Validated(o) && q < |UniqueFields(o.fields)| && j <= |UniqueFields(o.fields)| && j != q + 1
    ensures j < |Constraints(o)| && !Implied(Constraints(o)[j], Over([UniqueFields(o.fields)[q]]))
  {
    hide UniqueFields, IndexColumns, Primaries, Constraints, Distinct;
    var u := UniqueFields(o.fields)[q];
    UniqueFieldsDistinct(o.fields);
    if j == 0 {
      KeyIsFirst(o);
      var f :| f in o.fields && f.primary;
      PrimariesAre(o.fields, f.name);
      NotBoth(o.fields, u);
      assert f.name in Over(Primaries(o.fields)).fields && f.name != u;
    } else {
      FieldPlace(o, j - 1);
      var v := UniqueFields(o.fields)[j - 1];
      assert v != u by { DistinctAt(UniqueFields(o.fields), j - 1, q); }
      assert v in Over([v]).fields;
    }
  }

  lemma DistinctAt(names: seq<string>, i: nat, j: nat)
    requires Distinct(names) && i < |names| && j < |names| && i != j
    ensures names[i] != names[j]
  {
  }

  /** A field that has a constraint of its own is not in the key. */
  lemma NotBoth(fields: seq<Field>, n: string)
    requires Distinct(FieldNameList(fields))
    ensures !(n in UniqueFields(fields) && n in Primaries(fields))
  {
    hide UniqueFields, Primaries;
    UniqueFieldsAre(fields, n);
    PrimariesAre(fields, n);
    forall f, g | f in fields && g in fields && f.name == g.name ensures f == g {
      var i :| 0 <= i < |fields| && fields[i] == f;
      var j :| 0 <= j < |fields| && fields[j] == g;
      assert FieldNameList(fields)[i] == FieldNameList(fields)[j];
    }
  }
}
