/**
  Replaying the settings log from the database. The log is read by the time that
  the caller gave and by a random id, not in the order it was written, so what
  is replayed need not end where the overrides stand.
 */
module Replay {
  import opened Options
  import opened Settings
  import opened SettingsStore
  import opened Sorting
  import T = Text

  /** The entry for a setting that was added last. */
  function LastAdded(rows: seq<ChangeRow>, name: string): Option<ChangeRow> {
    if rows == [] then None
    else if rows[|rows| - 1].name == name then Some(rows[|rows| - 1])
    else LastAdded(rows[..|rows| - 1], name)
  }

  /** The entry for a setting that is read last: the greatest by time and id. */
  function LastRead(rows: seq<ChangeRow>, name: string): Option<ChangeRow> {
    if rows == [] then None
    else
      var row, before := rows[|rows| - 1], LastRead(rows[..|rows| - 1], name);
      if row.name == name && (before.None? || RowBefore(before.value, row)) then Some(row) else before
  }

  /** The override that an entry leaves; a cleared setting, like one without entries, has none. */
  function Left(row: Option<ChangeRow>): Option<Override> {
    if row.None? || row.value.cleared then None
    else Some(Override(Decode(row.value.to), row.value.who, row.value.when))
  }

  function Standing(overrides: map<string, Override>, name: string): Option<Override> {
    if name in overrides then Some(overrides[name]) else None
  }

  lemma SameStanding(a: map<string, Override>, b: map<string, Override>)
    ensures a == b <==> forall name :: Standing(a, name) == Standing(b, name)
  {
    if forall name :: Standing(a, name) == Standing(b, name) {
      forall name ensures name in a <==> name in b {
        assert Standing(a, name) == Standing(b, name);
      }
      forall name | name in a ensures a[name] == b[name] {
        assert Standing(a, name) == Standing(b, name);
      }
    }
  }

  lemma {:induction false} RetoldIsLastAdded(rows: seq<ChangeRow>, name: string)
    ensures Left(LastAdded(rows, name)) == Standing(Retold(LogOf(rows)), name)
  {
    if rows != [] {
      var k := |rows| - 1;
      RetoldIsLastAdded(rows[..k], name);
      assert LogOf(rows)[..k] == LogOf(rows[..k]);
    }
  }

  ghost predicate Greatest(rows: seq<ChangeRow>, name: string, row: Option<ChangeRow>) {
    && (row.Some? ==> row.value in rows && row.value.name == name)
    && forall c :: c in rows && c.name == name ==> row.Some? && (c == row.value || RowBefore(c, row.value))
  }

  lemma {:induction false} LastReadIsGreatest(rows: seq<ChangeRow>, name: string)
    requires IdsDiffer(rows)
    ensures Greatest(rows, name, LastRead(rows, name))
  {
    hide RowBefore;
    if rows != [] {
      var k := |rows| - 1;
      LastReadIsGreatest(rows[..k], name);
      var row, before := rows[k], LastRead(rows[..k], name);
      assert rows == rows[..k] + [row];
      if before.Some? { GreaterOfTwo(rows[..k], name, before.value, row); }
    }
  }

  lemma GreaterOfTwo(rows: seq<ChangeRow>, name: string, best: ChangeRow, row: ChangeRow)
    requires IdsDiffer(rows + [row]) && Greatest(rows, name, Some(best)) && best.name == name
    ensures row.name == name && RowBefore(best, row) ==> Greatest(rows + [row], name, Some(row))
    ensures row.name != name || !RowBefore(best, row) ==> Greatest(rows + [row], name, Some(best))
  {
    hide RowBefore;
    assert best in rows + [row] && row in rows + [row];
    RowOrder(best, row, best);
    SameRow(rows + [row], best, row);
    forall c | c in rows && RowBefore(c, best) && RowBefore(best, row) ensures RowBefore(c, row) {
      RowOrder(c, best, row);
    }
  }

  lemma {:induction false} LastOfSortedIsGreatest(rows: seq<ChangeRow>, name: string)
    requires IdsDiffer(rows) && Sorted(RowBefore, rows)
    ensures Greatest(rows, name, LastAdded(rows, name))
  {
    hide RowBefore;
    if rows != [] {
      var k := |rows| - 1;
      LastOfSortedIsGreatest(rows[..k], name);
      assert rows == rows[..k] + [rows[k]];
      forall i | 0 <= i < k ensures RowBefore(rows[i], rows[k]) {
        RowOrder(rows[i], rows[k], rows[i]);
      }
    }
  }

  lemma GreatestIsOne(rows: seq<ChangeRow>, name: string, a: Option<ChangeRow>, b: Option<ChangeRow>)
    requires Greatest(rows, name, a) && Greatest(rows, name, b)
    ensures a == b
  {
    hide RowBefore;
    if a.Some? && b.Some? { RowOrder(a.value, b.value, a.value); }
  }

  lemma SortKeepsIds(rows: seq<ChangeRow>)
    requires IdsDiffer(rows)
    ensures IdsDiffer(Sort(RowBefore, rows))
  {
    hide RowBefore;
    var sorted := Sort(RowBefore, rows);
    SortIsPermutation(RowBefore, rows);
    DistinctIsMultiplicity(rows);
    DistinctIsMultiplicity(sorted);
    forall i, j | 0 <= i < j < |sorted| ensures sorted[i].id != sorted[j].id {
      SameRow(rows, sorted[i], sorted[j]);
    }
  }

  lemma LastOfSorted(rows: seq<ChangeRow>, name: string)
    requires IdsDiffer(rows)
    ensures LastAdded(Sort(RowBefore, rows), name) == LastRead(rows, name)
  {
    hide RowBefore, Sort, LastAdded, LastRead;
    var sorted := Sort(RowBefore, rows);
    RowsOrder(rows);
    SortIsSorted(RowBefore, rows);
    SortIsPermutation(RowBefore, rows);
    SortKeepsIds(rows);
    LastOfSortedIsGreatest(sorted, name);
    LastReadIsGreatest(rows, name);
    GreatestIsOne(rows, name, LastAdded(sorted, name), LastRead(rows, name));
  }

  /** The entry read last for a setting leaves what the entry added last did. */
  predicate ReadRight(rows: seq<ChangeRow>, name: string) {
    Left(LastRead(rows, name)) == Left(LastAdded(rows, name))
  }

  lemma ReadRightIsSameStanding(rows: seq<ChangeRow>, name: string)
    requires IdsDiffer(rows)
    ensures ReadRight(rows, name) <==>
      Standing(Retold(LogOf(Sort(RowBefore, rows))), name) == Standing(Retold(LogOf(rows)), name)
  {
    hide RowBefore, Sort, Retold, LastAdded, LastRead, Left, LogOf, Standing;
    LastOfSorted(rows, name);
    RetoldIsLastAdded(Sort(RowBefore, rows), name);
    RetoldIsLastAdded(rows, name);
  }

  /**
    Replaying what is read rebuilds the overrides exactly when, for every setting,
    the entry with the greatest time and id left what the entry added last did.
   */
  lemma ReplaysAsRead(rows: seq<ChangeRow>)
    requires IdsDiffer(rows)
    ensures Retold(LogOf(Sort(RowBefore, rows))) == Retold(LogOf(rows)) <==> forall name :: ReadRight(rows, name)
  {
    hide RowBefore, Sort, Retold, ReadRight, LogOf, Standing;
    var read, added := Retold(LogOf(Sort(RowBefore, rows))), Retold(LogOf(rows));
    forall name ensures ReadRight(rows, name) <==> Standing(read, name) == Standing(added, name) {
      ReadRightIsSameStanding(rows, name);
    }
    SameStanding(read, added);
  }

  // ------------------------------------------------------ two in one time

  lemma TwoActs(a: Act, b: Act)
    ensures AfterAll([a, b]) == After(After(State(map[], []), a), b)
  {
    hide After;
    assert [a, b][..1] == [a] && [a][..0] == [];
    assert AfterAll([]) == State(map[], []);
    assert AfterAll([a]) == After(AfterAll([]), a);
  }

  lemma LastOfPair(x: ChangeRow, y: ChangeRow, name: string)
    ensures LastAdded([x, y], name) ==
      if y.name == name then Some(y) else if x.name == name then Some(x) else None
    ensures x.name == y.name == name ==> LastRead([x, y], name) == Some(if RowBefore(x, y) then y else x)
  {
    hide RowBefore;
    assert [x, y][..1] == [x] && [x][..0] == [];
    assert LastAdded([], name) == None && LastRead([], name) == None;
    assert x.name == name ==> LastAdded([x], name) == Some(x) && LastRead([x], name) == Some(x);
    assert x.name != name ==> LastAdded([x], name) == None;
  }

  /**
    Two values set in one time, under any two ids: replaying what is read gives
    the overrides exactly when the ids are in the order of the changes, and the
    older value otherwise.
   */
  lemma SameTimeMisleads(st: Setting, a: Value, b: Value, who: string, when: string, first: string, second: string)
    requires UsableName(st.name) && Fits(st, a) && Fits(st, b) && a != b && who != "" && when != "" && first != second
    requires Encode(a).Some? && Encode(b).Some?
    ensures
      var acts := [Set([st], st.name, a, who, when), Set([st], st.name, b, who, when)];
      var rows := [ChangeRow(first, st.name, Empty, Encode(a).value, false, who, when),
                   ChangeRow(second, st.name, Encode(a).value, Encode(b).value, false, who, when)];
      && LogOf(rows) == AfterAll(acts).log && IdsDiffer(rows)
      && (Retold(LogOf(Sort(RowBefore, rows))) == AfterAll(acts).overrides <==> T.Less(first, second))
      && (T.Less(second, first) ==> Left(LastRead(rows, st.name)) == Some(Override(a, who, when)))
  {
    hide Fits, UsableName, Sort, Retold, AfterAll, Encode, Decode, LastAdded, LastRead, After;
    EncodedDecodes(a);
    EncodedDecodes(b);
    EncodedDecodes(Nil);
    EmptyIsNil();
    var acts := [Set([st], st.name, a, who, when), Set([st], st.name, b, who, when)];
    var x := ChangeRow(first, st.name, Empty, Encode(a).value, false, who, when);
    var y := ChangeRow(second, st.name, Encode(a).value, Encode(b).value, false, who, when);
    TwoSets(st, a, b, who, when);
    assert LogOf([x, y]) == [ChangeOf(x), ChangeOf(y)];
    RunsAgree(acts);
    T.LessTrans(when, when, when);
    T.LessTrans(first, second, first);
    assert RowBefore(x, y) <==> T.Less(first, second);
    ReplaysAsRead([x, y]);
    LastOfPair(x, y, st.name);
    assert ReadRight([x, y], st.name) <==> RowBefore(x, y);
    forall name | name != st.name ensures ReadRight([x, y], name) { NothingFor(x, y, name); }
    hide ReadRight;
    assert Retold(LogOf([x, y])) == AfterAll(acts).overrides;
  }

  lemma NothingFor(x: ChangeRow, y: ChangeRow, name: string)
    requires x.name != name && y.name != name
    ensures LastRead([x, y], name) == None && LastAdded([x, y], name) == None
  {
    assert [x, y][..1] == [x] && [x][..0] == [];
    assert LastRead([x], name) == None && LastAdded([x], name) == None;
  }

  lemma TwoSets(st: Setting, a: Value, b: Value, who: string, when: string)
    requires UsableName(st.name) && Fits(st, a) && Fits(st, b) && who != "" && when != ""
    requires Encode(a).Some? && Encode(b).Some?
    ensures AfterAll([Set([st], st.name, a, who, when), Set([st], st.name, b, who, when)]).log ==
      [SettingChange(st.name, Nil, a, false, who, when), SettingChange(st.name, a, b, false, who, when)]
  {
    hide Fits, UsableName, AfterAll, Encode;
    TwoActs(Set([st], st.name, a, who, when), Set([st], st.name, b, who, when));
    assert FindSetting([st], st.name) == Some(st);
    var one := After(State(map[], []), Set([st], st.name, a, who, when));
    assert one.log == [SettingChange(st.name, Nil, a, false, who, when)];
    assert one.overrides[st.name].value == a;
  }

  lemma EmptyIsNil()
    ensures Encode(Nil) == Some(Empty) && Decode(Empty) == Nil
  {
  }
}
