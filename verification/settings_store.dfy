/**
  Stored settings: the definition's values, the owner's overrides and the log of
  every override set or cleared. The log retells the overrides, always.
 */
module SettingsStore {
  import opened Options
  import opened Settings
  import opened Sorting
  import T = Text

  /** A stored value: JSON text, left as what it denotes, and empty text for no value. */
  datatype Raw = Empty | Json(value: Value)

  function Encode(v: Value): Option<Raw> {
    match v
    case Nil => Some(Empty)
    case NotFinite(_) => None
    case _ => Some(Json(v))
  }

  function Decode(raw: Raw): Value {
    match raw case Empty => Nil case Json(v) => v
  }

  /** Text that encoding a value gives. */
  predicate Proper(raw: Raw) {
    Encode(Decode(raw)) == Some(raw)
  }

  lemma EncodedDecodes(v: Value)
    ensures Encode(v).Some? ==> Decode(Encode(v).value) == v && Proper(Encode(v).value)
  {
  }

  datatype OverrideRow = OverrideRow(value: Raw, who: string, when: string)

  datatype ChangeRow = ChangeRow(id: string, name: string, from: Raw, to: Raw, cleared: bool, who: string, when: string)

  function OverrideOf(row: OverrideRow): Override {
    Override(Decode(row.value), row.who, row.when)
  }

  function ChangeOf(row: ChangeRow): SettingChange {
    SettingChange(row.name, Decode(row.from), Decode(row.to), row.cleared, row.who, row.when)
  }

  function LogOf(rows: seq<ChangeRow>): (log: seq<SettingChange>)
    ensures |log| == |rows| && forall i :: 0 <= i < |log| ==> log[i] == ChangeOf(rows[i])
  {
    seq(|rows|, i requires 0 <= i < |rows| => ChangeOf(rows[i]))
  }

  function OverridesOf(rows: map<string, OverrideRow>): map<string, Override> {
    map n | n in rows :: OverrideOf(rows[n])
  }

  // ------------------------------------------------------------- the log

  /** The overrides that a log tells of, from none. */
  function Retold(log: seq<SettingChange>): map<string, Override> {
    if log == [] then map[]
    else
      var c := log[|log| - 1];
      var before := Retold(log[..|log| - 1]);
      if c.cleared then before - {c.name} else before[c.name := Override(c.to, c.who, c.when)]
  }

  /** What the last entry for a name left, if there is one. */
  function LastTo(log: seq<SettingChange>, name: string): Value {
    if log == [] then Nil
    else if log[|log| - 1].name == name then log[|log| - 1].to
    else LastTo(log[..|log| - 1], name)
  }

  /** Every entry starts from where the one before it for that name ended. */
  ghost predicate Chained(log: seq<SettingChange>) {
    forall k :: 0 <= k < |log| ==> log[k].from == LastTo(log[..k], log[k].name) && (log[k].cleared ==> log[k].to == Nil)
  }

  datatype Act =
    | Set(settings: seq<Setting>, name: string, value: Value, who: string, when: string)
    | Clear(settings: seq<Setting>, name: string, who: string, when: string)

  datatype State = State(overrides: map<string, Override>, log: seq<SettingChange>)

  /** The state after an act; one that is refused changes nothing. */
  function After(s: State, a: Act): State {
    match a
    case Set(settings, name, value, who, when) =>
      (match SetOverride(settings, s.overrides, name, value, who, when)
       case Err(_) => s
       case Ok(next) => if Encode(value).None? then s else State(next.0, s.log + [next.1]))
    case Clear(settings, name, who, when) =>
      match ClearOverride(settings, s.overrides, name, who, when)
      case Err(_) => s
      case Ok(None) => s
      case Ok(Some(next)) => State(next.0, s.log + [next.1])
  }

  function AfterAll(acts: seq<Act>): State {
    if acts == [] then State(map[], [])
    else After(AfterAll(acts[..|acts| - 1]), acts[|acts| - 1])
  }

  ghost predicate Agree(s: State) {
    Retold(s.log) == s.overrides && Chained(s.log)
  }

  lemma {:induction false} LastIsRetold(log: seq<SettingChange>, name: string)
    requires Chained(log)
    ensures LastTo(log, name) == if name in Retold(log) then Retold(log)[name].value else Nil
  {
    if log != [] {
      var k := |log| - 1;
      ChainedPrefix(log);
      LastIsRetold(log[..k], name);
      assert log[k].cleared ==> log[k].to == Nil;
    }
  }

  lemma ChainedPrefix(log: seq<SettingChange>)
    requires log != [] && Chained(log)
    ensures Chained(log[..|log| - 1])
  {
    var k := |log| - 1;
    forall i | 0 <= i < k ensures log[..k][..i] == log[..i] {
    }
  }

  lemma ChainedNext(log: seq<SettingChange>, c: SettingChange)
    requires Chained(log) && c.from == LastTo(log, c.name) && (c.cleared ==> c.to == Nil)
    ensures Chained(log + [c])
  {
    var all := log + [c];
    forall k | 0 <= k < |all|
      ensures all[k].from == LastTo(all[..k], all[k].name) && (all[k].cleared ==> all[k].to == Nil)
    {
      if k < |log| {
        assert all[..k] == log[..k];
      } else {
        assert all[..k] == log;
      }
    }
  }

  function Logged(s: State, c: SettingChange): State {
    State(if c.cleared then s.overrides - {c.name} else s.overrides[c.name := Override(c.to, c.who, c.when)], s.log + [c])
  }

  lemma LoggingAgrees(s: State, c: SettingChange)
    requires Agree(s) && c.from == (if c.name in s.overrides then s.overrides[c.name].value else Nil)
    requires c.cleared ==> c.to == Nil
    ensures Agree(Logged(s, c))
  {
    hide Chained, Retold, LastTo;
    LastIsRetold(s.log, c.name);
    ChainedNext(s.log, c);
    RetoldNext(s.log, c);
  }

  lemma RetoldNext(log: seq<SettingChange>, c: SettingChange)
    ensures Retold(log + [c]) == if c.cleared then Retold(log) - {c.name} else Retold(log)[c.name := Override(c.to, c.who, c.when)]
  {
    assert (log + [c])[..|log|] == log;
  }

  lemma ActKeepsAgreement(s: State, a: Act)
    requires Agree(s)
    ensures Agree(After(s, a))
  {
    hide Fits, FindSetting, Agree;
    match a
    case Set(settings, name, value, who, when) =>
      var r := SetOverride(settings, s.overrides, name, value, who, when);
      if r.Ok? { LoggingAgrees(s, r.value.1); }
    case Clear(settings, name, who, when) =>
      var r := ClearOverride(settings, s.overrides, name, who, when);
      if r.Ok? && r.value.Some? { LoggingAgrees(s, r.value.value.1); }
  }

  /**
    Whatever was set and cleared, by whatever declarations, replaying the log gives
    the overrides as they stand, and each entry starts where the last one for its
    name ended.
   */
  lemma {:induction false} RunsAgree(acts: seq<Act>)
    ensures Agree(AfterAll(acts))
  {
    hide After;
    if acts != [] {
      RunsAgree(acts[..|acts| - 1]);
      ActKeepsAgreement(AfterAll(acts[..|acts| - 1]), acts[|acts| - 1]);
    }
  }

  /** What cannot be written as JSON, and so is never stored. */
  lemma EncodedExactly(v: Value)
    ensures Encode(v).None? <==> v.NotFinite?
    ensures Encode(v) == Some(Empty) <==> v == Nil
    ensures Encode(v).Some? ==> Decode(Encode(v).value) == v
  {
  }

  /** After any sets and clears every override can be stored. */
  lemma {:induction false} OverridesAreStorable(acts: seq<Act>)
    ensures forall n :: n in AfterAll(acts).overrides ==> !AfterAll(acts).overrides[n].value.NotFinite?
  {
    hide Fits, FindSetting;
    if acts != [] { OverridesAreStorable(acts[..|acts| - 1]); }
  }

  // ------------------------------------------------ reading the log back

  /** The order the log is read in: by the time given, and by id within it. */
  predicate RowBefore(a: ChangeRow, b: ChangeRow) {
    T.Less(a.when, b.when) || (a.when == b.when && T.Less(a.id, b.id))
  }

  predicate IdsDiffer(rows: seq<ChangeRow>) {
    forall i, j :: 0 <= i < j < |rows| ==> rows[i].id != rows[j].id
  }

  ghost predicate Ascending(rows: seq<ChangeRow>) {
    forall i, j :: 0 <= i < j < |rows| ==> RowBefore(rows[i], rows[j])
  }

  lemma RowOrder(x: ChangeRow, y: ChangeRow, z: ChangeRow)
    ensures RowBefore(x, y) && RowBefore(y, z) ==> RowBefore(x, z)
    ensures !(RowBefore(x, y) && RowBefore(y, x)) && (RowBefore(x, y) || RowBefore(y, x) || (x.when == y.when && x.id == y.id))
  {
    T.LessTrans(x.when, y.when, z.when);
    T.LessTrans(x.id, y.id, z.id);
    T.LessTrans(y.when, x.when, y.when);
  }

  lemma RowsOrder(rows: seq<ChangeRow>)
    requires IdsDiffer(rows)
    ensures Orders(RowBefore, rows)
  {
    hide RowBefore;
    forall x, y | x in rows && y in rows && RowBefore(x, y) ensures !RowBefore(y, x) {
      RowOrder(x, y, x);
    }
    forall x, y, z | x in rows && y in rows && z in rows && !RowBefore(x, y) && !RowBefore(y, z) ensures !RowBefore(x, z) {
      RowOrder(z, y, x);
      RowOrder(x, y, z);
      RowOrder(y, z, x);
      RowOrder(x, z, y);
      SameRow(rows, x, y);
      SameRow(rows, y, z);
    }
  }

  lemma SameRow(rows: seq<ChangeRow>, x: ChangeRow, y: ChangeRow)
    requires IdsDiffer(rows) && x in rows && y in rows
    ensures x.id == y.id ==> x == y
  {
    var i :| 0 <= i < |rows| && rows[i] == x;
    var j :| 0 <= j < |rows| && rows[j] == y;
  }

  /** Reading the log gives the entries as they were added exactly when their times, and ids within a time, ascend. */
  lemma ReadAsAdded(rows: seq<ChangeRow>)
    requires IdsDiffer(rows)
    ensures Sort(RowBefore, rows) == rows <==> Ascending(rows)
  {
    hide RowBefore;
    RowsOrder(rows);
    SortIsSorted(RowBefore, rows);
    if Sort(RowBefore, rows) == rows {
      forall i, j | 0 <= i < j < |rows| ensures RowBefore(rows[i], rows[j]) {
        RowOrder(rows[i], rows[j], rows[i]);
      }
    }
    if Ascending(rows) {
      AscendingStays(rows);
    }
  }

  lemma {:induction false} AscendingStays(rows: seq<ChangeRow>)
    requires Ascending(rows)
    ensures Sort(RowBefore, rows) == rows
  {
    hide RowBefore;
    if rows != [] {
      var k := |rows| - 1;
      AscendingStays(rows[..k]);
      if k > 0 {
        assert RowBefore(rows[k - 1], rows[k]);
        RowOrder(rows[k - 1], rows[k], rows[k]);
      }
      assert rows == rows[..k] + [rows[k]];
    }
  }

  // ------------------------------------------------------------ storage

  /** Whether the whole of a definition can be stored. */
  predicate Storable(settings: seq<Setting>, values: map<string, Value>) {
    forall n :: n in values ==>
      FindSetting(settings, n).Some? && Fits(FindSetting(settings, n).value, values[n]) && Encode(values[n]).Some?
  }

  /** A definition can be stored when each value is of a declared setting and of its kind, and finite. */
  lemma StorableMeans(settings: seq<Setting>, values: map<string, Value>)
    requires ValidSettings(settings)
    ensures Storable(settings, values) <==> forall n :: n in values ==>
      !values[n].NotFinite? && exists st :: st in settings && st.name == n && Admits(st, values[n])
  {
    hide Fits, Admits, UsableName, Blank, FindSetting;
    forall n | n in values
      ensures FindSetting(settings, n).Some? && Fits(FindSetting(settings, n).value, values[n])
        <==> exists st :: st in settings && st.name == n && Admits(st, values[n])
    {
      DeclaredFits(settings, n, values[n]);
    }
  }

  lemma DeclaredFits(settings: seq<Setting>, name: string, value: Value)
    requires ValidSettings(settings)
    ensures FindSetting(settings, name).Some? && Fits(FindSetting(settings, name).value, value)
      <==> exists st :: st in settings && st.name == name && Admits(st, value)
  {
    hide Fits, Admits, UsableName, Blank, FindSetting;
    FoundIsDeclared(settings, name);
    if st :| st in settings && st.name == name { OneOfAName(settings, st, FindSetting(settings, name).value); }
    forall st | st in settings ensures Fits(st, value) <==> Admits(st, value) { FitsByKind(st, value); }
  }

  /** And then every value of it is what its setting resolves to, where nothing overrides it. */
  lemma StoredResolves(settings: seq<Setting>, values: map<string, Value>, name: string)
    requires Storable(settings, values) && name in values
    ensures Resolve(settings, values, map[], name) == Some(Effective(name, values[name], LayerDefinition, "", ""))
  {
    hide Fits;
  }

  /** The values of a definition that no declaration backs or fits, in the order of their names. */
  method CheckSettings(settings: seq<Setting>, values: map<string, Value>) returns (problems: seq<string>)
    ensures problems == [] <==>
      forall n :: n in values ==> FindSetting(settings, n).Some? && Fits(FindSetting(settings, n).value, values[n])
  {
    hide Fits, FindSetting;
    problems := [];
    var todo := values.Keys;
    while todo != {}
      invariant todo <= values.Keys
      invariant problems == [] <==>
        forall n :: n in values && n !in todo ==> FindSetting(settings, n).Some? && Fits(FindSetting(settings, n).value, values[n])
    {
      var n :| n in todo;
      todo := todo - {n};
      var st := FindSetting(settings, n);
      if st.None? || !Fits(st.value, values[n]) { problems := problems + [n]; }
    }
    problems := Sort(T.Less, problems);
  }

  class Store {
    var definitions: map<string, Raw>
    var overrides: map<string, OverrideRow>
    var changes: seq<ChangeRow>

    constructor ()
      ensures Kept() && Said() == State(map[], []) && Definition() == map[]
    {
      definitions, overrides, changes := map[], map[], [];
    }

    /** The overrides and the log as they are read. */
    function Said(): State
      reads this
    {
      State(OverridesOf(overrides), LogOf(changes))
    }

    function Definition(): map<string, Value>
      reads this
    {
      map n | n in definitions :: Decode(definitions[n])
    }

    /** The log retells the overrides, and every stored value was encoded. */
    ghost predicate Kept()
      reads this
    {
      && Agree(Said()) && IdsDiffer(changes)
      && forall n :: n in overrides ==> Proper(overrides[n].value)
    }

    /** The definition's values, replaced as a whole or left as they were. */
    method PutDefinitionSettings(settings: seq<Setting>, values: map<string, Value>) returns (r: Result<()>)
      modifies this`definitions
      ensures r.Ok? <==> settings != [] && Storable(settings, values)
      ensures Definition() == if r.Ok? then values else old(Definition())
    {
      hide Fits, FindSetting;
      if |settings| == 0 { return Err(NoSettings); }
      var problems := CheckSettings(settings, values);
      if problems != [] { return Err(DoesNotFit); }
      var saved := definitions;
      definitions := map[];
      var todo := values.Keys;
      while todo != {}
        invariant todo <= values.Keys && definitions.Keys == values.Keys - todo
        invariant forall n :: n in definitions ==> Encode(values[n]) == Some(definitions[n])
      {
        var n :| n in todo;
        todo := todo - {n};
        var raw := Encode(values[n]);
        if raw.None? {
          definitions := saved;
          return Err(NotEncodable);
        }
        definitions := definitions[n := raw.value];
      }
      forall n | n in values ensures Decode(definitions[n]) == values[n] {
        EncodedDecodes(values[n]);
      }
      r := Ok(());
    }

    /** The two stored layers. */
    method LoadSettingLayers(settings: seq<Setting>) returns (r: Result<(map<string, Value>, map<string, Override>)>)
      ensures r == if settings == [] then Err(NoSettings) else Ok((Definition(), Said().overrides))
    {
      if |settings| == 0 { return Err(NoSettings); }
      var definition: map<string, Value> := map[];
      var todo := definitions.Keys;
      while todo != {}
        invariant todo <= definitions.Keys && definition == map n | n in definitions && n !in todo :: Decode(definitions[n])
      {
        var n :| n in todo;
        todo := todo - {n};
        definition := definition[n := Decode(definitions[n])];
      }
      var held: map<string, Override> := map[];
      todo := overrides.Keys;
      while todo != {}
        invariant todo <= overrides.Keys && held == map n | n in overrides && n !in todo :: OverrideOf(overrides[n])
      {
        var n :| n in todo;
        todo := todo - {n};
        held := held[n := OverrideOf(overrides[n])];
      }
      assert definition == Definition() && held == OverridesOf(overrides);
      r := Ok((definition, held));
    }

    /** One entry more in the log, under an id that must be new. */
    method RecordChange(c: SettingChange, id: string) returns (ok: bool)
      modifies this`changes
      ensures ok == (Encode(c.from).Some? && Encode(c.to).Some? && forall row :: row in old(changes) ==> row.id != id)
      ensures changes == if ok then old(changes)
        + [ChangeRow(id, c.name, Encode(c.from).value, Encode(c.to).value, c.cleared, c.who, c.when)] else old(changes)
    {
      var from, to := Encode(c.from), Encode(c.to);
      if from.None? || to.None? || exists row :: row in changes && row.id == id { return false; }
      changes := changes + [ChangeRow(id, c.name, from.value, to.value, c.cleared, c.who, c.when)];
      ok := true;
    }

    /** Sets an override and logs it, both or neither. */
    method StoreOverride(settings: seq<Setting>, name: string, value: Value, who: string, when: string, id: string)
        returns (r: Result<SettingChange>)
      requires Kept()
      modifies this`overrides, this`changes
      ensures Kept()
      ensures r.Ok? ==> Said() == After(old(Said()), Set(settings, name, value, who, when)) && Said().log == old(Said()).log + [r.value]
      ensures r.Err? ==> Said() == old(Said())
      ensures r.Ok? <==>
        && SetOverride(settings, old(Said()).overrides, name, value, who, when).Ok? && Encode(value).Some?
        && forall row :: row in old(changes) ==> row.id != id
    {
      hide Fits, FindSetting, Agree, Proper;
      FindInNone(name);
      var layers := LoadSettingLayers(settings);
      if layers.Err? { return Err(NoSettings); }
      var next := SetOverride(settings, layers.value.1, name, value, who, when);
      if next.Err? { return Err(next.failure); }
      var raw := Encode(next.value.0[name].value);
      if raw.None? { return Err(NotEncodable); }
      var c := next.value.1;
      ghost var said, rows := Said(), overrides;
      PriorEncodes(overrides, name);
      EncodedDecodes(value);
      var ok := RecordChange(c, id);
      if !ok { return Err(IdTaken); }
      overrides := overrides[name := OverrideRow(raw.value, who, when)];
      LoggedRow(said, rows, old(changes), changes, overrides, c);
      ActKeepsAgreement(said, Set(settings, name, value, who, when));
      r := Ok(c);
    }

    /** Clears an override and logs it, both or neither; with none to clear there is nothing to log. */
    method StoreClearOverride(settings: seq<Setting>, name: string, who: string, when: string, id: string)
        returns (r: Result<Option<SettingChange>>)
      requires Kept()
      modifies this`overrides, this`changes
      ensures Kept()
      ensures r.Ok? ==> Said() == After(old(Said()), Clear(settings, name, who, when))
      ensures r.Ok? ==> Said().log == old(Said()).log + if r.value.Some? then [r.value.value] else []
      ensures r.Err? ==> Said() == old(Said())
      ensures r.Ok? <==>
        && ClearOverride(settings, old(Said()).overrides, name, who, when).Ok?
        && (name in old(Said()).overrides ==> forall row :: row in old(changes) ==> row.id != id)
    {
      hide Fits, FindSetting, Agree, Proper;
      FindInNone(name);
      var layers := LoadSettingLayers(settings);
      if layers.Err? { return Err(NoSettings); }
      var next := ClearOverride(settings, layers.value.1, name, who, when);
      if next.Err? { return Err(next.failure); }
      if next.value.None? { return Ok(None); }
      var c := next.value.value.1;
      ghost var said, rows := Said(), overrides;
      PriorEncodes(overrides, name);
      var ok := RecordChange(c, id);
      if !ok { return Err(IdTaken); }
      overrides := overrides - {name};
      LoggedRow(said, rows, old(changes), changes, overrides, c);
      ActKeepsAgreement(said, Clear(settings, name, who, when));
      r := Ok(Some(c));
    }

    /** The log as it is read back, by time and id. */
    method SettingChanges(settings: seq<Setting>) returns (r: Result<seq<SettingChange>>)
      requires Kept()
      ensures r == if settings == [] then Err(NoSettings) else Ok(LogOf(Sort(RowBefore, changes)))
    {
      hide Sort, RowBefore, ChangeOf;
      if |settings| == 0 { return Err(NoSettings); }
      var rows := Sort(RowBefore, changes);
      var out: seq<SettingChange> := [];
      for i := 0 to |rows|
        invariant out == LogOf(rows[..i])
      {
        out := out + [ChangeOf(rows[i])];
      }
      assert rows[..|rows|] == rows;
      r := Ok(out);
    }
  }

  lemma FindInNone(name: string)
    ensures FindSetting([], name).None?
  {
  }

  /** What an override holds was stored, so it can be stored again. */
  lemma PriorEncodes(rows: map<string, OverrideRow>, name: string)
    requires forall n :: n in rows ==> Proper(rows[n].value)
    ensures Encode(if name in OverridesOf(rows) then OverridesOf(rows)[name].value else Nil).Some?
    ensures Encode(Nil) == Some(Empty)
  {
  }

  /** The rows after a change are the state after it. */
  lemma LoggedRow(said: State, rows: map<string, OverrideRow>, before: seq<ChangeRow>,
      after: seq<ChangeRow>, now: map<string, OverrideRow>, c: SettingChange)
    requires said == State(OverridesOf(rows), LogOf(before))
    requires Encode(c.from).Some? && Encode(c.to).Some?
    requires |after| == |before| + 1 && after[..|before|] == before
    requires after[|before|].name == c.name && after[|before|].from == Encode(c.from).value && after[|before|].to == Encode(c.to).value
    requires after[|before|].cleared == c.cleared && after[|before|].who == c.who && after[|before|].when == c.when
    requires now == if c.cleared then rows - {c.name} else rows[c.name := OverrideRow(Encode(c.to).value, c.who, c.when)]
    ensures State(OverridesOf(now), LogOf(after)) == Logged(said, c)
  {
    EncodedDecodes(c.from);
    EncodedDecodes(c.to);
    assert after == before + [after[|before|]];
    assert ChangeOf(after[|before|]) == c;
    assert LogOf(after) == LogOf(before) + [c];
  }
}
