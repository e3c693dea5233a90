/**
  A module's settings: the shape each declares, the three layers that can give it
  a value, and changing the owner's layer.
 */
module Settings {
  import opened Options
  import T = Text

  /** A value before it is stored; a document is kept as its JSON text. */
  datatype Value = Nil | Text(text: string) | Truth(b: bool) | Number(n: real) | NotFinite(nan: bool) | Document(json: string)

  datatype SettingType =
    | TypeString | TypeText | TypeInt | TypeFloat | TypeBool | TypeEnum | TypeJson
    | TypeTimestamp | TypeBytes | TypeGeometry

  datatype Setting = Setting(name: string, stype: SettingType, description: string, values: seq<string>, default: Value)

  datatype Layer = LayerModule | LayerDefinition | LayerOverride

  datatype Override = Override(value: Value, who: string, when: string)

  datatype Effective = Effective(name: string, value: Value, layer: Layer, who: string, when: string)

  datatype SettingChange = SettingChange(name: string, from: Value, to: Value, cleared: bool, who: string, when: string)

  // -------------------------------------------------------------- shapes

  predicate Whole(n: real) {
    n.Floor as real == n
  }

  /** The value is one the setting can hold. */
  predicate Fits(st: Setting, v: Value) {
    match st.stype
    case TypeString => v.Text?
    case TypeText => v.Text?
    case TypeEnum => v.Text? && v.text in st.values
    case TypeBool => v.Truth?
    case TypeInt => (v.Number? && Whole(v.n)) || (v.NotFinite? && !v.nan)
    case TypeFloat => v.Number? || v.NotFinite?
    case TypeJson => !v.NotFinite?
    case _ => true
  }

  predicate Lower(c: char) { 'a' <= c <= 'z' }

  predicate WordChar(c: char) { Lower(c) || '0' <= c <= '9' }

  /** Words of small letters and digits, the first with a letter first, joined by single underscores. */
  predicate UsableName(s: string) {
    s != "" && Lower(s[0]) && s[|s| - 1] != '_' && forall i :: 0 <= i < |s| ==> Fitting(s, i)
  }

  predicate Fitting(s: string, i: nat)
    requires i < |s|
  {
    WordChar(s[i]) || (s[i] == '_' && i > 0 && s[i - 1] != '_')
  }

  predicate Blank(s: string) {
    forall c :: c in s ==> T.IsSpace(c)
  }

  predicate CanHold(t: SettingType) {
    !(t.TypeTimestamp? || t.TypeBytes? || t.TypeGeometry?)
  }

  predicate WellDeclared(st: Setting) {
    && UsableName(st.name) && CanHold(st.stype) && !Blank(st.description)
    && (st.stype.TypeEnum? <==> st.values != [])
    && st.default != Nil && Fits(st, st.default)
  }

  ghost predicate ValidSettings(settings: seq<Setting>) {
    && (forall st :: st in settings ==> WellDeclared(st))
    && forall i, j :: 0 <= i < j < |settings| ==> settings[i].name != settings[j].name
  }

  datatype Problem =
    | BadName(name: string) | Twice(name: string) | BadType(name: string) | NoDescription(name: string)
    | NoValues(name: string) | StrayValues(name: string) | NoDefault(name: string) | BadDefault(name: string)

  /** What is wrong with one setting by itself, as far as the check gets. */
  method CheckSetting(st: Setting) returns (problems: seq<Problem>)
    requires UsableName(st.name)
    ensures problems == [] <==> WellDeclared(st)
  {
    hide UsableName, Blank;
    problems := [];
    if !CanHold(st.stype) { return [BadType(st.name)]; }
    if Blank(st.description) { problems := problems + [NoDescription(st.name)]; }
    if st.stype.TypeEnum? && |st.values| == 0 { problems := problems + [NoValues(st.name)]; }
    if !st.stype.TypeEnum? && |st.values| > 0 { problems := problems + [StrayValues(st.name)]; }
    if st.default == Nil { return problems + [NoDefault(st.name)]; }
    if !Fits(st, st.default) { problems := problems + [BadDefault(st.name)]; }
  }

  method SettingsProblems(settings: seq<Setting>) returns (problems: seq<Problem>)
    ensures problems == [] <==> ValidSettings(settings)
  {
    hide WellDeclared, UsableName;
    problems := [];
    var seen: set<string> := {};
    for i := 0 to |settings|
      invariant problems == [] <==> ValidSettings(settings[..i])
      invariant forall n :: n in seen <==> exists k :: 0 <= k < i && settings[k].name == n && UsableName(n)
    {
      var st := settings[i];
      NextSetting(settings, i);
      if !UsableName(st.name) {
        problems := problems + [BadName(st.name)];
        continue;
      }
      if st.name in seen { problems := problems + [Twice(st.name)]; }
      seen := seen + {st.name};
      var own := CheckSetting(st);
      problems := problems + own;
    }
    assert settings[..|settings|] == settings;
  }

  lemma NextSetting(settings: seq<Setting>, i: nat)
    requires i < |settings|
    ensures ValidSettings(settings[..i + 1]) <==>
      ValidSettings(settings[..i]) && WellDeclared(settings[i]) && forall k :: 0 <= k < i ==> settings[k].name != settings[i].name
    ensures WellDeclared(settings[i]) ==> UsableName(settings[i].name)
  {
    hide UsableName, Blank, Fits;
    assert settings[..i + 1] == settings[..i] + [settings[i]];
    if ValidSettings(settings[..i + 1]) {
      forall j, k | 0 <= j < k < i ensures settings[..i][j].name != settings[..i][k].name {
        assert settings[..i + 1][j].name != settings[..i + 1][k].name;
      }
      forall k | 0 <= k < i ensures settings[k].name != settings[i].name {
        assert settings[..i + 1][k].name != settings[..i + 1][i].name;
      }
    }
    if ValidSettings(settings[..i]) {
      forall j, k | 0 <= j < k < i ensures settings[j].name != settings[k].name {
        assert settings[..i][j].name != settings[..i][k].name;
      }
    }
  }

  // ------------------------------------------------------------- layers

  /** The declaration of that name; of several, the first. */
  function FindSetting(settings: seq<Setting>, name: string): Option<Setting> {
    if settings == [] then None
    else if settings[0].name == name then Some(settings[0])
    else FindSetting(settings[1..], name)
  }

  lemma {:induction false} FoundIsDeclared(settings: seq<Setting>, name: string)
    ensures FindSetting(settings, name).Some? ==>
      FindSetting(settings, name).value in settings && FindSetting(settings, name).value.name == name
    ensures FindSetting(settings, name).None? <==> forall st :: st in settings ==> st.name != name
  {
    if settings != [] {
      FoundIsDeclared(settings[1..], name);
      assert settings == [settings[0]] + settings[1..];
    }
  }

  function Resolve(settings: seq<Setting>, definition: map<string, Value>, overrides: map<string, Override>, name: string):
      Option<Effective> {
    match FindSetting(settings, name)
    case None => None
    case Some(st) =>
      if name in overrides && Fits(st, overrides[name].value) then
        Some(Effective(name, overrides[name].value, LayerOverride, overrides[name].who, overrides[name].when))
      else if name in definition && Fits(st, definition[name]) then
        Some(Effective(name, definition[name], LayerDefinition, "", ""))
      else Some(Effective(name, st.default, LayerModule, "", ""))
  }

  /** The layers from the weakest, and what each offers for a name. */
  function Offered(st: Setting, definition: map<string, Value>, overrides: map<string, Override>, layer: Layer): Option<Value> {
    match layer
    case LayerModule => Some(st.default)
    case LayerDefinition => if st.name in definition then Some(definition[st.name]) else None
    case LayerOverride => if st.name in overrides then Some(overrides[st.name].value) else None
  }

  function Rank(layer: Layer): nat {
    match layer case LayerModule => 0 case LayerDefinition => 1 case LayerOverride => 2
  }

  /**
    For a valid declaration, a declared setting always resolves, to a value that
    fits its shape as it is declared now: whatever the layers hold, the value is
    that of the strongest layer whose value fits.
   */
  lemma ResolveFits(settings: seq<Setting>, definition: map<string, Value>, overrides: map<string, Override>, name: string)
    requires ValidSettings(settings)
    ensures Resolve(settings, definition, overrides, name).Some? <==> exists st :: st in settings && st.name == name
    ensures forall st :: st in settings && st.name == name ==>
      var e := Resolve(settings, definition, overrides, name).value;
      && Fits(st, e.value) && Offered(st, definition, overrides, e.layer) == Some(e.value)
      && forall l :: Rank(l) > Rank(e.layer) && Offered(st, definition, overrides, l).Some? ==>
        !Fits(st, Offered(st, definition, overrides, l).value)
  {
    hide Fits, UsableName, Blank;
    FoundIsDeclared(settings, name);
    forall st | st in settings && st.name == name ensures FindSetting(settings, name) == Some(st) {
      OneOfAName(settings, st, FindSetting(settings, name).value);
    }
  }

  /** What a setting can hold, by the kind of the value: texts, truths and numbers by type, nothing and documents as JSON. */
  predicate Admits(st: Setting, v: Value) {
    match v
    case Text(t) => st.stype.TypeString? || st.stype.TypeText? || st.stype.TypeJson? || (st.stype.TypeEnum? && t in st.values)
    case Truth(_) => st.stype.TypeBool? || st.stype.TypeJson?
    case Number(n) => st.stype.TypeFloat? || st.stype.TypeJson? || (st.stype.TypeInt? && n - n.Floor as real == 0.0)
    case NotFinite(nan) => st.stype.TypeFloat? || (st.stype.TypeInt? && !nan)
    case Nil => st.stype.TypeJson?
    case Document(_) => st.stype.TypeJson?
  }

  /**
    A setting resolves to a value of its kind: to the override exactly when that is
    one, and else to the definition's when that is.
   */
  lemma ResolvedKind(settings: seq<Setting>, definition: map<string, Value>, overrides: map<string, Override>, st: Setting)
    requires ValidSettings(settings) && st in settings
    ensures var e := Resolve(settings, definition, overrides, st.name);
      && e.Some? && e.value.name == st.name && Admits(st, e.value.value)
      && (e.value.layer == LayerOverride <==> st.name in overrides && Admits(st, overrides[st.name].value))
      && (e.value.layer == LayerOverride ==>
        Override(e.value.value, e.value.who, e.value.when) == overrides[st.name])
      && (e.value.layer == LayerModule <==>
        && !(st.name in overrides && Admits(st, overrides[st.name].value))
        && !(st.name in definition && Admits(st, definition[st.name])))
      && (e.value.layer == LayerModule ==> e.value.value == st.default)
      && (e.value.layer == LayerDefinition ==> st.name in definition && e.value.value == definition[st.name])
  {
    FitsByKind(st, st.default);
    if st.name in overrides { FitsByKind(st, overrides[st.name].value); }
    if st.name in definition { FitsByKind(st, definition[st.name]); }
    hide Fits, Admits, UsableName, Blank;
    FoundIsDeclared(settings, st.name);
    OneOfAName(settings, st, FindSetting(settings, st.name).value);
  }

  lemma FitsByKind(st: Setting, v: Value)
    requires CanHold(st.stype)
    ensures Fits(st, v) <==> Admits(st, v)
  {
  }

  lemma OneOfAName(settings: seq<Setting>, a: Setting, b: Setting)
    requires ValidSettings(settings) && a in settings && b in settings && a.name == b.name
    ensures a == b
  {
    var i :| 0 <= i < |settings| && settings[i] == a;
    var j :| 0 <= j < |settings| && settings[j] == b;
  }

  method ResolveAll(settings: seq<Setting>, definition: map<string, Value>, overrides: map<string, Override>) returns (out: seq<Effective>)
    ensures |out| == |settings|
    ensures forall i :: 0 <= i < |out| ==> Resolve(settings, definition, overrides, settings[i].name) == Some(out[i])
  {
    hide Fits;
    out := [];
    for i := 0 to |settings|
      invariant |out| == i
      invariant forall k :: 0 <= k < i ==> Resolve(settings, definition, overrides, settings[k].name) == Some(out[k])
    {
      FoundIsDeclared(settings, settings[i].name);
      var e := Resolve(settings, definition, overrides, settings[i].name);
      out := out + [e.value];
    }
  }

  // ------------------------------------------------------------ changes

  datatype Failure = NotDeclared | Unattributed | DoesNotFit | NotEncodable | NoSettings | IdTaken

  datatype Result<+V> = Ok(value: V) | Err(failure: Failure)

  /** The overrides after a set, and what it changed. */
  function SetOverride(settings: seq<Setting>, overrides: map<string, Override>, name: string, value: Value, who: string, when: string):
      Result<(map<string, Override>, SettingChange)> {
    match FindSetting(settings, name)
    case None => Err(NotDeclared)
    case Some(st) =>
      if who == "" || when == "" then Err(Unattributed)
      else if !Fits(st, value) then Err(DoesNotFit)
      else
        var from := if name in overrides then overrides[name].value else Nil;
        Ok((overrides[name := Override(value, who, when)], SettingChange(name, from, value, false, who, when)))
  }

  /** The overrides after a clear and what it changed, or nothing when there was none to clear. */
  function ClearOverride(settings: seq<Setting>, overrides: map<string, Override>, name: string, who: string, when: string):
      Result<Option<(map<string, Override>, SettingChange)>> {
    if FindSetting(settings, name).None? then Err(NotDeclared)
    else if who == "" || when == "" then Err(Unattributed)
    else if name !in overrides then Ok(None)
    else Ok(Some((overrides - {name}, SettingChange(name, overrides[name].value, Nil, true, who, when))))
  }

  /** What is set is what resolves, with who set it and when; no other setting resolves otherwise. */
  lemma SetResolves(settings: seq<Setting>, definition: map<string, Value>, overrides: map<string, Override>,
                    st: Setting, value: Value, who: string, when: string)
    requires ValidSettings(settings) && st in settings
    ensures var made := SetOverride(settings, overrides, st.name, value, who, when);
      && (made.Ok? <==> who != "" && when != "" && Admits(st, value))
      && (made.Ok? ==>
        && Resolve(settings, definition, made.value.0, st.name) == Some(Effective(st.name, value, LayerOverride, who, when))
        && (forall name :: name != st.name ==>
             Resolve(settings, definition, made.value.0, name) == Resolve(settings, definition, overrides, name))
        && made.value.1.name == st.name && made.value.1.to == value && made.value.1.who == who && made.value.1.when == when
        && made.value.1.from == (if st.name in overrides then overrides[st.name].value else Nil) && !made.value.1.cleared)
  {
    FitsByKind(st, value);
    hide Fits, Admits, UsableName, Blank;
    FoundIsDeclared(settings, st.name);
    OneOfAName(settings, st, FindSetting(settings, st.name).value);
  }

  /** What is cleared resolves as if it had never been set. */
  lemma ClearResolves(settings: seq<Setting>, definition: map<string, Value>, overrides: map<string, Override>,
                      st: Setting, who: string, when: string)
    requires ValidSettings(settings) && st in settings
    ensures var cleared := ClearOverride(settings, overrides, st.name, who, when);
      && (cleared.Ok? <==> who != "" && when != "")
      && (cleared.Ok? ==> (cleared.value.Some? <==> st.name in overrides))
      && (cleared.Ok? && cleared.value.Some? ==>
        var left, change := cleared.value.value.0, cleared.value.value.1;
        && Resolve(settings, definition, left, st.name).value.layer != LayerOverride
        && (forall name :: name != st.name ==>
             Resolve(settings, definition, left, name) == Resolve(settings, definition, overrides, name))
        && change.name == st.name && change.cleared && change.from == overrides[st.name].value && change.to == Nil
        && change.who == who && change.when == when)
  {
    hide Fits, UsableName, Blank;
    FoundIsDeclared(settings, st.name);
    OneOfAName(settings, st, FindSetting(settings, st.name).value);
  }
}
