/**
  The declared operations of a module, and what a declaration is refused for:
  names, actions, and operations that share an address.
 */
module Operations {
  import opened Options
  import opened Sorting
  import T = Text

  const METHODS := ["GET", "POST", "PUT", "PATCH", "DELETE"]

  /** `whenQuery` names the query parameter that selects the operation at its address. */
  datatype Operation = Operation(
    verb: string, path: string, whenQuery: string, call: string, handled: bool, action: string)

  datatype Spec = Spec(base: string, operations: map<string, Operation>)

  function AddressOf(op: Operation): string {
    op.verb + " " + op.path
  }

  // --------------------------------------------------------------- names

  predicate Lower(c: char) { 'a' <= c <= 'z' }

  predicate NameChar(c: char) { Lower(c) || '0' <= c <= '9' || c == '_' }

  predicate UsableName(s: string) {
    s != "" && Lower(s[0]) && forall i :: 1 <= i < |s| ==> NameChar(s[i])
  }

  /** At least n names with dots between. */
  predicate Segments(s: string, n: nat) {
    (n <= 1 && UsableName(s))
    || exists i :: 0 <= i < |s| && s[i] == '.' && UsableName(s[..i]) && Segments(s[i + 1..], if n > 0 then n - 1 else 0)
  }

  predicate UsableAction(s: string) {
    Segments(s, 3)
  }

  // ------------------------------------------------------------ validity

  /** What is wrong with one operation by itself. */
  predicate WellDeclared(name: string, op: Operation) {
    && UsableName(name) && op.verb in METHODS && op.path != "" && op.path[0] == '/'
    && (op.call == "" <==> op.handled)
    && UsableAction(op.action)
    && (op.whenQuery != "" ==> UsableName(op.whenQuery) && !op.handled)
  }

  predicate Declared(s: Spec, name: string) {
    name in s.operations
  }

  ghost predicate ActionsApart(s: Spec) {
    forall a, b :: Declared(s, a) && Declared(s, b) && a != b ==> s.operations[a].action != s.operations[b].action
  }

  /** No two operations answer one address without a query parameter, and no two with the same one. */
  ghost predicate RequestsApart(s: Spec, selected: bool) {
    forall a, b :: Declared(s, a) && Declared(s, b) && a != b
      && s.operations[a].whenQuery == s.operations[b].whenQuery && (s.operations[a].whenQuery != "" <==> selected)
      ==> AddressOf(s.operations[a]) != AddressOf(s.operations[b])
  }

  ghost predicate Defaults(s: Spec, name: string, default: string) {
    && Declared(s, name) && Declared(s, default) && AddressOf(s.operations[default]) == AddressOf(s.operations[name])
    && s.operations[default].whenQuery == "" && !s.operations[default].handled
  }

  /** An operation that waits for a query parameter has one beside it for the other requests. */
  ghost predicate AllDefaulted(s: Spec) {
    forall n :: Declared(s, n) && s.operations[n].whenQuery != "" ==> exists d :: Defaults(s, n, d)
  }

  ghost predicate Valid(s: Spec) {
    && s.operations != map[]
    && (forall n :: Declared(s, n) ==> WellDeclared(n, s.operations[n]))
    && ActionsApart(s) && RequestsApart(s, false) && RequestsApart(s, true) && AllDefaulted(s)
  }

  // ------------------------------------------------------------ checking

  predicate TextBefore(a: string, b: string) {
    T.Less(a, b)
  }

  lemma TextSorts(s: seq<string>)
    ensures Orders(TextBefore, s)
  {
    forall x, y, z ensures !TextBefore(x, y) && !TextBefore(y, z) ==> !TextBefore(x, z) {
      T.LessTrans(x, y, z);
      T.LessTrans(z, y, x);
      T.LessTrans(y, z, x);
      T.LessTrans(x, z, x);
    }
    forall x, y ensures TextBefore(x, y) ==> !TextBefore(y, x) {
      T.LessTrans(x, y, x);
    }
  }

  /** The names, each once, in the order of their text. */
  ghost predicate InOrder(names: seq<string>) {
    forall i, j :: 0 <= i < j < |names| ==> T.Less(names[i], names[j])
  }

  method SortedKeys(m: map<string, Operation>) returns (names: seq<string>)
    ensures InOrder(names) && forall n :: n in names <==> n in m
  {
    hide Sort, TextBefore;
    names := [];
    var todo := m.Keys;
    while todo != {}
      invariant todo <= m.Keys && Distinct(names)
      invariant forall n :: n in names <==> n in m && n !in todo
    {
      var n :| n in todo;
      todo := todo - {n};
      names := names + [n];
    }
    TextSorts(names);
    SortIsSorted(TextBefore, names);
    SortIsPermutation(TextBefore, names);
    DistinctIsMultiplicity(names);
    names := Sort(TextBefore, names);
    DistinctIsMultiplicity(names);
    Strictly(names);
  }

  lemma Strictly(names: seq<string>)
    requires Sorted(TextBefore, names) && Distinct(names)
    ensures InOrder(names)
  {
    forall i, j | 0 <= i < j < |names| ensures T.Less(names[i], names[j]) {
      T.LessTrans(names[i], names[j], names[i]);
    }
  }

  datatype Problem =
    | NoOperations
    | BadName(name: string) | BadVerb(name: string) | BadPath(name: string) | BadCall(name: string) | BadAction(name: string)
    | BadSelector(name: string) | HandledSelector(name: string)
    | SameAction(first: string, second: string) | SameAddress(first: string, second: string)
    | SameSelector(first: string, second: string)
    | NoDefault(address: string) | HandledDefault(address: string)

  /** What is wrong with one operation by itself, as far as it shows before the others are looked at. */
  method CheckOperation(name: string, op: Operation) returns (problems: seq<Problem>)
    ensures UsableName(name) ==> (problems == [] <==> WellDeclared(name, op))
  {
    hide UsableName, UsableAction;
    problems := [];
    if op.verb !in METHODS { problems := problems + [BadVerb(name)]; }
    if op.path == "" || op.path[0] != '/' { problems := problems + [BadPath(name)]; }
    if (op.call == "" && !op.handled) || (op.call != "" && op.handled) { problems := problems + [BadCall(name)]; }
    if !UsableAction(op.action) { problems := problems + [BadAction(name)]; }
    if op.whenQuery != "" {
      if !UsableName(op.whenQuery) { problems := problems + [BadSelector(name)]; }
      if op.handled { problems := problems + [HandledSelector(name)]; }
    }
  }

  // ---------------------------------------------- what a pass has seen

  /** No two of the keys that are there are the same. */
  ghost predicate Apart<K>(keys: seq<Option<K>>) {
    forall j, k :: 0 <= j < k < |keys| && keys[j].Some? ==> keys[j] != keys[k]
  }

  ghost predicate Seen<K(!new)>(keys: seq<Option<K>>, seen: set<K>) {
    forall x :: x in seen <==> Some(x) in keys
  }

  /** One key more, met for the first time or again. */
  lemma SeenNext<K(!new)>(keys: seq<Option<K>>, seen: set<K>, key: Option<K>)
    requires Seen(keys, seen)
    ensures Apart(keys + [key]) <==> Apart(keys) && (key.Some? ==> key.value !in seen)
    ensures key.None? || key.value in seen ==> Seen(keys + [key], seen)
    ensures key.Some? ==> Seen(keys + [key], seen + {key.value})
  {
    var all := keys + [key];
    if Apart(all) {
      forall j, k | 0 <= j < k < |keys| && keys[j].Some? ensures keys[j] != keys[k] {
        assert all[j] == keys[j] && all[k] == keys[k];
      }
      if key.Some? {
        forall j | 0 <= j < |keys| ensures keys[j] != key {
          assert all[j] == keys[j] && all[|keys|] == key;
        }
      }
    }
    if Apart(keys) && (key.Some? ==> key.value !in seen) {
      forall j, k | 0 <= j < k < |all| && all[j].Some? ensures all[j] != all[k] {
        assert keys[j] in keys;
      }
    }
  }

  lemma KeyPut<K, V>(m: map<K, V>, k: K, v: V)
    ensures m[k := v].Keys == m.Keys + {k}
  {
  }

  /** The action an operation claims in the pass, if it gets that far. */
  function ActionKey(name: string, op: Operation): Option<string> {
    if UsableName(name) && UsableAction(op.action) then Some(op.action) else None
  }

  function AddressKey(name: string, op: Operation): Option<string> {
    if UsableName(name) && op.whenQuery == "" then Some(AddressOf(op)) else None
  }

  function SelectorKey(name: string, op: Operation): Option<(string, string)> {
    if op.whenQuery != "" then Some((AddressOf(op), op.whenQuery)) else None
  }

  function Keys<K>(s: Spec, names: seq<string>, key: (string, Operation) -> Option<K>): (r: seq<Option<K>>)
    requires forall n :: n in names ==> n in s.operations
    ensures |r| == |names| && forall i :: 0 <= i < |r| ==> r[i] == key(names[i], s.operations[names[i]])
  {
    seq(|names|, i requires 0 <= i < |names| => key(names[i], s.operations[names[i]]))
  }

  lemma KeysNext<K>(s: Spec, names: seq<string>, key: (string, Operation) -> Option<K>, i: nat)
    requires i < |names| && forall n :: n in names ==> n in s.operations
    ensures Keys(s, names[..i + 1], key) == Keys(s, names[..i], key) + [key(names[i], s.operations[names[i]])]
  {
  }

  predicate AllWell(s: Spec, names: seq<string>) {
    forall i :: 0 <= i < |names| ==> names[i] in s.operations && WellDeclared(names[i], s.operations[names[i]])
  }

  /** Everything a declaration is refused for, and nothing else. */
  method Validate(s: Spec) returns (problems: seq<Problem>)
    ensures problems == [] <==> Valid(s)
  {
    hide Valid, AllWell, Apart, Seen, UsableName, UsableAction, AddressOf, WellDeclared;
    problems := [];
    if |s.operations| == 0 { problems := [NoOperations]; }
    var names := SortedKeys(s.operations);
    var seenAction: map<string, string>, seenAddress: map<string, string> := map[], map[];
    PassBegins(s, names);
    assert seenAction.Keys == {} && seenAddress.Keys == {};
    for i := 0 to |names|
      invariant problems == [] <==>
        && s.operations != map[] && AllWell(s, names[..i])
        && Apart(Keys(s, names[..i], ActionKey)) && Apart(Keys(s, names[..i], AddressKey))
      invariant Seen(Keys(s, names[..i], ActionKey), seenAction.Keys)
      invariant Seen(Keys(s, names[..i], AddressKey), seenAddress.Keys)
    {
      var name := names[i];
      var op := s.operations[name];
      KeysNext(s, names, ActionKey, i);
      KeysNext(s, names, AddressKey, i);
      SeenNext(Keys(s, names[..i], ActionKey), seenAction.Keys, ActionKey(name, op));
      SeenNext(Keys(s, names[..i], AddressKey), seenAddress.Keys, AddressKey(name, op));
      WellNext(s, names, i);
      if !UsableName(name) {
        problems := problems + [BadName(name)];
        continue;
      }
      var own := CheckOperation(name, op);
      problems := problems + own;
      if UsableAction(op.action) {
        if op.action in seenAction {
          problems := problems + [SameAction(seenAction[op.action], name)];
        } else {
          KeyPut(seenAction, op.action, name);
          seenAction := seenAction[op.action := name];
        }
      }
      if op.whenQuery == "" {
        var address := AddressOf(op);
        if address in seenAddress {
          problems := problems + [SameAddress(seenAddress[address], name)];
        } else {
          KeyPut(seenAddress, address, name);
          seenAddress := seenAddress[address := name];
        }
      }
    }
    assert names[..|names|] == names;
    var others, order := CheckAlternatives(s);
    problems := problems + others;
    PassesDecide(s, names, order);
  }

  lemma PassBegins(s: Spec, names: seq<string>)
    ensures AllWell(s, names[..0])
    ensures Apart(Keys(s, names[..0], ActionKey)) && Apart(Keys(s, names[..0], AddressKey)) && Apart(Keys(s, names[..0], SelectorKey))
    ensures Seen(Keys(s, names[..0], ActionKey), {}) && Seen(Keys(s, names[..0], AddressKey), {})
    ensures Seen(Keys(s, names[..0], SelectorKey), {})
  {
  }

  lemma WellNext(s: Spec, names: seq<string>, i: nat)
    requires i < |names| && names[i] in s.operations
    ensures AllWell(s, names[..i + 1]) <==> AllWell(s, names[..i]) && WellDeclared(names[i], s.operations[names[i]])
    ensures WellDeclared(names[i], s.operations[names[i]]) ==> UsableName(names[i])
  {
    hide UsableName, UsableAction;
    assert names[..i + 1] == names[..i] + [names[i]];
  }

  // ------------------------------------------------------- alternatives

  /** The operation at the address that no parameter selects; of several, the last by name. */
  function LastDefault(s: Spec, names: seq<string>, address: string): Option<Operation>
    requires forall n :: n in names ==> n in s.operations
  {
    if names == [] then None
    else
      var op := s.operations[names[|names| - 1]];
      if op.whenQuery == "" && AddressOf(op) == address then Some(op)
      else LastDefault(s, names[..|names| - 1], address)
  }

  predicate AnswersTheRest(s: Spec, names: seq<string>, address: string)
    requires forall n :: n in names ==> n in s.operations
  {
    LastDefault(s, names, address).Some? && !LastDefault(s, names, address).value.handled
  }

  ghost predicate AllAnswered(s: Spec, names: seq<string>)
    requires forall n :: n in names ==> n in s.operations
  {
    forall n :: n in names && s.operations[n].whenQuery != "" ==> AnswersTheRest(s, names, AddressOf(s.operations[n]))
  }

  /** The pairs that a map of maps holds. */
  function Flat(selectors: map<string, map<string, string>>): set<(string, string)> {
    set a, q | a in selectors && q in selectors[a] :: (a, q)
  }

  function Under(selectors: map<string, map<string, string>>, address: string): map<string, string> {
    if address in selectors then selectors[address] else map[]
  }

  lemma FlatNext(selectors: map<string, map<string, string>>, address: string, q: string, name: string)
    ensures Flat(selectors[address := Under(selectors, address)[q := name]]) == Flat(selectors) + {(address, q)}
    ensures q in Under(selectors, address) <==> (address, q) in Flat(selectors)
  {
  }

  method CheckAlternatives(s: Spec) returns (problems: seq<Problem>, order: seq<string>)
    ensures InOrder(order) && forall n :: n in order <==> n in s.operations
    ensures problems == [] <==> Apart(Keys(s, order, SelectorKey)) && AllAnswered(s, order)
  {
    hide Apart, Seen, AddressOf, LastDefault, Flat, InOrder, AllAnswered;
    problems := [];
    var names := SortedKeys(s.operations);
    order := names;
    var selectors: map<string, map<string, string>> := map[];
    var defaults: map<string, Operation> := map[];
    PassBegins(s, names);
    AlternativesBegin(s, names);
    for i := 0 to |names|
      invariant problems == [] <==> Apart(Keys(s, names[..i], SelectorKey))
      invariant Seen(Keys(s, names[..i], SelectorKey), Flat(selectors))
      invariant DefaultsHeld(s, names[..i], defaults)
      invariant forall a :: a in selectors ==> selectors[a] != map[]
    {
      var name := names[i];
      var op := s.operations[name];
      var address := AddressOf(op);
      KeysNext(s, names, SelectorKey, i);
      SeenNext(Keys(s, names[..i], SelectorKey), Flat(selectors), SelectorKey(name, op));
      DefaultsNext(s, names, i, defaults);
      if op.whenQuery == "" {
        defaults := defaults[address := op];
        continue;
      }
      var byKey := Under(selectors, address);
      FlatNext(selectors, address, op.whenQuery, name);
      if op.whenQuery in byKey {
        problems := problems + [SameSelector(byKey[op.whenQuery], name)];
      } else {
        selectors := selectors[address := byKey[op.whenQuery := name]];
      }
    }
    assert names[..|names|] == names;
    ghost var clear := problems == [];
    var todo := selectors.Keys;
    while todo != {}
      invariant todo <= selectors.Keys
      invariant problems == [] <==> clear && forall a :: a in selectors && a !in todo ==> AnswersTheRest(s, names, a)
    {
      var address :| address in todo;
      todo := todo - {address};
      if address !in defaults {
        problems := problems + [NoDefault(address)];
      } else if defaults[address].handled {
        problems := problems + [HandledDefault(address)];
      }
    }
    SelectorsAnswered(s, names, selectors);
  }

  ghost predicate DefaultsHeld(s: Spec, names: seq<string>, defaults: map<string, Operation>)
    requires forall n :: n in names ==> n in s.operations
  {
    forall a :: (a in defaults <==> LastDefault(s, names, a).Some?) && (a in defaults ==> LastDefault(s, names, a) == Some(defaults[a]))
  }

  lemma AlternativesBegin(s: Spec, names: seq<string>)
    ensures DefaultsHeld(s, names[..0], map[]) && Flat(map[]) == {}
  {
  }

  lemma DefaultsNext(s: Spec, names: seq<string>, i: nat, defaults: map<string, Operation>)
    requires i < |names| && (forall n :: n in names ==> n in s.operations) && DefaultsHeld(s, names[..i], defaults)
    ensures
      var op := s.operations[names[i]];
      DefaultsHeld(s, names[..i + 1], if op.whenQuery == "" then defaults[AddressOf(op) := op] else defaults)
  {
    hide AddressOf;
    assert names[..i + 1][..i] == names[..i];
  }

  lemma SelectorsAnswered(s: Spec, names: seq<string>, selectors: map<string, map<string, string>>)
    requires forall n :: n in names ==> n in s.operations
    requires Seen(Keys(s, names, SelectorKey), Flat(selectors)) && forall a :: a in selectors ==> selectors[a] != map[]
    ensures (forall a :: a in selectors ==> AnswersTheRest(s, names, a)) <==> AllAnswered(s, names)
  {
    hide AddressOf, AnswersTheRest;
    var keys := Keys(s, names, SelectorKey);
    forall n | n in names && s.operations[n].whenQuery != "" ensures AddressOf(s.operations[n]) in selectors {
      var i :| 0 <= i < |names| && names[i] == n;
      var pair := (AddressOf(s.operations[n]), s.operations[n].whenQuery);
      assert keys[i] == Some(pair);
      assert pair in Flat(selectors);
    }
    forall a | a in selectors ensures exists n :: n in names && s.operations[n].whenQuery != "" && AddressOf(s.operations[n]) == a {
      var q :| q in selectors[a];
      assert (a, q) in Flat(selectors);
      var i :| 0 <= i < |keys| && keys[i] == Some((a, q));
      assert names[i] in names;
    }
  }

  // --------------------------------------------- what the passes decide

  lemma ApartByName<K>(s: Spec, names: seq<string>, key: (string, Operation) -> Option<K>)
    requires InOrder(names) && forall n :: n in names <==> n in s.operations
    ensures Apart(Keys(s, names, key)) <==>
      forall a, b :: Declared(s, a) && Declared(s, b) && a != b && key(a, s.operations[a]).Some?
        ==> key(a, s.operations[a]) != key(b, s.operations[b])
  {
    var keys := Keys(s, names, key);
    if Apart(keys) {
      forall a, b | Declared(s, a) && Declared(s, b) && a != b && key(a, s.operations[a]).Some?
        ensures key(a, s.operations[a]) != key(b, s.operations[b])
      {
        var i :| 0 <= i < |names| && names[i] == a;
        var j :| 0 <= j < |names| && names[j] == b;
        assert keys[i] == key(a, s.operations[a]) && keys[j] == key(b, s.operations[b]);
      }
    } else {
      var j, k :| 0 <= j < k < |keys| && keys[j].Some? && keys[j] == keys[k];
      T.LessTrans(names[j], names[k], names[j]);
      assert Declared(s, names[j]) && Declared(s, names[k]);
    }
  }

  lemma {:induction false} LastDefaultIs(s: Spec, names: seq<string>, address: string, n: string)
    requires forall n :: n in names ==> n in s.operations
    requires RequestsApart(s, false)
    ensures LastDefault(s, names, address).Some? <==>
      exists d :: d in names && s.operations[d].whenQuery == "" && AddressOf(s.operations[d]) == address
    ensures n in names && s.operations[n].whenQuery == "" && AddressOf(s.operations[n]) == address
      ==> LastDefault(s, names, address) == Some(s.operations[n])
  {
    hide AddressOf;
    if names != [] {
      var k := |names| - 1;
      LastDefaultIs(s, names[..k], address, n);
      assert names == names[..k] + [names[k]];
      assert Declared(s, names[k]) && (n in names ==> Declared(s, n));
    }
  }

  lemma AnsweredIsDefaulted(s: Spec, names: seq<string>)
    requires (forall n :: n in names <==> n in s.operations) && RequestsApart(s, false)
    ensures AllAnswered(s, names) <==> AllDefaulted(s)
  {
    hide AddressOf, LastDefault, RequestsApart;
    forall n | Declared(s, n) && s.operations[n].whenQuery != ""
      ensures AnswersTheRest(s, names, AddressOf(s.operations[n])) <==> exists d :: Defaults(s, n, d)
    {
      var address := AddressOf(s.operations[n]);
      LastDefaultIs(s, names, address, n);
      forall d | Declared(s, d) ensures Defaults(s, n, d) ==> AnswersTheRest(s, names, address) {
        LastDefaultIs(s, names, address, d);
      }
      if AnswersTheRest(s, names, address) {
        var d :| d in names && s.operations[d].whenQuery == "" && AddressOf(s.operations[d]) == address;
        LastDefaultIs(s, names, address, d);
        assert Defaults(s, n, d);
      }
    }
  }

  lemma WellIsDeclared(s: Spec, names: seq<string>)
    requires forall n :: n in names <==> n in s.operations
    ensures AllWell(s, names) <==> forall n :: Declared(s, n) ==> WellDeclared(n, s.operations[n])
  {
    hide WellDeclared;
    forall n | n in s.operations ensures exists i :: 0 <= i < |names| && names[i] == n {
      assert n in names;
    }
  }

  lemma KeysOfWell(s: Spec, a: string)
    requires Declared(s, a) && WellDeclared(a, s.operations[a])
    ensures ActionKey(a, s.operations[a]) == Some(s.operations[a].action)
    ensures AddressKey(a, s.operations[a]) == if s.operations[a].whenQuery == "" then Some(AddressOf(s.operations[a])) else None
  {
    hide UsableName, UsableAction;
  }

  lemma PassesDecide(s: Spec, names: seq<string>, order: seq<string>)
    requires InOrder(names) && forall n :: n in names <==> n in s.operations
    requires InOrder(order) && forall n :: n in order <==> n in s.operations
    ensures Valid(s) <==>
      && s.operations != map[] && AllWell(s, names)
      && Apart(Keys(s, names, ActionKey)) && Apart(Keys(s, names, AddressKey))
      && Apart(Keys(s, order, SelectorKey)) && AllAnswered(s, order)
  {
    hide WellDeclared, AllAnswered, AllDefaulted, AllWell, InOrder, Apart, AddressOf, ActionKey, AddressKey;
    WellIsDeclared(s, names);
    ApartByName(s, names, ActionKey);
    ApartByName(s, names, AddressKey);
    SelectorsApart(s, order);
    if AllWell(s, names) {
      forall a | Declared(s, a)
        ensures ActionKey(a, s.operations[a]) == Some(s.operations[a].action)
        ensures AddressKey(a, s.operations[a]) == if s.operations[a].whenQuery == "" then Some(AddressOf(s.operations[a])) else None
      {
        KeysOfWell(s, a);
      }
      if RequestsApart(s, false) {
        AnsweredIsDefaulted(s, order);
      }
    }
  }

  lemma SelectorsApart(s: Spec, order: seq<string>)
    requires InOrder(order) && forall n :: n in order <==> n in s.operations
    ensures Apart(Keys(s, order, SelectorKey)) <==> RequestsApart(s, true)
  {
    hide InOrder, Apart, AddressOf;
    ApartByName(s, order, SelectorKey);
  }
}
