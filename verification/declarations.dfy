/**
  What a module's declarations are refused for, said of each by itself and of all
  together, without the passes that look for it.
 */
module Declarations {
  import opened Names
  import opened Text
  import D = Operations
  import R = Routes
  import S = Settings

  // ------------------------------------------------------------ operations

  /**
    One operation by itself: named, routed by a verb below the root, either called or
    handled by the module, under an action, and selected by a parameter only if called.
   */
  lemma DeclaredOperation(name: string, op: D.Operation)
    ensures D.WellDeclared(name, op) <==>
      && D.UsableName(name) && op.verb in ["GET", "POST", "PUT", "PATCH", "DELETE"]
      && (exists rest: string :: op.path == "/" + rest)
      && (op.handled ==> op.call == "" && op.whenQuery == "")
      && (!op.handled ==> op.call != "" && (op.whenQuery == "" || D.UsableName(op.whenQuery)))
      && |Split(op.action, '.')| >= 3 && AllUsable(Split(op.action, '.'))
  {
    hide D.UsableName, D.UsableAction, AllUsable, Split;
    ActionsAreNames(op.action);
    if op.path != "" && op.path[0] == '/' { assert op.path == "/" + op.path[1..]; }
  }

  /** Two operations of a declaration may stand side by side: under two actions, and not for the same requests. */
  predicate StandApart(a: D.Operation, b: D.Operation) {
    a.action != b.action && !(a.verb == b.verb && a.path == b.path && a.whenQuery == b.whenQuery)
  }

  /** The operation is called for the requests to the other's verb and path that have not the other's parameter. */
  predicate ServesTheRest(d: D.Operation, op: D.Operation) {
    d.verb == op.verb && d.path == op.path && d.whenQuery == "" && !d.handled
  }

  /** A declaration by itself: some operations, each well declared, any two apart, and each selected one with one for the rest. */
  lemma ValidDeclaration(s: D.Spec)
    ensures D.Valid(s) <==>
      && |s.operations| > 0
      && (forall n :: n in s.operations ==> D.WellDeclared(n, s.operations[n]))
      && (forall a, b :: a in s.operations && b in s.operations && a != b ==> StandApart(s.operations[a], s.operations[b]))
      && (forall n :: n in s.operations && s.operations[n].whenQuery != "" ==>
           exists d :: d in s.operations && ServesTheRest(s.operations[d], s.operations[n]))
  {
    hide D.WellDeclared, D.AddressOf, D.UsableName, D.UsableAction;
    if forall n :: n in s.operations ==> D.WellDeclared(n, s.operations[n]) {
      forall a, b | a in s.operations && b in s.operations ensures SameAddress(s.operations[a], s.operations[b]) {
        AddressOfBoth(a, s.operations[a], b, s.operations[b]);
      }
      ApartByAddress(s);
    }
  }

  /** The text of an address tells verb and path. */
  predicate SameAddress(a: D.Operation, b: D.Operation) {
    D.AddressOf(a) == D.AddressOf(b) <==> a.verb == b.verb && a.path == b.path
  }

  predicate AddressesTell(s: D.Spec) {
    forall a, b :: a in s.operations && b in s.operations ==> SameAddress(s.operations[a], s.operations[b])
  }

  lemma AddressOfBoth(m: string, a: D.Operation, n: string, b: D.Operation)
    requires D.WellDeclared(m, a) && D.WellDeclared(n, b)
    ensures SameAddress(a, b)
  {
    R.AddressIsVerbAndPath(a, b);
  }

  lemma ApartByAddress(s: D.Spec)
    requires AddressesTell(s)
    ensures D.ActionsApart(s) && D.RequestsApart(s, false) && D.RequestsApart(s, true) <==>
      forall a, b :: a in s.operations && b in s.operations && a != b ==> StandApart(s.operations[a], s.operations[b])
    ensures D.AllDefaulted(s) <==> forall n :: n in s.operations && s.operations[n].whenQuery != "" ==>
      exists d :: d in s.operations && ServesTheRest(s.operations[d], s.operations[n])
  {
    hide D.AddressOf;
    BySelector(s);
    if D.AllDefaulted(s) {
      forall n | n in s.operations && s.operations[n].whenQuery != ""
        ensures exists d :: d in s.operations && ServesTheRest(s.operations[d], s.operations[n])
      {
        assert D.Declared(s, n);
        var d :| D.Defaults(s, n, d);
        assert ServesTheRest(s.operations[d], s.operations[n]);
      }
    }
    if forall n :: n in s.operations && s.operations[n].whenQuery != "" ==>
      exists d :: d in s.operations && ServesTheRest(s.operations[d], s.operations[n])
    {
      forall n | D.Declared(s, n) && s.operations[n].whenQuery != "" ensures exists d :: D.Defaults(s, n, d) {
        var d :| d in s.operations && ServesTheRest(s.operations[d], s.operations[n]);
        assert D.Defaults(s, n, d);
      }
    }
  }

  lemma BySelector(s: D.Spec)
    requires AddressesTell(s)
    ensures D.ActionsApart(s) && D.RequestsApart(s, false) && D.RequestsApart(s, true) <==>
      forall a, b :: a in s.operations && b in s.operations && a != b ==> StandApart(s.operations[a], s.operations[b])
  {
    hide D.AddressOf;
    if D.ActionsApart(s) && D.RequestsApart(s, false) && D.RequestsApart(s, true) {
      forall a, b | a in s.operations && b in s.operations && a != b ensures StandApart(s.operations[a], s.operations[b]) {
        assert D.Declared(s, a) && D.Declared(s, b);
      }
    }
  }

  // -------------------------------------------------------------- settings

  /**
    One setting by itself: named, of a type a setting can hold, described, with values
    if it picks from them, and a default of its kind.
   */
  lemma DeclaredSetting(st: S.Setting)
    ensures S.WellDeclared(st) <==>
      && S.UsableName(st.name)
      && st.stype in [S.TypeString, S.TypeText, S.TypeInt, S.TypeFloat, S.TypeBool, S.TypeEnum, S.TypeJson]
      && (exists c :: c in st.description && !IsSpace(c))
      && (|st.values| > 0 <==> st.stype == S.TypeEnum)
      && st.default != S.Nil && S.Admits(st, st.default)
  {
    hide S.UsableName, S.Fits, S.Admits, IsSpace;
    if S.CanHold(st.stype) { S.FitsByKind(st, st.default); }
  }

  // ---------------------------------------------------------------- verbs

  /** The verbs that are routed are these five. */
  lemma RoutedVerbs(name: string, op: D.Operation)
    requires D.WellDeclared(name, op)
    ensures op.verb == "GET" || op.verb == "POST" || op.verb == "PUT" || op.verb == "PATCH" || op.verb == "DELETE"
  {
  }

  function OneOperation(verb: string): D.Spec {
    D.Spec("", map["read" := D.Operation(verb, "/", "", "Read", false, "files.file.read")])
  }

  /** And each of them is: a declaration of one operation with it is valid. */
  lemma EachVerbServes(verb: string)
    requires verb in ["GET", "POST", "PUT", "PATCH", "DELETE"]
    ensures D.Valid(OneOperation(verb))
  {
    hide D.WellDeclared, D.AddressOf;
    OneIsApart(OneOperation(verb), "read");
    OneIsWell(verb);
  }

  lemma OneIsWell(verb: string)
    requires verb in ["GET", "POST", "PUT", "PATCH", "DELETE"]
    ensures D.WellDeclared("read", D.Operation(verb, "/", "", "Read", false, "files.file.read"))
  {
    hide D.UsableAction;
    OneAction();
  }

  lemma OneIsApart(s: D.Spec, name: string)
    requires s.operations.Keys == {name} && s.operations[name].whenQuery == ""
    ensures D.ActionsApart(s) && D.RequestsApart(s, false) && D.RequestsApart(s, true) && D.AllDefaulted(s)
    ensures forall n :: D.Declared(s, n) ==> n == name
  {
    hide D.AddressOf;
    forall n | D.Declared(s, n) ensures n == name { assert n in s.operations.Keys; }
  }

  lemma OneAction()
    ensures D.UsableAction("files.file.read")
  {
    var s := "files.file.read";
    assert s[..5] == "files" && s[6..] == "file.read" && s[5] == '.';
    assert s[6..][..4] == "file" && s[6..][5..] == "read" && s[6..][4] == '.';
    assert D.UsableName("files") && D.UsableName("file") && D.UsableName("read");
    hide D.UsableName;
    assert D.Segments("read", 1);
    assert D.Segments(s[6..], 2);
    assert D.Segments(s, 3);
  }
}
