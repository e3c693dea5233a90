/**
  Recurrence rules as text: the parser and the printer, and why they agree.

  The loops of the source are methods here, each proved to compute the function
  beside it; the round trip is about those functions.
 */
module RuleText {
  import opened Options
  import opened Rules
  import opened Text

  const MAX_INT := 0x7FFF_FFFF_FFFF_FFFF

  // --------------------------------------------------------- string tools

  /** unicode.ToUpper, on the characters whose upper case is an ASCII letter. */
  function UpperChar(c: char): char {
    if 'a' <= c <= 'z' then c - 'a' + 'A'
    else if c == '\U{0131}' then 'I'
    else if c == '\U{017F}' then 'S'
    else c
  }

  function Upper(s: string): (r: string)
    ensures |r| == |s| && forall i :: 0 <= i < |s| ==> r[i] == UpperChar(s[i])
  {
    if s == "" then "" else [UpperChar(s[0])] + Upper(s[1..])
  }

  function TrimSpace(s: string): string {
    if s != "" && IsSpace(s[0]) then TrimSpace(s[1..])
    else if s != "" && IsSpace(s[|s| - 1]) then TrimSpace(s[..|s| - 1])
    else s
  }

  function TrimPrefix(s: string, prefix: string): string {
    if prefix <= s then s[|prefix|..] else s
  }

  // ------------------------------------------------------------- integers

  function Itoa(n: int): string {
    if n < 0 then "-" + Pad(-n, 1) else Pad(n, 1)
  }

  /** strconv.Atoi on a 64-bit platform. */
  function Atoi(s: string): Option<int> {
    var digits := if s != "" && (s[0] == '-' || s[0] == '+') then s[1..] else s;
    if digits == "" || !AllDigits(digits) then None
    else
      var v: int := Value(digits);
      var n := if s[0] == '-' then -v else v;
      if -MAX_INT - 1 <= n <= MAX_INT then Some(n) else None
  }

  lemma AtoiItoa(n: int)
    requires -MAX_INT - 1 <= n <= MAX_INT
    ensures Atoi(Itoa(n)) == Some(n)
  {
    hide Pad, Value;
    PadIsDigits(if n < 0 then -n else n, 1);
    var digits := Pad(if n < 0 then -n else n, 1);
    assert IsDigit(digits[0]);
    assert ("-" + digits)[1..] == digits;
  }

  // -------------------------------------------------------------- weekdays

  function CodeOf(day: int): string {
    if day == 0 then "SU" else if day == 1 then "MO" else if day == 2 then "TU" else if day == 3 then "WE"
    else if day == 4 then "TH" else if day == 5 then "FR" else if day == 6 then "SA" else ""
  }

  function DayOfCode(code: string): Option<int> {
    if code == "SU" then Some(0) else if code == "MO" then Some(1) else if code == "TU" then Some(2)
    else if code == "WE" then Some(3) else if code == "TH" then Some(4) else if code == "FR" then Some(5)
    else if code == "SA" then Some(6) else None
  }

  function DayText(w: NthDay): string {
    (if w.nth == 0 then "" else Itoa(w.nth)) + CodeOf(w.day)
  }

  function ParseDay(v: string): Option<NthDay> {
    if |v| < 2 then None
    else
      var prefix := v[..|v| - 2];
      match DayOfCode(v[|v| - 2..])
      case None => None
      case Some(day) =>
        if prefix == "" then Some(NthDay(day, 0))
        else match Atoi(prefix)
          case None => None
          case Some(n) => Some(NthDay(day, n))
  }

  // ----------------------------------------------------------------- lists

  function DayTexts(ws: seq<NthDay>): (r: seq<string>)
    ensures |r| == |ws|
  {
    if ws == [] then [] else [DayText(ws[0])] + DayTexts(ws[1..])
  }

  function ParseDays(vs: seq<string>): Option<seq<NthDay>> {
    if vs == [] then Some([])
    else match (ParseDay(vs[0]), ParseDays(vs[1..]))
      case (Some(w), Some(ws)) => Some([w] + ws)
      case _ => None
  }

  function IntTexts(ns: seq<int>): (r: seq<string>)
    ensures |r| == |ns|
  {
    if ns == [] then [] else [Itoa(ns[0])] + IntTexts(ns[1..])
  }

  function ParseIntTexts(vs: seq<string>): Option<seq<int>> {
    if vs == [] then Some([])
    else match (Atoi(vs[0]), ParseIntTexts(vs[1..]))
      case (Some(n), Some(ns)) => Some([n] + ns)
      case _ => None
  }

  // ------------------------------------------------------------- the parser

  function FreqOf(text: string): Frequency {
    if text == "DAILY" then Daily else if text == "WEEKLY" then Weekly
    else if text == "MONTHLY" then Monthly else if text == "YEARLY" then Yearly else Other(text)
  }

  function FreqText(f: Frequency): string {
    match f
    case Daily => "DAILY"
    case Weekly => "WEEKLY"
    case Monthly => "MONTHLY"
    case Yearly => "YEARLY"
    case Other(name) => name
  }

  datatype Parsing = Parsing(rule: Rule, seen: set<string>)

  /** What one KEY=VALUE part does to the rule; None is ErrInvalidRule. */
  function Assign(rule: Rule, key: string, value: string): Option<Rule> {
    if key == "FREQ" then Some(rule.(freq := FreqOf(Upper(value))))
    else if key == "INTERVAL" then
      match Atoi(value) case None => None case Some(n) => Some(rule.(interval := n))
    else if key == "BYDAY" then
      match ParseDays(Split(Upper(value), ',')) case None => None case Some(ws) => Some(rule.(byDay := ws))
    else if key == "BYMONTHDAY" then
      match ParseIntTexts(Split(value, ',')) case None => None case Some(ns) => Some(rule.(byMonthDay := ns))
    else if key == "BYMONTH" then
      match ParseIntTexts(Split(value, ',')) case None => None case Some(ns) => Some(rule.(byMonth := ns))
    else if key == "WKST" then (if Upper(value) == "MO" then Some(rule) else None)
    else None
  }

  function Step(p: Parsing, part: string): Option<Parsing> {
    var i := IndexOf(part, '=');
    if i == |part| || i + 1 == |part| then None
    else
      var key := Upper(part[..i]);
      if key in p.seen then None
      else match Assign(p.rule, key, part[i + 1..])
        case None => None
        case Some(rule) => Some(Parsing(rule, p.seen + {key}))
  }

  function Steps(p: Parsing, parts: seq<string>): Option<Parsing>
    decreases parts
  {
    if parts == [] then Some(p)
    else match Step(p, parts[0])
      case None => None
      case Some(next) => Steps(next, parts[1..])
  }

  const NO_RULE := Parsing(Rule(Other(""), 1, [], [], []), {})

  function ParseOf(s: string): Option<Rule> {
    match Steps(NO_RULE, Split(TrimPrefix(TrimSpace(s), "RRULE:"), ';'))
    case None => None
    case Some(p) => if ValidRule(p.rule) then Some(p.rule) else None
  }

  // ------------------------------------------------------------ the printer

  function IntervalPart(r: Rule): seq<string> { if r.interval > 1 then ["INTERVAL=" + Itoa(r.interval)] else [] }

  function ByDayPart(r: Rule): seq<string> { if |r.byDay| > 0 then ["BYDAY=" + Join(DayTexts(r.byDay), ',')] else [] }

  function ByMonthDayPart(r: Rule): seq<string> { if |r.byMonthDay| > 0 then ["BYMONTHDAY=" + Join(IntTexts(r.byMonthDay), ',')] else [] }

  function ByMonthPart(r: Rule): seq<string> { if |r.byMonth| > 0 then ["BYMONTH=" + Join(IntTexts(r.byMonth), ',')] else [] }

  function Parts(r: Rule): seq<string> {
    ["FREQ=" + FreqText(r.freq)] + (IntervalPart(r) + (ByDayPart(r) + (ByMonthDayPart(r) + ByMonthPart(r))))
  }

  function StringOf(r: Rule): string {
    Join(Parts(r), ';')
  }

  // ---------------------------------------------------------------- loops

  method ParseInts(value: string) returns (out: Option<seq<int>>)
    ensures out == ParseIntTexts(Split(value, ','))
  {
    hide Split, Atoi;
    var vs := Split(value, ',');
    var ns: seq<int> := [];
    assert vs[0..] == vs && forall rest: seq<int> :: [] + rest == rest;
    for i := 0 to |vs|
      invariant ParseIntTexts(vs) == match ParseIntTexts(vs[i..]) case None => None case Some(rest) => Some(ns + rest)
    {
      assert vs[i..][1..] == vs[i + 1..];
      match Atoi(vs[i]) {
        case None => return None;
        case Some(n) =>
          assert forall rest: seq<int> :: ns + ([n] + rest) == (ns + [n]) + rest;
          ns := ns + [n];
      }
    }
    assert ns + [] == ns;
    return Some(ns);
  }

  method ParseByDay(value: string) returns (out: Option<seq<NthDay>>)
    ensures out == ParseDays(Split(Upper(value), ','))
  {
    hide Split, Upper, ParseDay;
    var vs := Split(Upper(value), ',');
    var ws: seq<NthDay> := [];
    assert vs[0..] == vs && forall rest: seq<NthDay> :: [] + rest == rest;
    for i := 0 to |vs|
      invariant ParseDays(vs) == match ParseDays(vs[i..]) case None => None case Some(rest) => Some(ws + rest)
    {
      assert vs[i..][1..] == vs[i + 1..];
      match ParseDay(vs[i]) {
        case None => return None;
        case Some(w) =>
          assert forall rest: seq<NthDay> :: ws + ([w] + rest) == (ws + [w]) + rest;
          ws := ws + [w];
      }
    }
    assert ws + [] == ws;
    return Some(ws);
  }

  method ParseRule(s: string) returns (out: Option<Rule>)
    ensures out == ParseOf(s)
  {
    hide Split, Upper, Atoi, IndexOf, ParseDays, ParseIntTexts, TrimSpace, TrimPrefix, ValidRule, FreqOf;
    var parts := Split(TrimPrefix(TrimSpace(s), "RRULE:"), ';');
    var r, seen := Rule(Other(""), 1, [], [], []), {};
    assert parts[0..] == parts;
    for i := 0 to |parts|
      invariant Steps(NO_RULE, parts) == Steps(Parsing(r, seen), parts[i..])
    {
      var part := parts[i];
      assert parts[i..][1..] == parts[i + 1..];
      var eq := IndexOf(part, '=');
      if eq == |part| || eq + 1 == |part| {
        return None;
      }
      var key, value := Upper(part[..eq]), part[eq + 1..];
      if key in seen {
        return None;
      }
      ghost var before := r;
      if key == "FREQ" {
        r := r.(freq := FreqOf(Upper(value)));
      } else if key == "INTERVAL" {
        match Atoi(value) {
          case None => return None;
          case Some(n) => r := r.(interval := n);
        }
      } else if key == "BYDAY" {
        var ws := ParseByDay(value);
        if ws.None? {
          return None;
        }
        r := r.(byDay := ws.value);
      } else if key == "BYMONTHDAY" {
        var ns := ParseInts(value);
        if ns.None? {
          return None;
        }
        r := r.(byMonthDay := ns.value);
      } else if key == "BYMONTH" {
        var ms := ParseInts(value);
        if ms.None? {
          return None;
        }
        r := r.(byMonth := ms.value);
      } else if key == "WKST" {
        if Upper(value) != "MO" {
          return None;
        }
      } else {
        return None;
      }
      assert Assign(before, key, value) == Some(r);
      seen := seen + {key};
    }
    return if ValidRule(r) then Some(r) else None;
  }

  method JoinInts(ns: seq<int>) returns (s: string)
    ensures s == Join(IntTexts(ns), ',')
  {
    hide Itoa, Join;
    var texts: seq<string> := [];
    assert ns[0..] == ns;
    for i := 0 to |ns|
      invariant texts + IntTexts(ns[i..]) == IntTexts(ns)
    {
      assert ns[i..][1..] == ns[i + 1..];
      texts := texts + [Itoa(ns[i])];
    }
    assert ns[|ns|..] == [] && texts + [] == texts;
    s := Join(texts, ',');
  }

  method JoinDays(ws: seq<NthDay>) returns (s: string)
    ensures s == Join(DayTexts(ws), ',')
  {
    hide DayText, Join;
    var ds: seq<string> := [];
    assert ws[0..] == ws;
    for i := 0 to |ws|
      invariant ds + DayTexts(ws[i..]) == DayTexts(ws)
    {
      assert ws[i..][1..] == ws[i + 1..];
      ds := ds + [DayText(ws[i])];
    }
    assert ws[|ws|..] == [] && ds + [] == ds;
    s := Join(ds, ',');
  }

  method String(r: Rule) returns (s: string)
    ensures s == StringOf(r)
  {
    hide Join, Itoa, FreqText, DayTexts, IntTexts;
    var parts := ["FREQ=" + FreqText(r.freq)];
    if r.interval > 1 {
      parts := parts + ["INTERVAL=" + Itoa(r.interval)];
    }
    assert parts == ["FREQ=" + FreqText(r.freq)] + IntervalPart(r);
    if |r.byDay| > 0 {
      var days := JoinDays(r.byDay);
      parts := parts + ["BYDAY=" + days];
    }
    assert parts == ["FREQ=" + FreqText(r.freq)] + IntervalPart(r) + ByDayPart(r);
    if |r.byMonthDay| > 0 {
      var days := JoinInts(r.byMonthDay);
      parts := parts + ["BYMONTHDAY=" + days];
    }
    assert parts == ["FREQ=" + FreqText(r.freq)] + IntervalPart(r) + ByDayPart(r) + ByMonthDayPart(r);
    if |r.byMonth| > 0 {
      var months := JoinInts(r.byMonth);
      parts := parts + ["BYMONTH=" + months];
    }
    assert parts == Parts(r);
    s := Join(parts, ';');
  }

  // ------------------------------------------------------------ round trip

  /** The characters that printed rules are made of, separators apart. */
  predicate PlainChar(c: char) {
    IsDigit(c) || c == '-' || 'A' <= c <= 'Z'
  }

  predicate Plain(s: string) {
    forall i :: 0 <= i < |s| ==> PlainChar(s[i])
  }

  /** Fit to stand between semicolons, with nothing for TrimSpace to take away. */
  predicate Clean(s: string) {
    forall i :: 0 <= i < |s| ==> s[i] != ';' && !IsSpace(s[i])
  }

  lemma ItoaIsPlain(n: int)
    ensures Plain(Itoa(n)) && Itoa(n) != ""
  {
    hide Pad, Value;
    PadIsDigits(if n < 0 then -n else n, 1);
  }

  lemma PlainHasNoMarks(s: string)
    requires Plain(s)
    ensures ',' !in s && '=' !in s && Clean(s) && Upper(s) == s
  {
  }

  lemma {:induction false} JoinedIsPlain(parts: seq<string>)
    requires forall p <- parts :: Plain(p)
    ensures Clean(Join(parts, ',')) && '=' !in Join(parts, ',')
    ensures Upper(Join(parts, ',')) == Join(parts, ',')
    ensures (exists p :: p in parts && p != "") ==> Join(parts, ',') != ""
  {
    hide Plain;
    if |parts| == 1 {
      assert parts[0] in parts;
      PlainHasNoMarks(parts[0]);
    } else if |parts| > 1 {
      JoinedIsPlain(parts[1..]);
      assert parts[0] in parts;
      PlainHasNoMarks(parts[0]);
      var s := Join(parts, ',');
      assert forall i :: 0 <= i < |s| ==> Upper(s)[i] == s[i];
    }
  }

  /** A weekday prints as an entry that reads back, exactly when it is one of the seven. */
  lemma DayRoundTrip(freq: Frequency, w: NthDay)
    requires ValidNthDay(freq, w)
    ensures 0 <= w.day < 7 ==> ParseDay(DayText(w)) == Some(w) && DayText(w) != ""
    ensures !(0 <= w.day < 7) ==> ParseDay(DayText(w)) == None
    ensures Plain(DayText(w))
  {
    hide Itoa, Atoi, CodeOf, DayOfCode, ParseDay, Plain;
    CodeRoundTrip(w.day);
    PrefixRoundTrip(freq, w);
    var prefix := if w.nth == 0 then "" else Itoa(w.nth);
    PlainJoin(prefix, CodeOf(w.day));
    if 0 <= w.day < 7 {
      ParseEntry(prefix, CodeOf(w.day), w);
    } else {
      assert prefix + "" == prefix;
    }
  }

  lemma PrefixRoundTrip(freq: Frequency, w: NthDay)
    requires ValidNthDay(freq, w)
    ensures var prefix := if w.nth == 0 then "" else Itoa(w.nth);
      && Plain(prefix) && ParseDay(prefix) == None
      && (w.nth != 0 ==> prefix != "" && Atoi(prefix) == Some(w.nth))
  {
    hide Itoa, Atoi, Plain, DayOfCode;
    SmallNumbers();
    CodeRoundTrip(0);
    if w.nth != 0 {
      AtoiItoa(w.nth);
      ItoaIsPlain(w.nth);
    } else {
      NothingIsPlain();
    }
  }

  lemma NothingIsPlain()
    ensures Plain("")
  {
  }

  lemma PlainJoin(a: string, b: string)
    requires Plain(a) && Plain(b)
    ensures Plain(a + b)
  {
    hide PlainChar;
  }

  lemma ParseEntry(prefix: string, code: string, w: NthDay)
    requires |code| == 2 && DayOfCode(code) == Some(w.day)
    requires if w.nth == 0 then prefix == "" else prefix != "" && Atoi(prefix) == Some(w.nth)
    ensures ParseDay(prefix + code) == Some(w)
  {
    hide Atoi, DayOfCode;
    SplitEntry(prefix, code);
  }

  lemma CodeRoundTrip(day: int)
    ensures Plain(CodeOf(day))
    ensures if 0 <= day < 7 then |CodeOf(day)| == 2 && DayOfCode(CodeOf(day)) == Some(day) else CodeOf(day) == ""
    ensures DayOfCode("-1") == None
  {
  }

  lemma SplitEntry(prefix: string, code: string)
    requires |code| == 2
    ensures (prefix + code)[..|prefix + code| - 2] == prefix && (prefix + code)[|prefix + code| - 2..] == code
  {
  }

  lemma SmallNumbers()
    ensures Itoa(-1) == "-1" && Itoa(1) == "1" && Itoa(2) == "2" && Itoa(3) == "3" && Itoa(4) == "4"
  {
  }

  lemma {:induction false} DaysRoundTrip(freq: Frequency, ws: seq<NthDay>)
    requires forall w <- ws :: ValidNthDay(freq, w)
    ensures (forall w <- ws :: 0 <= w.day < 7) ==> ParseDays(DayTexts(ws)) == Some(ws)
    ensures !(forall w <- ws :: 0 <= w.day < 7) ==> ParseDays(DayTexts(ws)) == None
    ensures forall p <- DayTexts(ws) :: Plain(p)
    ensures (forall w <- ws :: 0 <= w.day < 7) ==> forall p <- DayTexts(ws) :: p != ""
  {
    hide ValidNthDay, ParseDay, DayText, Plain;
    if ws != [] {
      assert ws[0] in ws;
      DayRoundTrip(freq, ws[0]);
      DaysRoundTrip(freq, ws[1..]);
      assert ws == [ws[0]] + ws[1..];
    }
  }

  predicate GoInts(ns: seq<int>) {
    forall n <- ns :: -MAX_INT - 1 <= n <= MAX_INT
  }

  lemma {:induction false} IntsRoundTrip(ns: seq<int>)
    requires GoInts(ns)
    ensures ParseIntTexts(IntTexts(ns)) == Some(ns)
    ensures forall p <- IntTexts(ns) :: Plain(p) && p != ""
  {
    hide Itoa, Atoi, Plain;
    if ns != [] {
      assert ns[0] in ns;
      AtoiItoa(ns[0]);
      ItoaIsPlain(ns[0]);
      assert forall n <- ns[1..] :: n in ns;
      IntsRoundTrip(ns[1..]);
      assert ns == [ns[0]] + ns[1..];
    }
  }

  /** What a printed KEY=VALUE part does when it is read. */
  lemma StepOnPart(p: Parsing, key: string, value: string)
    requires Plain(key) && key !in p.seen && value != ""
    ensures Step(p, key + "=" + value) == match Assign(p.rule, key, value)
      case None => None
      case Some(rule) => Some(Parsing(rule, p.seen + {key}))
  {
    hide Plain, Assign;
    PlainHasNoMarks(key);
    IndexAfter(key, '=', value);
    var part := key + ['='] + value;
    assert part[..|key|] == key && part[|key| + 1..] == value;
  }

  lemma {:induction false} StepsInTurn(p: Parsing, a: seq<string>, b: seq<string>)
    ensures Steps(p, a + b) == match Steps(p, a) case None => None case Some(q) => Steps(q, b)
    decreases a
  {
    hide Step;
    if a == [] {
      assert a + b == b;
    } else {
      assert (a + b)[1..] == a[1..] + b;
      var next := Step(p, a[0]);
      if next.Some? { StepsInTurn(next.value, a[1..], b); }
    }
  }

  lemma StepsOne(p: Parsing, part: string)
    ensures Steps(p, [part]) == Step(p, part)
  {
    hide Step;
  }

  /** The rule's integers fit Go's int. */
  predicate GoRule(r: Rule) {
    r.interval <= MAX_INT
  }

  lemma FreqRoundTrip(f: Frequency)
    requires !f.Other?
    ensures FreqOf(FreqText(f)) == f && Plain(FreqText(f)) && FreqText(f) != ""
  {
  }

  /** One printed part, read back: the key is new and the value means what it should. */
  lemma StepsOnPart(p: Parsing, key: string, value: string, rule: Rule)
    requires Plain(key) && key !in p.seen && value != "" && Clean(value)
    requires Assign(p.rule, key, value) == Some(rule)
    ensures Steps(p, [key + "=" + value]) == Some(Parsing(rule, p.seen + {key}))
    ensures Clean(key + "=" + value)
  {
    hide Step, Assign, Plain;
    PlainHasNoMarks(key);
    StepOnPart(p, key, value);
    StepsOne(p, key + "=" + value);
  }

  lemma FreqStep(p: Parsing, r: Rule)
    requires !r.freq.Other? && "FREQ" !in p.seen
    ensures Steps(p, ["FREQ=" + FreqText(r.freq)]) == Some(Parsing(p.rule.(freq := r.freq), p.seen + {"FREQ"}))
    ensures Clean("FREQ=" + FreqText(r.freq))
  {
    hide Steps, FreqText, FreqOf;
    FreqRoundTrip(r.freq);
    var text := FreqText(r.freq);
    PlainHasNoMarks(text);
    StepsOnPart(p, "FREQ", text, p.rule.(freq := r.freq));
    assert "FREQ" + "=" + text == "FREQ=" + text;
  }

  predicate AllClean(parts: seq<string>) {
    forall part <- parts :: Clean(part)
  }

  lemma IntervalStep(p: Parsing, r: Rule)
    requires 1 <= r.interval <= MAX_INT && "INTERVAL" !in p.seen && p.rule.interval == 1
    ensures Steps(p, IntervalPart(r)) ==
      Some(Parsing(p.rule.(interval := r.interval), if r.interval > 1 then p.seen + {"INTERVAL"} else p.seen))
    ensures AllClean(IntervalPart(r))
  {
    hide Step, Itoa, Atoi;
    if r.interval > 1 {
      var text := Itoa(r.interval);
      AtoiItoa(r.interval);
      ItoaIsPlain(r.interval);
      PlainHasNoMarks(text);
      StepsOnPart(p, "INTERVAL", text, p.rule.(interval := r.interval));
      assert "INTERVAL" + "=" + text == "INTERVAL=" + text;
    }
  }

  lemma ByDayStep(p: Parsing, r: Rule)
    requires ValidRule(r) && "BYDAY" !in p.seen && p.rule.byDay == []
    ensures WeekdaysKnown(r) ==>
      Steps(p, ByDayPart(r)) == Some(Parsing(p.rule.(byDay := r.byDay), if |r.byDay| > 0 then p.seen + {"BYDAY"} else p.seen))
    ensures !WeekdaysKnown(r) ==> Steps(p, ByDayPart(r)) == None
    ensures AllClean(ByDayPart(r))
  {
    hide Step, ParseDays, DayTexts, ValidNthDay, ValidMonthDay, Join, Split, Plain, Upper;
    if |r.byDay| > 0 {
      var texts := DayTexts(r.byDay);
      var value := Join(texts, ',');
      DaysRoundTrip(r.freq, r.byDay);
      JoinedIsPlain(texts);
      forall part <- texts ensures ',' !in part { PlainHasNoMarks(part); }
      SplitJoined(texts, ',');
      ByDayKey(value);
      assert "BYDAY" + "=" + value == "BYDAY=" + value;
      if WeekdaysKnown(r) {
        assert texts[0] in texts;
        StepsOnPart(p, "BYDAY", value, p.rule.(byDay := r.byDay));
      } else {
        UnreadableDays(p, value);
      }
    }
  }

  lemma ByDayKey(value: string)
    requires Clean(value)
    ensures Plain("BYDAY") && Clean("BYDAY=" + value)
  {
  }

  lemma UnreadableDays(p: Parsing, value: string)
    requires "BYDAY" !in p.seen && ParseDays(Split(Upper(value), ',')) == None
    ensures Steps(p, ["BYDAY=" + value]) == None
  {
    hide ParseDays, Split, Upper, Step;
    StepsOne(p, "BYDAY=" + value);
    ByDayKey2(p, value);
  }

  lemma ByDayKey2(p: Parsing, value: string)
    requires "BYDAY" !in p.seen && ParseDays(Split(Upper(value), ',')) == None
    ensures Step(p, "BYDAY=" + value) == None
  {
    hide ParseDays, Split;
    assert "BYDAY" + "=" + value == "BYDAY=" + value;
    assert Plain("BYDAY");
    if value != "" {
      StepOnPart(p, "BYDAY", value);
    } else {
      IndexAfter("BYDAY", '=', "");
    }
  }

  lemma IntsStep(p: Parsing, key: string, ns: seq<int>, rule: Rule)
    requires key == "BYMONTHDAY" || key == "BYMONTH"
    requires ns != [] && GoInts(ns) && key !in p.seen
    requires rule == if key == "BYMONTHDAY" then p.rule.(byMonthDay := ns) else p.rule.(byMonth := ns)
    ensures Steps(p, [key + "=" + Join(IntTexts(ns), ',')]) == Some(Parsing(rule, p.seen + {key}))
    ensures Clean(key + "=" + Join(IntTexts(ns), ','))
  {
    hide Step, ParseIntTexts, IntTexts, Join, Split, Upper, Steps;
    var texts := IntTexts(ns);
    var value := Join(texts, ',');
    IntsRoundTrip(ns);
    JoinedIsPlain(texts);
    forall part <- texts ensures ',' !in part { PlainHasNoMarks(part); }
    SplitJoined(texts, ',');
    assert texts[0] in texts;
    StepsOnPart(p, key, value, rule);
  }

  lemma ByMonthDayStep(p: Parsing, r: Rule)
    requires ValidRule(r) && "BYMONTHDAY" !in p.seen && p.rule.byMonthDay == []
    ensures Steps(p, ByMonthDayPart(r)) ==
      Some(Parsing(p.rule.(byMonthDay := r.byMonthDay), if |r.byMonthDay| > 0 then p.seen + {"BYMONTHDAY"} else p.seen))
    ensures AllClean(ByMonthDayPart(r))
  {
    hide Step, IntTexts, Join, ValidNthDay;
    if |r.byMonthDay| > 0 {
      IntsStep(p, "BYMONTHDAY", r.byMonthDay, p.rule.(byMonthDay := r.byMonthDay));
      assert "BYMONTHDAY" + "=" + Join(IntTexts(r.byMonthDay), ',') == "BYMONTHDAY=" + Join(IntTexts(r.byMonthDay), ',');
    }
  }

  lemma ByMonthStep(p: Parsing, r: Rule)
    requires ValidRule(r) && "BYMONTH" !in p.seen && p.rule.byMonth == []
    ensures Steps(p, ByMonthPart(r)) ==
      Some(Parsing(p.rule.(byMonth := r.byMonth), if |r.byMonth| > 0 then p.seen + {"BYMONTH"} else p.seen))
    ensures AllClean(ByMonthPart(r))
  {
    hide Step, IntTexts, Join, ValidNthDay, ValidMonthDay;
    if |r.byMonth| > 0 {
      IntsStep(p, "BYMONTH", r.byMonth, p.rule.(byMonth := r.byMonth));
      assert "BYMONTH" + "=" + Join(IntTexts(r.byMonth), ',') == "BYMONTH=" + Join(IntTexts(r.byMonth), ',');
    }
  }

  lemma PartsStep(r: Rule)
    requires ValidRule(r) && GoRule(r)
    ensures if WeekdaysKnown(r) then Steps(NO_RULE, Parts(r)).Some? && Steps(NO_RULE, Parts(r)).value.rule == r
      else Steps(NO_RULE, Parts(r)) == None
    ensures AllClean(Parts(r))
  {
    hide Steps, FreqText, IntervalPart, ByDayPart, ByMonthDayPart, ByMonthPart, ValidNthDay, ValidMonthDay, WeekdaysKnown;
    var freq, interval, days := ["FREQ=" + FreqText(r.freq)], IntervalPart(r), ByDayPart(r);
    var monthDays, months := ByMonthDayPart(r), ByMonthPart(r);
    StepsInTurn(NO_RULE, freq, interval + (days + (monthDays + months)));
    FreqStep(NO_RULE, r);
    var p1 := Steps(NO_RULE, freq).value;
    StepsInTurn(p1, interval, days + (monthDays + months));
    IntervalStep(p1, r);
    var p2 := Steps(p1, interval).value;
    StepsInTurn(p2, days, monthDays + months);
    ByDayStep(p2, r);
    RestIsClean(r, p2);
    if WeekdaysKnown(r) {
      var p3 := Steps(p2, days).value;
      StepsInTurn(p3, monthDays, months);
      ByMonthDayStep(p3, r);
      var p4 := Steps(p3, monthDays).value;
      ByMonthStep(p4, r);
    }
  }

  lemma RestIsClean(r: Rule, p: Parsing)
    requires ValidRule(r)
    requires p.rule.byMonthDay == [] && p.rule.byMonth == [] && "BYMONTHDAY" !in p.seen && "BYMONTH" !in p.seen
    ensures AllClean(ByMonthDayPart(r)) && AllClean(ByMonthPart(r))
  {
    hide AllClean, Steps, ByMonthDayPart, ByMonthPart;
    ByMonthDayStep(p, r);
    ByMonthStep(p, r);
  }

  lemma {:induction false} JoinedIsSpaceless(parts: seq<string>)
    requires AllClean(parts)
    ensures forall i :: 0 <= i < |Join(parts, ';')| ==> !IsSpace(Join(parts, ';')[i])
  {
    hide IsSpace;
    if |parts| >= 1 {
      assert parts[0] in parts && Clean(parts[0]);
      SemicolonIsNoSpace();
      assert forall part <- parts[1..] :: part in parts;
      JoinedIsSpaceless(parts[1..]);
    }
  }

  lemma SemicolonIsNoSpace()
    ensures !IsSpace(';')
  {
  }

  lemma TrimsNothing(s: string)
    requires s == "" || (!IsSpace(s[0]) && !IsSpace(s[|s| - 1]) && s[0] == 'F')
    ensures TrimPrefix(TrimSpace(s), "RRULE:") == s
  {
  }

  lemma StartsWithFreq(r: Rule)
    ensures StringOf(r) != "" && StringOf(r)[0] == 'F'
  {
    hide IntervalPart, ByDayPart, ByMonthDayPart, ByMonthPart;
    assert Parts(r)[0] == "FREQ=" + FreqText(r.freq);
  }

  /**
    Printing and parsing a valid rule gives it back, exactly when its weekdays
    are among the seven: the validation that lets others through lets them be
    printed as text that the parser refuses.
   */
  lemma RuleRoundTrip(r: Rule)
    requires ValidRule(r) && GoRule(r)
    ensures ParseOf(StringOf(r)) == Some(r) <==> WeekdaysKnown(r)
    ensures !WeekdaysKnown(r) ==> ParseOf(StringOf(r)) == None
  {
    hide Steps, Parts, Join, Split, IsSpace, ValidRule, TrimSpace, TrimPrefix, GoRule, WeekdaysKnown;
    PartsStep(r);
    PartsAreSome(r);
    JoinedIsSpaceless(Parts(r));
    StartsWithFreq(r);
    TrimsNothing(StringOf(r));
    forall part <- Parts(r) ensures ';' !in part { assert Clean(part); }
    SplitJoined(Parts(r), ';');
  }

  lemma PartsAreSome(r: Rule)
    ensures Parts(r) != []
  {
    hide IntervalPart, ByDayPart, ByMonthDayPart, ByMonthPart;
  }

  // -------------------------------------------------------- canonical text

  lemma {:induction false} ParsedDaysAreKnown(vs: seq<string>)
    ensures ParseDays(vs).Some? ==> forall w <- ParseDays(vs).value :: 0 <= w.day < 7
  {
    hide Atoi;
    if vs != [] { ParsedDaysAreKnown(vs[1..]); }
  }

  /** Every rule the steps build has known weekdays and an interval that fits. */
  lemma {:induction false} StepsKeepKnown(p: Parsing, parts: seq<string>)
    requires WeekdaysKnown(p.rule) && GoRule(p.rule)
    ensures Steps(p, parts).Some? ==> WeekdaysKnown(Steps(p, parts).value.rule) && GoRule(Steps(p, parts).value.rule)
    decreases parts
  {
    hide Upper, Split, ParseIntTexts, ParseDays, FreqOf;
    if parts != [] {
      var part := parts[0];
      var i := IndexOf(part, '=');
      if i + 1 < |part| { ParsedDaysAreKnown(Split(Upper(part[i + 1..]), ',')); }
      var next := Step(p, part);
      if next.Some? { StepsKeepKnown(next.value, parts[1..]); }
    }
  }

  /** Whatever text was parsed, printing the rule gives a canonical text that parses to the same rule. */
  lemma CanonicalText(s: string)
    ensures ParseOf(s).Some? ==> ParseOf(StringOf(ParseOf(s).value)) == ParseOf(s)
  {
    hide Split, TrimSpace, TrimPrefix, ValidRule, Steps, StringOf;
    if ParseOf(s).Some? {
      StepsKeepKnown(NO_RULE, Split(TrimPrefix(TrimSpace(s), "RRULE:"), ';'));
      RuleRoundTrip(ParseOf(s).value);
    }
  }
}
