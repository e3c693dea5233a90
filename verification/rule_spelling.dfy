/**
  How the text of a rule may be spelt: spaces round it, the name of the property
  before it and the case of its letters make no difference; what is left out,
  repeated or unknown is refused.
 */
module RuleSpelling {
  import opened Options
  import opened Rules
  import opened RuleText
  import opened Text

  const PREFIX := "RRULE:"

  // --------------------------------------------------- spaces and the prefix

  lemma {:induction false} TrimSpaceAfter(s: string, c: char)
    requires IsSpace(c)
    ensures TrimSpace(s + [c]) == TrimSpace(s)
    decreases |s|
  {
    hide IsSpace;
    if s == "" {
      assert (s + [c])[1..] == "";
    } else if IsSpace(s[0]) {
      assert (s + [c])[1..] == s[1..] + [c];
      TrimSpaceAfter(s[1..], c);
    } else {
      assert (s + [c])[..|s|] == s;
    }
  }

  /** Spaces before and after a rule are nothing to it. */
  lemma SpacesAreNothing(s: string, c: char)
    requires IsSpace(c)
    ensures ParseOf([c] + s) == ParseOf(s)
    ensures ParseOf(s + [c]) == ParseOf(s)
  {
    hide IsSpace, Steps, Split, TrimPrefix;
    assert ([c] + s)[1..] == s;
    TrimSpaceAfter(s, c);
  }

  /** Neither is the name of the property, once, before the rule. */
  lemma PrefixIsNothing(s: string)
    requires s != "" && !IsSpace(s[0]) && !(PREFIX <= s)
    ensures ParseOf(PREFIX + s) == ParseOf(s)
  {
    hide Steps, Split, IsSpace;
    TrimmedWithPrefix(s);
  }

  lemma {:induction false} TrimmedWithPrefix(s: string)
    requires s != "" && !IsSpace(s[0])
    ensures TrimSpace(PREFIX + s) == PREFIX + TrimSpace(s)
    ensures PREFIX <= TrimSpace(s) ==> PREFIX <= s
    decreases |s|
  {
    var k := |s| - 1;
    assert !IsSpace('R');
    hide IsSpace;
    assert (PREFIX + s)[|PREFIX + s| - 1] == s[k];
    if IsSpace(s[k]) {
      assert (PREFIX + s)[..|PREFIX + s| - 1] == PREFIX + s[..k];
      assert s[..k] != "" && s[..k][0] == s[0];
      TrimmedWithPrefix(s[..k]);
      assert s[..k] <= s;
    }
  }

  // ----------------------------------------------------------------- case

  lemma UpperIsUpper(c: char)
    ensures UpperChar(UpperChar(c)) == UpperChar(c)
    ensures IsSpace(UpperChar(c)) == IsSpace(c) && IsDigit(UpperChar(c)) == IsDigit(c)
    ensures IsDigit(c) || c in [';', ',', '=', '-', '+'] ==> UpperChar(c) == c
    ensures UpperChar(c) in [';', ',', '=', '-', '+'] ==> UpperChar(c) == c
  {
  }

  lemma UpperTwice(s: string)
    ensures Upper(Upper(s)) == Upper(s)
  {
    hide Upper, UpperChar;
    forall i | 0 <= i < |s| ensures Upper(Upper(s))[i] == Upper(s)[i] { UpperIsUpper(s[i]); }
  }

  lemma UpperCut(s: string, i: nat)
    requires i <= |s|
    ensures Upper(s)[..i] == Upper(s[..i]) && Upper(s)[i..] == Upper(s[i..])
  {
    hide Upper, UpperChar;
  }

  lemma {:induction false} IndexInUpper(s: string, c: char)
    requires c in [';', ',', '=']
    ensures IndexOf(Upper(s), c) == IndexOf(s, c)
  {
    hide UpperChar;
    if s != "" {
      UpperIsUpper(s[0]);
      UpperCut(s, 1);
      IndexInUpper(s[1..], c);
    }
  }

  function Uppers(parts: seq<string>): (r: seq<string>)
    ensures |r| == |parts| && forall i :: 0 <= i < |parts| ==> r[i] == Upper(parts[i])
  {
    seq(|parts|, i requires 0 <= i < |parts| => Upper(parts[i]))
  }

  lemma SplitHead(s: string, sep: char)
    ensures var i := IndexOf(s, sep);
      Split(s, sep) == if i == |s| then [s] else [s[..i]] + Split(s[i + 1..], sep)
  {
    hide IndexOf;
  }

  lemma {:induction false} SplitUpper(s: string, sep: char)
    requires sep in [';', ',', '=']
    ensures Split(Upper(s), sep) == Uppers(Split(s, sep))
    decreases |s|
  {
    hide Upper, Split, IndexOf;
    IndexInUpper(s, sep);
    SplitHead(s, sep);
    SplitHead(Upper(s), sep);
    var i := IndexOf(s, sep);
    if i < |s| {
      UpperCut(s, i);
      UpperCut(s, i + 1);
      SplitUpper(s[i + 1..], sep);
      UppersJoined(s[..i], Split(s[i + 1..], sep));
    }
  }

  lemma UppersJoined(part: string, parts: seq<string>)
    ensures Uppers([part] + parts) == [Upper(part)] + Uppers(parts)
  {
  }

  lemma {:induction false} DigitsInUpper(s: string)
    ensures AllDigits(Upper(s)) <==> AllDigits(s)
    ensures AllDigits(s) ==> Upper(s) == s
  {
    forall i | 0 <= i < |s| ensures IsDigit(Upper(s)[i]) == IsDigit(s[i]) && (IsDigit(s[i]) ==> Upper(s)[i] == s[i]) {
      UpperIsUpper(s[i]);
    }
  }

  lemma AtoiUpper(s: string)
    ensures Atoi(Upper(s)) == Atoi(s)
  {
    hide UpperChar, Value;
    if s != "" {
      UpperIsUpper(s[0]);
      DigitsInUpper(s);
      DigitsInUpper(s[1..]);
      UpperCut(s, 1);
    }
  }

  lemma {:induction false} IntsUpper(vs: seq<string>)
    ensures ParseIntTexts(Uppers(vs)) == ParseIntTexts(vs)
  {
    hide Atoi, Upper;
    if vs != [] {
      AtoiUpper(vs[0]);
      assert Uppers(vs)[1..] == Uppers(vs[1..]);
      IntsUpper(vs[1..]);
    }
  }

  lemma AssignUpper(rule: Rule, key: string, value: string)
    ensures Assign(rule, key, Upper(value)) == Assign(rule, key, value)
  {
    hide Upper, Split, Atoi, ParseDays, ParseIntTexts, FreqOf;
    UpperTwice(value);
    AtoiUpper(value);
    SplitUpper(value, ',');
    IntsUpper(Split(value, ','));
  }

  lemma StepUpper(p: Parsing, part: string)
    ensures Step(p, Upper(part)) == Step(p, part)
  {
    hide Upper, Assign, IndexOf;
    IndexInUpper(part, '=');
    var i := IndexOf(part, '=');
    UpperCut(part, i);
    UpperTwice(part[..i]);
    if i < |part| {
      UpperCut(part, i + 1);
      AssignUpper(p.rule, Upper(part[..i]), part[i + 1..]);
    }
  }

  lemma {:induction false} StepsUpper(p: Parsing, parts: seq<string>)
    ensures Steps(p, Uppers(parts)) == Steps(p, parts)
    decreases |parts|
  {
    hide Step, Upper;
    if parts != [] {
      StepUpper(p, parts[0]);
      assert Uppers(parts)[1..] == Uppers(parts[1..]);
      if Step(p, parts[0]).Some? { StepsUpper(Step(p, parts[0]).value, parts[1..]); }
    }
  }

  lemma {:induction false} TrimSpaceUpper(s: string)
    ensures TrimSpace(Upper(s)) == Upper(TrimSpace(s))
    decreases |s|
  {
    hide IsSpace, UpperChar;
    if s != "" {
      var k := |s| - 1;
      UpperIsUpper(s[0]);
      UpperIsUpper(s[k]);
      UpperCut(s, 1);
      UpperCut(s, k);
      if IsSpace(s[0]) {
        TrimSpaceUpper(s[1..]);
      } else if IsSpace(s[k]) {
        TrimSpaceUpper(s[..k]);
      }
    }
  }

  /** The two are one letter, small or great; the dotless i and the long s have the great letters I and S. */
  predicate SameLetter(x: char, y: char) {
    || x == y
    || ('a' <= x <= 'z' && 'A' <= y <= 'Z' && x - 'a' == y - 'A')
    || ('a' <= y <= 'z' && 'A' <= x <= 'Z' && y - 'a' == x - 'A')
    || (x in ['i', 'I', '\U{0131}'] && y in ['i', 'I', '\U{0131}'])
    || (x in ['s', 'S', '\U{017F}'] && y in ['s', 'S', '\U{017F}'])
  }

  predicate SameButCase(s: string, t: string) {
    |s| == |t| && forall i :: 0 <= i < |s| ==> SameLetter(s[i], t[i])
  }

  lemma SameUpper(x: char, y: char)
    ensures SameLetter(x, y) <==> UpperChar(x) == UpperChar(y)
  {
  }

  lemma SameUppers(s: string, t: string)
    ensures SameButCase(s, t) <==> Upper(s) == Upper(t)
  {
    hide UpperChar, SameLetter;
    forall i | 0 <= i < |s| && i < |t| ensures SameLetter(s[i], t[i]) <==> Upper(s)[i] == Upper(t)[i] { SameUpper(s[i], t[i]); }
  }

  lemma UpperParses(t: string)
    ensures Steps(NO_RULE, Split(t, ';')) == Steps(NO_RULE, Split(Upper(t), ';'))
  {
    hide Steps, Split, Upper;
    SplitUpper(t, ';');
    StepsUpper(NO_RULE, Split(t, ';'));
  }

  /** The case of a rule's letters is nothing to it; that of the property's name before it is. */
  lemma CaseIsNothing(s: string, t: string)
    requires SameButCase(s, t) && (PREFIX <= TrimSpace(s) <==> PREFIX <= TrimSpace(t))
    ensures ParseOf(s) == ParseOf(t)
  {
    hide Steps, Split, Upper, TrimSpace, ValidRule, SameButCase;
    SameUppers(s, t);
    TrimSpaceUpper(s);
    TrimSpaceUpper(t);
    var u, v := TrimSpace(s), TrimSpace(t);
    if PREFIX <= u {
      UpperCut(u, |PREFIX|);
      UpperCut(v, |PREFIX|);
    }
    UpperParses(TrimPrefix(u, PREFIX));
    UpperParses(TrimPrefix(v, PREFIX));
  }

  // ---------------------------------------------------------------- parts

  /** The keys of a rule, and the one field that each is about. */
  lemma AssignedField(rule: Rule, key: string, value: string)
    ensures Assign(rule, key, value).Some? ==> key in ["FREQ", "INTERVAL", "BYDAY", "BYMONTHDAY", "BYMONTH", "WKST"]
    ensures Assign(rule, key, value).Some? ==>
      var q := Assign(rule, key, value).value;
      && (key != "FREQ" ==> q.freq == rule.freq) && (key != "INTERVAL" ==> q.interval == rule.interval)
      && (key != "BYDAY" ==> q.byDay == rule.byDay) && (key != "BYMONTHDAY" ==> q.byMonthDay == rule.byMonthDay)
      && (key != "BYMONTH" ==> q.byMonth == rule.byMonth) && (key == "WKST" ==> Upper(value) == "MO")
  {
    hide Upper, Split, Atoi, ParseDays, ParseIntTexts, FreqOf;
  }

  /** A part is taken only with a key that is known and new, and a value, and changes nothing else. */
  lemma TakenParts(p: Parsing, key: string, value: string)
    requires '=' !in key && Upper(key) == key
    ensures Step(p, key + "=" + value) ==
      if value == "" || key in p.seen || Assign(p.rule, key, value).None? then None
      else Some(Parsing(Assign(p.rule, key, value).value, p.seen + {key}))
  {
    hide Upper, Assign, IndexOf;
    IndexAfter(key, '=', value);
    var part := key + ['='] + value;
    assert part[..|key|] == key && part[|key| + 1..] == value;
  }

  /** A week may only begin on Monday, and that is understood. */
  lemma WeeksBeginOnMonday(p: Parsing)
    requires "WKST" !in p.seen
    ensures Step(p, "WKST=MO") == Some(Parsing(p.rule, p.seen + {"WKST"}))
  {
    assert Upper("WKST") == "WKST" && Upper("MO") == "MO" by { UpperWords(); }
    hide Upper, Step, ParseDays, ParseIntTexts, Atoi, Split, FreqOf;
    TakenParts(p, "WKST", "MO");
    assert "WKST" + "=" + "MO" == "WKST=MO";
  }

  lemma UpperWords()
    ensures Upper("WKST") == "WKST" && Upper("MO") == "MO"
  {
    hide UpperChar;
    forall c | c in "WKSTMO" ensures UpperChar(c) == c { NoLower(c); }
  }

  lemma NoLower(c: char)
    requires 'A' <= c <= 'Z'
    ensures UpperChar(c) == c
  {
  }

  // ------------------------------------------------------------ the numbers

  /** A number is digits after a sign or none, and has to fit into 64 bits; anything else is refused. */
  lemma NumbersRead(digits: string)
    requires digits != "" && AllDigits(digits)
    ensures var v: int := Value(digits);
      && Atoi(digits) == Atoi("+" + digits) == (if v < 0x8000_0000_0000_0000 then Some(v) else None)
      && Atoi("-" + digits) == (if v <= 0x8000_0000_0000_0000 then Some(-v) else None)
  {
    hide Value;
    assert ("+" + digits)[1..] == digits && ("-" + digits)[1..] == digits;
    assert IsDigit(digits[0]);
  }

  /** And written with a sign only below zero. */
  lemma SignedBelowZero(n: int)
    ensures Itoa(n) != "" && (Itoa(n)[0] == '-' <==> n < 0)
  {
    hide Pad, Value;
    PadIsDigits(if n < 0 then -n else n, 1);
    assert IsDigit(Pad(if n < 0 then -n else n, 1)[0]);
  }

  lemma OthersRefused(s: string)
    requires s == "" || (!AllDigits(s) && (s[0] in ['+', '-'] ==> s[1..] == "" || !AllDigits(s[1..])))
    ensures Atoi(s) == None
  {
  }

  // -------------------------------------------------------------- the words

  const WEEKDAYS := ["SUNDAY", "MONDAY", "TUESDAY", "WEDNESDAY", "THURSDAY", "FRIDAY", "SATURDAY"]

  /** A weekday is written with the first two letters of its name, and known by them alone. */
  lemma CodesBeginNames(code: string, day: nat)
    requires day < 7
    ensures CodeOf(day) == WEEKDAYS[day][..2]
    ensures DayOfCode(code) == Some(day) <==> code == WEEKDAYS[day][..2]
  {
    assert WEEKDAYS[day][..2] == CodeOf(day);
  }

  lemma JoinFirst(part: string, parts: seq<string>, sep: char)
    ensures Join([part], sep) == part
    ensures parts != [] ==> Join([part] + parts, sep) == part + [sep] + Join(parts, sep)
  {
    assert ([part] + parts)[1..] == parts;
  }

  lemma Numerals()
    ensures Itoa(1) == "1" && Itoa(2) == "2" && Itoa(-1) == "-1" && Itoa(12) == "12" && Itoa(-31) == "-31"
  {
    assert Pad(1, 1) == "1" && Pad(2, 1) == "2" && Pad(3, 1) == "3";
    assert Pad(1, 0) == "1" && Pad(3, 0) == "3";
    assert Pad(12, 1) == "12" && Pad(31, 1) == "31";
  }

  lemma TwoInts(a: int, b: int)
    ensures Join(IntTexts([a, b]), ',') == Itoa(a) + "," + Itoa(b)
  {
    hide Itoa;
    assert [a, b][1..] == [b] && [b][1..] == [];
    assert IntTexts([a, b]) == [Itoa(a)] + [Itoa(b)];
    hide Join;
    JoinFirst(Itoa(a), [Itoa(b)], ',');
    JoinFirst(Itoa(b), [], ',');
  }

  lemma TwoDays(v: NthDay, w: NthDay)
    ensures Join(DayTexts([v, w]), ',') == DayText(v) + "," + DayText(w)
  {
    hide DayText;
    assert [v, w][1..] == [w] && [w][1..] == [];
    assert DayTexts([v, w]) == [DayText(v)] + [DayText(w)];
    hide Join;
    JoinFirst(DayText(v), [DayText(w)], ',');
    JoinFirst(DayText(w), [], ',');
  }

  function Elaborate(): Rule {
    Rule(Monthly, 2, [NthDay(1, 1), NthDay(5, -1)], [1, -31], [1, 12])
  }

  function ElaborateParts(): seq<string> {
    ["FREQ=MONTHLY", "INTERVAL=2", "BYDAY=1MO,-1FR", "BYMONTHDAY=1,-31", "BYMONTH=1,12"]
  }

  lemma ElaborateLists()
    ensures IntervalPart(Elaborate()) == ["INTERVAL=2"]
    ensures ByMonthDayPart(Elaborate()) == ["BYMONTHDAY=1,-31"]
    ensures ByMonthPart(Elaborate()) == ["BYMONTH=1,12"]
  {
    Numerals();
    hide Itoa;
    TwoInts(1, -31);
    TwoInts(1, 12);
    hide IntTexts, Join;
    assert "INTERVAL=" + "2" == "INTERVAL=2";
    assert "BYMONTHDAY=" + ("1" + "," + "-31") == "BYMONTHDAY=1,-31" && "BYMONTH=" + ("1" + "," + "12") == "BYMONTH=1,12";
  }

  lemma ElaborateDays()
    ensures ByDayPart(Elaborate()) == ["BYDAY=1MO,-1FR"]
  {
    Numerals();
    hide Itoa;
    TwoDays(NthDay(1, 1), NthDay(5, -1));
    hide DayTexts, Join;
    assert DayText(NthDay(1, 1)) == "1MO" && DayText(NthDay(5, -1)) == "-1FR";
    assert "BYDAY=" + ("1MO" + "," + "-1FR") == "BYDAY=1MO,-1FR";
  }

  /** A rule with something in every field, written out and read. */
  lemma ElaborateText()
    ensures StringOf(Elaborate()) == Join(ElaborateParts(), ';')
    ensures ParseOf(Join(ElaborateParts(), ';')) == Some(Elaborate())
  {
    hide Join, ParseOf, IntervalPart, ByDayPart, ByMonthDayPart, ByMonthPart;
    ElaborateLists();
    ElaborateDays();
    assert "FREQ=" + FreqText(Monthly) == "FREQ=MONTHLY";
    assert Parts(Elaborate()) == ElaborateParts();
    RuleRoundTrip(Elaborate());
  }

  /** A rule is as often as one of four words says, in any case, or it is refused. */
  lemma KnownFrequencies(rule: Rule, value: string)
    ensures var r := Assign(rule, "FREQ", value);
      && r.Some? && r.value == rule.(freq := r.value.freq)
      && (r.value.freq == Daily <==> Upper(value) == "DAILY") && (r.value.freq == Weekly <==> Upper(value) == "WEEKLY")
      && (r.value.freq == Monthly <==> Upper(value) == "MONTHLY") && (r.value.freq == Yearly <==> Upper(value) == "YEARLY")
      && (r.value.freq.Other? ==> !ValidRule(r.value))
  {
    hide Upper;
  }

  /** The words for how often. */
  lemma FrequencyText(f: Frequency)
    requires !f.Other?
    ensures StringOf(Rule(f, 1, [], [], [])) == "FREQ=" +
      (if f == Daily then "DAILY" else if f == Weekly then "WEEKLY" else if f == Monthly then "MONTHLY" else "YEARLY")
    ensures ParseOf(StringOf(Rule(f, 1, [], [], []))) == Some(Rule(f, 1, [], [], []))
  {
    hide ParseOf;
    var r := Rule(f, 1, [], [], []);
    assert Parts(r) == ["FREQ=" + FreqText(f)];
    RuleRoundTrip(r);
  }
}
