/**
  Decimal numbers as text, and the order of strings, as Go's `strconv`, `time`
  and SQL string comparison have them.
 */
module Text {
  import opened Options

  predicate IsDigit(c: char) {
    '0' <= c <= '9'
  }

  function Digit(n: int): (c: char)
    requires 0 <= n < 10
    ensures IsDigit(c)
  {
    '0' + n as char
  }

  function DigitValue(c: char): (n: int)
    requires IsDigit(c)
    ensures 0 <= n < 10
  {
    c as int - '0' as int
  }

  /** n in decimal, with zeros in front to make at least w digits. */
  function Pad(n: nat, w: nat): string {
    if n == 0 && w == 0 then ""
    else Pad(n / 10, if w > 0 then w - 1 else 0) + [Digit(n % 10)]
  }

  function AllDigits(s: string): bool {
    forall i :: 0 <= i < |s| ==> IsDigit(s[i])
  }

  /** The number that a run of digits stands for. */
  function Value(s: string): nat
    requires AllDigits(s)
  {
    if s == "" then 0 else 10 * Value(s[..|s| - 1]) + DigitValue(s[|s| - 1])
  }

  function Power10(w: nat): nat {
    if w == 0 then 1 else 10 * Power10(w - 1)
  }

  lemma {:induction false} PadIsDigits(n: nat, w: nat)
    ensures AllDigits(Pad(n, w)) && Value(Pad(n, w)) == n
    ensures |Pad(n, w)| >= w && (w > 0 || n > 0 ==> Pad(n, w) != "")
  {
    if !(n == 0 && w == 0) {
      var shorter := if w > 0 then w - 1 else 0;
      var front := Pad(n / 10, shorter);
      PadIsDigits(n / 10, shorter);
      ValueStep(front, n % 10);
    }
  }

  lemma ValueStep(front: string, d: int)
    requires 0 <= d < 10 && AllDigits(front)
    ensures AllDigits(front + [Digit(d)]) && Value(front + [Digit(d)]) == 10 * Value(front) + d
  {
    assert (front + [Digit(d)])[..|front|] == front;
  }

  lemma {:induction false} PadWidth(n: nat, w: nat)
    requires n < Power10(w)
    ensures |Pad(n, w)| == w
  {
    if w > 0 { PadWidth(n / 10, w - 1); }
  }

  /** A number is less than the power of ten with as many zeros as it is written with digits, and so wide by itself. */
  lemma {:induction false} PadOwnWidth(n: nat, w: nat)
    ensures n < Power10(|Pad(n, w)|)
    ensures Pad(n, |Pad(n, w)|) == Pad(n, w)
  {
    if n != 0 || w != 0 { PadOwnWidth(n / 10, if w > 0 then w - 1 else 0); }
  }

  lemma {:induction false} PadLonger(n: nat, p: nat, w: nat)
    requires n <= p
    ensures |Pad(n, w)| <= |Pad(p, w)|
  {
    if n != 0 || w != 0 { PadLonger(n / 10, p / 10, if w > 0 then w - 1 else 0); }
  }

  /** A number without its last d digits. */
  function Leading(n: nat, d: nat): nat {
    if d == 0 then n else Leading(n / 10, d - 1)
  }

  /** The leading digits of a number and the d that follow them. */
  lemma {:induction false} PadSplit(n: nat, w: nat, d: nat) returns (tail: string)
    requires d <= w && n < Power10(w)
    ensures Leading(n, d) < Power10(w - d)
    ensures |tail| == d && AllDigits(tail) && Pad(n, w) == Pad(Leading(n, d), w - d) + tail
  {
    hide Power10, Pad;
    if d == 0 {
      tail := "";
    } else {
      PowerStep(n, n, w);
      PadStep(n, w);
      var front := PadSplit(n / 10, w - 1, d - 1);
      tail := front + [Digit(n % 10)];
    }
  }

  predicate IsSpace(c: char) {
    || '\U{0009}' <= c <= '\U{000D}' || c == ' ' || c == '\U{0085}' || c == '\U{00A0}' || c == '\U{1680}'
    || '\U{2000}' <= c <= '\U{200A}' || c == '\U{2028}' || c == '\U{2029}' || c == '\U{202F}' || c == '\U{205F}' || c == '\U{3000}'
  }

  // -------------------------------------------------------- string order

  /** a comes before b, character by character. */
  predicate Less(a: string, b: string) {
    if b == "" then false
    else if a == "" then true
    else if a[0] != b[0] then a[0] < b[0]
    else Less(a[1..], b[1..])
  }

  /** The order of strings is a strict total order. */
  lemma {:induction false} LessTrans(a: string, b: string, c: string)
    ensures Less(a, b) && Less(b, c) ==> Less(a, c)
    ensures Less(a, b) || Less(b, a) || a == b
    ensures !(Less(a, b) && Less(b, a))
  {
    if a != "" && b != "" {
      LessTrans(a[1..], b[1..], if c == "" then c else c[1..]);
      assert a == [a[0]] + a[1..] && b == [b[0]] + b[1..];
    }
  }

  /** Strings with fronts of one length are ordered by their fronts, and by the rest when those agree. */
  lemma {:induction false} LessByParts(a: string, b: string, c: string, d: string)
    requires |a| == |c|
    ensures Less(a + b, c + d) <==> Less(a, c) || (a == c && Less(b, d))
  {
    if a == "" {
      assert a + b == b && c + d == d;
    } else {
      LessByParts(a[1..], b, c[1..], d);
      assert (a + b)[1..] == a[1..] + b && (c + d)[1..] == c[1..] + d;
    }
  }

  /** Numbers of one width are ordered as text as they are as numbers. */
  lemma {:induction false} PadOrder(n: nat, p: nat, w: nat)
    requires n < Power10(w) && p < Power10(w)
    ensures Less(Pad(n, w), Pad(p, w)) <==> n < p
    ensures Pad(n, w) == Pad(p, w) <==> n == p
  {
    hide Power10;
    if w > 0 {
      PowerStep(n, p, w);
      PadOrder(n / 10, p / 10, w - 1);
      hide Pad;
      PadStep(n, w);
      PadStep(p, w);
      PadWidth(n / 10, w - 1);
      PadWidth(p / 10, w - 1);
      LessByParts(Pad(n / 10, w - 1), [Digit(n % 10)], Pad(p / 10, w - 1), [Digit(p % 10)]);
      LastCharacter(Pad(n / 10, w - 1), Digit(n % 10), Pad(p / 10, w - 1), Digit(p % 10));
      DigitOrder(n % 10, p % 10);
    } else {
      PowerZero(n, p);
    }
  }

  lemma PadStep(n: nat, w: nat)
    requires w > 0
    ensures Pad(n, w) == Pad(n / 10, w - 1) + [Digit(n % 10)]
  {
  }

  lemma PowerStep(n: nat, p: nat, w: nat)
    requires w > 0 && n < Power10(w) && p < Power10(w)
    ensures n / 10 < Power10(w - 1) && p / 10 < Power10(w - 1)
  {
  }

  lemma PowerZero(n: nat, p: nat)
    requires n < Power10(0) && p < Power10(0)
    ensures n == 0 && p == 0
  {
  }

  lemma DigitOrder(a: int, b: int)
    requires 0 <= a < 10 && 0 <= b < 10
    ensures Less([Digit(a)], [Digit(b)]) <==> a < b
    ensures Digit(a) == Digit(b) <==> a == b
  {
  }

  lemma LastCharacter(a: string, x: char, b: string, y: char)
    ensures a + [x] == b + [y] <==> a == b && x == y
  {
    if a + [x] == b + [y] {
      assert (a + [x])[|a|] == (b + [y])[|b|];
      assert a == (a + [x])[..|a|] && b == (b + [y])[..|b|];
    }
  }

  // ------------------------------------------------- fixed-width records

  /** A number written with a fixed number of digits, and the mark that follows it. */
  datatype Field = Field(value: nat, width: nat, mark: string)

  predicate Fits(fs: seq<Field>) {
    forall f <- fs :: f.value < Power10(f.width)
  }

  predicate SameLayout(fs: seq<Field>, gs: seq<Field>) {
    |fs| == |gs| && forall i :: 0 <= i < |fs| ==> fs[i].width == gs[i].width && fs[i].mark == gs[i].mark
  }

  function Render(fs: seq<Field>): string {
    if fs == [] then "" else Pad(fs[0].value, fs[0].width) + fs[0].mark + Render(fs[1..])
  }

  /** Field by field, the first difference decides. */
  predicate FieldsBefore(fs: seq<Field>, gs: seq<Field>)
    requires |fs| == |gs|
  {
    fs != [] && (fs[0].value < gs[0].value || (fs[0].value == gs[0].value && FieldsBefore(fs[1..], gs[1..])))
  }

  /** Records of one layout are ordered as text as they are field by field. */
  lemma {:induction false} RenderOrder(fs: seq<Field>, gs: seq<Field>)
    requires SameLayout(fs, gs) && Fits(fs) && Fits(gs)
    ensures Less(Render(fs), Render(gs)) <==> FieldsBefore(fs, gs)
  {
    hide Power10, Pad;
    if fs != [] {
      RenderOrder(fs[1..], gs[1..]);
      var n, p, w, mark := fs[0].value, gs[0].value, fs[0].width, fs[0].mark;
      assert fs[0] in fs && gs[0] in gs;
      PadOrder(n, p, w);
      PadWidth(n, w);
      PadWidth(p, w);
      LessByParts(Pad(n, w) + mark, Render(fs[1..]), Pad(p, w) + mark, Render(gs[1..]));
      LessByParts(Pad(n, w), mark, Pad(p, w), mark);
      NotLess(mark);
      if Pad(n, w) + mark == Pad(p, w) + mark {
        assert Pad(n, w) == (Pad(n, w) + mark)[..w] == (Pad(p, w) + mark)[..w] == Pad(p, w);
      }
    }
  }

  lemma {:induction false} NotLess(a: string)
    ensures !Less(a, a)
  {
    if a != "" { NotLess(a[1..]); }
  }

  /** The numbers in a record of the given layout, or nothing when the text is not one. */
  function Read(layout: seq<Field>, s: string): Option<seq<nat>> {
    if layout == [] then (if s == "" then Some([]) else None)
    else
      var w, mark := layout[0].width, layout[0].mark;
      if |s| < w + |mark| || !AllDigits(s[..w]) || s[w..w + |mark|] != mark then None
      else match Read(layout[1..], s[w + |mark|..])
        case None => None
        case Some(rest) => Some([Value(s[..w])] + rest)
  }

  function Values(fs: seq<Field>): seq<nat> {
    if fs == [] then [] else [fs[0].value] + Values(fs[1..])
  }

  lemma {:induction false} PadOfValue(digits: string)
    requires AllDigits(digits)
    ensures Pad(Value(digits), |digits|) == digits && Value(digits) < Power10(|digits|)
  {
    if digits != "" {
      var k := |digits| - 1;
      PadOfValue(digits[..k]);
      assert Digit(DigitValue(digits[k])) == digits[k];
    }
  }

  /** The layout with the numbers filled in. */
  function Filled(layout: seq<Field>, ns: seq<nat>): (fs: seq<Field>)
    requires |ns| == |layout|
    ensures |fs| == |layout| && forall i :: 0 <= i < |fs| ==> fs[i] == Field(ns[i], layout[i].width, layout[i].mark)
  {
    seq(|layout|, i requires 0 <= i < |layout| => Field(ns[i], layout[i].width, layout[i].mark))
  }

  /** What is read is what would be written. */
  lemma {:induction false} ReadIsRendered(layout: seq<Field>, s: string)
    requires Read(layout, s).Some?
    ensures |Read(layout, s).value| == |layout|
    ensures Render(Filled(layout, Read(layout, s).value)) == s && Fits(Filled(layout, Read(layout, s).value))
  {
    hide Pad, Power10, Value;
    if layout != [] {
      var w, mark := layout[0].width, layout[0].mark;
      var rest := s[w + |mark|..];
      ReadIsRendered(layout[1..], rest);
      PadOfValue(s[..w]);
      var all := Filled(layout, Read(layout, s).value);
      assert all[1..] == Filled(layout[1..], Read(layout[1..], rest).value);
      assert s == s[..w] + mark + rest;
      assert forall f :: f in all ==> f == all[0] || f in all[1..];
    }
  }

  lemma {:induction false} ReadRendered(layout: seq<Field>, fs: seq<Field>)
    requires SameLayout(layout, fs) && Fits(fs)
    ensures Read(layout, Render(fs)) == Some(Values(fs))
  {
    hide Power10, Pad;
    if fs != [] {
      ReadRendered(layout[1..], fs[1..]);
      var n, w, mark, rest := fs[0].value, fs[0].width, fs[0].mark, Render(fs[1..]);
      assert fs[0] in fs;
      PadWidth(n, w);
      PadIsDigits(n, w);
      var s := Pad(n, w) + mark + rest;
      assert s[..w] == Pad(n, w) && s[w..w + |mark|] == mark && s[w + |mark|..] == rest;
    }
  }

  // Unfolding a record one field at a time.

  lemma RenderFirst(f: Field, rest: seq<Field>)
    ensures Render([f] + rest) == Pad(f.value, f.width) + f.mark + Render(rest)
  {
    hide Pad;
    assert ([f] + rest)[1..] == rest;
  }

  lemma RenderNone()
    ensures Render([]) == ""
  {
  }

  lemma BeforeFirst(f: Field, fs: seq<Field>, g: Field, gs: seq<Field>)
    requires |fs| == |gs|
    ensures FieldsBefore([f] + fs, [g] + gs) <==> f.value < g.value || (f.value == g.value && FieldsBefore(fs, gs))
  {
    assert ([f] + fs)[1..] == fs && ([g] + gs)[1..] == gs;
  }

  lemma NoneBefore()
    ensures !FieldsBefore([], [])
  {
  }

  lemma ValuesFirst(f: Field, rest: seq<Field>)
    ensures Values([f] + rest) == [f.value] + Values(rest)
  {
    assert ([f] + rest)[1..] == rest;
  }

  lemma ValuesNone()
    ensures Values([]) == []
  {
  }

  // --------------------------------------------------- cutting and joining

  function IndexOf(s: string, c: char): (i: nat)
    ensures i <= |s|
    ensures i < |s| ==> s[i] == c
    ensures forall j :: 0 <= j < i ==> s[j] != c
  {
    if s == "" || s[0] == c then 0 else 1 + IndexOf(s[1..], c)
  }

  /** strings.Split on one character: never empty. */
  function Split(s: string, sep: char): (parts: seq<string>)
    ensures parts != []
  {
    var i := IndexOf(s, sep);
    if i == |s| then [s] else [s[..i]] + Split(s[i + 1..], sep)
  }

  /** strings.Join with one character. */
  function Join(parts: seq<string>, sep: char): string {
    if parts == [] then "" else if |parts| == 1 then parts[0] else parts[0] + [sep] + Join(parts[1..], sep)
  }

  lemma {:induction false} IndexAfter(a: string, c: char, b: string)
    requires c !in a
    ensures IndexOf(a + [c] + b, c) == |a| && IndexOf(a, c) == |a|
  {
    if a != "" {
      IndexAfter(a[1..], c, b);
      assert (a + [c] + b)[1..] == a[1..] + [c] + b;
    }
  }

  lemma {:induction false} SplitJoined(parts: seq<string>, sep: char)
    requires parts != [] && forall p <- parts :: sep !in p
    ensures Split(Join(parts, sep), sep) == parts
  {
    if |parts| == 1 {
      IndexAfter(parts[0], sep, "");
    } else {
      var rest := Join(parts[1..], sep);
      IndexAfter(parts[0], sep, rest);
      var s := parts[0] + [sep] + rest;
      assert s[..|parts[0]|] == parts[0] && s[|parts[0]| + 1..] == rest;
      SplitJoined(parts[1..], sep);
    }
  }
}
