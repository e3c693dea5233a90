/**
  Instants as stored text: always UTC, and always the same width while a year
  has four digits, so that the order of the text is the order of time. Outside
  those years the text says exactly which instants still sort right.
 */
module Timestamps {
  import opened Calendar
  import opened Options
  import opened Text

  const SECOND := 1_000_000_000
  const DAY := 86_400 * SECOND

  /** An instant, in nanoseconds since 0001-01-01T00:00:00Z, read off a UTC clock. */
  datatype Clock = Clock(date: Civil, hour: int, minute: int, second: int, nano: int)

  function ClockOf(t: int): Clock {
    var tod := t % DAY;
    Clock(CivilOf(t / DAY), tod / (3600 * SECOND), tod / (60 * SECOND) % 60, tod / SECOND % 60, tod % SECOND)
  }

  function InstantOf(c: Clock): int {
    DayNumber(c.date) * DAY + ((c.hour * 60 + c.minute) * 60 + c.second) * SECOND + c.nano
  }

  predicate ValidClock(c: Clock) {
    ValidDate(c.date) && 0 <= c.hour < 24 && 0 <= c.minute < 60 && 0 <= c.second < 60 && 0 <= c.nano < SECOND
  }

  lemma ClockRoundTrip(t: int)
    ensures ValidClock(ClockOf(t)) && InstantOf(ClockOf(t)) == t
  {
    hide CivilOf, DayNumber, ValidDate;
    CivilOfIsValid(t / DAY);
    var tod := t % DAY;
    assert tod / (60 * SECOND) / 60 == tod / (3600 * SECOND);
    assert tod / SECOND / 60 == tod / (60 * SECOND);
  }

  /** Fractions of a day are ordered field by field. */
  lemma ClockOrder(a: Clock, b: Clock)
    requires ValidClock(a) && ValidClock(b)
    ensures InstantOf(a) < InstantOf(b) <==> ClockBefore(a, b)
  {
    hide DayNumber, ValidDate, Before;
    BeforeIsDayOrder(a.date, b.date);
    BeforeIsDayOrder(b.date, a.date);
    BeforeTotal(a.date, b.date);
  }

  lemma BeforeTotal(c: Civil, o: Civil)
    ensures Before(c, o) || Before(o, c) || c == o
    ensures !(Before(c, o) && Before(o, c)) && !Before(c, c)
  {
  }

  predicate ClockBefore(a: Clock, b: Clock) {
    if a.date != b.date then Before(a.date, b.date)
    else if a.hour != b.hour then a.hour < b.hour
    else if a.minute != b.minute then a.minute < b.minute
    else if a.second != b.second then a.second < b.second
    else a.nano < b.nano
  }

  // --------------------------------------------------------------- writing

  /** The year as time.Format writes it: at least four digits, a minus sign before the era. */
  function YearText(y: int): string {
    if y < 0 then "-" + Pad(-y, 4) else Pad(y, 4)
  }

  /** t.UTC().Format("2006-01-02T15:04:05.000000000Z"). */
  function Format(t: int): string {
    ClockRoundTrip(t);
    ClockText(ClockOf(t))
  }

  function ClockText(c: Clock): string
    requires ValidClock(c)
  {
    YearText(c.date.y) + "-" + Pad(c.date.m, 2) + "-" + Pad(c.date.d, 2) + "T"
    + Pad(c.hour, 2) + ":" + Pad(c.minute, 2) + ":" + Pad(c.second, 2) + "." + Pad(c.nano, 9) + "Z"
  }

  /** The instant falls in the years 0000 to 9999. */
  predicate FourDigitYear(t: int) {
    0 <= CivilOf(t / DAY).y <= 9999
  }

  function TimeFields(c: Clock): seq<Field>
    requires ValidClock(c)
  {
    [Field(c.hour, 2, ":")] + ([Field(c.minute, 2, ":")] + ([Field(c.second, 2, ".")] + ([Field(c.nano, 9, "Z")] + [])))
  }

  function InYear(c: Clock): seq<Field>
    requires ValidClock(c)
  {
    [Field(c.date.m, 2, "-")] + ([Field(c.date.d, 2, "T")] + TimeFields(c))
  }

  function Fields(c: Clock): seq<Field>
    requires ValidClock(c) && 0 <= c.date.y
  {
    [Field(c.date.y, 4, "-")] + InYear(c)
  }

  lemma TextHasYear(c: Clock)
    requires ValidClock(c)
    ensures ClockText(c) == YearText(c.date.y) + "-" + Render(InYear(c))
  {
    hide Pad, Render, YearText;
    RenderFirst(Field(c.nano, 9, "Z"), []);
    RenderNone();
    RenderFirst(Field(c.second, 2, "."), [Field(c.nano, 9, "Z")] + []);
    RenderFirst(Field(c.minute, 2, ":"), [Field(c.second, 2, ".")] + ([Field(c.nano, 9, "Z")] + []));
    RenderFirst(Field(c.hour, 2, ":"), [Field(c.minute, 2, ":")] + ([Field(c.second, 2, ".")] + ([Field(c.nano, 9, "Z")] + [])));
    RenderFirst(Field(c.date.d, 2, "T"), TimeFields(c));
    RenderFirst(Field(c.date.m, 2, "-"), [Field(c.date.d, 2, "T")] + TimeFields(c));
  }

  lemma TextIsRecord(c: Clock)
    requires ValidClock(c) && 0 <= c.date.y
    ensures ClockText(c) == Render(Fields(c))
  {
    hide Pad, Render, InYear;
    TextHasYear(c);
    RenderFirst(Field(c.date.y, 4, "-"), InYear(c));
  }

  lemma Widths()
    ensures Power10(2) == 100 && Power10(4) == 10000 && Power10(9) == SECOND
  {
    assert Power10(5) == 100000 && Power10(7) == 10000000;
  }

  lemma FieldsFit(c: Clock)
    requires ValidClock(c) && 0 <= c.date.y <= 9999
    ensures Fits(Fields(c))
  {
    hide Power10;
    Widths();
  }

  // ------------------------------------------------ the order of the text

  /** The digits of a year without its sign. */
  function Digits(y: nat): nat {
    |Pad(y, 4)|
  }

  /**
    Two different years without signs, in the order of their text: as many
    leading digits decide as both have, and then the shorter comes first.
   */
  predicate WrittenBefore(y: nat, z: nat) {
    if Digits(y) <= Digits(z) then y != z && y <= Leading(z, Digits(z) - Digits(y))
    else Leading(y, Digits(y) - Digits(z)) < z
  }

  /** Years before 0000 come first, and among themselves by how far back they are. */
  predicate YearBefore(y: int, z: int) {
    if y < 0 then z >= 0 || WrittenBefore(-y, -z)
    else z >= 0 && WrittenBefore(y, z)
  }

  lemma WrittenOrder(y: nat, z: nat, r: string, s: string)
    requires y != z && r != "" && s != "" && r[0] == '-' && s[0] == '-'
    ensures Less(Pad(y, 4) + r, Pad(z, 4) + s) <==> WrittenBefore(y, z)
  {
    hide Pad, Less, Leading;
    if Digits(y) <= Digits(z) {
      ShorterFirst(y, z, r, s);
    } else {
      ShorterFirst(z, y, s, r);
    }
  }

  lemma ShorterFirst(y: nat, z: nat, r: string, s: string)
    requires y != z && Digits(y) <= Digits(z) && r != "" && s != "" && r[0] == '-' && s[0] == '-'
    ensures Less(Pad(y, 4) + r, Pad(z, 4) + s) <==> y <= Leading(z, Digits(z) - Digits(y))
    ensures Less(Pad(z, 4) + s, Pad(y, 4) + r) <==> Leading(z, Digits(z) - Digits(y)) < y
  {
    hide Pad, Power10, Less;
    var n, d := Digits(y), Digits(z) - Digits(y);
    PadOwnWidth(y, 4);
    PadOwnWidth(z, 4);
    var tail := PadSplit(z, Digits(z), d);
    var head := Leading(z, d);
    PadWidth(head, n);
    assert Pad(z, 4) + s == Pad(head, n) + (tail + s);
    LessByParts(Pad(y, n), r, Pad(head, n), tail + s);
    LessByParts(Pad(head, n), tail + s, Pad(y, n), r);
    PadOrder(y, head, n);
    PadOrder(head, y, n);
    if d > 0 { MarkBeforeDigit(r, tail + s); }
  }

  lemma MarkBeforeDigit(r: string, s: string)
    requires r != "" && r[0] == '-' && s != "" && IsDigit(s[0])
    ensures Less(r, s) && !Less(s, r)
  {
  }

  lemma YearOrder(y: int, z: int, r: string, s: string)
    requires y != z && r != "" && s != "" && r[0] == '-' && s[0] == '-'
    ensures Less(YearText(y) + r, YearText(z) + s) <==> YearBefore(y, z)
  {
    hide Pad, WrittenBefore, Less;
    if y < 0 && z < 0 {
      WrittenOrder(-y, -z, r, s);
      SamePrefix("-", Pad(-y, 4) + r, Pad(-z, 4) + s);
      assert YearText(y) + r == "-" + (Pad(-y, 4) + r) && YearText(z) + s == "-" + (Pad(-z, 4) + s);
    } else if y >= 0 && z >= 0 {
      WrittenOrder(y, z, r, s);
    } else if y < 0 {
      SignFirst(-y, r, z, s);
    } else {
      SignFirst(-z, s, y, r);
    }
  }

  lemma SignFirst(y: nat, r: string, z: nat, s: string)
    ensures Less("-" + Pad(y, 4) + r, Pad(z, 4) + s) && !Less(Pad(z, 4) + s, "-" + Pad(y, 4) + r)
  {
    hide Pad;
    PadIsDigits(z, 4);
    MarkBeforeDigit("-" + Pad(y, 4) + r, Pad(z, 4) + s);
  }

  lemma RestInOrder(a: Clock, b: Clock)
    requires ValidClock(a) && ValidClock(b) && a.date.y == b.date.y
    ensures Less(Render(InYear(a)), Render(InYear(b))) <==> ClockBefore(a, b)
  {
    hide FieldsBefore, Power10, Render, Fits, SameLayout;
    assert Fits(InYear(a)) && Fits(InYear(b)) && SameLayout(InYear(a), InYear(b)) by { RestFits(a); RestFits(b); RestLayout(a, b); }
    RenderOrder(InYear(a), InYear(b));
    BeforeFirst(Field(a.nano, 9, "Z"), [], Field(b.nano, 9, "Z"), []);
    NoneBefore();
    BeforeFirst(Field(a.second, 2, "."), [Field(a.nano, 9, "Z")] + [], Field(b.second, 2, "."), [Field(b.nano, 9, "Z")] + []);
    BeforeFirst(Field(a.minute, 2, ":"), [Field(a.second, 2, ".")] + ([Field(a.nano, 9, "Z")] + []),
                Field(b.minute, 2, ":"), [Field(b.second, 2, ".")] + ([Field(b.nano, 9, "Z")] + []));
    BeforeFirst(Field(a.hour, 2, ":"), [Field(a.minute, 2, ":")] + ([Field(a.second, 2, ".")] + ([Field(a.nano, 9, "Z")] + [])),
                Field(b.hour, 2, ":"), [Field(b.minute, 2, ":")] + ([Field(b.second, 2, ".")] + ([Field(b.nano, 9, "Z")] + [])));
    BeforeFirst(Field(a.date.d, 2, "T"), TimeFields(a), Field(b.date.d, 2, "T"), TimeFields(b));
    BeforeFirst(Field(a.date.m, 2, "-"), [Field(a.date.d, 2, "T")] + TimeFields(a),
                Field(b.date.m, 2, "-"), [Field(b.date.d, 2, "T")] + TimeFields(b));
  }

  lemma RestFits(c: Clock)
    requires ValidClock(c)
    ensures Fits(InYear(c))
  {
    hide Power10;
    Widths();
  }

  lemma RestLayout(a: Clock, b: Clock)
    requires ValidClock(a) && ValidClock(b)
    ensures SameLayout(InYear(a), InYear(b))
  {
    hide ValidDate;
  }

  /** Instants of one year sort as text as they do in time; those of different years as their years are written. */
  lemma TextOrder(t: int, u: int)
    ensures var y, z := CivilOf(t / DAY).y, CivilOf(u / DAY).y;
      Less(Format(t), Format(u)) <==> if y == z then t < u else YearBefore(y, z)
  {
    hide ClockOf, InstantOf, ClockText, InYear, CivilOf, ValidDate, Render, YearText, YearBefore, Less;
    YearsOfClocks(t);
    YearsOfClocks(u);
    ClockRoundTrip(t);
    ClockRoundTrip(u);
    var a, b := ClockOf(t), ClockOf(u);
    TextHasYear(a);
    TextHasYear(b);
    var y, z := a.date.y, b.date.y;
    var r, s := "-" + Render(InYear(a)), "-" + Render(InYear(b));
    assert ClockText(a) == YearText(y) + r && ClockText(b) == YearText(z) + s;
    if y == z {
      RestInOrder(a, b);
      ClockOrder(a, b);
      SamePrefix(YearText(y) + "-", Render(InYear(a)), Render(InYear(b)));
    } else {
      YearOrder(y, z, r, s);
    }
  }

  lemma SamePrefix(p: string, r: string, s: string)
    ensures Less(p + r, p + s) <==> Less(r, s)
  {
    LessByParts(p, r, p, s);
    NotLess(p);
  }

  lemma YearsAscend(t: int, u: int)
    ensures CivilOf(t / DAY).y < CivilOf(u / DAY).y ==> t < u
    ensures t <= u ==> CivilOf(t / DAY).y <= CivilOf(u / DAY).y
  {
    hide ClockOf, InstantOf, CivilOf, ValidDate;
    YearsOfClocks(t);
    YearsOfClocks(u);
    ClockRoundTrip(t);
    ClockRoundTrip(u);
    ClockOrder(ClockOf(t), ClockOf(u));
    ClockOrder(ClockOf(u), ClockOf(t));
  }

  /**
    Two years are written in their order: one has a sign and the other has not, or
    neither has and the longer one's leading digits do not fall short of the
    shorter, or both have and the longer one's leading digits do.
   */
  predicate KeepsOrder(y: int, z: int) {
    if y > z then KeepsOrderUp(z, y) else y == z || KeepsOrderUp(y, z)
  }

  predicate KeepsOrderUp(y: int, z: int)
    requires y < z
  {
    if y < 0 <= z then true
    else if 0 <= y then Digits(y) == Digits(z) || (Digits(y) < Digits(z) && y <= Leading(z, Digits(z) - Digits(y)))
    else Digits(-z) < Digits(-y) && Leading(-y, Digits(-y) - Digits(-z)) < -z
  }

  /** Stored instants sort as text as they do in time exactly when their years are written in order. */
  lemma TextOrderIsTimeOrder(t: int, u: int)
    ensures (Less(Format(t), Format(u)) <==> t < u) && (Less(Format(u), Format(t)) <==> u < t)
      <==> KeepsOrder(CivilOf(t / DAY).y, CivilOf(u / DAY).y)
  {
    hide CivilOf, Less, Format, Leading;
    TextOrder(t, u);
    TextOrder(u, t);
    YearsAscend(t, u);
    YearsAscend(u, t);
    var y, z := CivilOf(t / DAY).y, CivilOf(u / DAY).y;
    if y < z { OrderOfYears(y, z); }
    if z < y { OrderOfYears(z, y); }
  }

  lemma OrderOfYears(y: int, z: int)
    requires y < z
    ensures YearBefore(y, z) <==> !YearBefore(z, y)
    ensures YearBefore(y, z) <==> KeepsOrderUp(y, z)
  {
    hide Leading, Pad;
    if 0 <= y {
      PadLonger(y, z, 4);
      LeadingNone(y);
      LeadingNone(z);
    }
    if z < 0 {
      PadLonger(-z, -y, 4);
      LeadingNone(-y);
      LeadingNone(-z);
    }
  }

  lemma LeadingNone(y: nat)
    ensures Leading(y, 0) == y
  {
  }

  /** In particular where both have as many digits and no sign, as from 0000 to 9999. */
  lemma FourDigitsKeepOrder(t: int, u: int)
    requires FourDigitYear(t) && FourDigitYear(u)
    ensures Less(Format(t), Format(u)) <==> t < u
  {
    hide CivilOf, Less, Format, Pad, Power10;
    TextOrderIsTimeOrder(t, u);
    Widths();
    PadWidth(CivilOf(t / DAY).y, 4);
    PadWidth(CivilOf(u / DAY).y, 4);
  }

  lemma YearsOfClocks(t: int)
    ensures ClockOf(t).date.y == CivilOf(t / DAY).y
  {
    hide CivilOf;
  }

  /** Past the year 9999 the order breaks: the first instant of 10000 sorts before the last of 9999. */
  lemma OrderBreaksAfter9999()
    ensures var new_year := DayNumber(Civil(10000, 1, 1)) * DAY;
      Less(Format(new_year), Format(new_year - 1))
  {
    hide ClockText, CivilOf, DayNumber, Pad, Less;
    var t := DayNumber(Civil(10000, 1, 1)) * DAY;
    TurnOfTheEra();
    CivilRoundTrip(Civil(10000, 1, 1));
    CivilRoundTrip(Civil(9999, 12, 31));
    assert (t - 1) / DAY == DayNumber(Civil(9999, 12, 31)) && t / DAY == DayNumber(Civil(10000, 1, 1));
    assert Civil(10000, 1, 1).y == 10000;
    FirstCharacter(ClockOf(t), ClockOf(t - 1));
  }

  lemma TurnOfTheEra()
    ensures DayNumber(Civil(10000, 1, 1)) == DayNumber(Civil(9999, 12, 31)) + 1
    ensures ValidDate(Civil(10000, 1, 1)) && ValidDate(Civil(9999, 12, 31))
  {
    hide DaysBeforeYear;
    DayNumberPlain(Civil(10000, 1, 1));
    DayNumberPlain(Civil(9999, 12, 31));
    YearStep(9999);
  }

  lemma PadOfZeroWidth()
    ensures Pad(1, 0) == "1" && Pad(0, 0) == ""
  {
  }

  lemma FirstCharacter(a: Clock, b: Clock)
    requires ValidClock(a) && ValidClock(b) && a.date.y == 10000 && b.date.y == 9999
    ensures Less(ClockText(a), ClockText(b))
  {
    hide ValidDate;
    hide Pad;
    PadStep(10000, 4); PadStep(1000, 3); PadStep(100, 2); PadStep(10, 1);
    PadStep(9999, 4); PadStep(999, 3); PadStep(99, 2); PadStep(9, 1);
    PadOfZeroWidth();
    assert ClockText(a)[0] == '1' && ClockText(b)[0] == '9';
  }

  // --------------------------------------------------------------- reading

  const LAYOUT := [Field(0, 4, "-"), Field(0, 2, "-"), Field(0, 2, "T"),
                   Field(0, 2, ":"), Field(0, 2, ":"), Field(0, 2, "."), Field(0, 9, "Z")]

  /** time.Parse with the layout that is written. */
  function Parse(s: string): Option<int> {
    match Read(LAYOUT, s)
    case None => None
    case Some(v) =>
      if |v| != 7 then None
      else
        var c := Clock(Civil(v[0], v[1], v[2]), v[3], v[4], v[5], v[6]);
        if ValidClock(c) then Some(InstantOf(c)) else None
  }

  /** What was written reads back to the nanosecond. */
  lemma FormatRoundTrip(t: int)
    requires FourDigitYear(t)
    ensures Parse(Format(t)) == Some(t)
  {
    hide ClockOf, InstantOf, ClockText, CivilOf, ValidDate, Render, Fits, Read;
    YearsOfClocks(t);
    ClockRoundTrip(t);
    var c := ClockOf(t);
    TextIsRecord(c);
    FieldsFit(c);
    ReadRendered(LAYOUT, Fields(c));
    ValuesOfFields(c);
  }

  lemma ValuesOfFields(c: Clock)
    requires ValidClock(c) && 0 <= c.date.y
    ensures Values(Fields(c)) == [c.date.y, c.date.m, c.date.d, c.hour, c.minute, c.second, c.nano]
  {
    hide Values;
    ValuesFirst(Field(c.nano, 9, "Z"), []);
    ValuesNone();
    ValuesFirst(Field(c.second, 2, "."), [Field(c.nano, 9, "Z")] + []);
    ValuesFirst(Field(c.minute, 2, ":"), [Field(c.second, 2, ".")] + ([Field(c.nano, 9, "Z")] + []));
    ValuesFirst(Field(c.hour, 2, ":"), [Field(c.minute, 2, ":")] + ([Field(c.second, 2, ".")] + ([Field(c.nano, 9, "Z")] + [])));
    ValuesFirst(Field(c.date.d, 2, "T"), TimeFields(c));
    ValuesFirst(Field(c.date.m, 2, "-"), [Field(c.date.d, 2, "T")] + TimeFields(c));
    ValuesFirst(Field(c.date.y, 4, "-"), [Field(c.date.m, 2, "-")] + ([Field(c.date.d, 2, "T")] + TimeFields(c)));
  }

  lemma ClockIsOne(c: Clock)
    requires ValidClock(c)
    ensures ClockOf(InstantOf(c)) == c
  {
    hide ClockOf, InstantOf, ValidDate, Before;
    var a := ClockOf(InstantOf(c));
    ClockRoundTrip(InstantOf(c));
    ClockOrder(a, c);
    ClockOrder(c, a);
    BeforeTotal(a.date, c.date);
  }

  /** And reading by the layout is exact: what reads as an instant is the text that would be written for it. */
  lemma ReadIsFormatted(s: string, t: int)
    ensures Parse(s) == Some(t) <==> FourDigitYear(t) && s == Format(t)
  {
    hide ClockOf, InstantOf, CivilOf, ValidDate, Render, Read, ClockText, Fits;
    if Parse(s) == Some(t) {
      ReadIsRendered(LAYOUT, s);
      var v := Read(LAYOUT, s).value;
      var c := Clock(Civil(v[0], v[1], v[2]), v[3], v[4], v[5], v[6]);
      ClockIsOne(c);
      YearsOfClocks(t);
      TextIsRecord(c);
      FieldsFilled(c, v);
    }
    if FourDigitYear(t) && s == Format(t) { FormatRoundTrip(t); }
  }

  lemma FieldsFilled(c: Clock, v: seq<nat>)
    requires |v| == 7 && ValidClock(c) && c == Clock(Civil(v[0], v[1], v[2]), v[3], v[4], v[5], v[6])
    ensures Fields(c) == Filled(LAYOUT, v)
    ensures Fits(Filled(LAYOUT, v)) ==> c.date.y <= 9999
  {
    hide Power10, ValidDate;
    Widths();
    var fs := Filled(LAYOUT, v);
    assert fs[0] in fs;
  }

  /** The text stands for the number. */
  predicate Reads(s: string, n: int) {
    AllDigits(s) && Value(s) == n
  }

  lemma PadReads(n: int, w: nat)
    requires 0 <= n < Power10(w)
    ensures |Pad(n, w)| == w && Reads(Pad(n, w), n)
  {
    hide Pad, Power10, Value;
    PadIsDigits(n, w);
    PadWidth(n, w);
  }

  lemma InPieces(y: string, m: string, d: string, h: string, i: string, s: string, n: string)
    requires |y| == 4 && |m| == |d| == |h| == |i| == |s| == 2 && |n| == 9
    ensures var t := y + "-" + m + "-" + d + "T" + h + ":" + i + ":" + s + "." + n + "Z";
      && |t| == 30 && [t[4], t[7], t[10], t[13], t[16], t[19], t[29]] == "--T::.Z"
      && t[..4] == y && t[5..7] == m && t[8..10] == d && t[11..13] == h && t[14..16] == i && t[17..19] == s && t[20..29] == n
  {
  }

  /** In the years 0000 to 9999 every field has its place in the text: thirty characters, the greater before the lesser. */
  lemma FixedPlaces(t: int)
    requires FourDigitYear(t)
    ensures var f, c := Format(t), ClockOf(t);
      && |f| == 30 && [f[4], f[7], f[10], f[13], f[16], f[19], f[29]] == "--T::.Z"
      && Reads(f[..4], c.date.y) && Reads(f[5..7], c.date.m) && Reads(f[8..10], c.date.d)
      && Reads(f[11..13], c.hour) && Reads(f[14..16], c.minute) && Reads(f[17..19], c.second) && Reads(f[20..29], c.nano)
  {
    hide ClockOf, CivilOf, MonthLength, Pad, Power10, Reads;
    var c := ClockOf(t);
    YearsOfClocks(t);
    ClockRoundTrip(t);
    Widths();
    PadReads(c.date.y, 4);
    PadReads(c.date.m, 2);
    MonthFits(c.date);
    PadReads(c.date.d, 2);
    PadReads(c.hour, 2);
    PadReads(c.minute, 2);
    PadReads(c.second, 2);
    PadReads(c.nano, 9);
    InPieces(Pad(c.date.y, 4), Pad(c.date.m, 2), Pad(c.date.d, 2),
             Pad(c.hour, 2), Pad(c.minute, 2), Pad(c.second, 2), Pad(c.nano, 9));
  }

  lemma MonthFits(c: Civil)
    requires ValidDate(c)
    ensures 1 <= c.m <= 12 && 1 <= c.d <= 31
  {
  }
}
