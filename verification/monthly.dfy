/**
  No monthly rule is ever starved.

  Two years are of one kind when they begin on the same weekday and have the
  same length; a date selected in one is selected in the other. A monthly rule
  comes back to the same month every 12 periods, `interval` years on. Within
  332 such steps it always meets a year of the same kind, so it recurs within
  12 * 332 = 3984 periods, which is less than the 4000 after which the walk
  gives up.
 */
module MonthlyExactness {
  import opened Calendar
  import opened Exactness
  import opened Rules
  import opened Schedules

  ghost predicate SameKind(y: int, x: int) {
    IsLeap(y) == IsLeap(x) && DaysBeforeYear(y) % 7 == DaysBeforeYear(x) % 7
  }

  lemma SameRemainder(a: int, b: int, m: int, k: int)
    requires m > 0 && a - b == m * k
    ensures a % m == b % m
  {
    QuotientShift(b, m, k);
  }

  // ---------------------------------------------- the kind of a year, mod 400

  /** Years in the 400-year cycle as 4z + rest; the three centuries that are not leap are set apart. */
  predicate Regular(z: int, rest: int) {
    0 <= z < 100 && 0 <= rest < 4 && (rest == 0 ==> z != 25 && z != 50 && z != 75)
  }

  lemma RegularYear(z: int, rest: int)
    requires Regular(z, rest)
    ensures IsLeap(4 * z + rest) <==> rest == 0
    ensures DaysBeforeYear(4 * z + rest) == 1461 * z - z / 25 + (if rest == 0 then -366 else 365 * (rest - 1))
  {
    var y, c, p := 4 * z + rest, z / 25, z % 25;
    assert z == 25 * c + p;
    QuotientUnique(y, 4, z, rest);
    QuotientUnique(y, 100, c, 4 * p + rest);
    QuotientUnique(y, 400, 0, y);
    if rest > 0 {
      QuotientUnique(y - 1, 4, z, rest - 1);
      QuotientUnique(y - 1, 100, c, 4 * p + rest - 1);
      QuotientUnique(y - 1, 400, 0, y - 1);
    } else if z > 0 {
      QuotientUnique(y - 1, 4, z - 1, 3);
      QuotientUnique(y - 1, 100, c, 4 * p - 1);
      QuotientUnique(y - 1, 400, 0, y - 1);
    }
  }

  /** Regular years four apart in the same column are of one kind when their weekdays agree. */
  lemma RegularTwin(z: int, x: int, rest: int)
    requires Regular(z, rest) && Regular(x, rest)
    requires (5 * z - z / 25) % 7 == (5 * x - x / 25) % 7
    ensures SameKind(4 * z + rest, 4 * x + rest)
  {
    hide IsLeap, DaysBeforeYear;
    RegularYear(z, rest);
    RegularYear(x, rest);
    var a, b := 5 * z - z / 25, 5 * x - x / 25;
    assert a == 7 * (a / 7) + a % 7 && b == 7 * (b / 7) + b % 7;
    SameRemainder(DaysBeforeYear(4 * z + rest), DaysBeforeYear(4 * x + rest), 7, 208 * z - 208 * x + a / 7 - b / 7);
  }

  /** The kind of a year depends on its place in the 400-year cycle only. */
  lemma SameKindCycle(y: int, a: int, x: int, b: int)
    requires SameKind(y, x)
    ensures SameKind(y + 400 * a, x + 400 * b)
  {
    hide IsLeap, DaysBeforeYear;
    LeapCycle(y, a);
    LeapCycle(x, b);
    YearCycle(y, a);
    YearCycle(x, b);
    SameRemainder(DaysBeforeYear(y + 400 * a), DaysBeforeYear(y), 7, 20871 * a);
    SameRemainder(DaysBeforeYear(x + 400 * b), DaysBeforeYear(x), 7, 20871 * b);
  }

  // --------------------------------------------------- steps round the cycle

  /** An inverse modulo 400 of an interval that shares no factor with 10, by Newton's iteration from one modulo 10. */
  lemma Inverse(i: int) returns (u: int)
    requires i % 2 == 1 && i % 5 != 0
    ensures (i * u) % 400 == 1 && u % 2 == 1 && u % 5 != 0
  {
    var u0 := if i % 10 == 3 then 7 else if i % 10 == 7 then 3 else i % 10;
    LastDigit(i, u0);
    var u1 := u0 * (2 - i * u0);
    NewtonStep(i, u0, 10);
    u := u1 * (2 - i * u1);
    NewtonStep(i, u1, 100);
    FromTenThousand(i, u);
  }

  lemma LastDigits(d: int, u: int)
    requires (d == 1 && u == 1) || (d == 3 && u == 7) || (d == 7 && u == 3) || (d == 9 && u == 9)
    ensures (d * u) % 10 == 1
  {
  }

  lemma LastDigit(i: int, u: int)
    requires i % 2 == 1 && i % 5 != 0
    requires u == if i % 10 == 3 then 7 else if i % 10 == 7 then 3 else i % 10
    ensures (i * u) % 10 == 1
  {
    var q, d := i / 10, i % 10;
    assert i == 10 * q + d && (d == 1 || d == 3 || d == 7 || d == 9);
    assert i * u == 10 * (q * u) + d * u;
    LastDigits(d, u);
    SameRemainder(i * u, d * u, 10, q * u);
  }

  lemma NewtonStep(i: int, u: int, m: int)
    requires m >= 2 && (i * u) % m == 1
    ensures (i * (u * (2 - i * u))) % (m * m) == 1
  {
    var t := (i * u) / m;
    assert i * u == m * t + 1;
    var x := i * u;
    assert i * (u * (2 - x)) == x * (2 - x);
    assert x * (2 - x) == 1 - (x - 1) * (x - 1);
    assert (x - 1) * (x - 1) == (m * m) * (t * t);
    assert m * m >= m;
    QuotientUnique(x * (2 - x), m * m, -(t * t), 1);
  }

  lemma FactorDivides(i: int, u: int, d: int)
    requires d > 0 && u % d == 0
    ensures (i * u) % d == 0
  {
    assert u == d * (u / d);
    assert i * u == d * (i * (u / d));
    QuotientUnique(i * u, d, i * (u / d), 0);
  }

  lemma FromTenThousand(i: int, u: int)
    requires (i * u) % 10000 == 1
    ensures (i * u) % 400 == 1 && u % 2 == 1 && u % 5 != 0
  {
    var p, t := i * u, (i * u) / 10000;
    assert p == 10000 * t + 1;
    QuotientUnique(p, 400, 25 * t, 1);
    QuotientUnique(p, 2, 5000 * t, 1);
    QuotientUnique(p, 5, 2000 * t, 1);
    if u % 2 == 0 { FactorDivides(i, u, 2); }
    if u % 5 == 0 { FactorDivides(i, u, 5); }
  }

  /** Two remainders modulo 100 that are both small differ by what the numbers differ by, up to hundreds. */
  lemma SmallDifference(a: int, b: int) returns (k: int)
    requires a % 100 <= 16 && b % 100 <= 16
    ensures b - a == (b % 100 - a % 100) + 100 * k && -16 <= b % 100 - a % 100 <= 16
  {
    k := b / 100 - a / 100;
  }

  lemma ArcCases(u: int, e: int, f: int, g: int, h: int, w: int, k: int)
    requires u % 2 == 1 && u % 5 != 0
    requires 7 * u == e + 100 * f && -8 <= e <= 8
    requires 10 * u == g + 100 * h && -16 <= g <= 16
    requires 72 * u == w + 100 * k && -16 <= w <= 16
    ensures -16 <= g + e <= 16 ==> w - 2 * e < -16 || 16 < w - 2 * e
  {
    var p, q := 7 * h - 10 * f, 7 * k - 72 * f;
    assert 10 * e - 7 * g == 100 * p && -2 < p < 2;
    assert 72 * e - 7 * w == 100 * q && -8 < q < 8;
    assert e % 2 != 0 && e % 5 != 0;
    assert e == 1 || e == -1 || e == 3 || e == -3 || e == 7 || e == -7;
  }

  /** The seven places v + c * u, for a step u prime to 10, do not fit in 17 places in a row modulo 100. */
  lemma NoNarrowArc(v: int, u: int)
    requires u % 2 == 1 && u % 5 != 0
    ensures v % 100 > 16 || (v - 7 * u) % 100 > 16 || (v - 14 * u) % 100 > 16 || (v + 10 * u) % 100 > 16
      || (v + 17 * u) % 100 > 16 || (v + 58 * u) % 100 > 16 || (v + 72 * u) % 100 > 16
  {
    var v1, v2, v3, v4, v5, v6 := v - 7 * u, v - 14 * u, v + 10 * u, v + 17 * u, v + 58 * u, v + 72 * u;
    if v % 100 <= 16 && v1 % 100 <= 16 && v2 % 100 <= 16 && v3 % 100 <= 16 && v4 % 100 <= 16 && v5 % 100 <= 16 && v6 % 100 <= 16 {
      var f := SmallDifference(v1, v);
      var f2 := SmallDifference(v2, v);
      var h := SmallDifference(v, v3);
      var h2 := SmallDifference(v, v4);
      var k := SmallDifference(v, v6);
      var k2 := SmallDifference(v, v5);
      ArcRemainders(u, v % 100 - v1 % 100, f, v % 100 - v2 % 100, f2, v3 % 100 - v % 100, h,
                    v4 % 100 - v % 100, h2, v6 % 100 - v % 100, k, v5 % 100 - v % 100, k2);
    }
  }

  lemma NoHundreds(a: int, k: int)
    requires a == 100 * k && -100 < a < 100
    ensures a == 0
  {
  }

  lemma ArcRemainders(u: int, e: int, f: int, e2: int, f2: int, g: int, h: int, g2: int, h2: int, w: int, k: int, w2: int, k2: int)
    requires u % 2 == 1 && u % 5 != 0
    requires 7 * u == e + 100 * f && -16 <= e <= 16
    requires 14 * u == e2 + 100 * f2 && -16 <= e2 <= 16
    requires 10 * u == g + 100 * h && -16 <= g <= 16
    requires 17 * u == g2 + 100 * h2 && -16 <= g2 <= 16
    requires 72 * u == w + 100 * k && -16 <= w <= 16
    requires 58 * u == w2 + 100 * k2
    ensures w2 < -16 || 16 < w2
  {
    NoHundreds(e2 - 2 * e, 2 * f - f2);
    NoHundreds(g2 - g - e, h + f - h2);
    var d := k - f2 - k2;
    assert w2 == w - 2 * e + 100 * d;
    ArcCases(u, e, f, g, h, w, k);
  }

  function Weekdays(z: int): int {
    (5 * z - z / 25) % 7
  }

  /** A year in the first quarter of the cycle whose weekday agrees with that of z. */
  function Anchor(z: int): (z0: int)
    ensures 18 <= z0 <= 24
  {
    18 + (3 * Weekdays(z) - 18) % 7
  }

  lemma AnchorForm(z: int) returns (t: int)
    ensures Anchor(z) == 3 * Weekdays(z) - 7 * t
  {
    hide Weekdays;
    t := (3 * Weekdays(z) - 18) / 7;
  }

  lemma AnchorWeekday(z: int)
    ensures (5 * Anchor(z)) % 7 == Weekdays(z)
  {
    hide Weekdays, Anchor;
    var w := Weekdays(z);
    var t := AnchorForm(z);
    WeekdaysBounds(z);
    QuotientUnique(5 * Anchor(z), 7, 2 * w - 5 * t, w);
  }

  lemma WeekdaysBounds(z: int)
    ensures 0 <= Weekdays(z) < 7
  {
  }

  /** Seven years of one weekday, spread over the four quarters of the cycle. */
  lemma AnchorTwins(z: int, c: int)
    requires c == 0 || c == -7 || c == -14 || c == 10 || c == 17 || c == 58 || c == 72
    ensures Regular(Anchor(z) + c, 0) && Weekdays(Anchor(z) + c) == Weekdays(z)
  {
    AnchorWeekday(z);
    var z0 := Anchor(z);
    hide Anchor;
    var quarter := if c <= 0 then 0 else if c < 20 then 1 else 3;
    assert (z0 + c) / 25 == quarter;
    SameRemainder(5 * (z0 + c) - quarter, 5 * z0, 7, (5 * c - quarter) / 7);
  }

  lemma Opposite(a: int)
    requires a % 100 > 16
    ensures 1 <= (-a) % 100 <= 83
  {
    QuotientUnique(-a, 100, -(a / 100) - 1, 100 - a % 100);
  }

  /** From any place, stepping back by a number prime to 10, one of the seven is at most 83 steps away. */
  lemma TwinPlace(z: int, u: int) returns (x: int, s: int)
    requires u % 2 == 1 && u % 5 != 0
    ensures Regular(x, 0) && Weekdays(x) == Weekdays(z)
    ensures 1 <= s <= 83 && s == ((z - x) * u) % 100
  {
    hide Weekdays, Regular;
    var z0 := Anchor(z);
    hide Anchor;
    var v := (z0 - z) * u;
    NoNarrowArc(v, u);
    var c := if v % 100 > 16 then 0 else if (v - 7 * u) % 100 > 16 then -7 else if (v - 14 * u) % 100 > 16 then -14
      else if (v + 10 * u) % 100 > 16 then 10 else if (v + 17 * u) % 100 > 16 then 17 else if (v + 58 * u) % 100 > 16 then 58 else 72;
    x := z0 + c;
    assert (x - z) * u == v + c * u;
    assert -((x - z) * u) == (z - x) * u;
    Opposite((x - z) * u);
    s := ((z - x) * u) % 100;
    AnchorTwins(z, c);
  }

  /** Steps of the interval undo a difference of d years, up to whole cycles. */
  lemma StepsUndo(i: int, u: int, d: int, m: int, s: int) returns (q: int)
    requires (i * u) % 400 == 1 && m > 0 && s == (d * u) % m
    requires 400 % m == 0
    ensures (400 / m) * (s * i) == (400 / m) * d + 400 * q
  {
    var r, t, n := (i * u) / 400, (d * u) / m, 400 / m;
    assert i * u == 400 * r + 1 && d * u == m * t + s && n * m == 400;
    assert s * i == d * (i * u) - m * t * i;
    assert d * (i * u) == 400 * (d * r) + d;
    q := n * (d * r) - t * i;
    assert n * (m * t * i) == 400 * (t * i);
  }

  lemma RegularEarlierTwin(y: int, i: int, u: int) returns (steps: int)
    requires Regular((y % 400) / 4, (y % 400) % 4)
    requires (i * u) % 400 == 1 && u % 2 == 1 && u % 5 != 0
    ensures 1 <= steps <= 332 && SameKind(y, y - steps * i)
  {
    var a, z, rest := y / 400, (y % 400) / 4, (y % 400) % 4;
    assert y == 400 * a + 4 * z + rest;
    hide SameKind;
    var x, s := TwinPlace(z, u);
    var q := StepsUndo(i, u, z - x, 100, s);
    steps := 4 * s;
    assert steps * i == 4 * (z - x) + 400 * q by { assert steps * i == 4 * (s * i); }
    RegularTwin(z, x, rest);
    SameKindCycle(4 * z + rest, a, 4 * x + rest, a - q);
    assert y - steps * i == 4 * x + rest + 400 * (a - q);
  }

  /** A century year that is not leap has a year of its kind six years either way. */
  lemma CenturyEarlierTwin(y: int, i: int, u: int) returns (steps: int)
    requires y % 400 == 100 || y % 400 == 200 || y % 400 == 300
    requires (i * u) % 400 == 1 && u % 2 == 1
    ensures 1 <= steps <= 332 && SameKind(y, y - steps * i)
  {
    var a, c := y / 400, y % 400;
    CenturyTwins(c);
    hide SameKind;
    var s := (6 * u) % 400;
    var q := StepsUndo(i, u, 6, 400, s);
    assert 6 * u == 400 * ((6 * u) / 400) + s;
    assert s != 0;
    if s <= 200 {
      steps := s;
      SameKindCycle(c, a, c - 6, a - q);
    } else {
      steps := 400 - s;
      assert steps * i == 400 * i - s * i;
      SameKindCycle(c, a, c + 6, a + q - i);
    }
  }

  lemma CenturyTwins(c: int)
    requires c == 100 || c == 200 || c == 300
    ensures SameKind(c, c - 6) && SameKind(c, c + 6)
  {
    hide IsLeap, DaysBeforeYear;
    Centuries();
    RegularYear((c - 6) / 4, 2);
    RegularYear((c + 6) / 4, 2);
  }

  lemma Centuries()
    ensures !IsLeap(100) && !IsLeap(200) && !IsLeap(300)
    ensures DaysBeforeYear(100) == 36159 && DaysBeforeYear(200) == 72683 && DaysBeforeYear(300) == 109207
  {
  }

  /** Within 332 steps back by the interval there is a year of the same kind. */
  lemma EarlierYear(y: int, i: int) returns (steps: int)
    requires i % 2 == 1 && i % 5 != 0
    ensures 1 <= steps <= 332 && SameKind(y, y - steps * i)
  {
    hide SameKind;
    var u := Inverse(i);
    var c := y % 400;
    if c == 100 || c == 200 || c == 300 {
      steps := CenturyEarlierTwin(y, i, u);
    } else {
      steps := RegularEarlierTwin(y, i, u);
    }
  }

  // ------------------------------------------------------ dates and periods

  /** Years of one kind have the same days in every month, on the same weekdays. */
  lemma SameKindDates(y: int, x: int, m: int, d: int)
    requires SameKind(y, x) && 1 <= m <= 12
    ensures MonthLength(x, m) == MonthLength(y, m)
    ensures WeekdayOf(DayNumber(Civil(x, m, d))) == WeekdayOf(DayNumber(Civil(y, m, d)))
  {
    hide DayNumber, DaysBeforeYear;
    DayNumberPlain(Civil(x, m, d));
    DayNumberPlain(Civil(y, m, d));
    var a, b := DaysBeforeYear(x), DaysBeforeYear(y);
    assert a == 7 * (a / 7) + a % 7 && b == 7 * (b / 7) + b % 7;
    SameRemainder(DayNumber(Civil(x, m, d)) + 1, DayNumber(Civil(y, m, d)) + 1, 7, a / 7 - b / 7);
  }

  lemma SameKindSelects(r: Rule, y: int, x: int, m: int, fallback: int, d: int)
    requires SameKind(y, x) && 1 <= m <= 12
    ensures DaySelected(r, x, m, fallback, d) <==> DaySelected(r, y, m, fallback, d)
  {
    hide DayNumber, MonthLength, SameKind, WeekdayOf;
    SameKindDates(y, x, m, d);
    assert forall w :: OnNthDay(w, x, m, d) <==> OnNthDay(w, y, m, d);
    hide OnNthDay;
  }

  /** A date of a monthly rule has a twin in a year of the same kind, a whole number of years of periods back. */
  lemma MonthlyTwin(r: Rule, first: Civil, k: int, n: int, steps: int)
    requires ValidRule(r) && r.freq == Monthly && InPeriod(r, first, k, n)
    requires SameKind(CivilOf(n).y, CivilOf(n).y - steps * r.interval)
    ensures var c := CivilOf(n);
      InPeriod(r, first, k - 12 * steps, DayNumber(Civil(c.y - steps * r.interval, c.m, c.d)))
  {
    hide DayNumber, CivilOf, MonthLength, SameKind, DaySelected, ValidNthDay, ValidMonthDay;
    var c := CivilOf(n);
    CivilOfIsValid(n);
    var twin := Civil(c.y - steps * r.interval, c.m, c.d);
    SameKindDates(c.y, twin.y, c.m, c.d);
    CivilRoundTrip(twin);
    SameKindSelects(r, c.y, twin.y, c.m, first.d, c.d);
    assert (k - 12 * steps) * r.interval == k * r.interval - 12 * (steps * r.interval);
  }

  lemma {:induction false} PrimeMonthlyRecurs(r: Rule, first: Civil, h: int, k: int, n: int)
    requires ValidRule(r) && r.freq == Monthly && r.interval % 2 == 1 && r.interval % 5 != 0
    requires h <= k && InPeriod(r, first, k, n)
    ensures HasDateBefore(r, first, h, 3984)
    decreases k - h
  {
    hide InPeriod, SameKind, ValidNthDay, ValidMonthDay, CivilOf, DayNumber;
    var steps := EarlierYear(CivilOf(n).y, r.interval);
    MonthlyTwin(r, first, k, n, steps);
    var c := CivilOf(n);
    var twin := DayNumber(Civil(c.y - steps * r.interval, c.m, c.d));
    if k - 12 * steps >= h {
      PrimeMonthlyRecurs(r, first, h, k - 12 * steps, twin);
    }
  }

  lemma RecursWider(r: Rule, first: Civil, g: int, wider: int)
    requires Recurs(r, first, g) && g <= wider
    ensures Recurs(r, first, wider)
  {
    hide InPeriod;
    forall h, k, n | h <= k && InPeriod(r, first, k, n) ensures HasDateBefore(r, first, h, wider) {
      assert HasDateBefore(r, first, h, g);
      var j, p :| h - g <= j < h && InPeriod(r, first, j, p);
    }
  }

  lemma MonthlyRecurs(r: Rule, first: Civil)
    requires ValidRule(r) && r.freq == Monthly
    ensures Recurs(r, first, 3984)
  {
    hide InPeriod, ValidNthDay, ValidMonthDay;
    if r.interval % 2 == 0 {
      QuotientUnique(2400 * r.interval, 4800, r.interval / 2, 0);
      RepeatingRecurs(r, first, 2400);
      RecursWider(r, first, 2400, 3984);
    } else if r.interval % 5 == 0 {
      QuotientUnique(960 * r.interval, 4800, r.interval / 5, 0);
      RepeatingRecurs(r, first, 960);
      RecursWider(r, first, 960, 3984);
    } else {
      forall h, k, n | h <= k && InPeriod(r, first, k, n) ensures HasDateBefore(r, first, h, 3984) {
        PrimeMonthlyRecurs(r, first, h, k, n);
      }
    }
  }

  /** Every monthly rule is exact, from anywhere and with any interval. */
  lemma MonthlyIsExact(s: Schedule, from: int)
    requires ValidSchedule(s) && Sound(s) && s.rule.Some? && s.rule.value.freq == Monthly
    ensures forall t :: Reached(s, from, t) <==> Occurs(s, t) && from <= t
  {
    hide Reached, Occurs, Recurs;
    MonthlyRecurs(s.rule.value, First(s));
    RecurringIsExact(s, from, 3984);
  }
}
