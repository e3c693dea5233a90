/**
  The months as arcs of a circle.

  Measured in four-hundredths of a day, a year of the calendar takes one turn of
  a circle of 146097 places on average, and every month holds an arc of 10418
  places whatever the year. Going back in equal steps comes to every arc, and
  within how many steps is a matter of how near a few of them come to whole turns.
 */
module MonthCircle {
  import opened Calendar
  import opened Rules

  // ------------------------------------------- months as arcs of the circle

  const ARC := 10418

  /** How far, in four-hundredths of a day, year y begins from where an even year would. */
  function Drift(y: int): int {
    400 * DaysBeforeYear(y) - DAYS_IN_CYCLE * (y - 1)
  }

  lemma DriftBounds(y: int)
    ensures -591 <= Drift(y) <= 288
    ensures -494 <= Drift(y) + (if IsLeap(y) then 400 else 0) <= 385
  {
    hide IsLeap, Drift;
    var x := y - 1;
    var q, r := x / 400, x % 400;
    var c, e := r / 100, r % 100;
    DriftAt(q, c, e / 4, e % 4);
  }

  lemma DriftAt(q: int, c: int, f: int, a: int)
    requires 0 <= c <= 3 && 0 <= f <= 24 && 0 <= a <= 3
    ensures var y := 400 * q + 100 * c + 4 * f + a + 1;
      && Drift(y) == 12 * f - 97 * a - 100 * c
      && (IsLeap(y) <==> a == 3 && (f != 24 || c == 3))
  {
    hide DaysBeforeYear;
    DaysBeforeCyclePlace(q, c, f, a);
    var y := 400 * q + 100 * c + 4 * f + a + 1;
    if a != 3 {
      QuotientUnique(y, 4, 100 * q + 25 * c + f, a + 1);
    } else if f == 24 && c != 3 {
      QuotientUnique(y, 100, 4 * q + c + 1, 0);
      QuotientUnique(y, 400, q, 100 * (c + 1));
    }
  }

  /** The first place that is in month m in every year. */
  function Opens(m: int): int
    requires 1 <= m <= 12
  {
    if m <= 2 then 400 * DaysBeforeMonth(1, m) + 288 else 400 * DaysBeforeMonth(1, m) + 385
  }

  lemma InArc(y: int, m: int, d: int)
    requires 1 <= m <= 12
    requires Opens(m) <= 400 * d + Drift(y) < Opens(m) + ARC
    ensures DaysBeforeMonth(y, m) <= d < DaysBeforeMonth(y, m) + MonthLength(y, m)
  {
    DriftBounds(y);
    hide Drift;
    assert !IsLeap(1);
  }

  lemma MonthArc(n: int, m: int)
    requires 1 <= m <= 12 && (400 * n - Opens(m)) % DAYS_IN_CYCLE < ARC
    ensures CivilOf(n).m == m
  {
    hide DaysBeforeYear, DaysBeforeMonth, MonthLength, CivilOf, DayNumber, Opens;
    var y := (400 * n - Opens(m)) / DAYS_IN_CYCLE + 1;
    var d := n - DaysBeforeYear(y);
    InArc(y, m, d);
    var c := Civil(y, m, d - DaysBeforeMonth(y, m) + 1);
    DayNumberPlain(c);
    CivilRoundTrip(c);
  }

  // ------------------------------------------------------- round the circle

  /**
    Two numbers of steps of x places: q of them fall a places past whole turns,
    u of them b places short, and no arc between is left out.
   */
  ghost predicate Bracket(x: int, q: int, p: int, a: int, u: int, v: int, b: int) {
    && 1 <= q && 1 <= u && 0 < a && 0 < b
    && x * q == DAYS_IN_CYCLE * p + a
    && x * u == DAYS_IN_CYCLE * v - b
    && u * a + q * b == DAYS_IN_CYCLE
  }

  /** The move a, in q steps, is so long that `most` of it go past what q arcs leave of the circle. */
  predicate Long(a: int, q: int, most: int) {
    0 < a && DAYS_IN_CYCLE <= most * a + ARC * q
  }

  /** q steps of x places stay clear of whole turns. */
  predicate Clear(x: int, q: int, most: int) {
    Long(x * q % DAYS_IN_CYCLE, q, most) && Long(DAYS_IN_CYCLE - x * q % DAYS_IN_CYCLE, q, most)
  }

  predicate Spread(x: int, most: int) {
    forall q :: 1 <= q <= 14 ==> Clear(x, q, most)
  }

  lemma {:induction false} Descend(x: int, most: int, q: int, p: int, a: int, u: int, v: int, b: int)
    returns (q': int, p': int, a': int, u': int, v': int, b': int)
    requires Bracket(x, q, p, a, u, v, b) && q <= 14 && u <= 14 && Spread(x, most)
    ensures Bracket(x, q', p', a', u', v', b') && q' <= 14 && u' <= 14 && q' + u' >= 15
    decreases 28 - q - u
  {
    hide Clear;
    if q + u >= 15 {
      return q, p, a, u, v, b;
    }
    Mediant(x, q, p, a, u, v, b);
    ClearIsNotWhole(x, most, q + u, p + v, a - b);
    if a > b {
      q', p', a', u', v', b' := Descend(x, most, q + u, p + v, a - b, u, v, b);
    } else {
      q', p', a', u', v', b' := Descend(x, most, q, p, a, q + u, p + v, b - a);
    }
  }

  lemma Mediant(x: int, q: int, p: int, a: int, u: int, v: int, b: int)
    requires Bracket(x, q, p, a, u, v, b)
    ensures x * (q + u) == DAYS_IN_CYCLE * (p + v) + a - b
    ensures a > b ==> Bracket(x, q + u, p + v, a - b, u, v, b)
    ensures a < b ==> Bracket(x, q, p, a, q + u, p + v, b - a)
  {
    assert x * (q + u) == x * q + x * u;
    assert u * (a - b) + (q + u) * b == u * a + q * b;
    assert (q + u) * a + q * (b - a) == u * a + q * b;
  }

  lemma ClearIsNotWhole(x: int, most: int, q: int, p: int, a: int)
    requires Clear(x, q, most) && x * q == DAYS_IN_CYCLE * p + a
    ensures a != 0
    ensures 0 < a < DAYS_IN_CYCLE ==> Long(a, q, most)
    ensures 0 < -a < DAYS_IN_CYCLE ==> Long(-a, q, most)
  {
    hide Long;
    LongIsMove(x * q % DAYS_IN_CYCLE, q, most);
    if 0 <= a < DAYS_IN_CYCLE { QuotientUnique(x * q, DAYS_IN_CYCLE, p, a); }
    if 0 < -a < DAYS_IN_CYCLE { QuotientUnique(x * q, DAYS_IN_CYCLE, p - 1, DAYS_IN_CYCLE + a); }
  }

  lemma LongIsMove(a: int, q: int, most: int)
    requires Long(a, q, most)
    ensures 0 < a
  {
  }

  /** Numbers of steps that move less than an arc, one forward and one back. */
  ghost predicate Moves(x: int, most: int, q: int, p: int, a: int, u: int, v: int, b: int) {
    && 1 <= q && 1 <= u && 0 < a <= ARC && 0 < b <= ARC
    && x * q == DAYS_IN_CYCLE * p + a
    && x * u == DAYS_IN_CYCLE * v - b
    && q + u <= most + 28
  }

  lemma MovesExist(x: int, most: int) returns (q: int, p: int, a: int, u: int, v: int, b: int)
    requires Spread(x, most) && 0 <= most
    ensures Moves(x, most, q, p, a, u, v, b)
  {
    hide Clear, Moves, Bracket, Long;
    var turns, place := x / DAYS_IN_CYCLE, x % DAYS_IN_CYCLE;
    ClearIsNotWhole(x, most, 1, turns, place);
    FirstBracket(x);
    var q0, p0, a0, u0, v0, b0 := Descend(x, most, 1, turns, place, 1, turns + 1, DAYS_IN_CYCLE - place);
    BracketIsClear(x, most, q0, p0, a0, u0, v0, b0);
    q, p, a, u, v, b := Shortened(x, most, q0, p0, a0, u0, v0, b0);
  }

  lemma BracketIsClear(x: int, most: int, q: int, p: int, a: int, u: int, v: int, b: int)
    requires Spread(x, most) && Bracket(x, q, p, a, u, v, b) && q <= 14 && u <= 14
    ensures Long(a, q, most) && Long(b, u, most)
  {
    hide Clear, Long;
    BracketIsWithin(x, q, p, a, u, v, b);
    ClearIsNotWhole(x, most, q, p, a);
    ClearIsNotWhole(x, most, u, v, -b);
  }

  lemma Shortened(x: int, most: int, q: int, p: int, a: int, u: int, v: int, b: int)
    returns (q': int, p': int, a': int, u': int, v': int, b': int)
    requires Bracket(x, q, p, a, u, v, b) && q <= 14 && u <= 14 && q + u >= 15 && 0 <= most
    requires Long(a, q, most) && Long(b, u, most)
    ensures Moves(x, most, q', p', a', u', v', b')
  {
    hide Bracket, Moves, Long;
    BracketIsWithin(x, q, p, a, u, v, b);
    if a > ARC {
      q', p', a' := Narrowed(x, most, q, p, a, u, v, b);
      u', v', b' := u, v, b;
    } else if b > ARC {
      Mirrored(x, q, p, a, u, v, b);
      var w;
      u', w, b' := Narrowed(-x, most, u, -v, b, q, -p, a);
      MirroredMoves(-x, most, u', w, b', q, -p, a);
      q', p', a', v' := q, p, a, -w;
    } else {
      NarrowAlready(x, most, q, p, a, u, v, b);
      q', p', a', u', v', b' := q, p, a, u, v, b;
    }
  }

  lemma FirstBracket(x: int)
    requires x % DAYS_IN_CYCLE != 0
    ensures Bracket(x, 1, x / DAYS_IN_CYCLE, x % DAYS_IN_CYCLE, 1, x / DAYS_IN_CYCLE + 1, DAYS_IN_CYCLE - x % DAYS_IN_CYCLE)
  {
  }

  /** Walked the other way, the two numbers of steps change places. */
  lemma Mirrored(x: int, q: int, p: int, a: int, u: int, v: int, b: int)
    requires Bracket(x, q, p, a, u, v, b)
    ensures Bracket(-x, u, -v, b, q, -p, a)
  {
    assert -x * u == -(x * u) && -x * q == -(x * q);
  }

  lemma MirroredMoves(x: int, most: int, q: int, p: int, a: int, u: int, v: int, b: int)
    requires Moves(x, most, q, p, a, u, v, b)
    ensures Moves(-x, most, u, -v, b, q, -p, a)
  {
    assert -x * u == -(x * u) && -x * q == -(x * q);
  }

  lemma NarrowAlready(x: int, most: int, q: int, p: int, a: int, u: int, v: int, b: int)
    requires Bracket(x, q, p, a, u, v, b) && q <= 14 && u <= 14 && a <= ARC && b <= ARC && 0 <= most
    ensures Moves(x, most, q, p, a, u, v, b)
  {
  }

  lemma BracketIsWithin(x: int, q: int, p: int, a: int, u: int, v: int, b: int)
    requires Bracket(x, q, p, a, u, v, b)
    ensures 1 <= q && 1 <= u && u * a + q * b == DAYS_IN_CYCLE
    ensures 0 < a < DAYS_IN_CYCLE && 0 < b < DAYS_IN_CYCLE
    ensures x * q == DAYS_IN_CYCLE * p + a && x * u == DAYS_IN_CYCLE * v - b
    ensures q + u >= 15 ==> a <= ARC || b <= ARC
  {
    assert u * a >= a && q * b >= b;
    BothWide(q, a, u, b);
  }

  lemma BothWide(q: int, a: int, u: int, b: int)
    requires 1 <= q && 1 <= u
    ensures q + u >= 15 && a > ARC && b > ARC ==> u * a + q * b > DAYS_IN_CYCLE
  {
    if q + u >= 15 && a > ARC && b > ARC {
      assert u * a + q * b >= u * ARC + q * ARC == (u + q) * ARC;
    }
  }

  /** Adding the short move often enough brings the long one within an arc. */
  lemma Narrowed(x: int, most: int, q: int, p: int, a: int, u: int, v: int, b: int) returns (q': int, p': int, a': int)
    requires Bracket(x, q, p, a, u, v, b) && u <= 14
    requires b <= ARC < a && Long(b, u, most)
    ensures Moves(x, most, q', p', a', u, v, b)
  {
    hide Bracket, Long;
    BracketIsWithin(x, q, p, a, u, v, b);
    var j := JustWithin(a, b);
    StepsAreFew(most, q, u, a, b, j);
    JumpedSteps(x, q, p, a, u, v, b, j);
    q', p', a' := q + j * u, p + j * v, a - j * b;
  }

  lemma JustWithin(a: int, b: int) returns (j: int)
    requires 0 < b <= ARC < a
    ensures 0 <= j && j * b <= a - ARC + b - 1 && 0 < a - j * b <= ARC
  {
    var over := a - ARC + b - 1;
    j := over / b;
    QuotientBounds(over, b);
    assert (j + 1) * b == j * b + b;
  }

  lemma JumpedSteps(x: int, q: int, p: int, a: int, u: int, v: int, b: int, j: int)
    requires x * q == DAYS_IN_CYCLE * p + a && x * u == DAYS_IN_CYCLE * v - b
    ensures x * (q + j * u) == DAYS_IN_CYCLE * (p + j * v) + (a - j * b)
  {
    assert x * (q + j * u) == x * q + j * (x * u);
    assert j * (x * u) == j * (DAYS_IN_CYCLE * v - b) == DAYS_IN_CYCLE * (j * v) - j * b;
  }

  lemma StepsAreFew(most: int, q: int, u: int, a: int, b: int, j: int)
    requires 1 <= q && 1 <= u <= 14 && 0 < b && 0 <= j
    requires u * a + q * b == DAYS_IN_CYCLE
    requires j * b <= a - ARC + b - 1 && Long(b, u, most)
    ensures 1 <= q + j * u <= most + 28 - u
  {
    assert 0 <= j * u;
    StepsTimesMove(most, q, u, a, b, j);
    SmallerFactor(j * u + q - u, most, b);
  }

  lemma StepsTimesMove(most: int, q: int, u: int, a: int, b: int, j: int)
    requires 1 <= q && 1 <= u <= 14 && 0 < b && 0 <= j
    requires u * a + q * b == DAYS_IN_CYCLE
    requires j * b <= a - ARC + b - 1 && Long(b, u, most)
    ensures (j * u + q - u) * b <= most * b
  {
    var s := j * u + q - u;
    assert u * (j * b) <= u * (a - ARC + b - 1) == u * a - u * ARC + u * b - u;
    assert s * b == u * (j * b) + q * b - u * b;
  }

  lemma SmallerFactor(s: int, c: int, b: int)
    requires 0 < b && s * b <= c * b
    ensures s <= c
  {
    assert (c - s) * b >= 0;
  }

  /** Stepping on where there is room and back where there is not, the walk comes to the arc. */
  lemma {:induction false} ComesToArc(at: int, x: int, most: int, q: int, p: int, a: int, u: int, v: int, b: int, t: int)
    returns (t': int)
    requires Moves(x, most, q, p, a, u, v, b) && 0 <= t < q + u
    ensures 0 <= t' < q + u && (at - x * t') % DAYS_IN_CYCLE < ARC
    decreases (at - x * t) % DAYS_IN_CYCLE
  {
    if (at - x * t) % DAYS_IN_CYCLE < ARC {
      t' := t;
    } else if t < u {
      assert at - x * (t + q) == at - x * t - x * q;
      OneMove(at - x * t, x * q, p, a);
      t' := ComesToArc(at, x, most, q, p, a, u, v, b, t + q);
    } else {
      assert at - x * (t - u) == at - x * t - -(x * u);
      OneMove(at - x * t, -(x * u), -v, b);
      t' := ComesToArc(at, x, most, q, p, a, u, v, b, t - u);
    }
  }

  lemma OneMove(place: int, move: int, turns: int, c: int)
    requires move == DAYS_IN_CYCLE * turns + c && 0 < c <= ARC <= place % DAYS_IN_CYCLE
    ensures (place - move) % DAYS_IN_CYCLE == place % DAYS_IN_CYCLE - c
  {
    QuotientUnique(place - move, DAYS_IN_CYCLE, place / DAYS_IN_CYCLE - turns, place % DAYS_IN_CYCLE - c);
  }

  /** Among the dates a step apart that end at day n, one of the first is in the month. */
  lemma MonthComesBack(days: int, most: int, n: int, m: int) returns (t: int)
    requires 1 <= m <= 12 && Spread(400 * days, most) && 0 <= most
    ensures 0 <= t < most + 28 && CivilOf(n - days * t).m == m
  {
    hide CivilOf, Opens, Spread;
    var q, p, a, u, v, b := MovesExist(400 * days, most);
    t := ComesToArc(400 * n - Opens(m), 400 * days, most, q, p, a, u, v, b, 0);
    assert 400 * (n - days * t) == 400 * n - 400 * days * t;
    MonthArc(n - days * t, m);
  }

  // ------------------------------------------------ where February is not

  lemma FebruaryPlace(c: Civil)
    requires ValidDate(c) && c.m == 2
    ensures 11809 <= 400 * DayNumber(c) - DAYS_IN_CYCLE * (c.y - 1) <= 23585
  {
    hide DaysBeforeYear, DayNumber;
    DayNumberPlain(c);
    DriftBounds(c.y);
  }

  /** Off the arc that February can have, no year has one. */
  lemma NotFebruary(n: int, turns: int)
    requires 23985 - DAYS_IN_CYCLE <= 400 * n - DAYS_IN_CYCLE * turns < 11809
    ensures CivilOf(n).m != 2
  {
    hide CivilOf, DayNumber;
    CivilOfIsValid(n);
    if CivilOf(n).m == 2 { FebruaryPlace(CivilOf(n)); }
  }
}
