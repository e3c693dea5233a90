/**
  Recurrence rules (section 3.3.10 of RFC 5545, the part the library supports):
  what a rule means, date by date, and the loops that expand one period of it.

  `Selected` and `Index` give the meaning without any expansion: a date belongs
  to a rule when its day, week, month or year is a whole number of intervals
  after the first one and the rule's BY lists admit the date. `Period` is the
  code's expansion, and its contract says that it is exactly that set, in order.

  Validation lets through weekdays outside the seven. The methods here take them
  too: an expansion that indexes an empty list answers None, and a weekly rule
  counts such a weekday on from Monday (`Expanded`).
 */
module Rules {
  import opened Calendar
  import opened Options
  import opened Sorting

  datatype Frequency = Daily | Weekly | Monthly | Yearly | Other(name: string)

  const LAST := -1

  /** A weekday (Sunday is 0) and its position in the month: 0 every one, -1 the last. */
  datatype NthDay = NthDay(day: int, nth: int)

  datatype Rule = Rule(
    freq: Frequency,
    interval: int,
    byDay: seq<NthDay>,
    byMonthDay: seq<int>,
    byMonth: seq<int>)

  // ------------------------------------------------------------- validity

  predicate ValidNthDay(freq: Frequency, w: NthDay) {
    && (w.nth == 0 || w.nth == LAST || 1 <= w.nth <= 4)
    && (w.nth == 0 || freq == Monthly || freq == Yearly)
  }

  predicate ValidMonthDay(d: int) {
    d != 0 && -31 <= d <= 31
  }

  /** Rule.Validate answers no error. */
  predicate ValidRule(r: Rule) {
    && !r.freq.Other?
    && r.interval >= 1
    && (forall w <- r.byDay :: ValidNthDay(r.freq, w))
    && (forall d <- r.byMonthDay :: ValidMonthDay(d))
    && (forall m <- r.byMonth :: 1 <= m <= 12)
    && !(r.freq == Yearly && r.byMonth == [] && (r.byDay != [] || r.byMonthDay != []))
  }

  /** Every weekday is one of the seven; Validate does not look. */
  predicate WeekdaysKnown(r: Rule) {
    forall w <- r.byDay :: 0 <= w.day < 7
  }

  // -------------------------------------------------------------- meaning

  predicate MonthAllowed(r: Rule, m: int) {
    r.byMonth == [] || m in r.byMonth
  }

  /** The day of the month that a BYMONTHDAY value names: negative ones count back from the end. */
  function CountedDay(monthLength: int, b: int): int {
    if b < 0 then monthLength + 1 + b else b
  }

  predicate MonthDaySelected(r: Rule, monthLength: int, d: int) {
    exists b :: b in r.byMonthDay && d == CountedDay(monthLength, b)
  }

  predicate OnNthDay(w: NthDay, y: int, m: int, d: int)
    requires 1 <= m <= 12
  {
    && WeekdayOf(DayNumber(Civil(y, m, d))) == w.day
    && (w.nth == 0
        || (w.nth == LAST && d + 7 > MonthLength(y, m))
        || (w.nth > 0 && (d - 1) / 7 + 1 == w.nth))
  }

  /** The last of the month's days on a weekday that no day has. */
  predicate LastOfNone(w: NthDay) {
    w.nth == LAST && !(0 <= w.day < 7)
  }

  predicate NamesLastOfNone(r: Rule) {
    exists w :: w in r.byDay && LastOfNone(w)
  }

  predicate NthDaySelected(r: Rule, y: int, m: int, d: int)
    requires 1 <= m <= 12
  {
    exists w :: w in r.byDay && OnNthDay(w, y, m, d)
  }

  /** The days of one month that the rule names; with no day lists, the fallback alone. */
  predicate DaySelected(r: Rule, y: int, m: int, fallback: int, d: int)
    requires 1 <= m <= 12
  {
    if r.byMonthDay == [] && r.byDay == [] then
      d == fallback && d <= MonthLength(y, m)
    else
      && 1 <= d <= MonthLength(y, m)
      && (r.byMonthDay == [] || MonthDaySelected(r, MonthLength(y, m), d))
      && (r.byDay == [] || NthDaySelected(r, y, m, d))
  }

  predicate DailySelected(r: Rule, c: Civil)
    requires 1 <= c.m <= 12
  {
    && MonthAllowed(r, c.m)
    && ((r.byMonthDay == [] && r.byDay == []) || DaySelected(r, c.y, c.m, 0, c.d))
  }

  predicate WeeklySelected(r: Rule, first: Civil, n: int) {
    && MonthAllowed(r, CivilOf(n).m)
    && (if r.byDay == [] then WeekdayOf(n) == WeekdayOf(DayNumber(first))
        else exists w :: w in r.byDay && w.day == WeekdayOf(n))
  }

  /** The rule's BY lists admit day n; first supplies what the lists leave unsaid. */
  predicate Selected(r: Rule, first: Civil, n: int) {
    CivilOfIsValid(n);
    var c := CivilOf(n);
    match r.freq
    case Daily => DailySelected(r, c)
    case Weekly => WeeklySelected(r, first, n)
    case Monthly => MonthAllowed(r, c.m) && DaySelected(r, c.y, c.m, first.d, c.d)
    case Yearly =>
      && (if r.byMonth == [] then c.m == first.m else c.m in r.byMonth)
      && DaySelected(r, c.y, c.m, first.d, c.d)
    case Other(_) => false
  }

  /** The running number of the day, week (from Monday), month or year that holds day n. */
  function Index(freq: Frequency, n: int): int {
    match freq
    case Daily => n
    case Weekly => n / 7
    case Monthly => 12 * CivilOf(n).y + CivilOf(n).m - 1
    case Yearly => CivilOf(n).y
    case Other(_) => 0
  }

  /** Day n belongs to the k-th period of the rule, counted from the one holding first. */
  predicate InPeriod(r: Rule, first: Civil, k: int, n: int) {
    Index(r.freq, n) == Index(r.freq, DayNumber(first)) + k * r.interval && Selected(r, first, n)
  }

  lemma MonthIndexMonotone(n: int, p: int)
    requires n <= p
    ensures CivilOf(n).y <= CivilOf(p).y
    ensures 12 * CivilOf(n).y + CivilOf(n).m <= 12 * CivilOf(p).y + CivilOf(p).m
  {
    CivilOfIsValid(n);
    CivilOfIsValid(p);
    BeforeIsDayOrder(CivilOf(p), CivilOf(n));
  }

  lemma IndexMonotone(freq: Frequency, n: int, p: int)
    requires n <= p
    ensures Index(freq, n) <= Index(freq, p)
  {
    if freq == Monthly || freq == Yearly { MonthIndexMonotone(n, p); }
  }

  /** Every date of an earlier period comes before every date of a later one. */
  lemma PeriodsInOrder(r: Rule, first: Civil, j: int, k: int, n: int, p: int)
    requires ValidRule(r) && j < k
    requires InPeriod(r, first, j, n) && InPeriod(r, first, k, p)
    ensures n < p
  {
    hide Index, Selected;
    assert j * r.interval < k * r.interval;
    if p <= n { IndexMonotone(r.freq, p, n); }
  }

  // ------------------------------------------------------- days in a month

  /** The first day of the month on the given weekday. */
  function FirstOn(y: int, m: int, day: int): (d: int)
    ensures 1 <= d <= 7
  {
    1 + (day - WeekdayOf(DayNumber(Civil(y, m, 1)))) % 7
  }

  /** A weekday falls on the days a whole number of weeks from its first, and on no others. */
  lemma WeekdayPattern(y: int, m: int, day: int, d: int)
    requires 0 <= day < 7
    ensures WeekdayOf(DayNumber(Civil(y, m, d))) == day <==> (d - FirstOn(y, m, day)) % 7 == 0
  {
    var base := DayNumber(Civil(y, m, 1));
    assert DayNumber(Civil(y, m, d)) == base + d - 1;
    hide DayNumber;
    SevensApart(base, d, day);
  }

  lemma SevensApart(base: int, d: int, day: int)
    requires 0 <= day < 7
    ensures WeekdayOf(base + d - 1) == day <==> (d - (1 + (day - WeekdayOf(base)) % 7)) % 7 == 0
  {
    var k, e := (day - WeekdayOf(base)) % 7, d - (1 + (day - WeekdayOf(base)) % 7);
    var weeks := (base + 1) / 7 - (day - WeekdayOf(base)) / 7;
    assert base + d == day + e + 7 * weeks;
    QuotientShift(day + e, 7, weeks);
    WholeWeeksOn(day, e);
  }

  lemma WholeWeeksOn(day: int, e: int)
    requires 0 <= day < 7
    ensures (day + e) % 7 == day <==> e % 7 == 0
  {
    QuotientShift(day + e % 7, 7, e / 7);
  }

  /** The month's days on one weekday, in order: the first to the seventh, and every week from there. */
  ghost predicate IsMatches(y: int, m: int, day: int, matches: seq<int>)
    requires 1 <= m <= 12
  {
    && 4 <= |matches| <= 5
    && (forall i :: 0 <= i < |matches| ==> matches[i] == FirstOn(y, m, day) + 7 * i)
    && matches[|matches| - 1] <= MonthLength(y, m) < matches[|matches| - 1] + 7
  }

  method WeekdayMatches(y: int, m: int, day: int) returns (matches: seq<int>)
    requires 1 <= m <= 12
    ensures if 0 <= day < 7 then IsMatches(y, m, day, matches) else matches == []
  {
    hide DayNumber, CivilOf, FirstOn;
    LastDayIsMonthLength(y, m);
    var n := LastDay(y, m);
    var d0 := FirstOn(y, m, day);
    matches := [];
    for d := 1 to n + 1
      invariant !(0 <= day < 7) ==> matches == []
      invariant forall i :: 0 <= i < |matches| ==> matches[i] == d0 + 7 * i
      invariant 0 <= day < 7 ==> d0 + 7 * (|matches| - 1) < d <= d0 + 7 * |matches|
    {
      if 0 <= day < 7 { WeekdayPattern(y, m, day, d); }
      if WeekdayOf(DayNumber(Civil(y, m, d))) == day {
        matches := matches + [d];
      }
    }
  }

  /** A day on a weekday of the month, by its place in the list of that weekday's days. */
  lemma NthMatch(w: NthDay, y: int, m: int, matches: seq<int>, d: int)
    requires 1 <= m <= 12 && 0 <= w.day < 7
    requires IsMatches(y, m, w.day, matches)
    ensures w.nth == 0 ==> (d in matches <==> 1 <= d <= MonthLength(y, m) && OnNthDay(w, y, m, d))
    ensures w.nth == LAST ==> (d == matches[|matches| - 1] <==> 1 <= d <= MonthLength(y, m) && OnNthDay(w, y, m, d))
    ensures 1 <= w.nth <= 4 ==> (d == matches[w.nth - 1] <==> 1 <= d <= MonthLength(y, m) && OnNthDay(w, y, m, d))
  {
    hide DayNumber, MonthLength, FirstOn, WeekdayOf;
    WeekdayPattern(y, m, w.day, d);
    var d0 := FirstOn(y, m, w.day);
    if 1 <= d <= MonthLength(y, m) && (d - d0) % 7 == 0 {
      var i := (d - d0) / 7;
      assert d == d0 + 7 * i && 0 <= i < |matches|;
      assert d == matches[i];
      assert (d - 1) / 7 == i;
    }
  }

  /** The days of the month that one BYDAY entry names; None is an index out of range. */
  method NthDays(w: NthDay, y: int, m: int) returns (ds: Option<seq<int>>)
    requires 1 <= m <= 12
    requires w.nth == 0 || w.nth == LAST || 1 <= w.nth <= 4
    ensures ds.None? <==> LastOfNone(w)
    ensures ds.Some? ==> forall d :: d in ds.value <==> 1 <= d <= MonthLength(y, m) && OnNthDay(w, y, m, d)
  {
    hide MonthLength, FirstOn, DayNumber;
    var matches := WeekdayMatches(y, m, w.day);
    if 0 <= w.day < 7 {
      hide OnNthDay;
      forall d { NthMatch(w, y, m, matches, d); }
    }
    if w.nth == 0 {
      ds := Some(matches);
    } else if w.nth == LAST {
      ds := if |matches| == 0 then None else Some([matches[|matches| - 1]]);
    } else if w.nth <= |matches| {
      ds := Some([matches[w.nth - 1]]);
    } else {
      ds := Some([]);
    }
  }

  method DaysInMonth(r: Rule, y: int, m: int, fallback: int) returns (out: Option<seq<int>>)
    requires ValidRule(r) && 1 <= m <= 12
    ensures out.None? <==> NamesLastOfNone(r)
    ensures out.Some? ==> forall d :: d in out.value <==> DaySelected(r, y, m, fallback, d)
  {
    hide LastDay, MonthLength, OnNthDay, LastOfNone;
    LastDayIsMonthLength(y, m);
    var n := LastDay(y, m);
    var md: seq<int> := [];
    for i := 0 to |r.byMonthDay|
      invariant forall d :: d in md <==> 1 <= d <= n && exists b :: b in r.byMonthDay[..i] && d == CountedDay(n, b)
    {
      var d := CountedDay(n, r.byMonthDay[i]);
      if 1 <= d <= n {
        md := md + [d];
      }
    }
    var wd: seq<int> := [];
    for i := 0 to |r.byDay|
      invariant forall w :: w in r.byDay[..i] ==> !LastOfNone(w)
      invariant forall d :: d in wd <==> 1 <= d <= n && exists w :: w in r.byDay[..i] && OnNthDay(w, y, m, d)
    {
      var w := r.byDay[i];
      assert w in r.byDay && ValidNthDay(r.freq, w);
      var ds := NthDays(w, y, m);
      if ds.None? {
        return None;
      }
      assert r.byDay[..i + 1] == r.byDay[..i] + [w];
      wd := wd + ds.value;
    }
    assert r.byMonthDay[..|r.byMonthDay|] == r.byMonthDay && r.byDay[..|r.byDay|] == r.byDay;
    assert forall d :: d in md <==> 1 <= d <= n && MonthDaySelected(r, n, d);
    assert forall d :: d in wd <==> 1 <= d <= n && NthDaySelected(r, y, m, d);
    hide MonthDaySelected, NthDaySelected;
    if |r.byMonthDay| > 0 && |r.byDay| > 0 {
      var both: seq<int> := [];
      for i := 0 to |md|
        invariant forall d :: d in both <==> d in md[..i] && d in wd
      {
        if md[i] in wd {
          both := both + [md[i]];
        }
      }
      out := Some(both);
    } else if |r.byMonthDay| > 0 {
      out := Some(md);
    } else if |r.byDay| > 0 {
      out := Some(wd);
    } else if fallback <= n {
      out := Some([fallback]);
    } else {
      out := Some([]);
    }
  }

  method DayAllowed(r: Rule, c: Civil) returns (allowed: Option<bool>)
    requires ValidRule(r) && 1 <= c.m <= 12
    ensures allowed.None? <==> MonthAllowed(r, c.m) && NamesLastOfNone(r)
    ensures allowed.Some? ==> allowed.value == DailySelected(r, c)
  {
    if !MonthAllowed(r, c.m) {
      return Some(false);
    }
    if |r.byMonthDay| == 0 && |r.byDay| == 0 {
      return Some(true);
    }
    var days := DaysInMonth(r, c.y, c.m, 0);
    if days.None? {
      return None;
    }
    return Some(c.d in days.value);
  }

  // ------------------------------------------------- expanding one period

  /** Go's remainder takes the sign of its left operand. */
  function TruncRem(a: int, b: int): int
    requires b > 0
  {
    if a >= 0 then a % b else -((-a) % b)
  }

  function MondayOffset(w: int): int {
    TruncRem(w + 6, 7)
  }

  ghost predicate Ascending(cs: seq<Civil>) {
    forall i, j :: 0 <= i < j < |cs| ==> DayNumber(cs[i]) < DayNumber(cs[j])
  }

  ghost predicate DayOrdered(cs: seq<Civil>) {
    forall i, j :: 0 <= i < j < |cs| ==> DayNumber(cs[i]) <= DayNumber(cs[j])
  }

  ghost predicate AllValid(cs: seq<Civil>) {
    forall c <- cs :: ValidDate(c)
  }

  /** sort.Slice by Before. */
  method SortDates(cs: seq<Civil>) returns (sorted: seq<Civil>)
    requires AllValid(cs)
    ensures DayOrdered(sorted) && multiset(sorted) == multiset(cs)
    ensures forall c :: c in sorted <==> c in cs
  {
    hide DayNumber, ValidDate, Before;
    forall c, o | c in cs && o in cs ensures Before(c, o) <==> DayNumber(c) < DayNumber(o) {
      BeforeIsDayOrder(c, o);
    }
    SortIsSorted(Before, cs);
    SortIsPermutation(Before, cs);
    sorted := Sort(Before, cs);
    forall i, j | 0 <= i < j < |sorted| ensures DayNumber(sorted[i]) <= DayNumber(sorted[j]) {
      assert sorted[i] in cs && sorted[j] in cs;
    }
  }

  method Dedupe(cs: seq<Civil>) returns (out: seq<Civil>)
    requires AllValid(cs) && DayOrdered(cs)
    ensures Ascending(out)
    ensures forall c :: c in out <==> c in cs
  {
    hide DayNumber, ValidDate;
    out := [];
    for i := 0 to |cs|
      invariant Ascending(out)
      invariant forall c :: c in out <==> c in cs[..i]
      invariant out == [] <==> i == 0
      invariant i > 0 ==> out[|out| - 1] == cs[i - 1]
    {
      assert cs[..i + 1] == cs[..i] + [cs[i]];
      if i == 0 || cs[i] != cs[i - 1] {
        if i > 0 { SameDaySameDate(cs[i], cs[i - 1]); }
        out := out + [cs[i]];
      }
    }
    assert cs[..|cs|] == cs;
  }

  lemma SameDaySameDate(c: Civil, o: Civil)
    requires ValidDate(c) && ValidDate(o)
    ensures DayNumber(c) == DayNumber(o) <==> c == o
  {
    hide DayNumber, CivilOf, ValidDate;
    CivilRoundTrip(c);
    CivilRoundTrip(o);
  }

  /** The rule's dates in one month, as dates. */
  ghost predicate InMonth(r: Rule, y: int, m: int, fallback: int, c: Civil)
    requires 1 <= m <= 12
  {
    c.y == y && c.m == m && DaySelected(r, y, m, fallback, c.d)
  }

  lemma InMonthIsValid(r: Rule, y: int, m: int, fallback: int, c: Civil)
    requires 1 <= m <= 12 && fallback >= 1
    requires InMonth(r, y, m, fallback, c)
    ensures ValidDate(c)
  {
  }

  method DatesInMonth(r: Rule, y: int, m: int, fallback: int) returns (out: Option<seq<Civil>>)
    requires ValidRule(r) && 1 <= m <= 12 && fallback >= 1
    ensures out.None? <==> NamesLastOfNone(r)
    ensures out.Some? ==> forall c :: c in out.value <==> InMonth(r, y, m, fallback, c)
  {
    hide ValidRule, DaySelected, MonthLength, NamesLastOfNone;
    var days := DaysInMonth(r, y, m, fallback);
    if days.None? {
      return None;
    }
    var ds := days.value;
    var dates: seq<Civil> := [];
    for i := 0 to |ds|
      invariant forall c :: c in dates <==> c.y == y && c.m == m && c.d in ds[..i]
    {
      assert ds[..i + 1] == ds[..i] + [ds[i]];
      dates := dates + [Civil(y, m, ds[i])];
    }
    assert ds[..|ds|] == ds;
    out := Some(dates);
  }

  method DailyPeriod(r: Rule, first: Civil, k: nat) returns (out: seq<Civil>)
    requires ValidRule(r) && ValidDate(first) && r.freq == Daily
    ensures forall c :: c in out <==> ValidDate(c) && InPeriod(r, first, k, DayNumber(c))
  {
    hide DayNumber, CivilOf, ValidDate, DailySelected;
    var n := DayNumber(Civil(first.y, first.m, first.d + k * r.interval));
    assert n == DayNumber(first) + k * r.interval by { DayCarry(first, k * r.interval); }
    CivilOfIsValid(n);
    var c := CivilOf(n);
    assert 1 <= c.m <= 12 by { ValidDateBounds(c); }
    var allowed := DayAllowed(r, c);
    out := if allowed.value then [c] else [];
    forall c' | ValidDate(c') ensures CivilOf(DayNumber(c')) == c' { CivilRoundTrip(c'); }
  }

  lemma DayCarry(c: Civil, days: int)
    ensures DayNumber(Civil(c.y, c.m, c.d + days)) == DayNumber(c) + days
  {
  }

  lemma ValidDateBounds(c: Civil)
    requires ValidDate(c)
    ensures 1 <= c.m <= 12 && 1 <= c.d
  {
  }

  lemma MondayOf(n: int)
    ensures n - MondayOffset(WeekdayOf(n)) == 7 * (n / 7)
  {
  }

  /** The day of a given weekday in the week that starts on day 7 * week. */
  lemma InWeek(week: int, w: int, n: int)
    requires 0 <= w < 7
    ensures n == 7 * week + MondayOffset(w) <==> n / 7 == week && WeekdayOf(n) == w
  {
  }

  method WeeklyPeriod(r: Rule, first: Civil, k: nat) returns (out: seq<Civil>)
    requires ValidRule(r) && ValidDate(first) && r.freq == Weekly
    ensures forall c :: c in out <==> ValidDate(c) && Expanded(r, first, k, DayNumber(c))
  {
    hide DayNumber, CivilOf, ValidDate, MondayOffset, WeekdayOf, ValidNthDay;
    var base := DayNumber(first);
    var monday := base - MondayOffset(WeekdayOf(base)) + 7 * k * r.interval;
    ghost var week := base / 7 + k * r.interval;
    assert monday == 7 * week by { MondayOf(base); assert 7 * k * r.interval == 7 * (k * r.interval); }
    var days := [WeekdayOf(base)];
    if |r.byDay| > 0 {
      days := [];
      for i := 0 to |r.byDay|
        invariant forall d :: d in days <==> exists w :: w in r.byDay[..i] && w.day == d
      {
        assert r.byDay[..i + 1] == r.byDay[..i] + [r.byDay[i]];
        days := days + [r.byDay[i].day];
      }
      assert r.byDay[..|r.byDay|] == r.byDay;
    }
    out := [];
    for i := 0 to |days|
      invariant forall c :: c in out <==>
        ValidDate(c) && MonthAllowed(r, c.m) && exists d :: d in days[..i] && DayNumber(c) == monday + MondayOffset(d)
    {
      assert days[..i + 1] == days[..i] + [days[i]];
      var t := monday + MondayOffset(days[i]);
      var c := CivilOf(t);
      CivilOfIsValid(t);
      forall c' | ValidDate(c') ensures DayNumber(c') == t <==> c' == c { SameDaySameDate(c', c); }
      if MonthAllowed(r, c.m) {
        out := out + [c];
      }
    }
    assert days[..|days|] == days;
    forall c | ValidDate(c) ensures c in out <==> Expanded(r, first, k, DayNumber(c)) {
      CivilRoundTrip(c);
      if r.byDay == [] { InWeek(week, WeekdayOf(base), DayNumber(c)); }
    }
  }

  /**
    The dates that the loop puts in the k-th period. For a weekly rule that names
    days they are counted on from Monday, whatever the number of the weekday.
   */
  predicate Expanded(r: Rule, first: Civil, k: int, n: int) {
    if r.freq == Weekly && r.byDay != [] then
      && MonthAllowed(r, CivilOf(n).m)
      && exists w :: w in r.byDay && n == 7 * (DayNumber(first) / 7 + k * r.interval) + MondayOffset(w.day)
    else
      InPeriod(r, first, k, n)
  }

  /** For weekdays among the seven the loop gives the rule's dates. */
  lemma ExpandedIsMeant(r: Rule, first: Civil, k: int, n: int)
    requires ValidRule(r) && (WeekdaysKnown(r) || r.freq != Weekly)
    ensures Expanded(r, first, k, n) <==> InPeriod(r, first, k, n)
  {
    hide DayNumber, CivilOf, MondayOffset, WeekdayOf, ValidNthDay;
    if r.freq == Weekly {
      var week := DayNumber(first) / 7 + k * r.interval;
      forall w | w in r.byDay
        ensures n == 7 * week + MondayOffset(w.day) <==> n / 7 == week && WeekdayOf(n) == w.day
      {
        InWeek(week, w.day, n);
      }
    }
  }

  /** A weekly rule reads any weekday from -6 on as its remainder by 7: both 0 and 7 are Sunday. */
  function WrappedDays(ws: seq<NthDay>): (os: seq<NthDay>)
    ensures |os| == |ws|
    ensures forall i :: 0 <= i < |ws| ==> os[i] == NthDay(ws[i].day % 7, ws[i].nth)
  {
    seq(|ws|, i requires 0 <= i < |ws| => NthDay(ws[i].day % 7, ws[i].nth))
  }

  ghost predicate CountsTo(ws: seq<NthDay>, offset: int) {
    exists w :: w in ws && offset == MondayOffset(w.day)
  }

  lemma WrappedCounts(ws: seq<NthDay>, offset: int)
    requires forall w <- ws :: -6 <= w.day
    ensures CountsTo(ws, offset) <==> CountsTo(WrappedDays(ws), offset)
  {
    hide WrappedDays;
    var os := WrappedDays(ws);
    forall i | 0 <= i < |ws| ensures MondayOffset(ws[i].day) == MondayOffset(os[i].day) {
      assert ws[i] in ws;
    }
    hide MondayOffset;
    if CountsTo(ws, offset) {
      var i :| 0 <= i < |ws| && offset == MondayOffset(ws[i].day);
      assert os[i] in os;
    }
    if CountsTo(os, offset) {
      var i :| 0 <= i < |os| && offset == MondayOffset(os[i].day);
      assert ws[i] in ws;
    }
  }

  lemma WrappedIsValid(r: Rule)
    requires ValidRule(r)
    ensures var o := r.(byDay := WrappedDays(r.byDay)); ValidRule(o) && WeekdaysKnown(o)
  {
    hide WrappedDays;
    var os := WrappedDays(r.byDay);
    forall i | 0 <= i < |os| ensures ValidNthDay(r.freq, os[i]) && 0 <= os[i].day < 7 {
      assert r.byDay[i] in r.byDay;
    }
  }

  lemma WeekdaysWrap(r: Rule, first: Civil, k: int, n: int)
    requires ValidRule(r) && r.freq == Weekly
    requires forall w <- r.byDay :: -6 <= w.day
    ensures Expanded(r, first, k, n) <==> InPeriod(r.(byDay := WrappedDays(r.byDay)), first, k, n)
  {
    var o := r.(byDay := WrappedDays(r.byDay));
    hide DayNumber, CivilOf, WeekdayOf, ValidRule, MondayOffset, WrappedDays, WeekdaysKnown;
    WrappedIsValid(r);
    ExpandedIsMeant(o, first, k, n);
    if r.byDay != [] {
      hide InPeriod;
      var offset := n - 7 * (DayNumber(first) / 7 + k * r.interval);
      WrappedCounts(r.byDay, offset);
      ExpandedCounts(r, first, k, n, offset);
      ExpandedCounts(o, first, k, n, offset);
    }
  }

  lemma ExpandedCounts(r: Rule, first: Civil, k: int, n: int, offset: int)
    requires r.freq == Weekly && r.byDay != []
    requires offset == n - 7 * (DayNumber(first) / 7 + k * r.interval)
    ensures Expanded(r, first, k, n) <==> MonthAllowed(r, CivilOf(n).m) && CountsTo(r.byDay, offset)
  {
    hide DayNumber, CivilOf, MondayOffset, InPeriod;
  }

  /** time.Date on the first of a month past December lands in a later year. */
  lemma MonthCarry(y: int, m: int)
    ensures CivilOf(DayNumber(Civil(y, m, 1))) == Civil(y + (m - 1) / 12, (m - 1) % 12 + 1, 1)
  {
    var c := Civil(y + (m - 1) / 12, (m - 1) % 12 + 1, 1);
    assert DayNumber(c) == DayNumber(Civil(y, m, 1)) by {
      assert (c.m - 1) / 12 == 0;
    }
    assert ValidDate(c);
    hide DayNumber, CivilOf, ValidDate;
    CivilRoundTrip(c);
  }

  /** The month, from 1 to 12, of the k-th period of a monthly rule. */
  function MonthOf(r: Rule, first: Civil, k: int): (m: int)
    ensures 1 <= m <= 12
  {
    (first.m + k * r.interval - 1) % 12 + 1
  }

  /** A date of the month that holds the k-th period is in the period when the rule names it there. */
  lemma InMonthlyPeriod(r: Rule, first: Civil, k: nat, y: int, m: int, c: Civil)
    requires ValidRule(r) && ValidDate(first) && r.freq == Monthly
    requires y == first.y + (first.m + k * r.interval - 1) / 12 && m == (first.m + k * r.interval - 1) % 12 + 1
    ensures MonthAllowed(r, m) && InMonth(r, y, m, first.d, c) <==> ValidDate(c) && InPeriod(r, first, k, DayNumber(c))
  {
    hide DayNumber, CivilOf, ValidDate, DaySelected, ValidRule;
    ValidDateBounds(first);
    CivilRoundTrip(first);
    if InMonth(r, y, m, first.d, c) { InMonthIsValid(r, y, m, first.d, c); }
    if ValidDate(c) {
      CivilRoundTrip(c);
      ValidDateBounds(c);
      MonthsApart(first, c, k * r.interval);
    }
  }

  lemma MonthsApart(first: Civil, c: Civil, months: int)
    requires 1 <= c.m <= 12
    ensures 12 * c.y + c.m - 1 == 12 * first.y + first.m - 1 + months
      <==> c.y == first.y + (first.m + months - 1) / 12 && c.m == (first.m + months - 1) % 12 + 1
  {
  }

  method MonthlyPeriod(r: Rule, first: Civil, k: nat) returns (out: Option<seq<Civil>>)
    requires ValidRule(r) && ValidDate(first) && r.freq == Monthly
    ensures out.None? <==> MonthAllowed(r, MonthOf(r, first, k)) && NamesLastOfNone(r)
    ensures out.Some? ==> forall c :: c in out.value <==> ValidDate(c) && InPeriod(r, first, k, DayNumber(c))
  {
    hide DayNumber, CivilOf, ValidDate, InMonth, InPeriod, ValidRule, NamesLastOfNone;
    ValidDateBounds(first);
    MonthCarry(first.y, first.m + k * r.interval);
    var t := CivilOf(DayNumber(Civil(first.y, first.m + k * r.interval, 1)));
    forall c ensures MonthAllowed(r, t.m) && InMonth(r, t.y, t.m, first.d, c)
      <==> ValidDate(c) && InPeriod(r, first, k, DayNumber(c))
    {
      InMonthlyPeriod(r, first, k, t.y, t.m, c);
    }
    out := Some([]);
    if MonthAllowed(r, t.m) {
      out := DatesInMonth(r, t.y, t.m, first.d);
    }
  }

  lemma InYearlyPeriod(r: Rule, first: Civil, k: nat, c: Civil)
    requires ValidRule(r) && ValidDate(first) && r.freq == Yearly
    ensures 1 <= c.m <= 12 && (if r.byMonth == [] then c.m == first.m else c.m in r.byMonth)
        && InMonth(r, first.y + k * r.interval, c.m, first.d, c)
      <==> ValidDate(c) && InPeriod(r, first, k, DayNumber(c))
  {
    hide DayNumber, CivilOf, ValidDate, DaySelected;
    ValidDateBounds(first);
    CivilRoundTrip(first);
    var y := first.y + k * r.interval;
    if 1 <= c.m <= 12 && InMonth(r, y, c.m, first.d, c) { InMonthIsValid(r, y, c.m, first.d, c); }
    if ValidDate(c) {
      CivilRoundTrip(c);
      ValidDateBounds(c);
    }
  }

  method YearlyPeriod(r: Rule, first: Civil, k: nat) returns (out: Option<seq<Civil>>)
    requires ValidRule(r) && ValidDate(first) && r.freq == Yearly
    ensures out.None? <==> NamesLastOfNone(r)
    ensures out.Some? ==> forall c :: c in out.value <==> ValidDate(c) && InPeriod(r, first, k, DayNumber(c))
  {
    hide DayNumber, CivilOf, ValidDate, InMonth, InPeriod, NamesLastOfNone, ValidNthDay, ValidMonthDay;
    ValidDateBounds(first);
    var y := first.y + k * r.interval;
    var months := if |r.byMonth| == 0 then [first.m] else r.byMonth;
    var all: seq<Civil> := [];
    for i := 0 to |months|
      invariant i > 0 ==> !NamesLastOfNone(r)
      invariant forall c :: c in all <==> c.m in months[..i] && 1 <= c.m <= 12 && InMonth(r, y, c.m, first.d, c)
    {
      assert months[..i + 1] == months[..i] + [months[i]];
      assert months[i] in months && 1 <= months[i] <= 12;
      var dates := DatesInMonth(r, y, months[i], first.d);
      if dates.None? {
        return None;
      }
      forall c ensures c in dates.value ==> c.m == months[i] { InItsMonth(r, y, months[i], first.d, c); }
      all := all + dates.value;
    }
    assert months[..|months|] == months;
    forall c ensures c in all <==> ValidDate(c) && InPeriod(r, first, k, DayNumber(c)) {
      InYearlyPeriod(r, first, k, c);
    }
    out := Some(all);
  }

  lemma InItsMonth(r: Rule, y: int, m: int, fallback: int, c: Civil)
    requires 1 <= m <= 12
    ensures InMonth(r, y, m, fallback, c) ==> c.m == m
  {
    hide DaySelected;
  }

  /**
    Expanding the k-th period indexes out of range: a month that is expanded
    names the last of its days on a weekday that no day has.
   */
  predicate OutOfRange(r: Rule, first: Civil, k: int) {
    && NamesLastOfNone(r)
    && (r.freq == Yearly || (r.freq == Monthly && MonthAllowed(r, MonthOf(r, first, k))))
  }

  /**
    The expansion of one period: in date order, without repeats, and exactly
    the dates that the rule's meaning puts in that period.
   */
  method Period(r: Rule, first: Civil, k: nat) returns (out: Option<seq<Civil>>)
    requires ValidRule(r) && ValidDate(first)
    ensures out.None? <==> OutOfRange(r, first, k)
    ensures out.Some? ==> Ascending(out.value)
    ensures out.Some? ==> forall c :: c in out.value <==> ValidDate(c) && Expanded(r, first, k, DayNumber(c))
  {
    hide DayNumber, ValidDate, InPeriod, NamesLastOfNone, Ascending, MonthOf;
    var dates: seq<Civil>;
    match r.freq {
      case Daily => dates := DailyPeriod(r, first, k);
      case Weekly => dates := WeeklyPeriod(r, first, k);
      case Monthly =>
        var found := MonthlyPeriod(r, first, k);
        if found.None? {
          return None;
        }
        dates := found.value;
      case Yearly =>
        var found := YearlyPeriod(r, first, k);
        if found.None? {
          return None;
        }
        dates := found.value;
    }
    dates := SortDates(dates);
    dates := Dedupe(dates);
    out := Some(dates);
  }

  /** With weekdays among the seven no period is out of range. */
  lemma KnownStaysInRange(r: Rule, first: Civil, k: int)
    requires ValidRule(r) && WeekdaysKnown(r)
    ensures !OutOfRange(r, first, k)
  {
  }

  // --------------------------------------------------------- skipping ahead

  /** The longest time.Duration, in whole days: subtraction of instants saturates there. */
  const LONGEST_SPAN := 106751

  function SpanDays(days: int): int {
    if days > LONGEST_SPAN then LONGEST_SPAN else if days < -LONGEST_SPAN then -LONGEST_SPAN else days
  }

  /** Go's integer division truncates toward zero. */
  function TruncDiv(a: int, b: int): int
    requires b > 0
  {
    if a >= 0 then a / b else -((-a) / b)
  }

  function PeriodsBetween(r: Rule, first: Civil, at: Civil): int
    requires r.interval >= 1
  {
    var a, b := DayNumber(first), DayNumber(at);
    var n := match r.freq
      case Daily => SpanDays(b - a)
      case Weekly => TruncDiv(SpanDays((b - MondayOffset(WeekdayOf(b))) - (a - MondayOffset(WeekdayOf(a)))), 7)
      case Monthly => (at.y - first.y) * 12 + (at.m - first.m)
      case Yearly => at.y - first.y
      case Other(_) => 0;
    if n < 0 then 0 else n / r.interval
  }

  /** Distance in days, weeks, months or years from the period of first to that of at. */
  function PeriodDistance(r: Rule, first: Civil, at: Civil): int {
    Index(r.freq, DayNumber(at)) - Index(r.freq, DayNumber(first))
  }

  /** The jump never passes the period holding at, and reaches it exactly within the longest span. */
  lemma PeriodsBetweenDistance(r: Rule, first: Civil, at: Civil)
    requires ValidRule(r) && ValidDate(first) && ValidDate(at)
    ensures 0 <= PeriodsBetween(r, first, at)
    ensures PeriodsBetween(r, first, at) > 0 ==> PeriodsBetween(r, first, at) * r.interval <= PeriodDistance(r, first, at)
    ensures r.freq == Monthly || r.freq == Yearly || DayNumber(at) - DayNumber(first) <= LONGEST_SPAN - 6 ==>
      (PeriodsBetween(r, first, at) + 1) * r.interval > PeriodDistance(r, first, at)
  {
    hide DayNumber, CivilOf, ValidDate, WeekdayOf, MondayOffset, TruncDiv, SpanDays;
    CivilRoundTrip(first);
    CivilRoundTrip(at);
    var a, b := DayNumber(first), DayNumber(at);
    MondayOf(a);
    MondayOf(b);
    WholeWeeks(a / 7, b / 7);
    SpanDaysBounds(b - a);
    var n := match r.freq
      case Daily => SpanDays(b - a)
      case Weekly => TruncDiv(SpanDays((b - MondayOffset(WeekdayOf(b))) - (a - MondayOffset(WeekdayOf(a)))), 7)
      case Monthly => (at.y - first.y) * 12 + (at.m - first.m)
      case Yearly => at.y - first.y
      case Other(_) => 0;
    WholeIntervals(n, PeriodDistance(r, first, at), r.interval);
  }

  lemma SpanDaysBounds(days: int)
    ensures SpanDays(days) <= (if days < 0 then -1 else days)
    ensures -LONGEST_SPAN <= days <= LONGEST_SPAN ==> SpanDays(days) == days
    ensures days < 0 ==> SpanDays(days) < 0
    ensures 0 <= days ==> 0 <= SpanDays(days)
  {
  }

  lemma WholeIntervals(n: int, distance: int, interval: int)
    requires interval >= 1
    requires n <= distance || n < 0
    ensures var p := if n < 0 then 0 else n / interval;
      && 0 <= p
      && (p > 0 ==> p * interval <= distance)
      && ((n == distance || (n < 0 && distance < 0)) ==> (p + 1) * interval > distance)
  {
    if n >= 0 { QuotientBounds(n, interval); }
  }

  lemma QuotientBounds(n: int, interval: int)
    requires interval >= 1 && n >= 0
    ensures 0 <= n / interval
    ensures (n / interval) * interval <= n < (n / interval + 1) * interval
  {
    assert n == interval * (n / interval) + n % interval;
  }

  lemma WholeWeeks(a: int, b: int)
    ensures TruncDiv(SpanDays(7 * b - 7 * a), 7) <= (if b >= a then b - a else -1)
    ensures b - a >= 0 ==> TruncDiv(SpanDays(7 * b - 7 * a), 7) >= 0
    ensures b - a < 0 ==> TruncDiv(SpanDays(7 * b - 7 * a), 7) < 0
    ensures 7 * b - 7 * a <= LONGEST_SPAN && b >= a ==> TruncDiv(SpanDays(7 * b - 7 * a), 7) == b - a
  {
  }

  /** Where walk starts: one period before the one the jump finds. */
  function StartPeriod(r: Rule, first: Civil, at: Civil): (k: nat)
    requires ValidRule(r)
    ensures k == 0 || k == PeriodsBetween(r, first, at) - 1
  {
    var k := PeriodsBetween(r, first, at);
    if k > 0 then k - 1 else 0
  }

  /** Skipping loses nothing: every date of a skipped period is two days or more before at. */
  lemma SkippedPeriodsArePast(r: Rule, first: Civil, at: Civil, j: int, n: int)
    requires ValidRule(r) && ValidDate(first) && ValidDate(at)
    requires 0 <= j < StartPeriod(r, first, at) && InPeriod(r, first, j, n)
    ensures n <= DayNumber(at) - 2
  {
    hide DayNumber, CivilOf, ValidDate, PeriodsBetween, Selected;
    PeriodsBetweenDistance(r, first, at);
    var p := PeriodsBetween(r, first, at);
    assert j <= p - 2;
    assert j * r.interval <= (p - 2) * r.interval == p * r.interval - 2 * r.interval;
    assert Index(r.freq, n) <= Index(r.freq, DayNumber(at)) - 2;
    TwoPeriodsApart(r.freq, n, DayNumber(at));
  }

  lemma TwoPeriodsApart(freq: Frequency, n: int, p: int)
    requires !freq.Other? && Index(freq, n) <= Index(freq, p) - 2
    ensures n <= p - 2
  {
    hide CivilOf;
    if p - 1 <= n {
      IndexMonotone(freq, p - 1, n);
      IndexStep(freq, p - 1);
    }
  }

  lemma IndexStep(freq: Frequency, n: int)
    ensures Index(freq, n + 1) <= Index(freq, n) + 1
  {
    if freq == Monthly || freq == Yearly { NextDayMonth(n); }
  }

  /** The day after a date is in the same month or the next. */
  lemma NextDayMonth(n: int)
    ensures var c, o := CivilOf(n), CivilOf(n + 1);
      12 * o.y + o.m <= 12 * c.y + c.m + 1 && o.y <= c.y + 1
  {
    hide CivilOf, DayNumber, MonthLength;
    var c := CivilOf(n);
    CivilOfIsValid(n);
    NextDateIsNextDay(c);
    CivilRoundTrip(NextDate(c));
  }

  function NextDate(c: Civil): Civil
    requires ValidDate(c)
  {
    if c.d < MonthLength(c.y, c.m) then Civil(c.y, c.m, c.d + 1)
    else if c.m < 12 then Civil(c.y, c.m + 1, 1) else Civil(c.y + 1, 1, 1)
  }

  lemma NextDateIsNextDay(c: Civil)
    requires ValidDate(c)
    ensures ValidDate(NextDate(c)) && DayNumber(NextDate(c)) == DayNumber(c) + 1
  {
    assert ValidDate(NextDate(c));
    hide DayNumber, DaysBeforeMonth, DaysBeforeYear, MonthLength, YearLength;
    DayNumberPlain(c);
    DayNumberPlain(NextDate(c));
    MonthStep(c.y, c.m);
    MonthStep(c.y + 1, 1);
    YearStep(c.y);
  }
}
