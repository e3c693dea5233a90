/**
  What the lists of a rule mean, said without the arithmetic that works it out:
  days counted from the end of the month by the days that follow them, positions
  by counting weekdays, and validity by what the calendar always has.
 */
module RuleMeaning {
  import opened Calendar
  import opened Rules
  import S = Schedules

  // -------------------------------------------------------- the calendar

  /** Months of 31 and 30 days alternate, February aside, and July and August are both long. */
  lemma MonthsAlternate(y: int, m: int)
    requires 1 <= m <= 12
    ensures m <= 7 && m != 2 ==> MonthLength(y, m) == if m % 2 == 1 then 31 else 30
    ensures m >= 8 ==> MonthLength(y, m) == if m % 2 == 0 then 31 else 30
    ensures MonthLength(y, 2) == if y % 400 == 0 || (y % 4 == 0 && y % 100 != 0) then 29 else 28
  {
  }

  /** 1 January 2000 was a Saturday, and each day is on the weekday after the day before it. */
  lemma WeekdaysFollow(n: int)
    ensures WeekdayOf(DayNumber(Civil(2000, 1, 1))) == 6
    ensures WeekdayOf(n + 1) == if WeekdayOf(n) == 6 then 0 else WeekdayOf(n) + 1
  {
    assert DaysBeforeYear(2000) == 730119;
  }

  // --------------------------------------------------- days of the month

  /** A negative BYMONTHDAY counts back from the first of the next month: -1 is the day before it. */
  lemma DaysFromTheEnd(r: Rule, y: int, m: int, fallback: int, d: int)
    requires ValidRule(r) && 1 <= m <= 12 && r.byDay == [] && r.byMonthDay != []
    requires 1 <= d <= LastDay(y, m)
    ensures DaySelected(r, y, m, fallback, d) <==>
      d in r.byMonthDay || DayNumber(Civil(y, m, d)) - DayNumber(Civil(y, m + 1, 1)) in r.byMonthDay
  {
    hide DaysBeforeYear, DayNumber, LastDay;
    LastDayIsMonthLength(y, m);
    NextFirst(y, m, d);
    var n := MonthLength(y, m);
    forall b | b in r.byMonthDay ensures d == CountedDay(n, b) <==> d == b || d - n - 1 == b {
      assert ValidMonthDay(b);
    }
  }

  lemma NextFirst(y: int, m: int, d: int)
    requires 1 <= m <= 12
    ensures DayNumber(Civil(y, m, d)) - DayNumber(Civil(y, m + 1, 1)) == d - MonthLength(y, m) - 1
  {
    hide DaysBeforeYear, DaysBeforeMonth, MonthLength;
    DayZero(y, m);
    assert DayNumber(Civil(y, m + 1, 1)) == DayNumber(Civil(y, m + 1, 0)) + 1;
    DayNumberPlain(Civil(y, m, d));
    DayNumberPlain(Civil(y, m, MonthLength(y, m)));
  }

  /** With no lists a month has the first date's day or none: the 31st is not moved to the 30th. */
  lemma PlainMonthlyDates(r: Rule, first: Civil, k: int, n: int)
    requires ValidRule(r) && ValidDate(first)
    requires r.freq == Monthly && r.byDay == [] && r.byMonthDay == [] && r.byMonth == []
    ensures var c := CivilOf(n);
      InPeriod(r, first, k, n) <==>
        12 * c.y + c.m == 12 * first.y + first.m + k * r.interval && c.d == first.d
  {
    hide CivilOf, DayNumber;
    CivilRoundTrip(first);
    CivilOfIsValid(n);
  }

  /** And a year the first date's day and month, or none: 29 February keeps to leap years. */
  lemma PlainYearlyDates(r: Rule, first: Civil, k: int, n: int)
    requires ValidRule(r) && ValidDate(first)
    requires r.freq == Yearly && r.byDay == [] && r.byMonthDay == [] && r.byMonth == []
    ensures InPeriod(r, first, k, n) <==> CivilOf(n) == Civil(first.y + k * r.interval, first.m, first.d)
  {
    hide CivilOf, DayNumber;
    CivilRoundTrip(first);
    CivilOfIsValid(n);
  }

  // ------------------------------------------------ the dates of a period

  /** Both lists name the day, where there are both: by its place in the month from either end, and by its weekday. */
  predicate ListsName(r: Rule, c: Civil)
    requires 1 <= c.m <= 12
  {
    && (r.byMonthDay == [] || c.d in r.byMonthDay || DayNumber(c) - DayNumber(Civil(c.y, c.m + 1, 1)) in r.byMonthDay)
    && (r.byDay == [] || exists w :: w in r.byDay && OnNthDay(w, c.y, c.m, c.d))
  }

  predicate InMonths(r: Rule, m: int) {
    r.byMonth == [] || m in r.byMonth
  }

  lemma ListsMeet(r: Rule, c: Civil, fallback: int)
    requires ValidRule(r) && ValidDate(c)
    ensures DaySelected(r, c.y, c.m, fallback, c.d) <==>
      if r.byMonthDay == [] && r.byDay == [] then c.d == fallback else ListsName(r, c)
  {
    hide DayNumber, OnNthDay, LastDay;
    LastDayIsMonthLength(c.y, c.m);
    if r.byMonthDay != [] { DaysFromTheEnd(r.(byDay := []), c.y, c.m, fallback, c.d); }
  }

  /** A day of a daily rule: so many days on, in its months and on its lists. */
  lemma DailyDates(r: Rule, first: Civil, k: int, n: int)
    requires ValidRule(r) && r.freq == Daily
    ensures 1 <= CivilOf(n).m <= 12
    ensures InPeriod(r, first, k, n) <==>
      n == DayNumber(first) + k * r.interval && InMonths(r, CivilOf(n).m) && ListsName(r, CivilOf(n))
  {
    hide DaySelected, DayNumber, CivilOf, OnNthDay;
    CivilOfIsValid(n);
    ListsMeet(r, CivilOf(n), 0);
  }

  /** The day is in the week of that Monday. */
  predicate InWeekOf(monday: int, n: int) {
    monday <= n < monday + 7 && WeekdayOf(monday) == 1
  }

  /** A day of a weekly rule: in a week so many weeks on from the first, on one of its weekdays or else the first's. */
  lemma WeeklyDates(r: Rule, first: Civil, k: int, n: int, monday: int)
    requires ValidRule(r) && r.freq == Weekly && InWeekOf(monday, DayNumber(first))
    ensures InPeriod(r, first, k, n) <==>
      && InWeekOf(monday + 7 * (k * r.interval), n) && InMonths(r, CivilOf(n).m)
      && if r.byDay == [] then WeekdayOf(n) == WeekdayOf(DayNumber(first)) else exists w :: w in r.byDay && w.day == WeekdayOf(n)
  {
    hide DayNumber, CivilOf, InWeekOf, WeekdayOf;
    WeeksOn(monday, DayNumber(first), k * r.interval, n);
  }

  lemma WeeksOn(monday: int, first: int, weeks: int, n: int)
    requires InWeekOf(monday, first)
    ensures n / 7 == first / 7 + weeks <==> InWeekOf(monday + 7 * weeks, n)
  {
    assert monday % 7 == 0 && first / 7 == monday / 7;
    assert (monday + 7 * weeks) / 7 == monday / 7 + weeks && (monday + 7 * weeks) % 7 == 0;
  }

  /** A day of a monthly rule: in a month so many months on, in its months and on its lists, or else on the first's day. */
  lemma MonthlyDates(r: Rule, first: Civil, k: int, n: int)
    requires ValidRule(r) && ValidDate(first) && r.freq == Monthly
    ensures 1 <= CivilOf(n).m <= 12
    ensures var c := CivilOf(n);
      InPeriod(r, first, k, n) <==>
        && 12 * c.y + c.m == 12 * first.y + first.m + k * r.interval && InMonths(r, c.m)
        && if r.byMonthDay == [] && r.byDay == [] then c.d == first.d else ListsName(r, c)
  {
    hide DaySelected, DayNumber, CivilOf, OnNthDay;
    CivilRoundTrip(first);
    CivilOfIsValid(n);
    ListsMeet(r, CivilOf(n), first.d);
  }

  /**
    A day of a yearly rule: in a year so many years on, in its months or else the
    first's, on its lists or else on the first's day.
   */
  lemma YearlyDates(r: Rule, first: Civil, k: int, n: int)
    requires ValidRule(r) && ValidDate(first) && r.freq == Yearly
    ensures 1 <= CivilOf(n).m <= 12
    ensures var c := CivilOf(n);
      InPeriod(r, first, k, n) <==>
        && c.y == first.y + k * r.interval && (if r.byMonth == [] then c.m == first.m else c.m in r.byMonth)
        && if r.byMonthDay == [] && r.byDay == [] then c.d == first.d else ListsName(r, c)
  {
    hide DaySelected, DayNumber, CivilOf, OnNthDay;
    CivilRoundTrip(first);
    CivilOfIsValid(n);
    ListsMeet(r, CivilOf(n), first.d);
  }

  // ------------------------------------------------- positions of weekdays

  /** The days of the month up to d on a weekday. */
  function OnWeekday(y: int, m: int, day: int, d: int): set<int> {
    set e: int | 1 <= e <= d && WeekdayOf(DayNumber(Civil(y, m, e))) == day
  }

  lemma {:induction false} CountOnWeekday(y: int, m: int, day: int, d: int)
    requires 0 <= day < 7 && d >= 1 && WeekdayOf(DayNumber(Civil(y, m, d))) == day
    ensures |OnWeekday(y, m, day, d)| == (d - 1) / 7 + 1
    decreases d
  {
    hide DayNumber, WeekdayOf, FirstOn;
    forall e: int ensures WeekdayOf(DayNumber(Civil(y, m, e))) == day <==> (e - d) % 7 == 0 {
      WeekdayPattern(y, m, day, e);
      WeekdayPattern(y, m, day, d);
    }
    if d <= 7 {
      assert OnWeekday(y, m, day, d) == {d};
    } else {
      CountOnWeekday(y, m, day, d - 7);
      assert OnWeekday(y, m, day, d) == OnWeekday(y, m, day, d - 7) + {d};
    }
  }

  /**
    A day is on a weekday's n-th position when it is on the weekday and n such days
    have come by then, and on its last when none comes after; position 0 is any.
   */
  lemma PositionsCount(w: NthDay, y: int, m: int, d: int)
    requires 1 <= m <= 12 && 0 <= w.day < 7 && 1 <= d <= MonthLength(y, m)
    ensures w.nth == 0 ==> (OnNthDay(w, y, m, d) <==> d in OnWeekday(y, m, w.day, d))
    ensures w.nth > 0 ==>
      (OnNthDay(w, y, m, d) <==> d in OnWeekday(y, m, w.day, d) && |OnWeekday(y, m, w.day, d)| == w.nth)
    ensures w.nth == LAST ==>
      (OnNthDay(w, y, m, d) <==>
        d in OnWeekday(y, m, w.day, d) && OnWeekday(y, m, w.day, MonthLength(y, m)) == OnWeekday(y, m, w.day, d))
  {
    hide DayNumber, WeekdayOf, FirstOn, MonthLength;
    if WeekdayOf(DayNumber(Civil(y, m, d))) == w.day {
      CountOnWeekday(y, m, w.day, d);
      forall e: int ensures WeekdayOf(DayNumber(Civil(y, m, e))) == w.day <==> (e - d) % 7 == 0 {
        WeekdayPattern(y, m, w.day, e);
        WeekdayPattern(y, m, w.day, d);
      }
      LaterOnWeekday(y, m, w.day, d, MonthLength(y, m));
    }
  }

  lemma LaterOnWeekday(y: int, m: int, day: int, d: int, n: int)
    requires 1 <= d <= n
    requires forall e: int :: WeekdayOf(DayNumber(Civil(y, m, e))) == day <==> (e - d) % 7 == 0
    ensures OnWeekday(y, m, day, n) == OnWeekday(y, m, day, d) <==> d + 7 > n
  {
    hide DayNumber, WeekdayOf;
    if d + 7 <= n {
      assert (d + 7 - d) % 7 == 0;
      assert d + 7 in OnWeekday(y, m, day, n);
    } else {
      forall e | d < e <= n ensures e !in OnWeekday(y, m, day, n) {
        assert (e - d) % 7 != 0;
      }
    }
  }

  // ------------------------------------------------------------- validity

  predicate HasPosition(nth: int, y: int, m: int, day: int)
    requires 1 <= m <= 12
  {
    exists d :: 1 <= d <= MonthLength(y, m) && OnNthDay(NthDay(day, nth), y, m, d)
  }

  /** Whatever the weekday, every month has a day at the position. */
  ghost predicate InEveryMonth(nth: int) {
    forall y, m, day :: 1 <= m <= 12 && 0 <= day < 7 ==> HasPosition(nth, y, m, day)
  }

  lemma PositionFound(nth: int, y: int, m: int, day: int)
    requires 1 <= m <= 12 && 0 <= day < 7
    requires nth == 0 || nth == LAST || 1 <= nth <= 4
    ensures HasPosition(nth, y, m, day)
  {
    assert 28 <= MonthLength(y, m);
    hide DayNumber, WeekdayOf, FirstOn, MonthLength;
    var d0, n := FirstOn(y, m, day), MonthLength(y, m);
    var d := if nth == 0 then d0 else if nth == LAST then d0 + 7 * ((n - d0) / 7) else d0 + 7 * (nth - 1);
    WeekdayPattern(y, m, day, d);
    assert OnNthDay(NthDay(day, nth), y, m, d);
  }

  /** The positions that are accepted are the ones that every month has. */
  lemma PositionsAreSure(nth: int)
    ensures InEveryMonth(nth) <==> nth == 0 || nth == LAST || 1 <= nth <= 4
  {
    hide DayNumber, WeekdayOf;
    if nth == 0 || nth == LAST || 1 <= nth <= 4 {
      forall y, m, day | 1 <= m <= 12 && 0 <= day < 7 ensures HasPosition(nth, y, m, day) {
        PositionFound(nth, y, m, day);
      }
    } else {
      assert MonthLength(2001, 2) == 28;
      assert !HasPosition(nth, 2001, 2, 0);
    }
  }

  predicate Counts(b: int, y: int, m: int, d: int) {
    1 <= m <= 12 && 1 <= d <= MonthLength(y, m) && (b == d || b == d - MonthLength(y, m) - 1)
  }

  /** The days of the month that are accepted are the ones that some month has. */
  lemma MonthDaysExist(b: int)
    ensures ValidMonthDay(b) <==> exists y, m, d :: Counts(b, y, m, d)
  {
    if ValidMonthDay(b) { assert Counts(b, 2001, 1, if b > 0 then b else b + 32); }
  }

  /** A rule is refused for what a calendar may not have, or for days without the months that a yearly rule needs. */
  lemma ValidMeans(r: Rule)
    ensures ValidRule(r) <==>
      && r.freq in [Daily, Weekly, Monthly, Yearly] && 1 <= r.interval
      && (forall w :: w in r.byDay ==> InEveryMonth(w.nth) && (w.nth == 0 || r.freq in [Monthly, Yearly]))
      && (forall b :: b in r.byMonthDay ==> 1 <= b <= 31 || -31 <= b <= -1)
      && (forall m :: m in r.byMonth ==> m in [1, 2, 3, 4, 5, 6, 7, 8, 9, 10, 11, 12])
      && (r.freq == Yearly && r.byMonth == [] ==> r.byDay == [] && r.byMonthDay == [])
  {
    hide InEveryMonth;
    forall w | w in r.byDay ensures InEveryMonth(w.nth) <==> w.nth == 0 || w.nth == LAST || 1 <= w.nth <= 4 {
      PositionsAreSure(w.nth);
    }
  }

  predicate OnCalendar(c: Civil, n: int) {
    CivilOf(n) == c
  }

  /**
    A schedule needs a start, a zone, and a rule or dates that the calendar has, one
    of the two; and it does not end before it starts.
   */
  lemma ScheduleMeans(s: S.Schedule)
    ensures S.ValidSchedule(s) <==>
      && s.start != 0 && s.zone.Some? && 0 <= s.openDays && (s.end == 0 || s.start <= s.end)
      && (s.rule.Some? <==> s.dates == [])
      && (s.rule.Some? ==> ValidRule(s.rule.value))
      && (forall c :: c in s.dates ==> exists n :: OnCalendar(c, n))
  {
    hide ValidRule, CivilOf, DayNumber, ValidDate;
    forall c | c in s.dates ensures ValidDate(c) <==> exists n :: OnCalendar(c, n) {
      if ValidDate(c) {
        CivilRoundTrip(c);
        assert OnCalendar(c, DayNumber(c));
      }
      if n :| OnCalendar(c, n) { CivilOfIsValid(n); }
    }
  }

  // ------------------------------------------------------ weeks and spans

  /** A weekday counts to its place after Monday, and one before -6 to as far before it, as truncated division has it. */
  lemma PlacesInWeek(w: int)
    ensures (MondayOffset(w) - (w - 1)) % 7 == 0
    ensures w >= -6 ==> 0 <= MondayOffset(w) < 7
    ensures w < -6 ==> -7 < MondayOffset(w) <= 0
  {
  }

  /** A distance back is the distance forward with the sign turned, in days and in whole weeks. */
  lemma SpansAreOdd(days: int)
    ensures SpanDays(-days) == -SpanDays(days) && TruncDiv(-days, 7) == -TruncDiv(days, 7)
  {
  }

  /** The longest span is what 63 bits of nanoseconds hold. */
  lemma LongestSpanIsWhole()
    ensures LONGEST_SPAN * 86_400_000_000_000 <= 0x7FFF_FFFF_FFFF_FFFF < (LONGEST_SPAN + 1) * 86_400_000_000_000
  {
  }
}
