/**
  The proleptic Gregorian calendar as Go's `time` package computes it.

  A date is identified with its day number: the number of days since
  0001-01-01, which was a Monday. `DayNumber` accepts any month and day and
  carries the excess over, as `time.Date` does; `CivilOf` reads a day number
  back by 400-, 100-, 4- and 1-year cycles.
 */
module Calendar {

  datatype Civil = Civil(y: int, m: int, d: int)

  const DAYS_IN_CYCLE := 146097

  predicate IsLeap(y: int) {
    y % 4 == 0 && (y % 100 != 0 || y % 400 == 0)
  }

  function YearLength(y: int): int {
    if IsLeap(y) then 366 else 365
  }

  function MonthLength(y: int, m: int): int
    requires 1 <= m <= 12
  {
    if m == 2 then (if IsLeap(y) then 29 else 28)
    else if m == 4 || m == 6 || m == 9 || m == 11 then 30
    else 31
  }

  predicate ValidDate(c: Civil) {
    1 <= c.m <= 12 && 1 <= c.d <= MonthLength(c.y, c.m)
  }

  function DaysBeforeYear(y: int): int {
    365 * (y - 1) + (y - 1) / 4 - (y - 1) / 100 + (y - 1) / 400
  }

  /** Days of the year before month m; m == 13 stands for the next January. */
  function DaysBeforeMonth(y: int, m: int): int
    requires 1 <= m <= 13
  {
    var extra := if IsLeap(y) then 1 else 0;
    if m == 1 then 0
    else if m == 2 then 31
    else if m == 3 then 59 + extra
    else if m == 4 then 90 + extra
    else if m == 5 then 120 + extra
    else if m == 6 then 151 + extra
    else if m == 7 then 181 + extra
    else if m == 8 then 212 + extra
    else if m == 9 then 243 + extra
    else if m == 10 then 273 + extra
    else if m == 11 then 304 + extra
    else if m == 12 then 334 + extra
    else 365 + extra
  }

  /** time.Date at midnight UTC: months and days outside their range carry over. */
  function DayNumber(c: Civil): int {
    var y := c.y + (c.m - 1) / 12;
    var m := (c.m - 1) % 12 + 1;
    DaysBeforeYear(y) + DaysBeforeMonth(y, m) + c.d - 1
  }

  /** Whole centuries in the first r days of a 400-year cycle; the last one is a day longer. */
  function Centuries(r: int): (c: int)
    requires 0 <= r < DAYS_IN_CYCLE
    ensures 0 <= c <= 3
    ensures 36524 * c <= r < 36524 * (c + 1) + (if c == 3 then 1 else 0)
  {
    if r / 36524 > 3 then 3 else r / 36524
  }

  /** Whole years in the first r days of a four-year cycle; the last one may be a day longer. */
  function SingleYears(r: int): (a: int)
    requires 0 <= r < 1461
    ensures 0 <= a <= 3
    ensures 365 * a <= r < 365 * (a + 1) + (if a == 3 then 1 else 0)
  {
    if r / 365 > 3 then 3 else r / 365
  }

  function YearInCycle(r: int): (x: int)
    requires 0 <= r < DAYS_IN_CYCLE
  {
    var c := Centuries(r);
    var r1 := r - 36524 * c;
    100 * c + 4 * (r1 / 1461) + SingleYears(r1 % 1461)
  }

  function YearOf(n: int): int {
    400 * (n / DAYS_IN_CYCLE) + YearInCycle(n % DAYS_IN_CYCLE) + 1
  }

  function MonthOf(y: int, dayOfYear: int): (m: int)
    ensures 1 <= m <= 12
  {
    if dayOfYear < DaysBeforeMonth(y, 2) then 1
    else if dayOfYear < DaysBeforeMonth(y, 3) then 2
    else if dayOfYear < DaysBeforeMonth(y, 4) then 3
    else if dayOfYear < DaysBeforeMonth(y, 5) then 4
    else if dayOfYear < DaysBeforeMonth(y, 6) then 5
    else if dayOfYear < DaysBeforeMonth(y, 7) then 6
    else if dayOfYear < DaysBeforeMonth(y, 8) then 7
    else if dayOfYear < DaysBeforeMonth(y, 9) then 8
    else if dayOfYear < DaysBeforeMonth(y, 10) then 9
    else if dayOfYear < DaysBeforeMonth(y, 11) then 10
    else if dayOfYear < DaysBeforeMonth(y, 12) then 11
    else 12
  }

  function CivilOf(n: int): Civil {
    var y := YearOf(n);
    var dayOfYear := n - DaysBeforeYear(y);
    var m := MonthOf(y, dayOfYear);
    Civil(y, m, dayOfYear - DaysBeforeMonth(y, m) + 1)
  }

  /** time.Weekday: Sunday is 0. */
  function WeekdayOf(n: int): (w: int)
    ensures 0 <= w < 7
  {
    (n + 1) % 7
  }

  /** Daysin of the source: the zeroth of the next month, normalised. */
  function LastDay(y: int, m: int): int {
    CivilOf(DayNumber(Civil(y, m + 1, 0))).d
  }

  predicate Before(c: Civil, o: Civil) {
    if c.y != o.y then c.y < o.y
    else if c.m != o.m then c.m < o.m
    else c.d < o.d
  }

  // ---------------------------------------------------------------- years

  lemma YearStep(y: int)
    ensures DaysBeforeYear(y + 1) == DaysBeforeYear(y) + YearLength(y)
  {
    var x := y - 1;
    assert (x + 1) / 4 == x / 4 + (if y % 4 == 0 then 1 else 0);
    assert (x + 1) / 100 == x / 100 + (if y % 100 == 0 then 1 else 0);
    assert (x + 1) / 400 == x / 400 + (if y % 400 == 0 then 1 else 0);
  }

  lemma {:induction false} YearsMonotone(y: int, z: int)
    requires y <= z
    ensures DaysBeforeYear(y) + 365 * (z - y) <= DaysBeforeYear(z)
    decreases z - y
  {
    if y < z {
      YearsMonotone(y, z - 1);
      YearStep(z - 1);
    }
  }

  /** Days before the year at a given place in the nested cycles. */
  lemma DaysBeforeCyclePlace(q: int, c: int, f: int, a: int)
    requires 0 <= c <= 3 && 0 <= f <= 24 && 0 <= a <= 3
    ensures DaysBeforeYear(400 * q + 100 * c + 4 * f + a + 1) == DAYS_IN_CYCLE * q + 36524 * c + 1461 * f + 365 * a
    ensures a == 3 && (f != 24 || c == 3) ==> IsLeap(400 * q + 100 * c + 4 * f + a + 1)
  {
    var x := 400 * q + 100 * c + 4 * f + a;
    assert x / 4 == 100 * q + 25 * c + f;
    assert x / 100 == 4 * q + c;
    assert x / 400 == q;
    if a == 3 {
      assert (x + 1) % 4 == 0;
      if f == 24 && c == 3 { assert (x + 1) % 400 == 0; }
      if f != 24 { assert (x + 1) % 100 == 4 * (f + 1); }
    }
  }

  lemma YearInCycleBounds(q: int, r: int)
    requires 0 <= r < DAYS_IN_CYCLE
    ensures var y := 400 * q + YearInCycle(r) + 1;
      DaysBeforeYear(y) <= DAYS_IN_CYCLE * q + r < DaysBeforeYear(y) + YearLength(y)
  {
    hide DaysBeforeYear, Centuries, SingleYears, IsLeap;
    var c := Centuries(r);
    var r1 := r - 36524 * c;
    DaysBeforeCyclePlace(q, c, r1 / 1461, SingleYears(r1 % 1461));
  }

  /** The nested cycles find the year that holds day n. */
  lemma YearOfBounds(n: int)
    ensures DaysBeforeYear(YearOf(n)) <= n < DaysBeforeYear(YearOf(n)) + YearLength(YearOf(n))
    ensures DaysBeforeYear(YearOf(n)) <= n < DaysBeforeYear(YearOf(n) + 1)
  {
    hide DaysBeforeYear, YearInCycle, YearLength;
    YearInCycleBounds(n / DAYS_IN_CYCLE, n % DAYS_IN_CYCLE);
    YearStep(YearOf(n));
  }

  lemma YearOfUnique(n: int, y: int)
    requires DaysBeforeYear(y) <= n < DaysBeforeYear(y + 1)
    ensures YearOf(n) == y
  {
    hide DaysBeforeYear, YearOf;
    YearOfBounds(n);
    var z := YearOf(n);
    if z < y { YearsMonotone(z + 1, y); }
    if y < z { YearsMonotone(y + 1, z); }
  }

  // ---------------------------------------------------------------- dates

  lemma MonthStep(y: int, m: int)
    requires 1 <= m <= 12
    ensures DaysBeforeMonth(y, m + 1) == DaysBeforeMonth(y, m) + MonthLength(y, m)
    ensures DaysBeforeMonth(y, 1) == 0 && DaysBeforeMonth(y, 13) == YearLength(y)
  {
  }

  lemma MonthsMonotone(y: int, m: int, k: int)
    requires 1 <= m <= k <= 13
    ensures DaysBeforeMonth(y, m) + 28 * (k - m) <= DaysBeforeMonth(y, k)
  {
  }

  lemma MonthOfBounds(y: int, dayOfYear: int)
    requires 0 <= dayOfYear < YearLength(y)
    ensures var m := MonthOf(y, dayOfYear);
      DaysBeforeMonth(y, m) <= dayOfYear < DaysBeforeMonth(y, m) + MonthLength(y, m)
  {
  }

  /** A date whose month needs no carrying. */
  lemma DayNumberPlain(c: Civil)
    requires 1 <= c.m <= 12
    ensures DayNumber(c) == DaysBeforeYear(c.y) + DaysBeforeMonth(c.y, c.m) + c.d - 1
  {
    assert (c.m - 1) / 12 == 0 && (c.m - 1) % 12 == c.m - 1;
  }

  lemma CivilOfIsValid(n: int)
    ensures ValidDate(CivilOf(n))
    ensures DayNumber(CivilOf(n)) == n
  {
    hide DaysBeforeYear, YearOf, MonthOf, DaysBeforeMonth, MonthLength, YearLength, DayNumber;
    YearOfBounds(n);
    MonthOfBounds(YearOf(n), n - DaysBeforeYear(YearOf(n)));
    DayNumberPlain(CivilOf(n));
  }

  lemma DayNumberInYear(c: Civil)
    requires ValidDate(c)
    ensures DaysBeforeYear(c.y) <= DayNumber(c) < DaysBeforeYear(c.y + 1)
    ensures DayNumber(c) == DaysBeforeYear(c.y) + DaysBeforeMonth(c.y, c.m) + c.d - 1
  {
    hide DaysBeforeYear, DaysBeforeMonth, YearLength, DayNumber;
    MonthStep(c.y, c.m);
    MonthsMonotone(c.y, 1, c.m);
    MonthsMonotone(c.y, c.m + 1, 13);
    YearStep(c.y);
    DayNumberPlain(c);
  }

  lemma CivilRoundTrip(c: Civil)
    requires ValidDate(c)
    ensures CivilOf(DayNumber(c)) == c
  {
    hide DaysBeforeYear, YearOf, MonthOf, DaysBeforeMonth, MonthLength, YearLength, DayNumber;
    DayNumberInYear(c);
    YearOfUnique(DayNumber(c), c.y);
    var p := CivilOf(DayNumber(c));
    CivilOfIsValid(DayNumber(c));
    DayNumberInYear(p);
    MonthStep(c.y, c.m);
    MonthStep(c.y, p.m);
    if p.m < c.m { MonthsMonotone(c.y, p.m + 1, c.m); }
    if c.m < p.m { MonthsMonotone(c.y, c.m + 1, p.m); }
  }

  /** The field-by-field order of dates is the order of their day numbers. */
  lemma BeforeIsDayOrder(c: Civil, o: Civil)
    requires ValidDate(c) && ValidDate(o)
    ensures Before(c, o) <==> DayNumber(c) < DayNumber(o)
  {
    hide DayNumber, ValidDate;
    if Before(c, o) { OrderOneWay(c, o); }
    if Before(o, c) { OrderOneWay(o, c); }
  }

  lemma OrderOneWay(c: Civil, o: Civil)
    requires ValidDate(c) && ValidDate(o) && Before(c, o)
    ensures DayNumber(c) < DayNumber(o)
  {
    hide DaysBeforeYear, DaysBeforeMonth, MonthLength, DayNumber;
    DayNumberInYear(c);
    DayNumberInYear(o);
    if c.y < o.y {
      YearsMonotone(c.y + 1, o.y);
    } else if c.m < o.m {
      MonthStep(c.y, c.m);
      MonthsMonotone(c.y, c.m + 1, o.m);
    }
  }

  /** The source's month length, got by normalising day zero, is the table's. */
  lemma LastDayIsMonthLength(y: int, m: int)
    requires 1 <= m <= 12
    ensures LastDay(y, m) == MonthLength(y, m)
  {
    var last := Civil(y, m, MonthLength(y, m));
    assert DayNumber(Civil(y, m + 1, 0)) == DayNumber(last) by { DayZero(y, m); }
    hide DayNumber, CivilOf, MonthLength;
    CivilRoundTrip(last);
  }

  lemma DayZero(y: int, m: int)
    requires 1 <= m <= 12
    ensures DayNumber(Civil(y, m + 1, 0)) == DayNumber(Civil(y, m, MonthLength(y, m)))
  {
    hide DaysBeforeYear, DaysBeforeMonth, YearLength, MonthLength;
    MonthStep(y, m);
    MonthStep(y + 1, 1);
    YearStep(y);
    if m == 12 {
      assert m / 12 == 1 && m % 12 == 0;
    } else {
      assert m / 12 == 0 && m % 12 == m;
    }
    DayNumberPlain(Civil(y, m, MonthLength(y, m)));
  }

  // ------------------------------------------------------ the 400-year cycle

  /** Moving by whole cycles moves day numbers by whole cycles and keeps months and weekdays. */
  lemma CycleShift(c: Civil, q: int)
    ensures DayNumber(Civil(c.y + 400 * q, c.m, c.d)) == DayNumber(c) + DAYS_IN_CYCLE * q
    ensures 1 <= c.m <= 12 ==> MonthLength(c.y + 400 * q, c.m) == MonthLength(c.y, c.m)
    ensures IsLeap(c.y + 400 * q) == IsLeap(c.y)
    ensures WeekdayOf(DayNumber(c) + DAYS_IN_CYCLE * q) == WeekdayOf(DayNumber(c))
  {
    hide DaysBeforeYear, IsLeap, WeekdayOf;
    LeapCycle(c.y, q);
    LeapCycle(c.y + (c.m - 1) / 12, q);
    YearCycle(c.y + (c.m - 1) / 12, q);
    WeekdayShift(DayNumber(c), 20871 * q);
  }

  lemma SmallMultiple(m: int, d: int)
    requires m > 0 && -m < m * d < m
    ensures d == 0
  {
  }

  lemma QuotientUnique(n: int, m: int, q: int, r: int)
    requires m > 0 && n == m * q + r && 0 <= r < m
    ensures n / m == q && n % m == r
  {
    var d := n / m - q;
    assert m * d == r - n % m by {
      assert n == m * (n / m) + n % m;
      assert m * d == m * (n / m) - m * q;
    }
    SmallMultiple(m, d);
  }

  lemma QuotientShift(n: int, m: int, k: int)
    requires m > 0
    ensures (n + m * k) / m == n / m + k && (n + m * k) % m == n % m
  {
    assert n == m * (n / m) + n % m;
    assert m * (n / m + k) == m * (n / m) + m * k;
    QuotientUnique(n + m * k, m, n / m + k, n % m);
  }

  lemma LeapCycle(y: int, q: int)
    ensures IsLeap(y + 400 * q) == IsLeap(y)
  {
    QuotientShift(y, 4, 100 * q);
    QuotientShift(y, 100, 4 * q);
    QuotientShift(y, 400, q);
  }

  lemma YearCycle(y: int, q: int)
    ensures DaysBeforeYear(y + 400 * q) == DaysBeforeYear(y) + DAYS_IN_CYCLE * q
  {
    QuotientShift(y - 1, 4, 100 * q);
    QuotientShift(y - 1, 100, 4 * q);
    QuotientShift(y - 1, 400, q);
  }

  lemma WeekdayShift(n: int, weeks: int)
    ensures WeekdayOf(n + 7 * weeks) == WeekdayOf(n)
  {
    QuotientShift(n + 1, 7, weeks);
  }
}
