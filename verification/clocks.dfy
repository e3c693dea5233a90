/**
  What the clock on the wall says when a schedule occurs. Every occurrence has the
  hour, minute and second of the start and the day it was named for, exactly where
  the zone has that reading; and a period stays open for whole days by that clock.
 */
module Clocks {
  import opened Calendar
  import opened Schedules

  const MINUTE := 60 * SECOND
  const HOUR := 60 * MINUTE

  function HourOf(z: Zone, t: int): (h: int)
    ensures 0 <= h < 24
  {
    TimeOfDay(z, t) / HOUR
  }

  function MinuteOf(z: Zone, t: int): (m: int)
    ensures 0 <= m < 60
  {
    TimeOfDay(z, t) / MINUTE % 60
  }

  function SecondOf(z: Zone, t: int): (s: int)
    ensures 0 <= s < 60
  {
    TimeOfDay(z, t) / SECOND % 60
  }

  function FractionOf(z: Zone, t: int): (n: int)
    ensures 0 <= n < SECOND
  {
    TimeOfDay(z, t) % SECOND
  }

  /** The reading of the wall clock on a day at an hour, a minute and a second. */
  function Reading(day: int, hour: int, minute: int, second: int): int {
    day * DAY + hour * HOUR + minute * MINUTE + second * SECOND
  }

  /** Some instant has the reading: the clock is not set forward over it. */
  predicate ReadsBack(z: Zone, reading: int) {
    z.offset(reading - z.wallOffset(reading)) == z.wallOffset(reading)
  }

  /** The start's hour, minute and second on another day. */
  function StartOn(s: Schedule, day: int): int
    requires s.zone.Some?
  {
    var z := s.zone.value;
    Reading(day, HourOf(z, s.start), MinuteOf(z, s.start), SecondOf(z, s.start))
  }

  /** The local clock shows the day, and of the start the hour, minute and second, and no fraction. */
  predicate ShowsStartOn(s: Schedule, day: int, t: int)
    requires s.zone.Some?
  {
    var z := s.zone.value;
    && LocalDay(z, t) == day
    && HourOf(z, t) == HourOf(z, s.start) && MinuteOf(z, t) == MinuteOf(z, s.start) && SecondOf(z, t) == SecondOf(z, s.start)
    && FractionOf(z, t) == 0
  }

  lemma FieldsOfDay(tod: int)
    requires 0 <= tod < DAY
    ensures tod == tod / HOUR * HOUR + tod / MINUTE % 60 * MINUTE + tod / SECOND % 60 * SECOND + tod % SECOND
  {
    assert tod / SECOND / 60 == tod / MINUTE && tod / MINUTE / 60 == tod / HOUR;
  }

  lemma WallOf(z: Zone, t: int)
    ensures t + z.offset(t) == Reading(LocalDay(z, t), HourOf(z, t), MinuteOf(z, t), SecondOf(z, t)) + FractionOf(z, t)
  {
    FieldsOfDay(TimeOfDay(z, t));
  }

  /** Readings are told apart by their fields. */
  lemma ReadingIsOne(day: int, h: int, m: int, s: int, f: int, day': int, h': int, m': int, s': int, f': int)
    requires 0 <= h < 24 && 0 <= m < 60 && 0 <= s < 60 && 0 <= f < SECOND
    requires 0 <= h' < 24 && 0 <= m' < 60 && 0 <= s' < 60 && 0 <= f' < SECOND
    requires Reading(day, h, m, s) + f == Reading(day', h', m', s') + f'
    ensures day == day' && h == h' && m == m' && s == s' && f == f'
  {
    var hs, ms, ss := day * 24 + h, (day * 24 + h) * 60 + m, ((day * 24 + h) * 60 + m) * 60 + s;
    var hs', ms', ss' := day' * 24 + h', (day' * 24 + h') * 60 + m', ((day' * 24 + h') * 60 + m') * 60 + s';
    SameParts(SECOND, ss, f, ss', f');
    SameParts(60, ms, s, ms', s');
    SameParts(60, hs, m, hs', m');
    SameParts(24, day, h, day', h');
  }

  lemma SameParts(d: int, q: int, r: int, q': int, r': int)
    requires 0 <= r < d && 0 <= r' < d && d * q + r == d * q' + r'
    ensures q == q' && r == r'
  {
    QuotientUnique(d * q + r, d, q, r);
    QuotientUnique(d * q + r, d, q', r');
  }

  /** On the day it is named for an occurrence shows the start's clock exactly where the zone has that reading. */
  lemma AtShowsStart(s: Schedule, day: int)
    requires s.zone.Some?
    ensures ShowsStartOn(s, day, At(s, day)) <==> ReadsBack(s.zone.value, StartOn(s, day))
  {
    var z, t := s.zone.value, At(s, day);
    AtIsReading(s, day);
    WallOf(z, t);
    hide At, HourOf, MinuteOf, SecondOf, FractionOf, LocalDay, TimeOfDay;
    if ReadsBack(z, StartOn(s, day)) {
      ReadingIsOne(LocalDay(z, t), HourOf(z, t), MinuteOf(z, t), SecondOf(z, t), FractionOf(z, t),
                   day, HourOf(z, s.start), MinuteOf(z, s.start), SecondOf(z, s.start), 0);
    }
  }

  lemma AtIsReading(s: Schedule, day: int)
    requires s.zone.Some?
    ensures At(s, day) == StartOn(s, day) - s.zone.value.wallOffset(StartOn(s, day))
  {
    var tod := TimeOfDay(s.zone.value, s.start);
    FieldsOfDay(tod);
    assert tod / SECOND * SECOND == tod - tod % SECOND;
  }

  /** A start in whole seconds, on a reading the zone gives back, is the instant of its own day. */
  lemma StartIsItsOwn(s: Schedule)
    requires s.zone.Some?
    requires FractionOf(s.zone.value, s.start) == 0
    requires s.zone.value.wallOffset(s.start + s.zone.value.offset(s.start)) == s.zone.value.offset(s.start)
    ensures At(s, LocalDay(s.zone.value, s.start)) == s.start
  {
    AtIsReading(s, LocalDay(s.zone.value, s.start));
    WallOf(s.zone.value, s.start);
    hide At, HourOf, MinuteOf, SecondOf, FractionOf, LocalDay, TimeOfDay;
  }

  /** So the schedule begins with its start, when its rule or its list names that day. */
  lemma StartOccurs(s: Schedule)
    requires ValidSchedule(s) && NamesDay(s, LocalDay(s.zone.value, s.start))
    requires FractionOf(s.zone.value, s.start) == 0
    requires s.zone.value.wallOffset(s.start + s.zone.value.offset(s.start)) == s.zone.value.offset(s.start)
    ensures Occurs(s, s.start)
  {
    hide At, NamesDay, FractionOf, LocalDay;
    StartIsItsOwn(s);
  }

  /** t is on a day that the schedule names, with the start's clock wherever the zone has that reading. */
  ghost predicate OnTheClock(s: Schedule, t: int)
    requires s.zone.Some?
  {
    exists n :: NamesDay(s, n) && (ShowsStartOn(s, n, t) <==> ReadsBack(s.zone.value, StartOn(s, n)))
  }

  lemma OccursOnTheClock(s: Schedule, t: int)
    requires Occurs(s, t)
    ensures s.zone.Some? && s.start <= t && (s.end == 0 || t <= s.end) && OnTheClock(s, t)
  {
    hide At, NamesDay, ShowsStartOn, ReadsBack, StartOn;
    var n :| NamesDay(s, n) && At(s, n) == t;
    AtShowsStart(s, n);
  }

  // --------------------------------------------------- how long it is open

  /** t is what the clock that stood at start shows so many days later, to the nanosecond. */
  predicate DaysLater(z: Zone, start: int, days: int, t: int) {
    var reading := start + z.offset(start) + days * DAY;
    t + z.wallOffset(reading) == reading
  }

  /** The local clock shows the same time so many days on, exactly where the zone has that reading. */
  lemma DaysLaterShows(z: Zone, start: int, days: int, t: int)
    requires DaysLater(z, start, days, t)
    ensures LocalDay(z, t) == LocalDay(z, start) + days && TimeOfDay(z, t) == TimeOfDay(z, start)
      <==> ReadsBack(z, start + z.offset(start) + days * DAY)
  {
    var day, tod := LocalDay(z, start), TimeOfDay(z, start);
    var w := start + z.offset(start) + days * DAY;
    assert w == (day + days) * DAY + tod;
    if ReadsBack(z, w) { QuotientUnique(w, DAY, day + days, tod); }
  }

  lemma DateInIsDaysLater(z: Zone, start: int, days: int)
    ensures DaysLater(z, start, days, DateIn(z, LocalDay(z, start) + days, TimeOfDay(z, start)))
  {
  }
}
