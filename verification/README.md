# Verified models of the shared backend

A Dafny 4.11 project beside the Go repository `mwanachama-backend-shared`. It
models the parts of the repository whose correctness is hardest to see by
reading, in the form the Go code has (loops are methods with invariants, objects
with fields are classes, computed values are functions), and proves what those
parts are for. `dafny verify dfyconfig.toml` checks all of it.

## What is modelled

**Recurrence** (`recur`). `calendar.dfy` has the Gregorian calendar as day
numbers, `rules.dfy` what a rule means date by date and the loops that expand one
period of it, `schedules.dfy` which instants a schedule has, `walking.dfy` the
loop all queries share, with the jump ahead and the counter that gives up,
`queries.dfy` the three queries and `agreement.dfy` what they have to do with
each other. `exactness.dfy`, `daily.dfy`, `weekly.dfy`, `monthly.dfy` and
`starvation.dfy` say for which rules giving up after 4000 unproductive periods
loses nothing, and exactly when it loses something. `month_circle.dfy` has the
months as arcs of the calendar's cycle, `empty_runs.dfy` the counter by itself.
`clocks.dfy` says what the clock on the wall shows when a schedule occurs or a
period closes, `rule_meaning.dfy` what the lists of a rule name and what is
refused, in the calendar's own terms, `occurrences.dfy` which instants plain
schedules have. `rule_text.dfy` is the parser and the printer, `rule_spelling.dfy`
how the text may be spelt.

An instant is a number of nanoseconds since 0001-01-01T00:00:00Z, so that the
zero instant of Go is 0. A zone is the offsets it applies. `Schedules.Sound`
names the two things the library takes for granted: a zone's offsets fit in a
window narrower than a day, and a rule's weekdays are among the seven.

**Geometry** (`geo`). `geometry.dfy`: point in shape by ray casting, and the
bounding box, over exact reals. `shapes.dfy`: what boxes with holes, triangles
and lines hold, and any ring as the triangles it is made of.

**Schema migration** (`spec`, and `specstore` for runs). `tables.dfy` has tables
as state and the statements that change them, `migrations.dfy` what one migration
does to one table, as a function of the table it finds, `databases.dfy` the
database that runs the statements, over any history of specifications,
`histories.dfy` the same with rows written in between, `defaults.dfy` what a field
reads in a row that never gave it, `declared_rows.dfy` what a declaration asks of
rows, field by field and index by index, `added_fields.dfy` what is done for the
fields that are new to a table, `migration_runs.dfy` what can be counted on after
any number of runs, `test_copies.dfy` the copy of each table that test runs share,
`lost_constraints.dfy` when that copy lets through what the live table does not.

**Split storage** (`postgres`). `entities.dfy` says what each operation on one
table answers, `entity_lives.dfy` what becomes of an entity from one call to the
next, `entity_tables.dfy` is the backend with one table, `per_collection.dfy` the
one with a table for each collection and a registry of ids, `simulation.dfy` runs
both side by side.

**Dispatch** (`dispatch`). `operations.dfy` has the declared operations and their
validation, `routes.dfy` the merge of operations into routes, `serving.dfy` what
the merged routes serve, `gates.dfy` the division of routes at the gate. `names.dfy`
and `declarations.dfy` say what names and declarations are refused for, here and
among the settings.

**Settings** (`spec`). `settings.dfy` has the declared shapes, the layers and the
changes to them, `settings_store.dfy` the stored overrides and their log,
`replay.dfy` what replaying the log as it is read gives.

**Stored instants** (`specstore`). `timestamps.dfy`, on `text.dfy`.

`options.dfy` and `sorting.dfy` hold what several of these share.

## Where the code and its documentation differ

The model follows the code.

* A weekly rule ignores BYMONTHDAY (`recur/rule.go:299-315`); section 3.3.10 of
  RFC 5545 does not allow the two together.
* A schedule with no end can still answer nothing. A filter can leave more than
  4000 empty periods in a row (`Starvation.LeapMondaysMissed`, and by month alone
  `DailyExactness.FebruariesMissed` for every 487th day and
  `WeeklyExactness.FebruariesMissed` for every 647th week), and from about 303
  years after its start a daily or weekly rule answers nothing, because the
  difference of two instants saturates (`Starvation.FarAwayIsMissed`).
* A rule whose weekday is not one of the seven passes its validation
  (`recur/rule.go:133-164`) and prints as text that the parser refuses
  (`RuleText.RuleRoundTrip`). With position -1 the expansion of a month then
  indexes an empty list (`recur/rule.go:224-236`, `Rules.Period`), and by the week
  it stands for its remainder by 7 (`Rules.WeekdaysWrap`).
* An occurrence on the zero instant, which Go reads as no instant, can make two
  periods overlap (`Queries.ZeroMakesOverlap`).
* `spec/spec.go:50-54` says that every identifier is measured against the length
  Postgres keeps. The names of the unique indexes of a fresh test copy
  (`spec/migrate.go:203-217`) are not, so two long field names, or one and a
  declared index, can lose a constraint between them
  (`LostConstraints.HoldsRunsExactly`).
* The comment at `spec/migrate.go:100-102` gives a required column a default; a
  fresh required column has none (`spec/migrate.go:144-153`).
* `postgres/percollection_ddl.go:23-24` says that a table holds one type; types
  may share a collection, and here they do.
* The change table of the settings is declared to hold the changes in order
  (`spec/settings_store.go:49-52`); it is read by the time the caller gave and by
  a random id, so changes within one time may come back in another order
  (`SettingsStore.ReadAsAdded`) and replaying them may end elsewhere
  (`Replay.ReplaysAsRead`, `Replay.SameTimeMisleads`).
* An upsert under an id that another collection holds is refused by one table and
  made by the split (`PerCollection.AnswersDiffer`).
* `specstore/time_test.go:111-121` promises that stored instants sort as text;
  outside the years 0000 to 9999 some do not (`Timestamps.TextOrderIsTimeOrder`).

## Model

| member | source | states |
|---|---|---|
| Calendar.CivilRoundTrip | recur/rule.go:293-295 | a valid date is the date of its own day number, so dates and days are two names for one thing |
| Calendar.BeforeIsDayOrder | recur/rule.go:365-373 | comparing year, month and day is comparing day numbers |
| Calendar.LastDayIsMonthLength | recur/rule.go:209-211 | day 0 of the next month is the last day of this one, leap years included |
| Calendar.CycleShift | recur/rule.go:290-337 | month lengths, weekdays and leap years repeat after 400 years, which are 146097 days |
| RuleMeaning.MonthsAlternate | recur/rule.go:209-211 | months of 31 and 30 days alternate but for February, with July and August both long; February has 29 days by the Gregorian rule |
| RuleMeaning.WeekdaysFollow | recur/rule.go:226-231 | 1 January 2000 was a Saturday and every day is on the weekday after the day before it |
| Rules.WeekdayMatches | recur/rule.go:226-231 | a weekday falls four or five times in any month, seven days apart, and the loop finds all of them; a weekday outside the seven never falls |
| Rules.NthDays | recur/rule.go:224-240 | the first to fourth, last or every such weekday of a month; out of range exactly for the last of a weekday outside the seven |
| Rules.DaysInMonth | recur/rule.go:213-261 | exactly the days the rule names: BYMONTHDAY counted from either end (as `RuleMeaning.DaysFromTheEnd` has it), met with BYDAY, or the fallback; out of range exactly when it names the last of a weekday outside the seven |
| RuleMeaning.DaysFromTheEnd | recur/rule.go:213-223 | a month-day of -b is the day that lies b days before the first of the next month, so -1 is the last day, and a positive one the day of that number |
| RuleMeaning.ListsMeet | recur/rule.go:213-261 | with BYMONTHDAY and BYDAY both, a day must be on each list; with neither it is the first date's |
| RuleMeaning.DailyDates | recur/rule.go:293-298 | the k-th date of a daily rule lies k intervals of days after the first, if its month and the lists have it |
| RuleMeaning.WeeklyDates | recur/rule.go:299-315 | the k-th dates of a weekly rule lie in the week from the Monday k intervals of weeks after that of the first, on its weekdays or else the first's |
| RuleMeaning.MonthlyDates | recur/rule.go:316-322 | the k-th dates of a monthly rule lie in the month k intervals after the first's, if that is one of its months, on the days the lists name or else the first's |
| RuleMeaning.YearlyDates | recur/rule.go:323-334 | the k-th dates of a yearly rule lie in the year k intervals after the first's, in its months or else the first's, on the days the lists name or else the first's |
| RuleMeaning.PlainMonthlyDates | recur/rule.go:213-261 | a monthly rule without lists has the first date's day in each counted month, and none where the month is too short |
| RuleMeaning.PlainYearlyDates | recur/rule.go:323-334 | a yearly rule without lists has the first date's day and month in each counted year, 29 February in leap years only |
| RuleMeaning.PositionsCount | recur/rule.go:224-240 | position n is the day with n days of its weekday up to it in the month, -1 the one with none after it, none every one |
| RuleMeaning.PositionsAreSure | recur/rule.go:143-145 | the positions accepted are exactly those that every month has for every weekday |
| RuleMeaning.MonthDaysExist | recur/rule.go:150-154 | the month-days accepted are exactly those that some month has |
| RuleMeaning.ValidMeans | recur/rule.go:133-164 | what a rule is refused for: an interval below one, a position, day or month the calendar may not have, a position by day or week, days of the year without months |
| RuleMeaning.PlacesInWeek | recur/rule.go:361-363 | a weekday counts to its place after Monday, by truncated division |
| Rules.DayAllowed | recur/rule.go:275-288 | a day passes a daily rule's filters exactly when the rule selects it |
| Rules.Dedupe | recur/rule.go:375-383 | strictly ascending, and the same dates |
| Rules.SortDates | recur/rule.go:335 | in order of days, and the same dates as often |
| Rules.DailyPeriod | recur/rule.go:293-298 | the dates of the k-th day counted by the interval that the rule selects |
| Rules.WeeklyPeriod | recur/rule.go:299-315 | the dates of the k-th week that the rule's weekdays count to from its Monday, any number for a weekday included |
| Rules.ExpandedIsMeant | recur/rule.go:290-337 | for weekdays among the seven the dates expanded are the dates the rule means |
| Rules.WeekdaysWrap | recur/rule.go:361-363 | a weekly rule with a weekday from -6 on has the dates of the rule with its remainder by 7 |
| Rules.MonthlyPeriod | recur/rule.go:316-322 | the dates of the k-th month that the rule selects |
| Rules.YearlyPeriod | recur/rule.go:323-334 | the dates of the k-th year that the rule selects |
| Rules.Period | recur/rule.go:290-337 | for every validated rule the expansion is strictly sorted and is exactly the set of dates of that period, which the laws of `RuleMeaning` pin in calendar terms; it indexes out of range exactly when a month it expands names the last of its days on a weekday outside the seven |
| Rules.KnownStaysInRange | recur/rule.go:290-337 | with weekdays among the seven no expansion is out of range |
| Rules.PeriodsInOrder | recur/rule.go:290-337 | every date of a period precedes every date of a later one |
| Rules.PeriodsBetweenDistance | recur/rule.go:339-359 | the jump never passes the period that holds the instant, and reaches it within the longest span |
| Rules.SkippedPeriodsArePast | recur/schedule.go:97-103 | every date of a skipped period is two days or more before the query's local date |
| Schedules.AtAscends | recur/schedule.go:65-68 | a later date gives a later instant, whatever the zone does in between |
| Clocks.AtShowsStart | recur/schedule.go:65-68 | an occurrence shows on the local clock the day it is named for and the start's hour, minute and second, without fraction, exactly where the zone has that reading |
| Clocks.StartIsItsOwn | recur/schedule.go:65-68 | a start in whole seconds that its zone reads back is the instant of its own day |
| Clocks.StartOccurs | recur/schedule.go:65-72 | so the schedule begins with its start when the rule or the list names that day |
| Clocks.OccursOnTheClock | recur/schedule.go:65-72 | every occurrence is in range, on a named day, with the start's clock wherever the zone has that reading |
| Occurrences.DatesAreNamed | recur/schedule.go:78-93 | a list of dates names exactly those dates |
| Occurrences.RangeIsClosed | recur/schedule.go:70-72 | a named day occurs from the start to the end, both included, and for ever without an end |
| Occurrences.StridesAreNamed | recur/rule.go:293-315 | a plain daily or weekly rule names the start's day and every interval after it, and no day before |
| Occurrences.FixedStrides | recur/schedule.go:65-72 | where the clocks are never changed such a schedule occurs exactly at its start and every so many days after, up to its end |
| RuleMeaning.ScheduleMeans | recur/schedule.go:37-63 | what a schedule is refused for: no start, no zone, a rule and dates or neither, a date no calendar has, an end before the start, open days below none |
| Schedules.TwoDaysOff | recur/schedule.go:97-103 | two days off the local date is enough to be off the instant, which is the slack of the step back |
| Schedules.HeldInOrder | recur/schedule.go:104-119 | later periods hold later occurrences, so an occurrence is in one period only |
| Schedules.JumpLosesNothing | recur/schedule.go:94-103 | no period before the jump holds an occurrence at or after the query |
| Walking.VisitPeriod | recur/schedule.go:107-119 | of one period, exactly the occurrences in range are shown, in order, up to the one the visitor stops at |
| Walking.WalkRule | recur/schedule.go:93-125 | the loop ends for every rule, endless ones too, and shows exactly what can be reached before it gives up |
| Walking.WalkDates | recur/schedule.go:78-93 | a list of dates is shown in order, once each |
| Walking.Walk | recur/schedule.go:74-126 | every walk shows, strictly ascending, exactly the reachable occurrences below the visitor's limit and the first above it |
| Queries.Next | recur/schedule.go:128-138 | the least reachable occurrence after the instant, with the start's clock on its local day, or none when there is none |
| Queries.Between | recur/schedule.go:140-150 | exactly the reachable occurrences from one instant up to another, ascending, each with the start's clock on its local day |
| Queries.PeriodAt | recur/schedule.go:152-177 | from the last occurrence up to the instant to the next one or the end, or to when the local clock shows the start again after the open days, if that is sooner |
| Queries.FirstExists | recur/schedule.go:128-138 | if anything can be reached there is a first, so an answer of none means that there is nothing |
| Queries.PeriodIsBetween | recur/schedule.go:152-168 | a period starts with the last occurrence reached up to the instant and ends with the first after it, or with the schedule where none follows |
| Queries.PeriodsDisjoint | recur/schedule.go:152-177 | two periods start together or the earlier ends by the start of the later, unless an occurrence falls on the zero instant between two others |
| Queries.ZeroMakesOverlap | recur/schedule.go:152-177 | and then two periods do overlap |
| Queries.PeriodHoldsInstant | recur/schedule.go:152-177 | the instant asked about lies in its period, unless the schedule has ended |
| Agreement.WalksMeet | recur/schedule.go:93-125 | two walks that both reach an occurrence reach the same ones from there on, wherever they started |
| Agreement.PeriodAgreesWithNext | recur/schedule.go:128-168 | when the start of a period is reached from itself, the period ends at what Next answers for it |
| Agreement.AgreesExactly | recur/schedule.go:128-168 | the two answers agree exactly when the start is reached from itself or nothing follows; otherwise Next answers none |
| Agreement.StarvedFromItself | recur/schedule.go:128-138 | an occurrence that is not reached from itself leaves Next nothing to answer |
| Agreement.ReachesItself | recur/schedule.go:93-125 | within the longest span, and in a list of dates, every occurrence is reached from itself |
| Queries.OpenDaysOnlyShorten | recur/schedule.go:169-175 | without open days a period runs in full; with them it ends by the time they are over and no later than it would, and never before it starts |
| Queries.OpenDaysKeepOccurrences | recur/schedule.go:74-138 | what occurs and what is reached do not depend on the open days |
| Clocks.DaysLaterShows | recur/schedule.go:169-175 | a period closes that many local days after its start and at the same time of day, exactly where the zone has that reading |
| EmptyRuns.CountsOn | recur/schedule.go:104-125 | the counter is the length of the run of unproductive periods just walked |
| Exactness.PeriodShift | recur/rule.go:290-337 | a date of one period has a twin in every period a whole number of 400-year cycles away |
| Exactness.RecurringIsExact | recur/schedule.go:104-125 | a rule that comes back within 4000 periods is never starved: what can be reached is everything |
| Exactness.YearlyIsExact | recur/schedule.go:104-125 | for every yearly rule giving up loses nothing, from any instant |
| MonthCircle.MonthArc | recur/rule.go:299-315 | every month holds a fixed arc of the 400-year circle of days, whatever the year |
| MonthCircle.MovesExist | recur/rule.go:290-337 | steps that stay clear of whole turns can be put together to a short move forward and a short move back, of so many steps in all |
| MonthCircle.MonthComesBack | recur/rule.go:290-337 | going back by equal steps that stay clear of whole turns comes to every month within so many steps, from any day |
| DailyExactness.DailyIsExact | recur/schedule.go:104-125 | within the longest span giving up loses nothing for a daily rule without days of the month that keeps to no months, or of up to 486 days (81 with weekdays), or clear of whole turns |
| DailyExactness.FebruariesMissed | recur/schedule.go:104-125 | at 487 days a rule for February occurs and a walk from its own start reaches nothing |
| WeeklyExactness.SmallIntervalsSpread | recur/rule.go:299-315 | every interval up to 646 weeks stays clear of whole turns |
| WeeklyExactness.WeeklyIsExact | recur/schedule.go:104-125 | within the longest span giving up loses nothing for a weekly rule without months, of up to 646 weeks, clear of whole turns, or of a multiple of 9 or 773 weeks |
| WeeklyExactness.FebruariesMissed | recur/schedule.go:104-125 | at 647 weeks a rule for February occurs and a walk from its own start reaches nothing |
| MonthlyExactness.MonthlyRecurs | recur/rule.go:316-322 | a date of a monthly rule has another within the 3984 periods before any later period, for every interval |
| MonthlyExactness.MonthlyIsExact | recur/schedule.go:104-125 | for every monthly rule and every interval giving up loses nothing, from any instant |
| Starvation.GapDecides | recur/schedule.go:104-125 | an occurrence is reached exactly when fewer than 4000 unproductive periods lie between it and the last one reached |
| Starvation.MissedForGood | recur/schedule.go:104-125 | what lies beyond such a gap is missed, and everything after it |
| Starvation.LeapMondaysMissed | recur/schedule.go:104-125 | a daily rule for Mondays on 29 February has an occurrence that a walk from its own start never reaches |
| Starvation.PlainDailyMissed | recur/rule.go:344-345 | a daily rule with no filter misses its occurrences exactly when the last day it tries is still before the query |
| Starvation.NoGapMissed | recur/schedule.go:97-125 | a rule with a date in every period misses what follows a query exactly when the 4000th period from the jump is still before it |
| Starvation.PlainWeeklyMissed | recur/rule.go:346-349 | a weekly rule without months misses what follows a query exactly when the last week it tries is still before it |
| Starvation.FarAwayIsMissed | recur/rule.go:344-349 | beyond the longest span and 4000 intervals a daily or weekly rule answers nothing, whatever its filters |
| RuleText.ParseInts | recur/rule.go:98-108 | the loop reads every number of a list, or refuses the list for one that is none |
| RuleText.ParseByDay | recur/rule.go:110-131 | the loop reads every weekday with its position, or refuses |
| RuleText.ParseRule | recur/rule.go:51-96 | the loop computes the parse that the round trip is about, with each refusal |
| RuleText.String | recur/rule.go:166-193 | the loop computes the text that the round trip is about |
| RuleText.RuleRoundTrip | recur/rule.go:51-193 | printing and parsing a valid rule gives it back exactly when its weekdays are among the seven, and fails to parse otherwise |
| RuleText.CanonicalText | recur/rule.go:51-193 | whatever text was parsed, its printed form parses to the same rule |
| RuleSpelling.SpacesAreNothing | recur/rule.go:51-52 | spaces before and after a rule change nothing of what it parses to |
| RuleSpelling.PrefixIsNothing | recur/rule.go:51-52 | neither does the name of the property before it, once |
| RuleSpelling.CaseIsNothing | recur/rule.go:51-96 | neither does the case of its letters, in keys and values alike |
| RuleSpelling.TakenParts | recur/rule.go:55-64 | a part is taken only with a key, new in the rule, and a value, and refused otherwise |
| RuleSpelling.NumbersRead | recur/rule.go:98-108 | a number is digits after a sign or none, within 64 bits |
| RuleSpelling.OthersRefused | recur/rule.go:98-108 | and any other text is none |
| RuleSpelling.KnownFrequencies | recur/rule.go:133-139 | the four frequencies are known by their words, and with any other word a rule is refused |
| RuleSpelling.AssignedField | recur/rule.go:65-87 | the six keys that are known, and that each changes its own field and no other |
| RuleSpelling.WeeksBeginOnMonday | recur/rule.go:80-83 | a week that begins on Monday may be said, and changes nothing |
| RuleSpelling.CodesBeginNames | recur/rule.go:41-49 | a weekday's code is the first two letters of its name, and no other text is |
| RuleSpelling.ElaborateText | recur/rule.go:166-193 | a rule with something in every field, as written out and as read |
| RuleSpelling.FrequencyText | recur/rule.go:12-17 | each frequency alone, as written out and as read |
| Geometry.RingContains | geo/measure.go:89-104 | the toggling loop computes the parity that the laws are about |
| Geometry.DirectionIsIrrelevant | geo/measure.go:89-104 | a ring holds the same points read in either direction |
| Geometry.StartIsIrrelevant | geo/measure.go:89-104 | a closed ring holds the same points whichever vertex it starts at |
| Geometry.RayIsIrrelevant | geo/measure.go:93-103 | off a closed ring a ray to the west gives the same answer as the ray to the east |
| Geometry.SameOutlineSamePoints | geo/measure.go:89-113 | redrawing a ring changes neither what it holds nor what lies on it |
| Geometry.PolygonContains | geo/measure.go:77-87 | a point is in the outer ring and strictly inside no hole, which `Shapes.HolesAreOut` spells out for boxes |
| Geometry.RedrawnPolygon | geo/measure.go:77-87 | redrawing any ring of a polygon, holes too, changes none of its points |
| Geometry.Contains | geo/measure.go:55-71 | a point of the shape, by its kind, as the laws of `Shapes` spell out for points, lines, boxes with holes and triangles |
| Geometry.BoundingBox | geo/measure.go:28-53 | the smallest box that holds the outline: every side touches a vertex |
| Geometry.RingOutside | geo/measure.go:89-122 | outside a box that holds a ring the crossings are even, so the ring holds no such point |
| Geometry.OutsideTheBox | geo/measure.go:28-71 | a point outside the bounding box is in no shape of any kind |
| Geometry.BoxRingIsBox | geo/measure.go:16-18 | the ring round a box holds exactly what the box holds, edges and corners included |
| Shapes.HolesAreOut | geo/measure.go:77-87 | a box with any number of boxes for holes holds what the box holds, sides included, less the inside of each hole |
| Shapes.HoledShapes | geo/measure.go:55-71 | the same of polygons and of several polygons as one shape |
| Shapes.TriangleHolds | geo/measure.go:89-122 | a triangle holds what is on an edge and what is on the inner side of all three |
| Shapes.TriangleBySides | geo/measure.go:93-103 | off the edges the ray and the three sides say the same |
| Shapes.RingBySides | geo/measure.go:89-104 | any ring holds the points that are in an odd number of the triangles from its first vertex to its edges |
| Shapes.LineHolds | geo/measure.go:55-61 | a point holds itself, and a line what is on an edge of it, to 1e-12 of twice the area |
| Shapes.BoundsOfBoxes | geo/measure.go:28-53 | the bounding box of polygons with holes is in every box that holds their outlines, whatever the holes |
| Tables.ExecGrows | spec/alter.go:113-120 | a statement that is not refused loses nothing, and leaves the key, the constraints and the indexes met |
| Tables.ExecAllGrows | spec/alter.go:113-120 | the same of a transaction |
| Tables.CopyRefusedOnlyForNullKeys | spec/relax.go:111-152 | the SQLite copy of a table goes through exactly when no row has a NULL in its key |
| Tables.CopiedGrows | spec/relax.go:111-152 | the copy keeps columns, key, constraints, indexes and rows |
| Migrations.CreatedIsSound | spec/migrate.go:74-95 | a created table has distinct columns and a key among them, in the live form and in the copy |
| Migrations.AddedColumnFits | spec/alter.go:76-100 | an added column is never refused for the rows that are there |
| Migrations.UniqueFieldFits | spec/alter.go:51-72 | a unique field can be added exactly when its column starts out NULL or no run has two rows |
| Migrations.MigratedGrows | spec/migrate.go:28-41 | a table migrated, or left part way by a failure, has lost nothing, and added columns read their default, which `Defaults.HeldRowsReadDeclared` ties to the declared field |
| Defaults.HeldRowsReadDeclared | spec/alter.go:76-100 | after a migration that goes through every held row reads in an added field its declared default, or no value where there is none and that is meant, or the zero, false or empty text of its type |
| Defaults.FreshRowsReadDeclared | spec/migrate.go:144-161 | a write to a fresh table that leaves a field out stores the same, but NULL where the field is required |
| DeclaredRows.RowsMeetDeclared | spec/migrate.go:74-95 | rows meet a live table's constraints exactly when every two differ in the key, in each unique field, and in what each unique index that is about both names |
| DeclaredRows.NullsRefused | spec/migrate.go:97-111 | a row is refused for a NULL exactly in a required or key field, or in the run of a test row |
| DeclaredRows.ColumnTypes | spec/migrate.go:113-142 | the column types, and that the dialects part only on bytes and documents |
| DeclaredRows.TableRefused | spec/migrate.go:74-95 | a table is made exactly when no two fields have one name, none of a copy the run's, and there is a key |
| DeclaredRows.CopyStandsApart | spec/migrate.go:63-72 | the live table has the object's name and its copy another |
| AddedFields.RefusedForName | spec/alter.go:51-72 | a held table is refused new fields exactly for a unique one whose index would have more than 63 characters |
| AddedFields.MigratedIndexes | spec/alter.go:44-74 | after a migration that goes through a held table has the indexes it had, those of its new unique fields and the declared ones, and no other |
| AddedFields.AddedUniqueAsks | spec/alter.go:51-72 | and then no two rows of a run share a new unique field, unless an index had its name already |
| Migrations.RelaxUnblocks | spec/relax.go:33-58 | after relaxing, no undeclared column outside the key refuses a row without it |
| Migrations.RelaxesOrphansOnly | spec/relax.go:33-82 | relaxing lets go of NOT NULL exactly in the columns outside the key that have no default and are not declared, and changes nothing else of a column |
| Migrations.RelaxSucceeds | spec/relax.go:33-155 | relaxing fails exactly on SQLite, with something to relax, when the copy's name is taken or a key holds NULL |
| Migrations.RebuildIsRelax | spec/relax.go:92-155 | where key columns refuse NULL, the SQLite rebuild and the Postgres statement end in the same table |
| Migrations.MigratedSettles | spec/migrate.go:28-41 | a migration that goes through stores every declared field outside the key, unblocks every orphan and has every index |
| Migrations.SettledStays | spec/migrate.go:28-41 | a settled table is migrated to itself, even one that lacks a declared key column |
| Migrations.WriteNotRefused | spec/relax.go:33-64 | after a migration a write that names the declared fields and the key is refused for a NULL exactly when it gives one itself to a column that takes none |
| Databases.HistoryGrows | spec/migrate.go:10-26 | across every sequence of specifications, finished or failed, no table, column, row, value, constraint or index is lost |
| MigrationRuns.NothingIsLost | spec/migrate.go:10-26 | the same spelt out: columns in their places with type and default, rows in theirs with their values, and no rows admitted that were not before |
| MigrationRuns.LastIsInForce | spec/migrate.go:10-26 | after any history the specification of the last run, if that went through, is in force |
| MigrationRuns.TablesAreThere | spec/migrate.go:10-26 | after a run that finishes every object has its table and its copy, and the settings have their tables |
| Histories.EventsContinue | spec/migrate.go:10-26 | the same with rows written between the migrations: what the constraints took stays, in order |
| Databases.JobsSettle | spec/migrate.go:10-26 | after a run that finishes, every table of the specification is settled, whatever was there before |
| Databases.MigrateTwice | spec/migrate.go:10-26 | a second migration changes nothing at all and succeeds |
| Databases.DeclareTable | spec/migrate.go:77-92 | the loop builds the columns, key and unique constraints of a fresh table |
| Databases.Redeclare | spec/relax.go:111-136 | the loop rebuilds the key in its own order from the ordinals that SQLite reports |
| Databases.Database.CreateTable | spec/migrate.go:74-95 | makes the declared table, or leaves the one of that name alone |
| Databases.Database.Transact | spec/alter.go:113-120 | all statements or none |
| Databases.Database.AlterObject | spec/alter.go:44-74 | the statements for the missing columns, the missing key columns, and the refusal of a long index name |
| Databases.Database.BlockingColumns | spec/relax.go:60-82 | the columns that refuse a row without them, in place |
| Databases.Database.RelaxOrphans | spec/relax.go:33-58 | only the undeclared ones of those are relaxed, by dialect |
| Databases.Database.RebuildNullable | spec/relax.go:92-155 | step by step through the scratch table, the table ends as its copy or the database is as it was |
| Databases.Database.RecreateIndexes | spec/relax.go:147-152 | every index of the copied table is there again, and none of them can be refused |
| Databases.Database.EvolveTable | spec/alter.go:102-126 | the additions in one transaction, then the relaxing |
| Databases.Database.ExecuteEach | spec/migrate.go:35-39 | statements outside a transaction stand up to the one that is refused |
| Databases.Database.MigrateTable | spec/migrate.go:28-41 | create, evolve, index: the table ends as the model of one migration says, with the declared defaults (`Defaults.HeldRowsReadDeclared`), and no other table changes |
| Databases.Database.Migrate | spec/migrate.go:10-26 | every table in order up to the first failure, every table sound and grown, whether it finished or not |
| TestCopies.FreshShape | spec/migrate.go:163-213 | a valid object's first migration goes through, and the table holds the first index made under each name |
| TestCopies.RunsStandAlone | spec/migrate.go:163-213 | where the copy has every unique index, rows meet its constraints exactly when each run's rows alone meet the live table's |
| TestCopies.FittingNamesKept | spec/validate.go:36-93 | for a valid object index names are all different where those of its unique fields are not cut, on SQLite always and in the live table always |
| TestCopies.LongNameTakesIndex | spec/migrate.go:203-217 | a unique field whose name is long enough takes the name of a declared index on Postgres |
| TestCopies.LongNamesMerge | spec/migrate.go:203-217 | unique fields that agree for long enough get one index name on Postgres |
| LostConstraints.HoldsRunsExactly | spec/migrate.go:163-217 | the copy holds every run to the live table's constraints, for all rows, exactly when each unique constraint it lost covers no row or follows from one it has |
| LostConstraints.HoldsRunsForFields | spec/migrate.go:163-217 | where declared unique indexes are kept: exactly when each unique field has its index or an unconditional one declared on it alone |
| TestCopies.RunRemoved | specstore/run.go:37-53 | removing a run takes all its rows and leaves every other run the rows it had, in order |
| TestCopies.RemovalKeepsSound | specstore/run.go:37-53 | what is left still meets every constraint |
| TestCopies.RemoveRun | specstore/run.go:37-53 | a run must have an id; its rows leave the copies of the objects, nothing else changes, and they are counted |
| TestCopies.RunCounted | specstore/run.go:37-53 | what is counted is what the copies hold less than before |
| Entities.ListingIsOne | postgres/entities.go:127-131 | a table has one listing for a filter, since creation time and id leave no order open |
| Entities.StepKeepsValid | postgres/entities.go:26-189 | every operation keeps ids their own and no two live rows of a type with one key |
| Entities.StepIsOne | postgres/entities.go:26-189 | an operation has one answer and one effect |
| EntityLives.DeletedIsGone | postgres/entities.go:98-113 | a delete that is answered leaves an entity that get, update and delete do not find and no listing holds, its properties kept; one that is not answered changes nothing |
| EntityLives.GoneForGood | postgres/entities.go:26-189 | what is gone stays so through any run of calls |
| EntityLives.KeyIsFree | postgres/entities.go:150-189 | the key of a deleted entity is free: an upsert with it makes a new one |
| EntityLives.CreatedIsRead | postgres/entities.go:26-72 | what is created is read back as given, and listed exactly where its type and its document fit |
| EntityLives.UpdatedIsRead | postgres/entities.go:74-96 | after an update the entity reads the patch where that names a property, and itself elsewhere |
| EntityLives.UpsertedIsRead | postgres/entities.go:150-189 | an upsert leaves one live entity with its key, which reads what was given, and a second merges into the same |
| EntityLives.KeysAgree | postgres/entities.go:165-172 | two documents have one key exactly when they agree on every key field, a missing one being null |
| EntityLives.OthersAreLeft | postgres/entities.go:26-189 | no call touches another row, and none loses one |
| EntityLives.Refused | postgres/entities.go:26-189 | what each call is refused for, and that one that is refused changes nothing |
| EntityTables.SortedLists | postgres/percollection.go:284-291 | rows collected in any order and sorted by time and id are the listing |
| EntityTables.Select | postgres/entities.go:127-146 | the query gives the live rows that match, each once, in order |
| EntityTables.Backend.CreateEntity | postgres/entities.go:26-59 | the new row, or a refusal when the id is taken |
| EntityTables.Backend.GetEntity | postgres/entities.go:62-72 | the live row, or not found |
| EntityTables.Backend.UpdateEntity | postgres/entities.go:77-93 | named properties are set and the others stay |
| EntityTables.Backend.DeleteEntity | postgres/entities.go:98-113 | marks the live row deleted, which leaves it gone (`EntityLives.DeletedIsGone`), or not found |
| EntityTables.Backend.UpsertEntity | postgres/entities.go:153-189 | merges into the live row with that type and key, or inserts |
| EntityTables.Backend.ListEntities | postgres/entities.go:118-147 | the table's listing |
| PerCollection.DistinctCollections | postgres/percollection_ddl.go:103-114 | every collection once |
| PerCollection.NewPerCollectionBackend | postgres/percollection.go:61-93 | refused exactly when the registry has no name or a type says no collection; otherwise empty, with registry and tables in step |
| PerCollection.PerCollectionBackend.ResolveTable | postgres/percollection.go:98-113 | the registry names the table that holds the id, or the id is in none |
| PerCollection.PerCollectionBackend.CreateEntity | postgres/percollection.go:118-168 | answers and changes the whole as one table would, and keeps registry and tables in step; a type without a table is refused |
| PerCollection.PerCollectionBackend.GetEntity | postgres/percollection.go:171-185 | answers as one table would |
| PerCollection.PerCollectionBackend.UpdateEntity | postgres/percollection.go:188-208 | answers and changes the whole as one table would |
| PerCollection.PerCollectionBackend.DeleteEntity | postgres/percollection.go:214-233 | answers and changes the whole as one table would, so that the entity is gone (`EntityLives.DeletedIsGone`) |
| PerCollection.PerCollectionBackend.UpsertEntity | postgres/percollection.go:299-358 | answers and changes the whole as one table would exactly when the row is merged or its id is in no other collection; otherwise makes a row no answer of one table is like, outside the registry |
| PerCollection.PerCollectionBackend.ListEntities | postgres/percollection.go:240-293 | the listing of the whole, merged from the tables in the order of one table |
| PerCollection.ConflictIsLocal | postgres/percollection.go:333-339 | a row in the way of an upsert is in the table of its type and nowhere else |
| PerCollection.UpsertedWhole | postgres/percollection.go:327-352 | merging in the table of the type and registering the id it ended under is merging in the whole |
| PerCollection.CollisionUnseen | postgres/percollection.go:327-352 | an id held by another collection is taken in the whole and free in the table the split looks at |
| PerCollection.SeenExactly | postgres/percollection.go:327-352 | the table's answer is an answer of the whole exactly when the row is merged or its id is in no other collection |
| PerCollection.AnswersDiffer | postgres/percollection.go:327-352 | a store where one table refuses an upsert and the split makes the row |
| Simulation.SameAnswers | postgres/percollection.go:118-358 | from empty stores, both backends answer every run of operations of known types with random ids alike |
| Operations.CheckAlternatives | dispatch/alternatives.go:17-52 | clear exactly when selectors differ at each address and each selected address has a dispatched default |
| Operations.Validate | dispatch/spec.go:99-193 | no problem exactly when names, verbs, paths, calls and actions are well formed, actions are unique and no two operations answer one request |
| Names.ActionsAreNames | dispatch/spec.go:33-35 | an action is three usable names or more with dots between |
| Names.NamesOfOperations | dispatch/spec.go:35 | names of operations and selectors are small letters, digits and underscores after a letter |
| Declarations.DeclaredOperation | dispatch/spec.go:108-160 | one operation is well declared exactly with a usable name, one of five verbs, a path from the root, a call or the module's own handling but not both, an action, and a selector only if it is called |
| Declarations.ValidDeclaration | dispatch/spec.go:99-193 | a declaration is valid exactly when it has operations, each well declared, no two under one action or for the same verb, path and selector, and each selected one has one beside it for the other requests |
| Declarations.EachVerbServes | dispatch/spec.go:28-31 | with each of the five verbs a declaration is valid |
| Routes.Handle | dispatch/alternatives.go:66-79 | the loop of the merged handler runs the operation that the model says is served |
| Routes.SplitGroup | dispatch/alternatives.go:107-115 | a group is its default and the others in order |
| Routes.GroupByAddress | dispatch/alternatives.go:90-94 | every operation is in the group of its address, in order |
| Routes.MergeAlternatives | dispatch/alternatives.go:89-126 | the loop computes the merge that the laws are about |
| Routes.DispatchedIsSound | dispatch/dispatch.go:67-95 | a valid declaration gives operations of which every address has one default and distinct selectors |
| Serving.MergedAre | dispatch/alternatives.go:95-124 | the merge gives one route for each address, in the order they first appear |
| Serving.OneRoutePerAddress | dispatch/alternatives.go:89-126 | no two routes share an address, every operation has its route, and every route is some operation's |
| Serving.RequestIsAnswered | dispatch/alternatives.go:66-79 | a request runs the operation with the least selector present, or else the default |
| Serving.FirstValueSelects | dispatch/alternatives.go:66-79 | a selector is present exactly when the first value of its parameter is not empty |
| Serving.EveryOperationReached | dispatch/alternatives.go:66-126 | every operation that is dispatched is run by some request |
| Gates.Anonymous | dispatch/gate.go:10-25 | the loop sends each route to the half that its actions decide |
| Gates.AllAllowed | dispatch/gate.go:27-34 | true exactly when every action is on the list |
| Gates.HalvesPartition | dispatch/gate.go:10-25 | the halves together are the routes, each as often |
| Gates.OpenHalf | dispatch/gate.go:10-34 | the open half is exactly the routes that have an action and whose every action is on the list |
| Gates.OpenIsEveryAnswer | dispatch/gate.go:10-34 | a route is open exactly when every operation that some request to it runs is on the allowlist |
| Gates.DispatchedOperations | dispatch/dispatch.go:67-92 | exactly the operations that are not handled by the module |
| Gates.MountSplit | dispatch/mount.go:60-64 | the open half is built without an authorizer, the gated half with it |
| Gates.NothingSlipsThrough | dispatch/mount.go:60-64 | no request runs an operation unasked unless its action is on the allowlist |
| Gates.OneHalfEach | dispatch/mount.go:60-64 | each operation has its route in exactly one half |
| Settings.SettingsProblems | spec/settings.go:59-94 | no problem exactly when every setting is well declared, with a default that fits, and names are distinct |
| Declarations.DeclaredSetting | spec/settings.go:59-94 | one setting is well declared exactly with a usable name, a type it can hold, a description that is not blank, values if and only if it picks from them, and a default of its kind |
| Settings.ResolveFits | spec/settings.go:171-183 | for a valid declaration a declared setting always resolves to a value that fits, from the strongest layer whose value does |
| Settings.ResolveAll | spec/settings.go:185-192 | every declared setting in order |
| Settings.ResolvedKind | spec/settings.go:96-131 | a resolved value is of the setting's kind, an enum's one of its texts; it is the override exactly when there is one of the kind, and else the definition's when there is |
| Settings.SetResolves | spec/settings_change.go:20-57 | a value of the kind that is set by someone at some time is what resolves then, and no other setting resolves otherwise |
| Settings.ClearResolves | spec/settings_change.go:20-57 | what is cleared resolves as if it had never been set |
| Names.SettingNamesAreWords | spec/spec.go:34 | a setting's name is words of small letters and digits between single underscores, and begins with a letter |
| SettingsStore.RunsAgree | spec/settings_change.go:20-57 | after any sets and clears, under any declarations, replaying the log gives the overrides, and each entry starts where the last for its name ended |
| SettingsStore.OverridesAreStorable | spec/settings_store.go:193-219 | after any sets and clears every override can be written as JSON |
| SettingsStore.ReadAsAdded | spec/settings_store.go:270-291 | the log is read in the order it was written exactly when times, and ids within a time, ascend |
| Replay.ReplaysAsRead | spec/settings_store.go:270-291 | replaying the log as read rebuilds the overrides exactly when, for every setting, the entry of greatest time and id left what the one added last did |
| Replay.SameTimeMisleads | spec/settings_store.go:270-291 | of two changes of one setting in one time, replaying gives the older value exactly when their ids are in the wrong order |
| SettingsStore.CheckSettings | spec/settings.go:147-165 | no problem exactly when every value is of a declared setting and fits |
| SettingsStore.StorableMeans | spec/settings_store.go:84-137 | a definition can be stored exactly when each value is of a declared setting, of its kind and finite |
| SettingsStore.StoredResolves | spec/settings.go:171-183 | and then each value is what its setting resolves to where nothing overrides it |
| SettingsStore.Store.PutDefinitionSettings | spec/settings_store.go:114-137 | the definition becomes exactly the values, or stays as it was, the second exactly when a value is undeclared, unfit or not storable |
| SettingsStore.Store.LoadSettingLayers | spec/settings_store.go:146-175 | what was stored, in both layers |
| SettingsStore.Store.RecordChange | spec/settings_store.go:242-259 | one entry more, or nothing when its id is taken |
| SettingsStore.Store.StoreOverride | spec/settings_store.go:193-219 | override and log entry both, or neither, and the log keeps retelling the overrides |
| SettingsStore.Store.StoreClearOverride | spec/settings_store.go:221-240 | the same of a clear, and nothing is logged when there was nothing to clear |
| SettingsStore.Store.SettingChanges | spec/settings_store.go:270-291 | the log by time and id |
| Timestamps.TextOrder | specstore/store.go:285 | how any two stored instants compare as text: in one year by time, in two by how the years are written |
| Timestamps.TextOrderIsTimeOrder | specstore/store.go:285 | the order of the text is the order of time exactly when the years are written in their order, as by equally many digits without sign |
| Timestamps.FourDigitsKeepOrder | specstore/store.go:335-346 | in the years 0000 to 9999 stored instants compare as text as they do in time |
| Timestamps.FormatRoundTrip | specstore/store.go:503-514 | a stored instant reads back to the nanosecond |
| Timestamps.FixedPlaces | specstore/store.go:335-346 | in those years the text has thirty characters, with every field in its place from the year to the nanosecond |
| Timestamps.ReadIsFormatted | specstore/store.go:503-514 | by the layout that is written a text reads as an instant exactly when it is the one written for it |
| Timestamps.OrderBreaksAfter9999 | specstore/store.go:285 | the first instant of 10000 sorts before the last of 9999 |

## Left out

- WeeklyExactness.WeeklyIsExact: says nothing of rules by month whose interval of 647 weeks or more comes near whole turns; `Starvation.GapDecides` is the exact condition for them as for every rule.
- DailyExactness.DailyIsExact: the same of 487 days or more, and of rules that name days of the month, which can be starved at an interval of one day (`Starvation.LeapMondaysMissed`).
- RuleText.RuleRoundTrip: upper case is modelled for ASCII letters and the two other characters whose upper case is one, and texts are measured in characters, not bytes.
- Timestamps.ReadIsFormatted: the layout that is written; the other layouts that reading accepts, and what Go's reader forgives in this one, are not modelled.
- Simulation.SameAnswers: types that have a table, since the split refuses the others, and ids that are random; what a repeated id does is in the contract of the upsert.
- PerCollection.NewPerCollectionBackend: the tables of relationships, which no operation here uses.
- EntityTables.Backend.CreateEntity: the relationships that a request may carry, inserted in the same transaction; the same in `PerCollection.PerCollectionBackend.CreateEntity`.
- PerCollection.PerCollectionBackend.CreateEntity: the relationships that a request may carry.
- LostConstraints.HoldsRunsExactly: unique indexes that look inside a document, for which `TestCopies.RunsStandAlone` gives the condition one way; rows are values of any kind, not of their columns' types.
- Operations.Validate: tool names, arguments and once-only returns, which the source refuses as well.
- Declarations.ValidDeclaration: the same.
- Databases.Database.Migrate: the refusal of a default that does not read as its type, before any table is touched, and the recording of table names after the last.
- Migrations.WriteNotRefused: refusals for a NULL only; an undeclared unique column with a default can still refuse a write.
- Databases.JobsSettle: needs the tables of a specification to have different names, as its validation claims them.
- Zones whose offsets differ by a day or more, as where a place crosses the date line, and dates whose arithmetic leaves 64 bits or Go's range of years.
- Rounding of floating point in geometry, distances on the sphere, and rounding for the public.
- SQL text, drivers and sessions; foreign keys, CHECK constraints, collations and generated columns, which the SQLite rebuild does not carry over.
- Index names are unique within a table here and within a database in fact; physical names are taken as the database keeps them, except where unique indexes are named.
- `create index if not exists` looks for the name first, as SQLite does; Postgres looks for the columns first.
- The registry of table names, the renaming of legacy columns, and plans made without a database.
- The schema manager, relationships between entities, and containment inside documents, which is any test of the properties here.
- The binding of requests to calls; what a handler answers once it runs.
- The setting values that Go carries in several number types, and the precision that a whole number loses as a JSON number.
- The listing of a run's rows by table, which only counts them.
