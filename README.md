# Tutor availability: week windows, weekly grid and the availability store

This project models the availability core of a tutoring back end, which
has two parts.

- **Week window and grid** (`helpers/dateTimeHelp.js`):
  - `getStartOfWeek` maps an instant to the Monday 00:00:00 of its
    Monday-to-Sunday week.
  - `getEndOfWeek` maps it to the Sunday 23:59:59 of that week.
  - `structureAvailability` folds a list of slot instants into a weekly
    grid. Each slot is seen in the viewer's wall-clock time, which is the
    instant moved back by `tz` minutes. Slots are grouped by their
    zero-padded `"HHMM"` key, in the order the keys first occur. In each
    row, the field of a slot's day of the week is set to `"available"`.
- **The availability store** (`models/availability.js`):
  - `add` refuses a duplicate `(tutor, time)` pair and otherwise stores
    it.
  - `remove` refuses an absent pair and otherwise deletes it.
  - `getAllAvailableTutors` lists the profiles of the tutors that have a
    slot at an instant and no lesson at that instant.
  - `getTutorOneWeek` selects one tutor's slots in a storage-time week
    window and structures them into the grid.

Modules:

- `Calendar` (calendar.dfy): instants are whole seconds since the Unix
  epoch, and the host zone is UTC, so the local-time getters of a `Date`
  read the UTC fields. This module has day numbers, day of week, hours and
  minutes, and the storage/local offset shift. It also models the
  `new Date(year, monthIndex, day)` constructor with its two-digit-year
  rule and its rollover of months and days. The day count of a date
  follows the proleptic Gregorian calendar. It is checked against the
  epoch and a table of month lengths with the leap-year rule.
- `OrderedKeys` (ordered_keys.dfy): the key order of a JavaScript `Map`.
  After the keys `s[0..]` are set in turn, the Map iterates over
  `FirstSeen(s)`, each key at its first occurrence.
- `DateTimeHelp` (date_time_help.dfy): the week window as pure functions
  with lemmas, the `"HHMM"` keys, and the grid. `IsGrid(slots, tz, rows)`
  is a declarative definition of the grid. `StructureAvailability` is the
  imperative fold, proved to produce exactly that grid.
- `Models` (models.dfy): the class `Availability`. The class holds the
  availability table as a sequence of rows in table order, and its
  methods are the four operations. The lessons at an instant
  (`Lesson.getAllAtTime`) are a sequence parameter. The users table
  (`User.get`) is a partial map whose lookup fails with `NotFoundError`.

Where the documented behaviour and the code disagree, the model follows the code:

- There is no `ValidationError` for a malformed date string. The code
  builds `new Date(str)` and carries on. The model's inputs are already
  instants.
- A user with no record makes `getAllAvailableTutors` fail with the
  `NotFoundError` that `User.get` throws (`models/user.js:118`).
- `getAllAvailableTutors` queries the raw instant and applies no offset
  shift, unlike `add` and `remove`.
- The `NotFoundError` check in `getTutorOneWeek`
  (`models/availability.js:119`) can never fire, because the rows of a
  query are always an array. A week with no slots gives an empty grid.

## Model

| member | source | states |
|---|---|---|
| Calendar.Hours | helpers/dateTimeHelp.js:39 | getHours is in 0..23 and is the hour that contains the instant's second of the day |
| Calendar.Minutes | helpers/dateTimeHelp.js:41 | getMinutes is in 0..59 and is the minute within that hour |
| Calendar.DayOfWeek | helpers/dateTimeHelp.js:3 | getDay on a UTC host: day 0 (1970-01-01) is a Thursday, and the lemmas below fix how it moves |
| Calendar.DayOfWeekNextDay | helpers/dateTimeHelp.js:3 | getDay advances by one from one day to the next, Saturday wrapping to Sunday |
| Calendar.DayOfWeekWeekLater | helpers/dateTimeHelp.js:45 | an instant a week later has the same getDay |
| Calendar.ToStorage | models/availability.js:25 | shifting by a whole number of minutes keeps the seconds within the minute |
| Calendar.ToLocal | helpers/dateTimeHelp.js:33-34 | moving a stored instant back by tz minutes is the inverse of moving a local instant forward by the same offset |
| Calendar.LocalStorageRoundTrip | models/availability.js:106-107 | shifting local to storage time and back gives the local instant again |
| Calendar.MidnightOfDay | helpers/dateTimeHelp.js:6 | day n's midnight lies on day n at second 0 |
| Calendar.InstantOfDay | helpers/dateTimeHelp.js:13 | second s of day n lies on day n at second s: setHours/setMinutes/setSeconds stay within the day |
| Calendar.SixDaysAfterMonday | helpers/dateTimeHelp.js:12 | six days after a Monday is a Sunday |
| Calendar.LocalMidnight | models/availability.js:103-104 | new Date(year, month, day) is a midnight, second 0 of its day; which day is fixed by the Civil* and LocalMidnight* lemmas below |
| Calendar.FullYear | models/availability.js:103 | a year is kept as given or, for 0..99, moved into 1900..1999 |
| Calendar.FullYearNext | models/availability.js:103 | consecutive years stay consecutive under the rule exactly when they do not cross -1/0 or 99/100 |
| Calendar.DaysFromCivil | models/availability.js:103 | the day count inside new Date(y, m, d), in the proleptic Gregorian calendar; the Civil* lemmas check it against the epoch and the month-length table |
| Calendar.DaysInMonth | models/availability.js:103 | every month has 28 to 31 days |
| Calendar.MarchYearLength | models/availability.js:103 | the March-based year that ends in February of year y has 366 days exactly when y is a Gregorian leap year |
| Calendar.CivilDayOfMonth | models/availability.js:103 | day d of a month is d - 1 days after the first, also past the month's end |
| Calendar.CivilFebruaryFirst | models/availability.js:103 | 1 February is 31 days after 1 January |
| Calendar.CivilMarchFirst | models/availability.js:103 | 1 March is 29 days after 1 February in a leap year and 28 otherwise |
| Calendar.CivilLaterMonth | models/availability.js:103 | from March to November, the next first is the month's length later |
| Calendar.CivilNextMonth | models/availability.js:103 | within a year, the first of the next month is the month's length after the first of this one |
| Calendar.CivilNextYear | models/availability.js:103 | 1 January of the next year is 31 days after 1 December |
| Calendar.CivilMonthEnd | models/availability.js:103 | the first of the month after any month, December included, is that month's length later |
| Calendar.CivilEpoch | models/availability.js:103 | 1 January 1970 is day 0 |
| Calendar.LocalMidnightOfCivilDay | models/availability.js:103-104 | new Date(year, month, day) is the midnight of the day the civil count gives for the full year and carried month |
| Calendar.LocalMidnightMonthEnd | models/availability.js:103-104 | the day after a month's last day is the first of the next month, and December rolls into January of the next year |
| Calendar.LocalMidnightEpoch | models/availability.js:103 | new Date(1970, 0, 1) and new Date(70, 0, 1) are both the epoch |
| Calendar.LocalMidnightNextDay | models/availability.js:103 | the next day number is exactly 86400 seconds later, across month ends |
| Calendar.LocalMidnightMonthCarry | models/availability.js:103 | month index m + 12 in year y is month m of year y + 1 |
| Calendar.LocalMidnightIsDay | models/availability.js:103 | the constructed midnight is the instant day number times 86400 |
| Calendar.NewYear2024 | models/availability.js:103 | new Date(2024, 0, 1) is on day 19723 and new Date(2024, 0, 3) on day 19725 |
| Calendar.WeekdaysOfJanuary2024 | helpers/dateTimeHelp.js:3 | getDay of 2024-01-01 is 1 (Monday) and of 2024-01-03 is 3 (Wednesday) |
| Calendar.January2024 | models/availability.js:103 | 2024-01-01 is instant 1704067200, a Monday; 2024-01-03 is 1704240000, a Wednesday |
| OrderedKeys.FirstSeen | helpers/dateTimeHelp.js:55 | the Map's keys after a run of sets: no more keys than sets, exactly the keys set, none twice |
| OrderedKeys.FirstIndex | helpers/dateTimeHelp.js:49 | the first position at which a key was set |
| OrderedKeys.FirstSeenRepeat | helpers/dateTimeHelp.js:49-55 | setting a key already present leaves the key order unchanged |
| OrderedKeys.FirstSeenFresh | helpers/dateTimeHelp.js:52-55 | setting a new key appends it to the key order |
| OrderedKeys.FirstSeenOrder | helpers/dateTimeHelp.js:61-63 | keys are iterated in the order of their first set |
| DateTimeHelp.StartOfWeek | helpers/dateTimeHelp.js:1-8 | the result is a Monday at 00:00:00, on the input's day or up to 6 days earlier, and the input lies within 7 days after it |
| DateTimeHelp.EndOfWeek | helpers/dateTimeHelp.js:10-15 | the result is the start plus 6 days 23:59:59: a Sunday at 23:59:59, within 7 days after the input |
| DateTimeHelp.MondayIsStartOfWeek | helpers/dateTimeHelp.js:3-6 | any Monday midnight at most 7 days before t, and not after it, is the start of t's week |
| DateTimeHelp.StartOfWeekIdempotent | helpers/dateTimeHelp.js:3-6 | getStartOfWeek of a week start is that start |
| DateTimeHelp.SameWeek | helpers/dateTimeHelp.js:1-15 | every instant between a week's start and end has that same start and end |
| DateTimeHelp.WeekOfJanuaryThird2024 | helpers/dateTimeHelp.js:1-15 | Wednesday 2024-01-03 lies in the week 2024-01-01 00:00:00 to 2024-01-07 23:59:59 |
| DateTimeHelp.DigitChar | helpers/dateTimeHelp.js:39-42 | a digit 0..9 is written as a character '0'..'9' that reads back as that digit |
| DateTimeHelp.DigitValue | helpers/dateTimeHelp.js:39-42 | a character is a decimal digit exactly when its value is in 0..9 |
| DateTimeHelp.Decimal | helpers/dateTimeHelp.js:39-41 | a number below 100 is written with one digit below 10 and two from 10 on, reading back as the number |
| DateTimeHelp.Pad2 | helpers/dateTimeHelp.js:39-42 | a number below 100 padded to two digits that read back as the number |
| DateTimeHelp.ParseKey | helpers/dateTimeHelp.js:43 | a key of four digits reads back as two numbers in 0..99 |
| DateTimeHelp.TimeKey | helpers/dateTimeHelp.js:38-43 | the row key has four decimal digits that read back as the hours and the minutes |
| DateTimeHelp.TimeKeyInjective | helpers/dateTimeHelp.js:38-43 | two instants share a key if and only if they share hours and minutes |
| DateTimeHelp.Week.Day | helpers/dateTimeHelp.js:51 | week[mapDayOfWeek[day]] read by getDay() number; DayIsField ties it to the name table |
| DateTimeHelp.Week.DayIsField | helpers/dateTimeHelp.js:23 | the day field of getDay() number d is the field that mapDayOfWeek names for d |
| DateTimeHelp.Week.With | helpers/dateTimeHelp.js:51-53 | setting the field of day d changes that field alone |
| DateTimeHelp.WeekExtensionality | helpers/dateTimeHelp.js:46 | a row's seven day fields determine its days |
| DateTimeHelp.IndexOfKey | helpers/dateTimeHelp.js:49-50 | Map.has / Map.get: the position of the key's entry, or the end when no entry has it |
| DateTimeHelp.GridHasKey | helpers/dateTimeHelp.js:49 | a grid has a row for a key exactly when some slot has that key |
| DateTimeHelp.Stamp | helpers/dateTimeHelp.js:33-45 | a slot's key is four characters that read back as the hours and minutes of its time moved back by tz |
| DateTimeHelp.Stamps | helpers/dateTimeHelp.js:26-45 | the slots contribute one stamp each |
| DateTimeHelp.StampAt | helpers/dateTimeHelp.js:26-45 | the j-th slot contributes the key and day of its own local time |
| DateTimeHelp.OtherKeyDays | helpers/dateTimeHelp.js:49-55 | a slot with another key leaves the days of a key unchanged |
| DateTimeHelp.MarkedRowDays | helpers/dateTimeHelp.js:51-53 | marking a day in a key's row adds exactly that (key, day) |
| DateTimeHelp.RepeatedKeyDays | helpers/dateTimeHelp.js:49-51 | rewriting the key's row with the slot's day marked keeps every row's days exact |
| DateTimeHelp.FreshKeyDays | helpers/dateTimeHelp.js:52-55 | appending a row for a new key with only the slot's day marked keeps every row's days exact |
| DateTimeHelp.GroupByTime | helpers/dateTimeHelp.js:24-56 | the loop over the slots leaves the Map holding exactly the grid of those slots |
| DateTimeHelp.RepeatedKeyStep | helpers/dateTimeHelp.js:49-51 | a slot whose key has a row marks its day in that row, and the result is the grid of the longer slot list |
| DateTimeHelp.FreshKeyStep | helpers/dateTimeHelp.js:52-55 | a slot with a new key appends a row with only its day marked, and the result is the grid of the longer slot list |
| DateTimeHelp.StructureAvailability | helpers/dateTimeHelp.js:17-66 | the returned rows are exactly the grid of the slots seen with offset tz |
| DateTimeHelp.GridShape | helpers/dateTimeHelp.js:24-63 | no more rows than slots, none for no slots, distinct keys, fields "available" or "", every slot shown on its day in its key's row |
| DateTimeHelp.GridKeysWellFormed | helpers/dateTimeHelp.js:33-43 | every key is four digits HHMM with HH < 24 and MM < 60, the time of some slot moved back by tz |
| DateTimeHelp.GridFirstSeenOrder | helpers/dateTimeHelp.js:55-63 | rows come out in the order their keys first occur among the slots |
| DateTimeHelp.GridOfUnique | helpers/dateTimeHelp.js:17-66 | the grid of a list of (key, day) pairs is unique |
| DateTimeHelp.GridDeterministic | helpers/dateTimeHelp.js:17-66 | the grid of a list of slots is unique |
| DateTimeHelp.StampWeekLater | helpers/dateTimeHelp.js:33-45 | the same time a week later has the same key and day |
| DateTimeHelp.GridRepeatIgnored | helpers/dateTimeHelp.js:49-55 | appending any slot whose key and day equal those of an earlier slot, such as the same time a week later, leaves the grid unchanged |
| DateTimeHelp.RepeatedStampIgnored | helpers/dateTimeHelp.js:49-55 | repeating one of the (key, day) pairs leaves the grid unchanged |
| DateTimeHelp.WednesdayAndFridayStamps | helpers/dateTimeHelp.js:33-45 | slots on 2024-01-03 and 2024-01-05 at 18:30 with offset 0 have key "1830" and days 3 and 5 |
| DateTimeHelp.OneKeyOrder | helpers/dateTimeHelp.js:55 | setting key "1830" twice leaves the single key "1830" |
| DateTimeHelp.OneRowForOneKey | helpers/dateTimeHelp.js:46-63 | two slots with one key on Wednesday and Friday give exactly one row, with w and f available |
| DateTimeHelp.WednesdayAndFridayAt1830 | helpers/dateTimeHelp.js:17-66 | those two slots give exactly the grid [{time: "1830", w and f available}] |
| Models.GetUser | models/user.js:99-121 | User.get succeeds exactly for a stored email, with its profile, and fails otherwise with NotFoundError |
| Models.BookedTutors | models/availability.js:76-79 | the scheduled set holds exactly the tutors of the lessons |
| Models.TutorsAt | models/availability.js:67-73 | the slot query at an instant lists exactly the tutors with a slot at that instant |
| Models.SlotsInRange | models/availability.js:109-117 | the week query lists exactly the tutor's slot times between the bounds, both included |
| Models.Without | models/availability.js:171-176 | the delete removes exactly the pair, and does nothing when the pair is absent |
| Models.WithoutKeepsDistinct | models/availability.js:171-176 | deleting a pair keeps the pairs of the table unique |
| Models.Unbooked | models/availability.js:81-86 | the kept tutors are exactly the listed tutors with no lesson, never more of them |
| Models.UnbookedStep | models/availability.js:82-86 | one more listed tutor is appended unless it is booked |
| Models.ProfilesSkipBooked | models/availability.js:83 | a booked tutor is skipped and the list so far still holds the profiles of the unbooked tutors so far |
| Models.ProfilesAppendFree | models/availability.js:83-84 | an unbooked tutor's profile is pushed and the list holds the profiles of the unbooked tutors so far |
| Models.TutorsAtNoRepeats | models/availability.js:67-73 | with unique (tutor, time) pairs, the slot query at an instant lists each tutor at most once |
| Models.UnbookedNoRepeats | models/availability.js:81-86 | filtering out booked tutors keeps a list free of repeats |
| Models.FreeTutorsOnce | models/availability.js:63-91 | the resolver removes no duplicates itself; the unique pairs of the table keep each free tutor to one entry |
| Models.UnbookedIsSubsequence | models/availability.js:81-86 | the kept tutors keep the order of the slot query |
| Models.UnbookedExactly | models/availability.js:76-86 | a tutor is kept if and only if it has a slot at the instant and no lesson among the lessons |
| Models.OnlyUnbookedTutorIsFree | models/availability.js:76-86 | with slots for A and B and a lesson for A, only B is kept |
| Models.WeekWindowExact | models/availability.js:103-115 | a time is selected if and only if it is the tutor's slot and its local time lies in the anchor's week |
| Models.SingleSlotAt | models/availability.js:67-73 | the slot query over a single slot at that instant lists its tutor |
| Models.SingleTutorUnbooked | models/availability.js:82-86 | a single tutor is kept exactly when it is not booked |
| Models.ProfilesOfOne | models/availability.js:84 | the profiles of a single tutor are that tutor's profile alone |
| Models.Availability.constructor | models/availability.js:12 | a new store holds an empty table of unique pairs |
| Models.Availability.Add | models/availability.js:22-51 | the stored pairs gain the shifted pair; a duplicate is BadRequestError with the table unchanged, otherwise the pair is appended and returned |
| Models.Availability.Remove | models/availability.js:166-180 | the stored pairs lose the shifted pair; an absent pair is NotFoundError with the table unchanged, otherwise exactly that row is deleted |
| Models.Availability.GetAllAvailableTutors | models/availability.js:63-91 | on a store with unique pairs, the free tutors have no repeats; success exactly when every unbooked tutor has a user record, then exactly their profiles, position by position in slot-query order; otherwise NotFoundError and no list |
| Models.Availability.GetTutorOneWeek | models/availability.js:101-122 | returns the week start moved by tz, and exactly the grid of the tutor's slots between the moved start and end |
| Models.AddThenRemove | models/availability.js:24-25 | adding an absent pair and removing it with the same host offset restores the table |
| Models.FreeTutorListed | models/availability.js:63-91 | a lone tutor with a slot, no lesson and a user record is listed with exactly its profile |
| Models.BookedTutorHidden | models/availability.js:76-86 | the same tutor with a lesson at that instant is not listed |
| Models.DuplicateAndMissingSlot | models/availability.js:35-36 | adding a pair twice fails the second time with BadRequestError, and removing a pair never added fails with NotFoundError |

## Left out

- The database, SQL text, the Express routes and the HTTP error mapping
  are left out. The table is a field of the class, and a query's row
  order is taken to be table order.
- `routes/availability.js` calls `getTutorOneWeek` with the wrong number
  of arguments. That call path is not modelled.
- `Lesson.getAllAtTime` becomes the `lessons` parameter. `User.get`
  becomes a lookup in a `map` of profiles. The other user and lesson
  operations, bcrypt and the JWT helpers are not part of this model.
- The host time zone is left out. Add and Remove take the host's
  `getTimezoneOffset()` as the explicit parameter `hostOffset`. The
  local-time getters read UTC fields. Daylight-saving changes of the
  offset are not modelled.
- Milliseconds are left out: instants are whole seconds.
- A `Date` holds at most 8.64e15 ms either side of the epoch and is an
  Invalid Date beyond that. `Instant` is unbounded, so that range and the
  NaN results past it are not modelled.
- Parsing a date string with `new Date(str)` is left out, and so is the
  Invalid Date it can produce. `tz` is an integer rather than the string
  that `parseInt` reads.
- `add` checks and then inserts in two queries. The race between them is
  not modelled: `Add` is one atomic step.
- The `console.log` calls and the commented-out `update` are left out.
- DateTimeHelp.StructureAvailability: a grid row is a `GridRow` with its
  key and a `Week` value, not the flat object that `{time, ...week}`
  spreads. Row objects that alias between the Map and the loop are
  modelled as values written back to the Map.
- Models.Availability.Add: returns the pair it stored rather than the row
  returned by `RETURNING`, which holds the same two columns.
