# Calendar view: cron-driven month grid

A Dafny model of the calendar component of a mission-control dashboard
(`src/components/CalendarView.tsx`). The component shows a month grid. Each
day cell lists the calendar entries (cron jobs and tasks) whose cron
expression fires on that day, ordered by the hour of the expression. Two
buttons move to the previous or the next month, and clicking an entry opens
its details.

The model has eight modules:

- `Wrappers`: an `Option` type. It stands for JavaScript's NaN, `null` and
  `undefined`.
- `Text`: the JavaScript string operations the component relies on.
  - `String.prototype.trim` and `split(/\s+/)`, with ECMAScript's white-space
    and line-terminator set.
  - `split(',')`.
  - `parseInt` with one argument: leading white space, a sign, the `0x`
    prefix, the longest digit prefix, and NaN when there are no digits.
  - A decimal formatter, used to write the expressions the lemmas are
    stated about.
- `Gregorian`: the proleptic Gregorian calendar of ECMAScript's `Date`.
  - Leap years and month lengths.
  - ECMAScript's DayFromYear numbering of days from 1 January 1970.
  - The inverse of that numbering (YearFromTime, MonthFromTime and
    DateFromTime).
  - The weekday.
- `JsDate`: the constructor `new Date(year, month, day)` as ECMAScript's
  MakeDay defines it.
  - A month outside 0..11 carries into the year.
  - Day 0 is the last day of the previous month.
  - A year from 0 to 99 is read as 1900 + year.
- `Cron`: `cronMatchesDate` (`Matches`) and `getCronHour` (`HourOf`),
  exactly as the code reads the fields. They are related to `Fires`, an
  independent reference semantics on a structured `CronSpec`.
- `Entries`: the `CalendarEntry` record, the query result
  (`useQuery(...) ?? []`), and `dayEntries`. A day's list is
  `entries.filter(...)` followed by a stable `sort` by hour. The sort is
  modelled as an insertion sort, which has the result ECMAScript's stable
  `Array.prototype.sort` gives for this comparator.
- `MonthGrid`: `startPad`, `daysInMonth`, the day cells with `isToday`, and
  the `dayEntries` array of per-day lists. There are two builders:
  - `Build` draws the viewed month.
  - `BuildAsWritten` draws what the component's `new Date(viewYear, ...)`
    calls produce (see Findings).
- `Controller`: the component's state (`viewYear`, `viewMonth`, `selected`),
  its first render from today's date, `prevMonth`, `nextMonth`, opening and
  closing the details, and runs of user actions. Its `Screen` is the
  corrected grid (`Build`); it is the grid the component draws except in
  the years 0 to 99 (see Findings).

The current time is a parameter (`today`). The query's answer is a parameter
too: `None` while loading, `Some(rows)` once loaded.

## Model

| member | source | states |
|---|---|---|
| Text.TrimSpec | src/components/CalendarView.tsx:9 | `trim` leaves no white space at either end, and its result is one contiguous stretch of the input with only white space before and after it |
| Text.TrimmedAlready | src/components/CalendarView.tsx:9 | trimming text that has no white space at its ends returns it unchanged |
| Text.SplitSpaces | src/components/CalendarView.tsx:9 | `split(/\s+/)` yields at least one piece and no piece contains white space |
| Text.SplitSpacesKeepsText | src/components/CalendarView.tsx:9 | concatenating the pieces of `split(/\s+/)` gives the text with all white space removed |
| Text.SplitSpacesNoEmpty | src/components/CalendarView.tsx:9 | a non-empty trimmed text splits into non-empty pieces only |
| Text.SplitJoinSpaces | src/components/CalendarView.tsx:9 | words joined by single spaces split back into exactly those words |
| Text.SplitSpacesRun | src/components/CalendarView.tsx:9 | `split(/\s+/)` cuts at the first white-space run, whatever its length, and goes on with what follows it |
| Text.SplitJoinGaps | src/components/CalendarView.tsx:9 | pieces without white space joined by arbitrary non-empty white-space runs split back into exactly those pieces (only the first and last may be empty) |
| Text.TrimPadded | src/components/CalendarView.tsx:9 | `trim` removes exactly the white space padding a trimmed text on either side |
| Text.TrimJoinSpaces | src/components/CalendarView.tsx:9 | words joined by single spaces are already trimmed |
| Text.SplitOnSpec | src/components/CalendarView.tsx:25 | `split(',')` yields pieces without commas that, rejoined with commas, give the original field |
| Text.SplitJoinOn | src/components/CalendarView.tsx:25 | comma-free pieces joined with commas split back into exactly those pieces |
| Text.ParseIntFormatted | src/components/CalendarView.tsx:19 | `parseInt` reads a decimal numeral followed by any text that does not start with a digit (other than `x`/`X` after a lone `0`, which starts a hexadecimal numeral) as that number, so `"1,6"` reads as 1 |
| Text.ParseIntNegative | src/components/CalendarView.tsx:19 | a leading minus sign negates the magnitude `parseInt` reads |
| Text.ParseIntUnsigned | src/components/CalendarView.tsx:19 | text starting with a digit reads as its magnitude, or NaN when there is none |
| Text.ParseIntNoDigits | src/components/CalendarView.tsx:19 | text containing no decimal digit reads as NaN |
| Gregorian.DaysInMonth | src/components/CalendarView.tsx:105 | every month has between 28 and 31 days |
| Gregorian.Weekday | src/components/CalendarView.tsx:104 | `getDay()` is between 0 (Sunday) and 6 (Saturday) |
| Gregorian.MonthStep | src/components/CalendarView.tsx:103 | each month starts where the previous one ends |
| Gregorian.MonthsFillYear | src/components/CalendarView.tsx:103 | the twelve months together are exactly as long as the year |
| Gregorian.YearStep | src/components/CalendarView.tsx:102-103 | consecutive years start one year's length apart |
| Gregorian.YearMonotone | src/components/CalendarView.tsx:102-103 | years start between 365 and 366 days per year after any earlier year |
| Gregorian.FromDayNumber | src/components/CalendarView.tsx:102-105 | every day number belongs to a calendar day, which exists and has that number (that it is the only one is `Gregorian.DayNumberInjective`) |
| Gregorian.DayNumberInjective | src/components/CalendarView.tsx:102-105 | two different calendar days have different numbers |
| Gregorian.DayNumberRoundTrip | src/components/CalendarView.tsx:102-105 | a calendar day is recovered from its number |
| Gregorian.WeekdayInMonth | src/components/CalendarView.tsx:104 | within a month the weekday advances by one per day, modulo 7 |
| Gregorian.KnownDays | src/components/CalendarView.tsx:102-105 | February 2024 has 29 days and starts on a Thursday, February 2023 has 28, 1 January 1970 was a Thursday, and 1900 is not a leap year while 2000 is |
| JsDate.MakeDayInRange | src/components/CalendarView.tsx:120 | for a month in 0..11 the constructor numbers the day as the calendar does |
| JsDate.MakeDayCarry | src/components/CalendarView.tsx:103 | month `m + 12` of a year is month `m` of the next year |
| JsDate.NewDate | src/components/CalendarView.tsx:102-103 | `new Date(y, m, d)` is always a day that exists, and it is day `d` of month `m` of the year the constructor uses (1900 + `y` for `y` in 0..99, `y` otherwise) whenever that day exists |
| JsDate.MakeDateValid | src/components/CalendarView.tsx:120 | a day that exists is constructed as itself |
| JsDate.MonthDays | src/components/CalendarView.tsx:119-120 | every day 1 to `daysInMonth` of a month is constructed as itself |
| JsDate.DayBeforeNextMonth | src/components/CalendarView.tsx:103 | day 0 of the next month is numbered as the last day of this month, also in December |
| JsDate.DayZeroIsLastDay | src/components/CalendarView.tsx:103-105 | `new Date(y, m + 1, 0)` is the last day of month `m`, so its `getDate()` is the month's length |
| JsDate.NewDateLiteralYear | src/components/CalendarView.tsx:102 | outside the years 0 to 99 the constructor takes the year as written |
| JsDate.NewDateTwoDigitYear | src/components/CalendarView.tsx:102 | for a year from 0 to 99 the constructor builds the same day of year 1900 + year |
| Cron.FieldsOfFormat | src/components/CalendarView.tsx:9 | a well-formed expression written with single spaces splits into its five fields |
| Cron.Matches | src/components/CalendarView.tsx:8-36 | `cronMatchesDate` holds only for five fields, and then only when a month field other than `*` reads as `getMonth() + 1`, a day-of-week field other than `*` has a piece reading as `getDay()`, and a day-of-month field other than `*` reads as `getDate()`; five fields ending in three `*` always match |
| Cron.FormatMatches | src/components/CalendarView.tsx:8-36 | `cronMatchesDate` holds on a day exactly when the reference semantics fires: `getMonth() + 1` equal to the month field or `*`, weekday in the list or `*`, day equal to the day-of-month field or `*`, all three together |
| Cron.FieldsOfGaps | src/components/CalendarView.tsx:9 | an expression of words separated by any non-empty white-space runs, with any white space before and after, has exactly those words as its fields |
| Cron.WrongFieldCount | src/components/CalendarView.tsx:9-10 | any expression that `trim().split(/\s+/)` splits into a number of fields other than five matches no day |
| Cron.WrongWordCount | src/components/CalendarView.tsx:9-10 | words joined with single spaces split into as many fields, so any number of words other than five matches no day |
| Cron.NoMatchMalformed | src/components/CalendarView.tsx:10 | `"0 9 * *"` and `""` match no day |
| Cron.MinuteHourIrrelevant | src/components/CalendarView.tsx:11-15 | any two expressions with as many fields whose last three fields agree when there are five match the same days, whatever their minute and hour fields and spacing |
| Cron.MinuteHourIrrelevantFormat | src/components/CalendarView.tsx:11-12 | changing only the minute and hour of a written specification does not change on which days it matches |
| Cron.StarsMatchEveryDay | src/components/CalendarView.tsx:8-36 | any expression of five fields whose day-of-month, month and day-of-week fields are `*` matches every day, whatever its minute, hour and spacing |
| Cron.MonthLeadingNumeral | src/components/CalendarView.tsx:17-21 | a month field that is numeral `n` alone or followed by a non-digit (other than `x` after `0`) admits a month exactly when the month number is `n` |
| Cron.UnreadableFieldsNeverMatch | src/components/CalendarView.tsx:18-33 | a month or day-of-month field other than `*` that `parseInt` reads as NaN, or a day-of-week field none of whose pieces reads as a number, stops the expression from matching any day |
| Cron.MonthListReadsFirst | src/components/CalendarView.tsx:17-21 | `"0 0 * 1,6 *"` matches exactly the days of January: `parseInt("1,6")` is 1 |
| Cron.DowValuesOfList | src/components/CalendarView.tsx:25-26 | the day-of-week list written with commas reads back as exactly its weekdays |
| Cron.WeekdayList | src/components/CalendarView.tsx:23-27 | `"0 0 * * 1,3,5"` matches exactly the Mondays, Wednesdays and Fridays |
| Cron.DayOfMonthField | src/components/CalendarView.tsx:29-33 | `"0 9 15 * *"` matches exactly the 15th of every month |
| Cron.ParseNumeral | src/components/CalendarView.tsx:19 | a decimal numeral reads back as its number |
| Cron.HourOf | src/components/CalendarView.tsx:38-41 | `getCronHour` is the hour field read by `parseInt` whenever that reads as a number; any other answer is 0 |
| Cron.HourOfNumeral | src/components/CalendarView.tsx:38-41 | `getCronHour` of any expression whose second field is numeral `n`, alone or followed by text `parseInt` stops at, is `n` |
| Cron.HourOfNoDigits | src/components/CalendarView.tsx:38-41 | `getCronHour` of any expression is 0 when it has fewer than two fields or its second field has no digit |
| Cron.HourOfFormat | src/components/CalendarView.tsx:38-41 | `getCronHour` of a written expression whose hour field is numeral `h` is `h` |
| Cron.HourOfNoDigitsFormat | src/components/CalendarView.tsx:38-41 | `getCronHour` of a written expression whose hour field has no digits is 0 |
| Cron.HourOfExample | src/components/CalendarView.tsx:38-41 | `getCronHour("30 14 * * *")` is 14 |
| Cron.HourOfUnreadable | src/components/CalendarView.tsx:38-41 | `getCronHour` is 0 for `"bad cron"` (NaN hour) and for `"30"` (a single field) |
| Entries.Loaded | src/components/CalendarView.tsx:93 | the component works on no entries while the query loads, and on the query's rows once it answers |
| Entries.Filter | src/components/CalendarView.tsx:122 | `filter` never lengthens the list |
| Entries.FilterCount | src/components/CalendarView.tsx:122 | `filter` keeps each satisfying element as often as it occurs and drops every other one |
| Entries.FilterFilter | src/components/CalendarView.tsx:122 | filtering by two predicates in turn is filtering once by both |
| Entries.SortSorted | src/components/CalendarView.tsx:123 | the sort puts the list in ascending key order |
| Entries.SortPermutes | src/components/CalendarView.tsx:123 | the sort is a permutation |
| Entries.SortStable | src/components/CalendarView.tsx:123 | the sort is stable: the elements of each key keep their relative order |
| Entries.DayEntries | src/components/CalendarView.tsx:119-124 | a day's list is no longer than the query's rows and holds exactly the entries whose expression matches that day |
| Entries.FilterMembers | src/components/CalendarView.tsx:122 | `filter` keeps an element exactly when it occurs and satisfies the predicate |
| Entries.SortMembers | src/components/CalendarView.tsx:123 | the sort keeps exactly the elements it was given |
| Entries.DayEntriesContents | src/components/CalendarView.tsx:119-124 | a day's list holds exactly the entries whose expression matches that day, each as often as the query returned it |
| Entries.DayEntriesSorted | src/components/CalendarView.tsx:123 | a day's list is in ascending order of `getCronHour` |
| Entries.DayEntriesStable | src/components/CalendarView.tsx:119-124 | the entries of each hour appear in a day's list in query order: they are the query's matching entries of that hour |
| Entries.DayEntriesIgnoreEnabled | src/components/CalendarView.tsx:119-124 | switching entries on or off changes neither which entries a day lists nor their order |
| MonthGrid.LayoutFromDates | src/components/CalendarView.tsx:102-105 | the grid's pad is `firstDay.getDay()` and its cell count is `lastDay.getDate()` for the dates made in the grid's year |
| MonthGrid.DayListsFromDates | src/components/CalendarView.tsx:119-124 | `dayEntries` has `lastDay.getDate()` lists, and list `i` holds the entries due on `new Date(year, month, i + 1)` |
| MonthGrid.AsWrittenFromNewDate | src/components/CalendarView.tsx:102-124 | the component's pad, cell count and day lists come from the `new Date(viewYear, ...)` values the code creates |
| MonthGrid.BuildDayEntries | src/components/CalendarView.tsx:119-124 | there is one day list per cell, and each cell lists the entries due on its own day |
| MonthGrid.CellsInOrder | src/components/CalendarView.tsx:126-129 | the grid has one cell per day of the month, cell `i` is day `i + 1`, and it is marked today exactly when today is that day |
| MonthGrid.BuildColumns | src/components/CalendarView.tsx:104 | the pad is 0 to 6, and after it every day falls in the column of its weekday |
| MonthGrid.TodayMarkedOnce | src/components/CalendarView.tsx:126-129 | today is marked in the grid exactly when the viewed month is today's month, and then in one cell only |
| MonthGrid.FebruaryGrids | src/components/CalendarView.tsx:102-105 | February 2024 has a pad of 4 and 29 cells, and February 2023 has 28 cells |
| MonthGrid.BuildAsWritten | src/components/CalendarView.tsx:102-129 | the component's month has one day list per cell and a pad of 0 to 6, and outside the years 0 to 99 it is the viewed month's grid |
| MonthGrid.AsWrittenYearZero | src/components/CalendarView.tsx:102-103 | for February of year 0 the component draws 28 cells starting on Thursday instead of 29 cells starting on Tuesday |
| Controller.AtIndex | src/components/CalendarView.tsx:109-116 | each month index corresponds to a view whose month is in 0..11 |
| Controller.Initial | src/components/CalendarView.tsx:96-99 | the first render shows today's year and month with nothing selected |
| Controller.Next | src/components/CalendarView.tsx:113-116 | `nextMonth` keeps the month in 0..11, moves one month forward across the year boundary, and keeps the selection |
| Controller.Prev | src/components/CalendarView.tsx:109-112 | `prevMonth` keeps the month in 0..11, moves one month back across the year boundary, and keeps the selection |
| Controller.NextPrevAtIndex | src/components/CalendarView.tsx:109-116 | the buttons land exactly on the view of the neighbouring month index |
| Controller.MonthIndexInjective | src/components/CalendarView.tsx:109-116 | a view is determined by its month index and its selection |
| Controller.NextPrevInverse | src/components/CalendarView.tsx:109-116 | `prevMonth` undoes `nextMonth` and the reverse |
| Controller.Select | src/components/CalendarView.tsx:169 | clicking an entry selects it and keeps the viewed month |
| Controller.Close | src/components/CalendarView.tsx:205 | closing the details clears the selection and keeps the viewed month |
| Controller.RunKeepsValid | src/components/CalendarView.tsx:109-116 | any run of actions keeps the month in 0..11 and moves the month index by the number of next presses minus previous presses |
| Controller.Reachable | src/components/CalendarView.tsx:96-116 | every state reached from the first render shows an existing month, next presses minus previous presses away from today's, so never more months away than there were actions |
| Controller.TwelveNext | src/components/CalendarView.tsx:113-116 | twelve presses of the next button show the same month one year later |
| Controller.RunKeepsSelection | src/components/CalendarView.tsx:109-116 | month navigation never changes the selection |
| Controller.TodayOnFirstScreen | src/components/CalendarView.tsx:96-129 | on first render today's cell is marked, and in the grid the component draws when today's year is not in 0..99 |
| Controller.DrawnScreen | src/components/CalendarView.tsx:102-129 | outside the years 0 to 99 the screen of the model is the grid the component draws |

## Left out

- Rendering: the React markup, CSS classes, the month title
  (`toLocaleString`, line 107), the weekday headers, the "All Scheduled Jobs"
  list (lines 180-203) and the `EntryModal` body (lines 44-89). These are
  presentation only.
- The `toggle` mutation (declared on lines 45 and 94, called on lines 67
  and 197) and the Convex query itself.
  They are foreign calls into the backend. The query's answer is a
  parameter, and `Entries.DayEntriesIgnoreEnabled` states that a changed
  `enabled` flag does not affect the day lists.
- The clock: `new Date()` (line 96) becomes the parameter `today`. Time of
  day, time zones and daylight-saving shifts are not modelled. Every date is
  a whole calendar day.
- JavaScript numbers are modelled as unbounded integers. The model ignores
  IEEE-754 precision above 2^53 for large numerals. It also ignores the
  `Date` range limit of ±8.64e15 ms, outside which `new Date` yields an
  invalid date.
- Strings are Dafny strings, whose characters are Unicode scalar values,
  not JavaScript's UTF-16 code units: a character outside the Basic
  Multilingual Plane is one character here and two code units there, and a
  lone surrogate cannot be written. This does not change any result of the
  model, because no surrogate is white space, a digit, a sign, `x` or a
  comma, so the fields and numbers `trim`, `split` and `parseInt` produce
  are the same either way. White space is
  ECMAScript's set, and no Unicode case mapping or normalisation is
  involved.
- `parseInt` returns -0 for `"-0"`. The model reads it as 0, which every
  comparison in the component (`!==`, `includes`, `|| 0`) treats the same
  way.
- `getCronHour` on `"bad cron"` is 0 because `parseInt("cron")` is NaN. The
  expression has two fields, so the "fewer than two fields" rule is not what
  applies. The model follows the code, and `Cron.HourOfUnreadable` states
  both cases.
- MonthGrid.Build: requires `viewMonth` in 0..11. The component's own
  navigation keeps it there (`Controller.Reachable`), so a grid for another
  month value is never drawn.
- MonthGrid.BuildAsWritten: requires `viewMonth` in 0..11, for the same
  reason.
- Cron.Matches: is defined for months 0..11 only, which every `Date` has.

## Findings

| source | as written | input that shows it | evidently intended | confidence | as-written member | corrected member |
|---|---|---|---|---|---|---|
| src/components/CalendarView.tsx:102-103 | `new Date(viewYear, viewMonth, 1)`, `new Date(viewYear, viewMonth + 1, 0)` and `new Date(viewYear, viewMonth, i + 1)` (line 120) read a `viewYear` from 0 to 99 as 1900 + `viewYear` | `viewYear` = 0, `viewMonth` = 1, reached by pressing the previous button: 28 cells with a pad of 4 (February 1900) instead of 29 cells with a pad of 2 | the grid of the viewed month in the viewed year | not executed | MonthGrid.AsWrittenYearZero | MonthGrid.Build |
