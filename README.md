# SwiftCal calendar and streak logic in Dafny

SwiftCal is a study-habit tracker. Each day has a `Day` record with a `date` and a
`didStudy` flag. A month calendar shows the records, a streak view counts the run of
studied days, and a home-screen widget shows both. This project models the day-level logic
behind those screens and proves properties of it:

- `calendar_math.dfy` (module `CalendarMath`): the `Date` extension.
  - A date is a whole day, an integer day number in the proleptic Gregorian calendar.
    Day 1 is 1 January of year 1, a Monday, so day 0 is a Sunday.
  - `Calendar.component` becomes a conversion to year/month/day, with its round trip proved.
  - Weekdays use Foundation's numbering, 1 = Sunday … 7 = Saturday.
  - It covers the start and end of a month, the previous and next months, the number of days
    in a month, `dayInt`, `monthInt` and the padded seven-column window.
- `calculations.dfy` (module `Calculations`): the expected-date streak walk of
  `calculateStreakValue(days:)` and `getStreakValue(context:)`.
  - Both are methods with the source's `for` loop.
  - Each is proved equal to a recursive walk function, and lemmas state what the walk means.
  - The fetch of `getStreakValue` is a predicate on its result; a lemma carries the walk's
    facts from the fetched records back to the store.
- `calendar_view.dfy` (module `CalendarView`): the month calendar screen.
  - The Core Data context is a `ViewContext` class; its `days` and `settings` sequences are
    what `createMonthDays(for:)` and `onAppear` append to.
  - It also models the inclusive window fetch, the per-cell visibility rule, the
    `showOnlyMonthDays` setting and the setter of its toggle.
- `example_streak.dfy` (module `ExampleStreak`): the example app's older streak.
  - It covers the day-of-month filter and the reverse record-count walk of
    `calculateStreakValue()`.
  - It also covers the strict query window of the example `StreakView`.
- `example_widget.dfy` (module `ExampleWidget`): the example widget.
  - Its streak is the same filter and walk.
  - Its grid blanks every record outside the current month; this is proved equal to the
    month calendar's grid with `showOnlyMonthDays` on.
- `models.dfy` (modules `Models` and `Seqs`): the record types and a sequence `Filter`.

Behaviour of the code that the model keeps:

- An unstudied record dated today is passed over without moving the expected date. The next
  record, dated yesterday or earlier, then ends the walk, so the streak is 0 whenever today
  has no studied record (`Calculations.NoStudiedExpectedDayNoStreak`,
  `Calculations.UnstudiedTodayGivesZero`).
- Nothing is deduplicated. Creating a month twice leaves two records per date
  (`CalendarView.CreateTwiceDuplicates`).
- `onAppear` creates at most the previous, current and next months.
- The window fetch only sees records inside the padded window. When a month begins on a
  Sunday, the window starts on the 1st. A store that holds only the previous month then
  gives an empty fetch, and `onAppear` creates the previous month a second time.
- Every record the modelled code creates is unstudied (`SwiftCal/CalendarView.swift:126`).
  No modelled operation sets `didStudy`.
- The suffix of the padded window is measured on `endOfMonth`, which is the next month's
  first day, not the month's last day. A month whose last day is a Saturday therefore gets
  a whole extra week (`CalendarMath.SuffixAfterSaturdayMonthEnd`).
- `SwiftCal/Models/Day.swift` declares `date` as non-optional. The Core Data code unwraps
  it as optional, so `Models.DayRecord` has an optional date. The example app's `Day` has a
  plain date (`ExampleStreak.Day`).

## Model

| member | source | states |
|---|---|---|
| CalendarMath.ToCivil | SwiftCal/Date+Ext.swift:41-47 | the year, month and day that a day number converts to form a valid Gregorian date whose day number is that day number |
| CalendarMath.CivilRoundTrip | SwiftCal/Date+Ext.swift:41-47 | converting a valid date to its day number and back gives the same date |
| CalendarMath.StartOfDay | SwiftCal/Calculations.swift:14 | `startOfDay` is the start of the whole day holding the date: not after it and less than a day before it |
| CalendarMath.EndOfDay | SwiftCal/Date+Ext.swift:20-22 | `endOfDay` is the start of the following calendar day: the next day of the month, or the first of the next month after the month's last day |
| CalendarMath.NextDay | SwiftCal/Date+Ext.swift:20-22 | the day after any date is the next day of the same month, or the first of the following month (December rolling over to January) |
| CalendarMath.StartOfMonth | SwiftCal/Date+Ext.swift:12-14 | `startOfMonth` is day 1 of the same year and month, and is not after the date |
| CalendarMath.EndOfMonth | SwiftCal/Date+Ext.swift:16-18 | `endOfMonth` is the first day of the following month (rolling December over to January of the next year), is after the date, and lies one month length after `startOfMonth` |
| CalendarMath.NumberOfDaysInMonth | SwiftCal/Date+Ext.swift:34-39 | the day of the month of the day before `endOfMonth` is between 28 and 31, equals `endOfMonth - startOfMonth`, and is the Gregorian length of the month |
| CalendarMath.DayInt | SwiftCal/Date+Ext.swift:41-43 | `dayInt` is between 1 and 31 and is the offset from `startOfMonth` plus one |
| CalendarMath.MonthInt | SwiftCal/Date+Ext.swift:45-47 | `monthInt` is between 1 and 12 and is the month of `startOfMonth` |
| CalendarMath.SameMonth | SwiftCal/Date+Ext.swift:12-18 | every day from `startOfMonth` up to `endOfMonth` has the same month start, month end, year and `monthInt`, and its `dayInt` is its offset plus one |
| CalendarMath.AddMonths | SwiftCal/Date+Ext.swift:24-32 | adding months moves year*12+month by that many months, and keeps the day of the month, clamped to the target month's length |
| CalendarMath.StartOfPreviousMonth | SwiftCal/Date+Ext.swift:24-27 | `startOfPreviousMonth` is the first day of a month before `startOfMonth`, and that month ends exactly at this month's start, across a year rollover too |
| CalendarMath.StartOfNextMonth | SwiftCal/Date+Ext.swift:29-32 | `startOfNextMonth` equals `endOfMonth` |
| CalendarMath.NeighbourMonths | SwiftCal/Date+Ext.swift:24-32 | the previous and next month starts are their own month starts, the previous month has at least 28 days before this month, and the next month starts at `endOfMonth` and lasts at least 28 days |
| CalendarMath.LastDayOfPreviousMonth | SwiftCal/Date+Ext.swift:41-43 | the day before `startOfMonth` has a `dayInt` of at least 28 |
| CalendarMath.KnownWeekdays | SwiftCal/Date+Ext.swift:55 | weekdays follow Foundation's numbering: 1 January of year 1 is a Monday (2) and 18 February 2025 a Tuesday (3) |
| CalendarMath.Weekday | SwiftCal/Date+Ext.swift:55 | `component(.weekday)` is between 1 and 7 |
| CalendarMath.WeekdayFromKnownTuesday | SwiftCal/Date+Ext.swift:63 | the weekday of any day is fixed by its distance in days to 18 February 2025, a Tuesday |
| CalendarMath.StartOfCalendarWithPrefixDays | SwiftCal/Date+Ext.swift:53-59 | the window start is a Sunday, 0 to 6 days before `startOfMonth`, and is `startOfMonth` itself when the month begins on a Sunday |
| CalendarMath.EndOfCalendarWithSuffixDays | SwiftCal/Date+Ext.swift:61-69 | the window end is a Saturday 0 to 6 days after `endOfMonth`, and the suffix is always `7 - weekday(endOfMonth)` (the Saturday test of the ternary makes no difference) |
| CalendarMath.WindowShape | SwiftCal/Date+Ext.swift:53-69 | the inclusive window spans a multiple of 7 days, 35 or 42, and contains every day from `startOfMonth` through `endOfMonth` |
| CalendarMath.SuffixAfterSaturdayMonthEnd | SwiftCal/Date+Ext.swift:61-69 | when the month's last day is a Saturday the window runs a whole extra week past it; otherwise it ends on the Saturday of the last day's week |
| CalendarMath.MonthIntInWindow | SwiftCal/Date+Ext.swift:45-47 | inside the padded window, a day has the current `monthInt` exactly when it lies between `startOfMonth` and `endOfMonth` |
| Calculations.CalculateStreakValue | SwiftCal/Calculations.swift:10-42 | the loop returns the expected-date walk from today and at most one per record; every day from today back over the streak has a studied record; and for records newest first, one per date, the day just before the streak has none, so the streak is the whole run of studied days ending today |
| Calculations.WalkCoversStudiedRun | SwiftCal/Calculations.swift:26-31 | every day the walk counts, from the expected date back, has a studied record |
| Calculations.WalkEndsAtGap | SwiftCal/Calculations.swift:19-38 | on records strictly newest first, the day where the walk stops has no studied record |
| Calculations.SkippedRecordNeverCounts | SwiftCal/Calculations.swift:17-20 | inserting an undated record, or one dated after the expected date, anywhere in the list leaves the walk's result unchanged |
| Calculations.NoStudiedExpectedDayNoStreak | SwiftCal/Calculations.swift:22-37 | with no studied record on the expected date (today's record missing or unstudied), the result is 0 whatever else the list holds |
| Calculations.FetchKeepsStudiedDays | SwiftCal/Calculations.swift:45-49 | the fetch sorted newest first and limited to `date <= endOfDay` has the same studied days up to the limit as the store |
| Calculations.GetStreakValue | SwiftCal/Calculations.swift:49-79 | a failed or empty fetch gives 0; otherwise the loop returns the expected-date walk over the fetched records, every day from today back over the streak has a studied fetched record, and on strictly newest-first records the day just before the streak has none |
| Calculations.FetchedWalkInStore | SwiftCal/Calculations.swift:45-49 | on what the fetch returns, the days the walk counts are studied in the store, and for one record per date the day it stops at is not: the streak is the store's run of studied days ending today |
| Calculations.ExpectedDateWalk | SwiftCal/Calculations.swift:16-38 | the walk counts at most one per record |
| Calculations.IsDescendingFetch | SwiftCal/Calculations.swift:45-47 | the fetch result is the store's records dated up to the limit, as a multiset, sorted by date newest first |
| Calculations.TwoStudiedDays | SwiftCal/Calculations.swift:10-42 | today and yesterday studied, the day before not: the walk gives 2 |
| Calculations.UnstudiedTodayGivesZero | SwiftCal/Calculations.swift:32-37 | today unstudied with yesterday and the day before studied: the walk gives 0 |
| ExampleStreak.NonFutureDays | Example/SwiftCal/StreakView.swift:38 | the filter keeps at most every record, and exactly the records whose `dayInt` is at most today's |
| ExampleStreak.NonFutureDaysKeepsOrder | Example/SwiftCal/StreakView.swift:38 | the filter keeps order and duplicates: filtering a concatenation filters each part, and one record is kept exactly when its `dayInt` is at most today's |
| ExampleStreak.RecordCountWalk | Example/SwiftCal/StreakView.swift:42-50 | the reverse walk counts at most one per record |
| ExampleStreak.CalculateStreakValue | Example/SwiftCal/StreakView.swift:35-53 | the loop returns the reverse record-count walk over the kept records (0 for an empty list), and at most one per kept record |
| ExampleStreak.RecordCountWalkCountsAfterLastStop | Example/SwiftCal/StreakView.swift:42-50 | the walk counts exactly the studied records after the last unstudied record not on today's day of the month, so missing days between records do not matter |
| ExampleStreak.AllStudiedCountsEveryRecord | Example/SwiftCal/StreakView.swift:42-44 | when every kept record is studied, the walk counts them all |
| ExampleStreak.QueryWindowIsStrict | Example/SwiftCal/StreakView.swift:13-17 | the query window leaves out its own first day and every suffix day, holds every day after `startOfMonth` in the month, and leaves out `startOfMonth` exactly when the month begins on a Sunday |
| ExampleStreak.InQueryWindow | Example/SwiftCal/StreakView.swift:13-17 | the query predicate: strictly after `startOfCalendarWithPrefixDays` and strictly before `endOfMonth` |
| ExampleStreak.IsWindowQuery | Example/SwiftCal/StreakView.swift:13 | the query result is the store's records inside the window, as a multiset, sorted by date oldest first |
| ExampleStreak.WindowQueryMembers | Example/SwiftCal/StreakView.swift:13-17 | a query result holds exactly the stored records strictly inside the window, and as many as there are |
| ExampleStreak.GapDoesNotBreakRecordCount | Example/SwiftCal/StreakView.swift:38-52 | two studied records with a missing day between them give a streak of 2 |
| ExampleStreak.PreviousMonthLastDayDropped | Example/SwiftCal/StreakView.swift:38 | before the 28th, the previous month's last day is dropped by the filter although it is in the past |
| ExampleWidget.CalculateStreakValue | Example/SwiftCalWidget/SwiftCalWidget.swift:103-121 | the widget's streak is the example streak walk over the entry's records, 0 for an empty entry, and at most one per record |
| ExampleWidget.Cells | Example/SwiftCalWidget/SwiftCalWidget.swift:79-93 | the widget grid has one cell per record |
| ExampleWidget.Cell | Example/SwiftCalWidget/SwiftCalWidget.swift:80-93 | a record whose `monthInt` differs from the current one is a blank; any other shows its `dayInt` and study flag |
| ExampleWidget.CellsOnWindowQuery | Example/SwiftCalWidget/SwiftCalWidget.swift:40-44 | on the result of the widget's strict window fetch, a cell is blank exactly for the prefix days before `startOfMonth`, and every other cell shows its offset from `startOfMonth` plus one and the record's study flag |
| ExampleWidget.CellsMatchMonthOnlyCalendar | Example/SwiftCalWidget/SwiftCalWidget.swift:79-93 | the widget grid equals the month calendar's grid with `showOnlyMonthDays` on |
| CalendarView.MonthDaysContents | SwiftCal/CalendarView.swift:122-127 | creating a month's days makes `numberOfDaysInMonth` records, the k-th dated `startOfMonth + k`, all unstudied |
| CalendarView.MonthDaysCount | SwiftCal/CalendarView.swift:123-125 | a month's records hold exactly one record per date of the month and none for any other date |
| CalendarView.ViewContext.CreateMonthDays | SwiftCal/CalendarView.swift:122-127 | the loop appends exactly the month's records to the stored records and leaves the settings unchanged |
| CalendarView.CreateTwiceDuplicates | SwiftCal/CalendarView.swift:122-127 | creating the same month twice adds two records on each of its dates |
| CalendarView.ViewContext.OnAppear | SwiftCal/CalendarView.swift:104-118 | appends the previous, current and next months for an empty window fetch, the current and next months for 1 to 9 records, and nothing for 10 or more; creates a settings object with `showOnlyMonthDays` false only when none exists, and otherwise leaves the settings and the flag unchanged |
| CalendarView.AppearCreates | SwiftCal/CalendarView.swift:104-112 | the records an appearance creates: the previous, current and next months for an empty window fetch, the current and next months for 1 to 9 records, nothing for 10 or more |
| CalendarView.FirstAppearMaterialisesWindow | SwiftCal/CalendarView.swift:105-108 | an appearance with an empty window creates exactly one record for every date of the previous, current and next months and none elsewhere |
| CalendarView.FirstAppearCoversWindow | SwiftCal/CalendarView.swift:105-108 | after an appearance whose window fetch came back empty, the store holds exactly one record on every date of the padded window |
| CalendarView.EmptyWindowNoRecords | SwiftCal/CalendarView.swift:14-19 | an empty window fetch means the store holds no record on any date of the window |
| CalendarView.WindowInsideThreeMonths | SwiftCal/CalendarView.swift:14-19 | the padded window lies inside the previous, current and next months |
| CalendarView.MonthDaysInWindow | SwiftCal/CalendarView.swift:14-19 | every record of the current month is admitted by the window fetch |
| CalendarView.AppearFillsWindow | SwiftCal/CalendarView.swift:104-112 | an appearance that creates records leaves at least 28 records in the window |
| CalendarView.SecondAppearCreatesNothing | SwiftCal/CalendarView.swift:104-112 | a second appearance on the same day creates nothing, whatever the first one found |
| CalendarView.WindowFetchMembers | SwiftCal/CalendarView.swift:14-19 | the fetch result holds exactly the dated stored records inside the inclusive window, and as many as there are |
| CalendarView.InCalendarWindow | SwiftCal/CalendarView.swift:16-19 | the fetch predicate: from `startOfCalendarWithPrefixDays` through `endOfCalendarWithSuffixDays`, both ends included |
| CalendarView.IsWindowFetch | SwiftCal/CalendarView.swift:14-19 | the fetch result is the store's dated records inside the window, as a multiset, sorted by date oldest first |
| CalendarView.GridCells | SwiftCal/CalendarView.swift:60-75 | the grid has one cell per fetched record |
| CalendarView.Cell | SwiftCal/CalendarView.swift:61-74 | a cell shows a day of the month between 1 and 31 and the record's study flag, and is never blank when every day is shown |
| CalendarView.GridShowsMonth | SwiftCal/CalendarView.swift:60-74 | on a window fetch, a cell is a clear placeholder exactly when only the month's days are shown and the record lies outside the current month; every other cell shows the record's day of the month and study flag |
| CalendarView.ViewContext.SetShowOnlyMonthDays | SwiftCal/CalendarView.swift:35-44 | the toggle's setter changes only the first settings object, does nothing when there is none, and reading `showOnlyMonthDays` back gives the new value (false with no settings object) |
| CalendarView.ShowOnlyMonthDays | SwiftCal/CalendarView.swift:31-33 | the flag of the first settings object; it is true only when a settings object exists |

## Left out

- SwiftUI rendering is not modelled: fonts, colours, layout, sheets, toolbars, navigation titles and `monthFullName` (`SwiftCal/Date+Ext.swift:49-51`).
- Saving the context (`try? viewContext.save()`) and its failure path are not modelled, nor are the `print` messages of `createMonthDays(for:)`.
- Store wiring, persistence containers and preview data are not part of this model.
- Widget timeline plumbing (`SwiftCalWidget/`, `Widget/`, the widget bundle) is not part of this model.
- The clock (`Date()`, `.now`) is a parameter: `today` or `now`.
- Locale, time zones and daylight saving time are left out: the calendar is a fixed proleptic Gregorian calendar over whole days. `startOfDay` is the identity and `endOfDay` is the next day.
- The fallbacks `?? Date()` (`SwiftCal/CalendarView.swift:125`) and `?? expectedDate` (`SwiftCal/Calculations.swift:31`), and the force unwraps in `Date+Ext.swift`, are not modelled. Gregorian day arithmetic never fails, so those paths cannot be taken in the model.
- The fetch requests themselves are not modelled. Their results are parameters constrained to be the filtered records in date order (`IsDescendingFetch`, `IsWindowFetch`, `IsWindowQuery`). The order among records with the same date is left open.
- Assigning the result to `@State streakValue` and recomputing it on `onChange` (`SwiftCal/StreakView.swift:30-35`, `Example/SwiftCal/StreakView.swift:32`) are view plumbing and are not modelled.
- CalendarView.GridCells: requires every fetched record to be dated, as the source force-unwraps `day.date!`. A fetched record without a date would crash the view, but the window fetch never returns one (`CalendarView.GridShowsMonth` proves every record of a window fetch is dated).
- Calculations.GetStreakValue: takes the fetch result as a parameter, `None` for a failed fetch. That the result is the store's records up to the end of today, newest first, is the separate predicate `IsDescendingFetch`. `FetchedWalkInStore` states the store facts under that predicate; the method's own contract speaks of the fetched records only.
- ExampleWidget.CalculateStreakValue: calls the example `StreakView` walk instead of repeating its loop. The two loops are the same text.
- `SwiftCal/CalendarGridView.swift` is not part of this model. Its hide rule is the one `CalendarView.GridShowsMonth` states.
- The `showMonthCarots` setting is not modelled, since none of the modelled code reads it.
