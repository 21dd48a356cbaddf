# Date picker session model

A Dafny model of the calendar and paging logic of the Compose Material Dialogs
date picker, `DatePicker.kt`, with the rendering removed. The model covers the following parts.

- **Year range.** The range starts as 1900..2100. An `allowedDateValidator`
  narrows it to the first and last year that hold an accepted date. When no
  year holds one, it falls back to the current year alone.
- **Pager encoding.** A page number stands for a (year, month) pair: page
  `(year - first) * 12 + month - 1`, twelve pages per year.
- **Arrows.** `canGoNextPage(delta)` decides whether the previous and next
  arrows are enabled. The arrow click handlers keep the page inside the pager:
  a click that would take the page outside it is ignored, and the page stays
  unchanged.
- **Year picker.** Picking a year jumps twelve pages per year of difference.
- **Month grid.** `getDates` gives the number of leading blank cells and the
  month length. The grid marks each day cell selected, enabled and today.
- **Day clicks.** A click selects a day only when its cell is enabled.

## Layout

- `calendar.dfy`: the proleptic Gregorian calendar that `java.time.LocalDate`
  follows.
  - The ISO 8601 leap-year rule and month lengths.
  - The ordinal day of the year and its inverse, `withDayOfYear`.
  - The ISO 8601 day of the week, Monday = 1 to Sunday = 7. It is computed from a
    day count that starts at 0001-01-01, which was a Monday.
- `ranges.dfy`: Kotlin's `a..b`, `a until b` and `a downTo b` as sequences.
- `validation.dfy`: the validator as `Option<Date -> bool>`, and the `any`
  scans over the days of a month and of a year. The month scans come with the
  exact list of dates they hand to the validator.
- `year_range.dfy`: the year-range resolution.
- `paging.dfy`: page encoding and decoding, the year jump and `canGoNextPage`.
  The page scans of `canGoNextPage` come with the exact list of dates they hand
  to the validator. The file also holds a reference definition of the arrow
  rule the search evidently means.
- `month_grid.dfy`: `getDates`, the grid cells and the grid layout loop.
- `session.dfy`: class `DatePicker.Session`. It holds the mutable state of one
  open picker:
  - `selected` and `yearPickerShowing`, from `DatePickerState`;
  - the pager's `currentPage`;
  - the `canGoBackward` and `canGoForward` flags.

  Its methods are the constructor, the arrow, year and day click handlers,
  the header's year-picker toggle, the page-change effect that recomputes the
  arrows, and the queries for the month shown and its grid.
- `demos.dfy`: the demo application's two validators, and a validator that
  exposes the arrow search's year quirk.

## Behaviour as written

The model follows the code as written. In three places the code does something
other than what its own surroundings evidently intend. Each place has a
reference definition beside the as-written one.

- **No validator.** Without a validator `canGoNextPage` is true for both
  arrows on every page, including the first and the last. The click handlers
  (DatePicker.kt:358 and :382) move only to pages inside the pager, so pages
  outside it are never destinations. With a validator the search over
  `targetPage downTo 0` or `targetPage until pageCount` is empty past the ends,
  and the arrow is disabled there. Without one, only the click handlers' bounds
  checks keep the page in range (`Session.ClickPrev`, `Session.ClickNext`,
  `ArrowsAtEnds`). The reference rule `Paging.IntendedCanGoNextPage` disables
  an arrow whose target page does not exist, with or without a validator
  (`Paging.IntendedWithoutValidator`).
- **Search year.** The search's loop variable `months` runs over pages `k`,
  and the month it reads is `k % 12 + 1`. So the search evidently means the
  month that page `k` shows, `(first + k / 12, k % 12 + 1)`. The code instead
  takes the year from the *target* page, `first + targetPage / 12`, for every
  page it scans. In a range of several years, a month with an accepted date in
  another year can therefore be missed.
  - `Demos.MiddleYearDisablesArrows`: a validator accepting only January of
    `first` and January of `first + 2` gives a 36-page range. On page 13, in
    February of the middle year, both arrows are disabled.
  - `Paging.IntendedCanGoNextPage` reads each page `k` as the month it shows,
    and it enables both arrows there.
  - `Paging.SingleYearAgrees`: the two rules agree when the range is one year.
- **Leading blanks.** The day headers (DatePicker.kt:486-492) start at
  `firstDayOfWeek` and go on one day per column. Day 1, whose weekday is `w`,
  therefore belongs in column `(w - firstDayOfWeek + 7) % 7`, a number in 0..6
  (`MonthGrid.LeadingOffset`). Because `%` binds tighter than `-`, the code
  computes `w - firstDayOfWeek % 7`, and the grid emits `max(0, offset)` blanks.
  - For a Monday-first locale the two agree.
  - For a Sunday-first locale a month starting on Sunday gets a full row of
    blanks (`MonthGrid.SundayFirstBlankRow`, September 2024).
  - For a Saturday-first locale a month starting Monday to Friday gets no blanks
    instead of 2..6 (`MonthGrid.SaturdayFirstMissingBlanks`, July 2024).
  - `MonthGrid.BlanksCorrectIff`: the layout is right exactly when the
    offset lies in 0..6.
## Model

| member | source | states |
|---|---|---|
| Calendar.IsLeapYear | datetime/src/main/java/com/vanpra/composematerialdialogs/datetime/date/DatePicker.kt:559 | the Gregorian rule behind `isLeapYear`: no year outside the multiples of 4 is a leap year, every multiple of 4 that is not a century is, and a century is exactly when its century number is a multiple of 4 |
| Calendar.LengthOfYear | datetime/src/main/java/com/vanpra/composematerialdialogs/datetime/date/DatePicker.kt:128 | `lengthOfYear` is 365 or 366, and 366 exactly in leap years |
| Calendar.LengthOfMonth | datetime/src/main/java/com/vanpra/composematerialdialogs/datetime/date/DatePicker.kt:559 | a month has 28 to 31 days; February has 29 exactly in leap years, where a year is a leap year when divisible by 4 and not by 100 unless by 400; every other month has 30 or 31 |
| Calendar.DayOfYear | datetime/src/main/java/com/vanpra/composematerialdialogs/datetime/date/DatePicker.kt:127-129 | the ordinal day of a valid date lies between 1 and the length of its year |
| Calendar.DateOfYearDay | datetime/src/main/java/com/vanpra/composematerialdialogs/datetime/date/DatePicker.kt:129 | `withDayOfYear(n)` gives a valid date of the same year whose ordinal day is `n` |
| Calendar.DateOfYearDayRoundTrip | datetime/src/main/java/com/vanpra/composematerialdialogs/datetime/date/DatePicker.kt:127-129 | going from a date to its ordinal day and back with `withDayOfYear` gives the same date |
| Calendar.DayOfYearInjective | datetime/src/main/java/com/vanpra/composematerialdialogs/datetime/date/DatePicker.kt:127-129 | two valid dates of one year with the same ordinal day are equal |
| Calendar.DaysBeforeMonthGrows | datetime/src/main/java/com/vanpra/composematerialdialogs/datetime/date/DatePicker.kt:127-129 | every day of an earlier month comes before the first day of a later month |
| Calendar.IsoWeekday | datetime/src/main/java/com/vanpra/composematerialdialogs/datetime/date/DatePicker.kt:562 | `dayOfWeek.value` lies in 1..7 |
| Calendar.YearsFollowEachOther | datetime/src/main/java/com/vanpra/composematerialdialogs/datetime/date/DatePicker.kt:128 | reference fact pinning `lengthOfYear` to the day count that `dayOfWeek` (line 562) is computed from: consecutive years are `lengthOfYear` days apart |
| Calendar.NextDay | datetime/src/main/java/com/vanpra/composematerialdialogs/datetime/date/DatePicker.kt:562 | reference definition, not an operation of the code: the successor date, used to pin `dayOfWeek`; the day after a valid date is a valid date |
| Calendar.NextDayNumber | datetime/src/main/java/com/vanpra/composematerialdialogs/datetime/date/DatePicker.kt:562 | reference fact pinning `dayOfWeek`: the day after a date is exactly one day later in the day count, across month and year ends |
| Calendar.WeekdayAdvances | datetime/src/main/java/com/vanpra/composematerialdialogs/datetime/date/DatePicker.kt:562 | the day of the week cycles Monday to Sunday and back across every day boundary, including month and year ends |
| Calendar.WeekdayInMonth | datetime/src/main/java/com/vanpra/composematerialdialogs/datetime/date/DatePicker.kt:562 | in a month, day `d` falls `d - 1` weekdays, modulo 7, after the first |
| Calendar.WeekdayAnchors | datetime/src/main/java/com/vanpra/composematerialdialogs/datetime/date/DatePicker.kt:562 | the numbering matches the calendar: 1970-01-01 is a Thursday, 2000-01-01 a Saturday, 2024-09-01 a Sunday and 2024-07-01 a Monday |
| Ranges.Span | datetime/src/main/java/com/vanpra/composematerialdialogs/datetime/date/DatePicker.kt:128 | `lo..hi` lists `lo` to `hi` in order and holds exactly the integers between them |
| Ranges.Until | datetime/src/main/java/com/vanpra/composematerialdialogs/datetime/date/DatePicker.kt:271 | `lo until hi` lists `lo` to `hi - 1` in order and holds exactly those integers |
| Ranges.DownTo | datetime/src/main/java/com/vanpra/composematerialdialogs/datetime/date/DatePicker.kt:258 | `hi downTo lo` lists `hi` down to `lo` and holds exactly the integers between them |
| Validation.IsEnabled | datetime/src/main/java/com/vanpra/composematerialdialogs/datetime/date/DatePicker.kt:432 | `allowedDateValidator?.invoke(date) ?: true`: every date is enabled without a validator, and with one exactly the dates it accepts |
| Validation.AnyDay | datetime/src/main/java/com/vanpra/composematerialdialogs/datetime/date/DatePicker.kt:262-268 | the scan over given days of a month is true exactly when one of those dates is accepted |
| Validation.DayQueries | datetime/src/main/java/com/vanpra/composematerialdialogs/datetime/date/DatePicker.kt:262-268 | the validator is called on the dates of the given days, in order, up to and including the first accepted one; when none is accepted it is called on all of them |
| Validation.MonthScanMeaning | datetime/src/main/java/com/vanpra/composematerialdialogs/datetime/date/DatePicker.kt:261-268 | scanning a month's days upward or downward finds an accepted date exactly when the month holds one |
| Validation.AnyDayOfYear | datetime/src/main/java/com/vanpra/composematerialdialogs/datetime/date/DatePicker.kt:128-130 | the scan over ordinal days is true exactly when the date of one of them is accepted |
| Validation.YearScanMeaning | datetime/src/main/java/com/vanpra/composematerialdialogs/datetime/date/DatePicker.kt:126-131 | the per-year filter test is true exactly when some valid date of that year is accepted |
| Validation.YearHasAccepted | datetime/src/main/java/com/vanpra/composematerialdialogs/datetime/date/DatePicker.kt:126-131 | the filter test of one year is true exactly when the date of some ordinal day 1..`lengthOfYear` is accepted |
| Validation.YearHasAcceptedMonth | datetime/src/main/java/com/vanpra/composematerialdialogs/datetime/date/DatePicker.kt:126-131 | a year holds an accepted date exactly when one of its twelve months holds an accepted day |
| YearRanges.AcceptingYears | datetime/src/main/java/com/vanpra/composematerialdialogs/datetime/date/DatePicker.kt:125-131 | `filter` keeps exactly the years of the input that hold an accepted date |
| YearRanges.Min | datetime/src/main/java/com/vanpra/composematerialdialogs/datetime/date/DatePicker.kt:135 | `min()` of a non-empty list is an element no larger than any other |
| YearRanges.Max | datetime/src/main/java/com/vanpra/composematerialdialogs/datetime/date/DatePicker.kt:135 | `max()` of a non-empty list is an element no smaller than any other |
| YearRanges.ResolveOver | datetime/src/main/java/com/vanpra/composematerialdialogs/datetime/date/DatePicker.kt:124-136 | the range runs from the first to the last year of lo..hi that hold an accepted date, both of which hold one; when no year does, it is the current year alone; first <= last |
| YearRanges.ResolveYearRange | datetime/src/main/java/com/vanpra/composematerialdialogs/datetime/date/DatePicker.kt:120-137 | no validator gives 1900..2100; with a validator the result is the accepted-year hull of 1900..2100, or [today's year, today's year] when no year qualifies; first <= last always |
| YearRanges.ResolveOverIdempotent | datetime/src/main/java/com/vanpra/composematerialdialogs/datetime/date/DatePicker.kt:120-137 | resolving over the resolved range gives the same range back |
| YearRanges.EveryYearAccepted | datetime/src/main/java/com/vanpra/composematerialdialogs/datetime/date/DatePicker.kt:120-137 | when every year holds an accepted date, the range is not narrowed |
| Paging.InitialPage | datetime/src/main/java/com/vanpra/composematerialdialogs/datetime/date/DatePicker.kt:140 | the initial page encodes the selected date's month: divided by 12 it gives the years since `first`, its remainder by 12 gives the month - 1, and it is >= 0 exactly when the year is >= `first` |
| Paging.PageCount | datetime/src/main/java/com/vanpra/composematerialdialogs/datetime/date/DatePicker.kt:146 | the pager has twelve pages per year, a multiple of 12, and at least one page exactly when the range is non-empty |
| Paging.PageYear | datetime/src/main/java/com/vanpra/composematerialdialogs/datetime/date/DatePicker.kt:154 | the year of a page is the one whose block of twelve pages contains it |
| Paging.PageToYearMonth | datetime/src/main/java/com/vanpra/composematerialdialogs/datetime/date/DatePicker.kt:152-158 | a page decodes to a month 1..12 of a year >= first, and encoding that pair gives the page back |
| Paging.PageRoundTrip | datetime/src/main/java/com/vanpra/composematerialdialogs/datetime/date/DatePicker.kt:140-158 | encoding a month of the range as the initial page and decoding it gives the year and month back |
| Paging.InitialPageInRange | datetime/src/main/java/com/vanpra/composematerialdialogs/datetime/date/DatePicker.kt:140-146 | the initial page lies in [0, pageCount) exactly when the initial year lies in the range |
| Paging.PageInRange | datetime/src/main/java/com/vanpra/composematerialdialogs/datetime/date/DatePicker.kt:146-158 | every page of the pager decodes to a year of the range |
| Paging.YearJumpPage | datetime/src/main/java/com/vanpra/composematerialdialogs/datetime/date/DatePicker.kt:196-203 | the year picker's jump lands on the same month of the picked year, inside the pager whenever that year is in the range |
| Paging.MonthDays | datetime/src/main/java/com/vanpra/composematerialdialogs/datetime/date/DatePicker.kt:261-275 | the days tried in a month all lie in 1..lengthOfMonth |
| Paging.AnyPage | datetime/src/main/java/com/vanpra/composematerialdialogs/datetime/date/DatePicker.kt:258-282 | the search over pages is true exactly when some scanned page's month, read in the fixed year, holds an accepted day |
| Paging.PageQueries | datetime/src/main/java/com/vanpra/composematerialdialogs/datetime/date/DatePicker.kt:257-282 | the dates the nested `any` scans hand to the validator all lie in the one year given, at most 31 per scanned page |
| Paging.PageQueriesDecide | datetime/src/main/java/com/vanpra/composematerialdialogs/datetime/date/DatePicker.kt:258-282 | the search calls the validator on dates that are all rejected except possibly the last, and it answers true exactly when one of them is accepted |
| Paging.RejectedPrefix | datetime/src/main/java/com/vanpra/composematerialdialogs/datetime/date/DatePicker.kt:258-282 | `any` moving on past a month whose dates are all rejected decides from the months after it |
| Paging.PageQueriesFromScannedMonths | datetime/src/main/java/com/vanpra/composematerialdialogs/datetime/date/DatePicker.kt:258-282 | every date the search consults lies in the fixed year, in a month of a scanned page, and is a valid date |
| Paging.FromFewerPages | datetime/src/main/java/com/vanpra/composematerialdialogs/datetime/date/DatePicker.kt:258-282 | dates from the months of fewer pages are from the months of all the pages, and stay so when more such dates are put in front |
| Paging.SearchedPages | datetime/src/main/java/com/vanpra/composematerialdialogs/datetime/date/DatePicker.kt:258-271 | the pages scanned are `targetPage downTo 0` backward and `targetPage until pageCount` forward, and none is negative when the search is non-empty |
| Paging.CanGoNextPage | datetime/src/main/java/com/vanpra/composematerialdialogs/datetime/date/DatePicker.kt:253-286 | `canGoNextPage(delta)` as written: true without a validator; with one, false when the target page is before page 0 or, going forward, at or past the page count; its full meaning is CanGoNextPageMeaning |
| Paging.Search | datetime/src/main/java/com/vanpra/composematerialdialogs/datetime/date/DatePicker.kt:257-283 | the search from the target page is empty, and false, before page 0 going back and at or past the page count going forward; its full meaning is SearchMeaning |
| Paging.CanGoNextPageMeaning | datetime/src/main/java/com/vanpra/composematerialdialogs/datetime/date/DatePicker.kt:253-286 | with a validator, an arrow is enabled exactly when some scanned page k has an accepted day in month k % 12 + 1 of the target page's year |
| Paging.SearchMeaning | datetime/src/main/java/com/vanpra/composematerialdialogs/datetime/date/DatePicker.kt:257-283 | the search in a fixed year is true exactly when some scanned page's month holds an accepted day |
| Paging.CanGoNextPageAtEnds | datetime/src/main/java/com/vanpra/composematerialdialogs/datetime/date/DatePicker.kt:253-286 | no validator enables both arrows on every page; with a validator, -1 on page 0 and +1 on the last page are disabled |
| Paging.ConsultedDates | datetime/src/main/java/com/vanpra/composematerialdialogs/datetime/date/DatePicker.kt:253-286 | the dates handed to the validator: the arrow is enabled exactly when one of them is accepted, and all but the last are rejected |
| Paging.SearchQueries | datetime/src/main/java/com/vanpra/composematerialdialogs/datetime/date/DatePicker.kt:257-283 | the dates a fixed-year search consults, all rejected but the last, and one accepted exactly when the search succeeds |
| Paging.ConsultedDatesInTargetYear | datetime/src/main/java/com/vanpra/composematerialdialogs/datetime/date/DatePicker.kt:258-282 | every consulted date is valid, has year first + targetPage / 12 and month k % 12 + 1 of a scanned page k; no other year is consulted |
| Paging.ScannedQueries | datetime/src/main/java/com/vanpra/composematerialdialogs/datetime/date/DatePicker.kt:258-282 | the dates of a fixed-year search are valid dates of that year, in months of scanned pages |
| Paging.AnyEnabledPage | datetime/src/main/java/com/vanpra/composematerialdialogs/datetime/date/DatePicker.kt:253-286 | the reference scan is true exactly when one of the given pages shows a month with an enabled day |
| Paging.IntendedCanGoNextPage | datetime/src/main/java/com/vanpra/composematerialdialogs/datetime/date/DatePicker.kt:253-286 | reference rule, reading page `k` as the month it shows (the month `k % 12 + 1` the search already takes, in year `first + k / 12`): an arrow is enabled exactly when a page in its direction, inside the pager, shows a month with an enabled day |
| Paging.EnabledPagesMeaning | datetime/src/main/java/com/vanpra/composematerialdialogs/datetime/date/DatePicker.kt:253-286 | the reference scan over the searched pages is exactly the existence of a scanned page, inside the pager, with an enabled day |
| Paging.IntendedWithoutValidator | datetime/src/main/java/com/vanpra/composematerialdialogs/datetime/date/DatePicker.kt:255-256 | without a validator, the reference rule enables an arrow exactly when its target page exists; unlike the code, it disables the arrows at the ends |
| Paging.FirstYearPage | datetime/src/main/java/com/vanpra/composematerialdialogs/datetime/date/DatePicker.kt:152-158 | a page of the first year shows an enabled day exactly when its month of the first year holds an accepted day |
| Paging.SingleYearAgrees | datetime/src/main/java/com/vanpra/composematerialdialogs/datetime/date/DatePicker.kt:253-286 | when the range is one year, the code's rule and the reference rule agree for both arrows on every page |
| MonthGrid.GetDates | datetime/src/main/java/com/vanpra/composematerialdialogs/datetime/date/DatePicker.kt:558-565 | the second component is the month length; the offset is in [0,6] for Monday-first, [1,7] for Sunday-first and never outside [-5,7]; it is the offset that puts day 1 under its weekday, or differs from it by exactly 7 |
| MonthGrid.ColumnWeekday | datetime/src/main/java/com/vanpra/composematerialdialogs/datetime/date/DatePicker.kt:486-492 | the header shows a weekday 1..7 in every column, starting with the first day of the week |
| MonthGrid.LeadingOffset | datetime/src/main/java/com/vanpra/composematerialdialogs/datetime/date/DatePicker.kt:558-565 | the column of day 1 under headers that start at `firstDayOfWeek` (lines 486-492) lies in 0..6, and the column it gives day 1 is headed by day 1's weekday |
| MonthGrid.WrittenOffset | datetime/src/main/java/com/vanpra/composematerialdialogs/datetime/date/DatePicker.kt:562 | the offset as written is in [-5,7], in [0,6] for Monday-first and [1,7] for Sunday-first; it is the intended column or differs from it by exactly 7; its max(0, offset) blanks are right exactly when it lies in 0..6 |
| MonthGrid.ColumnOf | datetime/src/main/java/com/vanpra/composematerialdialogs/datetime/date/DatePicker.kt:486-492 | reference definition pinning the header order of `firstDayOfWeek.plus(c)`: the column 0..6 that a weekday falls in is headed by that weekday |
| MonthGrid.ColumnShift | datetime/src/main/java/com/vanpra/composematerialdialogs/datetime/date/DatePicker.kt:423-427 | moving k cells on from a weekday's column reaches the column of the weekday k days later |
| MonthGrid.DaysSitUnderTheirWeekday | datetime/src/main/java/com/vanpra/composematerialdialogs/datetime/date/DatePicker.kt:423-427 | after the intended blanks every day of the month sits in the column headed by its own weekday |
| MonthGrid.BlanksCorrectIff | datetime/src/main/java/com/vanpra/composematerialdialogs/datetime/date/DatePicker.kt:423-425 | the `max(0, offset)` blanks emitted equal the intended offset exactly when the getDates offset lies in 0..6 |
| MonthGrid.MondayFirstAgrees | datetime/src/main/java/com/vanpra/composematerialdialogs/datetime/date/DatePicker.kt:562 | for Monday-first weeks the getDates offset is the intended one |
| MonthGrid.SundayFirstBlankRow | datetime/src/main/java/com/vanpra/composematerialdialogs/datetime/date/DatePicker.kt:562 | Sunday-first, September 2024 gets offset 7, a full row of blanks, where 0 is intended |
| MonthGrid.SaturdayFirstMissingBlanks | datetime/src/main/java/com/vanpra/composematerialdialogs/datetime/date/DatePicker.kt:562 | Saturday-first, July 2024 gets offset -5, so no blanks, where 2 are intended |
| MonthGrid.Blanks | datetime/src/main/java/com/vanpra/composematerialdialogs/datetime/date/DatePicker.kt:423 | the number of blank cells emitted for an offset, `max(0, offset)`; LayOut's blank loop is proved to emit exactly this many, and BlanksCorrectIff compares it with the intended column |
| MonthGrid.DayCell | datetime/src/main/java/com/vanpra/composematerialdialogs/datetime/date/DatePicker.kt:418-433 | a day cell carries its day, is selected exactly when its date is the selected date, enabled exactly when the validator allows its date, and today exactly when its date is today |
| MonthGrid.GridCells | datetime/src/main/java/com/vanpra/composematerialdialogs/datetime/date/DatePicker.kt:423-427 | the grid has max(0, offset) blanks followed by exactly numDays day cells, for days 1, 2, ... in order |
| MonthGrid.MonthCells | datetime/src/main/java/com/vanpra/composematerialdialogs/datetime/date/DatePicker.kt:414-427 | the grid of the month shown holds between its month length and 7 more cells, and ends with one cell per day of the month, in order |
| MonthGrid.LayOut | datetime/src/main/java/com/vanpra/composematerialdialogs/datetime/date/DatePicker.kt:422-437 | the blank loop and the day items produce exactly that grid |
| MonthGrid.CalendarCells | datetime/src/main/java/com/vanpra/composematerialdialogs/datetime/date/DatePicker.kt:416-437 | the calendar view lays out the grid for the offset and month length of getDates |
| MonthGrid.CellEnabledIff | datetime/src/main/java/com/vanpra/composematerialdialogs/datetime/date/DatePicker.kt:431-433 | a day cell is enabled exactly when the validator is absent or accepts its date, and marked today exactly when its date is today |
| MonthGrid.CellSelectedIff | datetime/src/main/java/com/vanpra/composematerialdialogs/datetime/date/DatePicker.kt:418-430 | a day cell is marked selected exactly when its date is the selected date |
| MonthGrid.AtMostOneSelected | datetime/src/main/java/com/vanpra/composematerialdialogs/datetime/date/DatePicker.kt:418-430 | no two cells of a month grid are both marked selected |
| MonthGrid.SelectedDayIsMarked | datetime/src/main/java/com/vanpra/composematerialdialogs/datetime/date/DatePicker.kt:418-430 | when the selected date is in the month shown, its cell is marked selected |
| DatePicker.Session.constructor | datetime/src/main/java/com/vanpra/composematerialdialogs/datetime/date/DatePicker.kt:96-141 | opening the picker resolves the range, selects the initial date, closes the year picker, starts on the initial date's month and computes both arrows |
| DatePicker.Session.ViewDate | datetime/src/main/java/com/vanpra/composematerialdialogs/datetime/date/DatePicker.kt:152-158 | the month shown is a valid first-of-month date of a year in the range, and it encodes to the current page |
| DatePicker.Session.PageChanged | datetime/src/main/java/com/vanpra/composematerialdialogs/datetime/date/DatePicker.kt:297-303 | on every page change both arrow flags are recomputed from canGoNextPage(-1) and canGoNextPage(1) |
| DatePicker.Session.ClickPrev | datetime/src/main/java/com/vanpra/composematerialdialogs/datetime/date/DatePicker.kt:351-363 | the page moves back by exactly one only when the arrow is enabled and page - 1 >= 0, otherwise nothing changes; the page stays in [0, pageCount) and the arrows stay fresh |
| DatePicker.Session.ClickNext | datetime/src/main/java/com/vanpra/composematerialdialogs/datetime/date/DatePicker.kt:375-387 | the page moves on by exactly one only when the arrow is enabled and page + 1 < pageCount, otherwise nothing changes; the page stays in [0, pageCount) and the arrows stay fresh |
| DatePicker.Session.PickYear | datetime/src/main/java/com/vanpra/composematerialdialogs/datetime/date/DatePicker.kt:196-206 | picking a year of the range shows the same month of that year, leaves the page alone when it is the shown year, and always closes the year picker |
| DatePicker.Session.ToggleYearPicker | datetime/src/main/java/com/vanpra/composematerialdialogs/datetime/date/DatePicker.kt:315 | the header click toggles the year picker |
| DatePicker.Session.ClickDay | datetime/src/main/java/com/vanpra/composematerialdialogs/datetime/date/DatePicker.kt:431-457 | the clicked date becomes the selection only when it is enabled, so every selection a click makes is a valid date the validator accepts |
| DatePicker.Session.Grid | datetime/src/main/java/com/vanpra/composematerialdialogs/datetime/date/DatePicker.kt:416-437 | the grid of the current page is the month grid of the month shown |
| DatePicker.ArrowsAtEnds | datetime/src/main/java/com/vanpra/composematerialdialogs/datetime/date/DatePicker.kt:253-303 | with a validator the arrows at the ends of the pager are disabled; without one both arrows are enabled on every page |
| Demos.WeekdayEveryMonth | app/src/main/java/com/vanpra/composematerialdialogdemos/demos/DateTimeDialog.kt:106-108 | every month holds a weekday among its first three days |
| Demos.WeekdaysKeepDefaultRange | app/src/main/java/com/vanpra/composematerialdialogdemos/demos/DateTimeDialog.kt:106-108 | with the weekday validator the range stays 1900..2100 |
| Demos.WeekdayArrows | app/src/main/java/com/vanpra/composematerialdialogdemos/demos/DateTimeDialog.kt:106-108 | with the weekday validator an arrow is enabled exactly when its target page exists |
| Demos.SpringWindowMonths | app/src/main/java/com/vanpra/composematerialdialogdemos/demos/DateTimeDialog.kt:117-120 | the February 10 to April 20 window has accepted days exactly in February, March and April of the current year |
| Demos.SpringWindowRange | app/src/main/java/com/vanpra/composematerialdialogdemos/demos/DateTimeDialog.kt:117-120 | with the window validator the range is the current year alone |
| Demos.SpringWindowForward | app/src/main/java/com/vanpra/composematerialdialogdemos/demos/DateTimeDialog.kt:117-120 | in that one-year range the next arrow is enabled exactly on January to March |
| Demos.SpringWindowBackward | app/src/main/java/com/vanpra/composematerialdialogdemos/demos/DateTimeDialog.kt:117-120 | in that one-year range the previous arrow is enabled exactly on March to December |
| Demos.TwoJanuariesRange | datetime/src/main/java/com/vanpra/composematerialdialogs/datetime/date/DatePicker.kt:120-137 | a validator accepting January of first and first + 2 gives the range first..first + 2, 36 pages |
| Demos.MiddleYearSearch | datetime/src/main/java/com/vanpra/composematerialdialogs/datetime/date/DatePicker.kt:258-282 | a search whose target page is in the middle year finds no accepted day |
| Demos.JanuaryPage | datetime/src/main/java/com/vanpra/composematerialdialogs/datetime/date/DatePicker.kt:152-158 | pages 0 and 24 show the two accepted Januaries |
| Demos.MiddleYearDisablesArrows | datetime/src/main/java/com/vanpra/composematerialdialogs/datetime/date/DatePicker.kt:258-282 | on page 13 both arrows of the code are disabled while the reference rule enables both |

## Left out

- Rendering is not modelled: Compose layout, modifiers, colours, text styles, icons, the pager and grid composables, and the slide animations.
- Coroutine launches and animated scrolling are not modelled. A scroll is an instant assignment of `currentPage`.
- The `println` calls inside the validator search are output only and are left out.
- Locale lookups are left out: month names, day-of-week header labels, header date formatting and the `WeekFields` lookup. The first day of the week is an input in 1..7.
- `LocalDate.now()` is a clock read. The current year (range fallback) and today's date (grid marks) are parameters.
- The `onDateChange` callback wiring, the positive button and `DisposableEffect` are left out.
- The year picker's grid scroll position and `DatePickerState`'s colours are UI and are left out.
- `LaunchedEffect` timing: the flags start as `false` and are recomputed after the first composition. The model computes them when the session opens.
- Validator exceptions are not modelled: validators are total, pure predicates on dates. The demo validators test `ValidDate` because a `LocalDate` is always valid.
- `LocalDate`'s year limits and Kotlin `Int` overflow in the page arithmetic are not modelled: years and pages are unbounded integers.
- DatePicker.Session.constructor: requires the initial year to lie in the resolved range. The code does not check the initial date against the range or the validator, and the pager library's handling of an out-of-range initial page is not part of this model.
- Paging.CanGoNextPage: requires a page >= 0. The pager never has a negative current page.
- DatePicker.Session.ClickDay: takes the day number of the month shown rather than a grid cell. Only day cells are clickable.
