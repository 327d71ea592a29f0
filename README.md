# Holiday calendar — a Dafny model

This project models the core of a React holiday calendar. The calendar shows one month as a
grid of weeks, Sunday first. Days outside the shown month are left blank. Each day cell
lists the public holidays of that date. The user moves a month (month view) or a year
(year view) at a time, or jumps back to today. A control bar carries the month-and-year
title, the Year and Month view buttons, the country label and a year drop-down. A country
picker narrows the country list as the user types.

Modules, one concept each:

- `Seqs`: the array operations the components use (`filter`, `find`, `flat`), stated once
  over sequences.
- `CivilDate`: proleptic Gregorian dates and the date-fns operations the calendar calls.
  These are `addDays`, `startOfMonth`/`endOfMonth`, `startOfWeek`/`endOfWeek` with
  Sunday as the first day, and `addMonths`/`subMonths`/`addYears`/`subYears`.
  - Leap years and month lengths follow section 5.7 and Appendix C of RFC 3339.
  - The day of the week follows the formula of Appendix B of RFC 3339, with Sunday = 0.
    The model proves that each day moves the weekday on by one.
- `DateFormat`: the `format` patterns `yyyy-MM-dd`, `d` and `MMMM yyyy`, and reading a
  `yyyy-MM-dd` full-date back into a date.
- `Holidays`: the holiday overlay that selects the holidays of one cell.
- `Calendar`, the grid and the navigation state:
  - The grid builder is two methods: the `while` loop that walks the days and the
    `forEach` loop that chunks them into weeks. Both are proved against specification
    functions, and the grid's shape is proved about those functions.
  - The navigation state is the class `CalendarState`, with `currentDate` and `view`.
- `CalendarTable`: the rendering of headers and cells: background, day number, holiday
  names and the click payload.
- `CountrySelector`: the case-insensitive search filter, the lookup of the selected
  option, and the class `CountrySelectorState` holding `searchValue`.
- `CalendarControls`: the year options, the location label, the title, the view buttons,
  and the dispatch of the bar's clicks to the calendar's handlers.

Inputs from outside the component:

- The clock read (`new Date()`, `isToday`) is a `today` parameter.
- The fetched holidays are an input sequence.
- The click callback is modelled as the string the cell passes to it.

## Model

| member | source | states |
|---|---|---|
| Seqs.Filter | src/components/CountrySelector.tsx:46-48 | the result keeps exactly the elements that satisfy the predicate and is no longer than the input |
| Seqs.FilterConcat | src/components/CalendarTable.tsx:69-74 | filtering distributes over concatenation, so the filtered elements keep their input order |
| Seqs.FilterCount | src/components/CalendarTable.tsx:69-74 | each kept element appears as often as in the input; each dropped one not at all |
| Seqs.Find | src/components/CountrySelector.tsx:64 | none exactly when no element satisfies the predicate; otherwise the element at the first index that does |
| Seqs.Flatten | src/tests/CalendarTable.test.tsx:46 | `flat()`: every cell of every row is in the result, and every element of the result comes from some row |
| Seqs.FlattenUniformAt | src/components/Calendar.tsx:30-44 | with rows of width w, row k's cell j is at position k*w+j of the flattened grid |
| CivilDate.DaysInMonth | src/components/Calendar.tsx:18 | month lengths are 28 to 31; 29 exactly for February of a leap year, 28 for February otherwise |
| CivilDate.AddDays | src/components/Calendar.tsx:27 | `addDays` gives a valid date; AddDaysCompose, AddDaysBackForth, AddDaysLater and AddDaysInMonth state how it moves |
| CivilDate.DayOfWeek | src/components/Calendar.tsx:19-20 | the weekday is a number from 0 to 6; DayOfWeekNext and KnownTuesday tie it to the calendar, with Sunday as 0, the day `weekStartsOn: 0` counts from |
| CivilDate.NextDay | src/components/Calendar.tsx:27 | `addDays(day, 1)` gives a valid, strictly later date; it stays in the month before the month's last day and is the 1st after it |
| CivilDate.PrevDay | src/components/Calendar.tsx:19 | the day before is valid, strictly earlier, and its next day is the original date |
| CivilDate.AddDaysCompose | src/components/Calendar.tsx:25-28 | adding a days and then b days is adding a+b days |
| CivilDate.AddDaysBackForth | src/components/Calendar.tsx:19 | going back k days and forward k days returns to the start date |
| CivilDate.AddDaysInMonth | src/components/Calendar.tsx:25-28 | inside a month, adding n days adds n to the day number |
| CivilDate.DayOfWeekNext | src/components/Calendar.tsx:19-20 | the weekday of the next day is one more, modulo 7, for every year |
| CivilDate.DayOfWeekForward | src/components/Calendar.tsx:20 | n days on, the weekday is n places further round the week |
| CivilDate.DayOfWeekBackward | src/components/Calendar.tsx:19 | n days back, the weekday is n places back round the week |
| CivilDate.DayOfWeekAddDays | src/components/Calendar.tsx:19-20 | adding n days (n of either sign) moves the weekday n places round the week |
| CivilDate.StartOfMonth | src/components/Calendar.tsx:17 | the 1st of the same month |
| CivilDate.EndOfMonth | src/components/Calendar.tsx:18 | a valid day of the same month that no valid day of that month comes after |
| CivilDate.StartOfWeek | src/components/Calendar.tsx:19 | `startOfWeek` gives a Sunday on or before the date, from which the date is reached in DayOfWeek (at most six) days |
| CivilDate.EndOfWeek | src/components/Calendar.tsx:20 | `endOfWeek` gives a Saturday on or after the date, at most six days after it |
| CivilDate.SameMonth | src/components/Calendar.tsx:34 | `isSameMonth`: two valid dates are in the same month exactly when their month indices agree |
| CivilDate.AddMonths | src/components/Calendar.tsx:56 | the result is valid, n months on, with the day clamped to the target month's length |
| CivilDate.SubMonths | src/components/Calendar.tsx:48 | `subMonths`: the month index moves back by n, the day is clamped to the target month's length |
| CivilDate.AddYears | src/components/Calendar.tsx:58 | the result is valid, n years on, in the same month, with the day clamped |
| CivilDate.SubYears | src/components/Calendar.tsx:50 | `subYears`: n years back, same month, the day clamped |
| CivilDate.AddOneMonth | src/components/Calendar.tsx:54-57 | one month on: December rolls over to January of the next year, other months go to the next month |
| CivilDate.SubOneMonth | src/components/Calendar.tsx:46-49 | one month back: January rolls back to December of the previous year |
| CivilDate.AddMonthsRoundTrip | src/components/Calendar.tsx:46-60 | n months on and n back returns to the same month, and the day can only get smaller; it comes back unchanged when it is at most 28 |
| DateFormat.DecimalValue | src/components/CalendarTable.tsx:63 | reading the decimal numeral of n gives n |
| DateFormat.FormatYear | src/components/Calendar.tsx:79 | `yyyy` writes at least four digits whose value is the year of era; exactly four up to year of era 9999 |
| DateFormat.FormatYearInjective | src/components/Calendar.tsx:79 | two years are written alike exactly when their years of era are equal |
| DateFormat.YearZeroLikeYearOne | src/components/Calendar.tsx:79 | year 0 (1 BC) is written like year 1 |
| DateFormat.Pad2 | src/components/CalendarTable.tsx:55 | `MM`/`dd` write two digits whose value is the number |
| DateFormat.FormatIso | src/components/CalendarTable.tsx:55 | `yyyy-MM-dd` is at least 10 characters, exactly 10 when the year of era is at most 9999 |
| DateFormat.FormatIsoInjective | src/components/CalendarTable.tsx:72-73 | two dates are written alike exactly when they agree in month, day and year of era |
| DateFormat.FormatDayOfMonth | src/components/CalendarTable.tsx:63 | `d` writes one or two digits, no leading zero, whose value is the day |
| DateFormat.FormatMonthYear | src/components/CalendarControls.tsx:89-93 | `MMMM yyyy`: the text before the first space is the month's name, the text after it the formatted year |
| DateFormat.FormatMonthYearIdentifiesMonth | src/components/CalendarControls.tsx:90-92 | two titles are equal exactly when month and year of era agree; from year 1 on, exactly when the dates share a month |
| DateFormat.ParseIso | src/components/CalendarTable.tsx:72 | a parsed full-date is a valid date of years 0 to 9999 |
| DateFormat.ParseIsoParts | src/components/CalendarTable.tsx:72 | a full-date written from valid parts reads back as those parts |
| DateFormat.ParseFormatIso | src/components/CalendarTable.tsx:72-73 | for years 1 to 9999, reading the formatted date gives the date back |
| Holidays.Normalise | src/components/CalendarTable.tsx:72 | a normal form exists exactly for well-formed dates; it is 10 characters and, from year 1 on, reads back as the same date |
| Holidays.MatchesIff | src/components/Calendar.tsx:113 | a holiday matches a cell exactly when its date agrees with the cell's in month, day and year of era; from year 2 on, exactly when it is the cell's date |
| Holidays.HolidaysOn | src/components/CalendarTable.tsx:69-74 | the cell's holidays are exactly the fetched holidays whose date agrees with the cell's in month, day and year of era; from year 2 on, those whose date is the cell's date |
| Holidays.HolidaysOnConcat | src/components/CalendarTable.tsx:69-74 | the overlay is a stable filter: it splits along any split of the holiday list |
| Holidays.HolidaysOnCount | src/components/CalendarTable.tsx:69-74 | a matching holiday is shown as many times as it was fetched; no other is shown |
| Holidays.MalformedShownNowhere | src/components/CalendarTable.tsx:72 | a holiday whose date is not a well-formed full-date is shown in no cell |
| Holidays.FirstOfFebruaryExample | src/tests/CalendarTable.test.tsx:15-18 | of the holidays of 1 and 5 February 2022, the cell of 1 February shows only the first |
| Holidays.YearZeroHolidayExample | src/components/CalendarTable.tsx:72-73 | a holiday dated in year 0 shows in the cell of the same day in year 1 |
| Calendar.WalkDays | src/components/Calendar.tsx:22-28 | the loop collects exactly the days from the start date to the end date, in order |
| Calendar.DateRangeWalk | src/components/Calendar.tsx:25-28 | walking n days on from d collects n+1 days, the i-th being d plus i days |
| Calendar.MarkMonth | src/components/Calendar.tsx:33-39 | one cell per day; a cell is a day exactly when that day is in the shown month, and then it is that day |
| Calendar.ChunkWeeks | src/components/Calendar.tsx:30-44 | all rows have 7 cells, there are |days|/7 of them, and read in order they are the marked days; an incomplete last row is dropped |
| Calendar.RowCount | src/components/Calendar.tsx:17-28 | a month needs 4 to 6 rows, just enough to hold the leading blanks and all its days |
| Calendar.GridSpan | src/components/Calendar.tsx:19-20 | the grid's Saturday is 7·rows − 1 days after its Sunday |
| Calendar.GridDays | src/components/Calendar.tsx:17-28 | the walked days are 7·rows consecutive days from a Sunday to a Saturday |
| Calendar.GridDayAt | src/components/Calendar.tsx:33-39 | a walked day becomes a cell when it is in the shown month and a blank otherwise; the cells are the days of the month in order |
| Calendar.MonthCellAt | src/components/Calendar.tsx:17-44 | cell i of the grid is blank before the first of the month, the (i − lead + 1)-th of the month inside it, and blank after its last day; it sits in the column of its weekday |
| Calendar.MonthCellsShowMonth | src/components/Calendar.tsx:17-44 | read in order, the non-blank cells are exactly days 1 to N of the shown month |
| Calendar.BuildWeeks | src/components/Calendar.tsx:17-44 | the built weeks are RowCount rows of 7; cell (k, j) is the expected cell 7k+j; flattened, they are the month's cells |
| Calendar.CellColumnIsWeekday | src/components/Calendar.tsx:93-109 | every day sits in the column of its weekday, Sunday first |
| Calendar.MonthCellsOfSameMonth | src/components/Calendar.tsx:17-20 | the grid depends only on the shown month, not on the day within it |
| Calendar.MonthShowsDay | src/components/Calendar.tsx:33-39 | a month's grid shows a date exactly when it is a valid day of that month |
| Calendar.LeapFebruary | src/components/Calendar.tsx:18 | February's grid shows a 29th exactly in leap years |
| Calendar.PrevDate | src/components/Calendar.tsx:46-52 | `handlePrev`'s date: one month index back in the month view, one year back with the same month in the year view; the day clamped |
| Calendar.NextDate | src/components/Calendar.tsx:54-60 | `handleNext`'s date: one month index on in the month view, one year on with the same month in the year view; the day clamped |
| Calendar.NavigationSteps | src/components/Calendar.tsx:46-60 | in month view prev/next move one month with year rollover at January/December; in year view they move one year and keep the month |
| Calendar.NextAfterPrev | src/components/Calendar.tsx:46-60 | next after prev, in either view, returns to the same month and grid; the day can only be clamped down |
| Calendar.PrevAfterNext | src/components/Calendar.tsx:46-60 | prev after next, in either view, returns to the same month and grid; the day can only be clamped down |
| Calendar.CalendarState.constructor | src/components/Calendar.tsx:14-15 | the state starts on today's date in the month view |
| Calendar.CalendarState.HandlePrev | src/components/Calendar.tsx:46-52 | the date becomes the previous month's or year's, by view; the view is unchanged |
| Calendar.CalendarState.HandleNext | src/components/Calendar.tsx:54-60 | the date becomes the next month's or year's, by view; the view is unchanged |
| Calendar.CalendarState.HandleViewChange | src/components/Calendar.tsx:62-64 | the view becomes the requested one; the date is unchanged |
| Calendar.CalendarState.HandleGoToToday | src/components/Calendar.tsx:66-68 | the date becomes today; the view is unchanged |
| Calendar.CalendarState.Weeks | src/components/Calendar.tsx:17-44 | the state's grid is the month cells of its current date, in rows of 7 |
| Calendar.PrevThenNext | src/components/Calendar.tsx:46-60 | pressing prev then next leaves the view, the month and the rendered grid as they were |
| CalendarTable.Classify | src/components/CalendarTable.tsx:44-48 | blank exactly for a null cell, today exactly for today's cell, ordinary for every other day |
| CalendarTable.BackgroundClassInjective | src/components/CalendarTable.tsx:44-48 | the three backgrounds have three different class strings |
| CalendarTable.RenderCell | src/components/CalendarTable.tsx:38-86 | the background and classes are those Classify picks; day number, holiday block and click exist exactly for non-null cells |
| CalendarTable.RenderCellDayNumber | src/components/CalendarTable.tsx:61-65 | a day's number is one or two digits, with no leading zero, whose value is the day of the month |
| CalendarTable.RenderCellClick | src/components/CalendarTable.tsx:51-58 | from year 1 to 9999, the string a click reports reads back as the cell's date |
| CalendarTable.CellHolidayNames | src/components/CalendarTable.tsx:67-85 | a day's cell lists exactly the names of the holidays whose date agrees with its own, in fetched order |
| CalendarTable.RenderTable | src/components/CalendarTable.tsx:36-37 | one rendered row per week, in order |
| CalendarTable.RenderRow | src/components/CalendarTable.tsx:38-86 | one rendered cell per element of the week, in order |
| CalendarTable.RenderedCellCount | src/tests/CalendarTable.test.tsx:35-47 | the table has as many cells as the flattened weeks, whatever the row lengths |
| CalendarTable.RenderMonthCell | src/components/CalendarTable.tsx:23-66 | on a built grid, a cell is blank exactly outside the month, its number is its place in the month, and its column is its weekday |
| CalendarTable.KnownTuesday | src/components/CalendarTable.tsx:23 | 1 February 2022 falls under the `Tue` header |
| CalendarTable.DayNumberOne | src/tests/CalendarTable.test.tsx:59 | a cell's number reads `1` exactly on the first of a month |
| CalendarTable.FebruaryCellCount | src/tests/CalendarTable.test.tsx:21-47 | the test table has 7 headers and 14 cells |
| CalendarTable.FebruaryClickExample | src/tests/CalendarTable.test.tsx:49-63 | clicking 1 February 2022 reports `2022-02-01`, whatever the holidays |
| CalendarTable.FebruaryNamesExample | src/tests/CalendarTable.test.tsx:15-18 | that cell lists `Holiday 1` only |
| CalendarTable.FebruaryDayOneExample | src/tests/CalendarTable.test.tsx:59 | exactly one cell of the test table reads `1`, the first of the first row, whatever the holidays |
| CountrySelector.ToLower | src/components/CountrySelector.tsx:47 | same length, each character lower-cased, no upper-case letter left |
| CountrySelector.ToLowerIdempotent | src/components/CountrySelector.tsx:47 | lower-casing twice is lower-casing once |
| CountrySelector.Includes | src/components/CountrySelector.tsx:47 | `includes` always finds the empty text and never a text longer than the label |
| CountrySelector.IncludesIff | src/components/CountrySelector.tsx:47 | `includes` holds exactly when the text is the slice of the label at some position |
| CountrySelector.FilteredOptions | src/components/CountrySelector.tsx:46-48 | the offered options are exactly the given ones whose lower-cased label contains the lower-cased search |
| CountrySelector.FilteredEmptySearch | src/components/CountrySelector.tsx:40-48 | with an empty search every option is offered, in order |
| CountrySelector.FilteredIgnoresCase | src/components/CountrySelector.tsx:46-48 | a search and its lower-case form offer the same options |
| CountrySelector.FilteredNarrows | src/components/CountrySelector.tsx:46-48 | typing more never brings back an option that was filtered out |
| CountrySelector.FilteredIdempotent | src/components/CountrySelector.tsx:46-48 | filtering the offered options again changes nothing |
| CountrySelector.FilteredKeepsOrder | src/components/CountrySelector.tsx:46-48 | the filter splits along any split of the options, so it keeps their order |
| CountrySelector.SelectedOption | src/components/CountrySelector.tsx:64 | none for null or for a value no option has; otherwise the first option with that value |
| CountrySelector.CountrySelectorState.constructor | src/components/CountrySelector.tsx:40 | the search starts empty |
| CountrySelector.CountrySelectorState.HandleSearchChange | src/components/CountrySelector.tsx:42-44 | the search becomes the typed text |
| CountrySelector.CountrySelectorState.Offered | src/components/CountrySelector.tsx:65 | the select offers only given options |
| CountrySelector.OpenSelector | src/components/CountrySelector.tsx:40-48 | a new selector has an empty search and offers every option |
| CountrySelector.SearchExample | src/components/CountrySelector.tsx:46-48 | searching `Can` among United States and Canada offers only Canada |
| CountrySelector.SelectedExample | src/tests/CalendarControls.test.tsx:14-22 | the value `us` selects United States |
| CalendarControls.YearOptions | src/components/CalendarControls.tsx:121-128 | 81 strictly increasing years; a year is offered exactly when it is in 1950 to 2030 |
| CalendarControls.LocationLabel | src/components/CalendarControls.tsx:77-86 | `Select Country` for an empty location; otherwise a label exactly when some option has the value, namely the first such option's name |
| CalendarControls.LocationLabelAgreesWithSelector | src/components/CalendarControls.tsx:61-86 | the label names the same option the selector marks as selected |
| CalendarControls.LocationLabelExample | src/tests/CalendarControls.test.tsx:14-22 | location `us` reads `United States` |
| CalendarControls.Title | src/components/CalendarControls.tsx:89-93 | both views show the same `MMMM yyyy` title |
| CalendarControls.TitleIdentifiesMonth | src/components/CalendarControls.tsx:88-94 | the title does not depend on the view; from year 1 on, two titles are equal exactly when the dates share a month |
| CalendarControls.YearStepKeepsMonthName | src/components/CalendarControls.tsx:88-94 | in year view, prev/next keep the month name and change the year by one |
| CalendarControls.ViewButtons | src/components/CalendarControls.tsx:98-115 | a Year button then a Month button |
| CalendarControls.ExactlyOneActive | src/components/CalendarControls.tsx:98-115 | exactly one view button is highlighted, the current view's; Year asks for `year` and Month for `month` |
| CalendarControls.ClickHighlights | src/components/CalendarControls.tsx:98-115 | after a view button's click its own button is highlighted |
| CalendarControls.Click | src/tests/CalendarControls.test.tsx:68-77 | each button of the bar calls its handler: prev, next, today, and the view change to `year` or `month` |

## Left out

- Time zones and JavaScript `Date` parsing.
  - A date-only string such as `2022-02-01` is parsed as UTC midnight, and `format` prints local time. West of UTC, holidays therefore show one day early.
  - The model reads a holiday's date as the local civil date it names.
  - It accepts only the strict `yyyy-MM-dd` form (section 5.6 of RFC 3339, years 0000 to 9999). Any other string names no date and is shown nowhere.
  - In the source, only a string that `Date` cannot parse makes `format` throw a `RangeError`. Other forms that `Date` parses, such as `2022-02-01T00:00:00` or `2022/02/01`, match their day in the source; the model drops them.
- Time of day and daylight saving: dates are whole days, so `day <= endOfWeekDate` compares days. The final Saturday is included, as it is in the source.
- `addMonths`, `subMonths`, `addYears` and `subYears` are assumed to clamp to the last day of the target month. This is date-fns behaviour, stated here as an assumption.
- The clock (`new Date()`, `isToday`) is a `today` parameter.
- The network fetch and the callback target are left out. App.tsx, setupProxy, index and LocationInput are outside the modelled core.
- Calendar.tsx lines 70–125 render their own copy of the controls and the table.
  - They lack the location label, the country picker and the year drop-down of CalendarControls.
  - They differ in class names (`bg-red-800`, `today`) and markup: the `td` has no three-way background, and its holiday block is not nested as in CalendarTable.
  - The holidays block is always rendered there; for a blank cell it is empty.
  - The title, the click payload and the holiday filter are the same expressions and are modelled once.
- The `headers` of CalendarTable and Calendar are the constant `Headers`. Its length and its order against the weekday are stated, not the markup.
- CalendarTable's `currentDate` prop is unused by the component.
- React keys, CSS other than the three-way background and the view-button highlight, the modal, the icons and theming are left out.
- `handleYearChange` and the drop-down's selected value are left out. Only the offered years are modelled.
- The container that computes `weeks` for CalendarTable is left out. The table is modelled for any weeks, and RenderMonthCell covers the weeks that BuildWeeks builds.
- CountrySelector.ToLower: lower-cases only the letters A to Z. JavaScript's `toLowerCase` also folds non-ASCII letters.
- react-select's own filtering of the offered options is left out.
- Holidays.HolidaysOnCount: states the count only for cells from year 2 on. Earlier cells also collect holidays of the year of era they share.
- CalendarTable.RenderCellClick: states that the click payload reads back as the cell's date only for years 1 to 9999. For other years, `yyyy` writes the year of era with no sign, or with more than four digits.
- CivilDate.AddDays: its own contract says only that the result is valid. How it moves is stated by AddDaysCompose, AddDaysBackForth, AddDaysLater, AddDaysInMonth and DayOfWeekAddDays, which keeps the many proofs that mention it small.
- CivilDate.DayOfWeek: its own contract gives only the range 0 to 6. Its agreement with the calendar is stated by DayOfWeekNext, DayOfWeekAddDays and KnownTuesday.
- The test files are not modelled as tests. The data of their examples appears in the example lemmas.
