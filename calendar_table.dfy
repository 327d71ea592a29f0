/** The calendar table: seven weekday headers and one cell per grid element, each showing its
    day number, its holidays, a background that tells blanks, today and other days apart,
    and a click that reports the cell's date. */
module CalendarTable {
  import opened Seqs
  import opened CivilDate
  import opened DateFormat
  import opened Holidays
  import opened Calendar

  /** The column headers, Sunday first. */
  const Headers: seq<string> := ["Sun", "Mon", "Tue", "Wed", "Thu", "Fri", "Sat"]

  /** The three kinds of cell the background tells apart. */
  datatype Background = Blank | TodayCell | Ordinary

  /** What `isToday` and the null test pick for a cell, with `today` read from the clock. */
  function Classify(cell: Cell, today: Date): (b: Background)
    ensures b == Blank <==> cell.None?
    ensures b == TodayCell <==> cell == Some(today)
    ensures b == Ordinary <==> cell.Some? && cell.value != today
  {
    match cell
    case None => Blank
    case Some(d) => if d == today then TodayCell else Ordinary
  }

  function BackgroundClass(b: Background): (s: string)
  {
    match b
    case Blank => "bg-gray-200"
    case TodayCell => "bg-blue-800 text-blue-100"
    case Ordinary => "bg-blue-200"
  }

  /** The three backgrounds look different. */
  lemma BackgroundClassInjective(a: Background, b: Background)
    ensures BackgroundClass(a) == BackgroundClass(b) <==> a == b
  {
    assert |BackgroundClass(Blank)| == 11;
    assert |BackgroundClass(TodayCell)| == 25;
    assert BackgroundClass(Blank)[3] != BackgroundClass(Ordinary)[3];
  }

  /** The `today` marker class; other cells, blanks included, get the grey text class. */
  function TextClass(cell: Cell, today: Date): (s: string)
  {
    if cell == Some(today) then "today" else "text-gray-800"
  }

  /** The cell's class list, in the order the component writes it. */
  function CellClass(cell: Cell, today: Date): (s: string)
  {
    "calendar-cell text-center pb-4 " + TextClass(cell, today) + " border text-2xl " + BackgroundClass(Classify(cell, today))
  }

  /** A rendered `td`: its background kind and classes, the day-number span, the holidays
      block (absent for a blank) and the string passed to `onHolidayClick` when it is
      clicked (none for a blank, whose click does nothing). */
  datatype CellView = CellView(
    background: Background,
    className: string,
    dayNumber: Option<string>,
    holidayNames: Option<seq<string>>,
    click: Option<string>)

  function Names(hs: seq<Holiday>): (names: seq<string>)
    ensures |names| == |hs| && forall i :: 0 <= i < |hs| ==> names[i] == hs[i].name
  {
    seq(|hs|, i requires 0 <= i < |hs| => hs[i].name)
  }

  function RenderCell(cell: Cell, holidays: seq<Holiday>, today: Date): (v: CellView)
    requires cell.Some? ==> cell.value.Valid()
    ensures v.background == Classify(cell, today) && v.className == CellClass(cell, today)
    ensures v.dayNumber.Some? <==> cell.Some?
    ensures v.holidayNames.Some? <==> cell.Some?
    ensures v.click.Some? <==> cell.Some?
  {
    match cell
    case None =>
      CellView(Classify(cell, today), CellClass(cell, today), None, None, None)
    case Some(d) =>
      CellView(Classify(cell, today), CellClass(cell, today), Some(FormatDayOfMonth(d)),
        Some(Names(HolidaysOn(holidays, d))), Some(FormatIso(d)))
  }

  /** A day's number is its day of the month in decimal, with no leading zero. */
  lemma RenderCellDayNumber(d: Date, holidays: seq<Holiday>, today: Date)
    requires d.Valid()
    ensures var s := RenderCell(Some(d), holidays, today).dayNumber.value;
      1 <= |s| <= 2 && AllDigits(s) && DigitsValue(s) == d.day && s[0] != '0'
  {
  }

  /** From year 1 to 9999, the string a click reports reads back as the cell's date. */
  lemma RenderCellClick(d: Date, holidays: seq<Holiday>, today: Date)
    requires d.Valid() && 1 <= d.year <= 9999
    ensures ParseIso(RenderCell(Some(d), holidays, today).click.value) == Some(d)
  {
    ParseFormatIso(d);
  }

  /** A day's cell lists the name of every holiday fetched for that date and no other name,
      in the order the holidays were fetched. */
  lemma CellHolidayNames(d: Date, holidays: seq<Holiday>, today: Date)
    requires d.Valid()
    ensures var names := RenderCell(Some(d), holidays, today).holidayNames.value;
      (forall n :: n in names <==>
        exists h :: h in holidays && ParseIso(h.date).Some? && SameEraDate(ParseIso(h.date).value, d) && h.name == n) &&
      names == Names(HolidaysOn(holidays, d))
  {
    var shown := HolidaysOn(holidays, d);
    forall n ensures n in Names(shown) <==> exists h :: h in shown && h.name == n {
      NamesMembers(shown, n);
    }
  }

  /** A name is listed exactly when some holiday of the list carries it. */
  lemma NamesMembers(hs: seq<Holiday>, n: string)
    ensures n in Names(hs) <==> exists h :: h in hs && h.name == n
  {
    var names := Names(hs);
    if n in names {
      var i :| 0 <= i < |hs| && names[i] == n;
      assert hs[i] in hs;
    }
    if h :| h in hs && h.name == n {
      var i :| 0 <= i < |hs| && hs[i] == h;
      assert names[i] == n;
    }
  }

  predicate WellFormedGrid(weeks: seq<seq<Cell>>)
  {
    forall k, j :: 0 <= k < |weeks| && 0 <= j < |weeks[k]| && weeks[k][j].Some? ==> weeks[k][j].value.Valid()
  }

  /** One table row: one cell per element of the week, in order. */
  function RenderRow(week: seq<Cell>, holidays: seq<Holiday>, today: Date): (row: seq<CellView>)
    requires forall j :: 0 <= j < |week| && week[j].Some? ==> week[j].value.Valid()
    ensures |row| == |week|
    ensures forall j :: 0 <= j < |week| ==> row[j] == RenderCell(week[j], holidays, today)
  {
    seq(|week|, j requires 0 <= j < |week| => RenderCell(week[j], holidays, today))
  }

  /** The table body: one row per week, in order. */
  function RenderTable(weeks: seq<seq<Cell>>, holidays: seq<Holiday>, today: Date): (rows: seq<seq<CellView>>)
    requires WellFormedGrid(weeks)
    ensures |rows| == |weeks|
    ensures forall k :: 0 <= k < |weeks| ==> rows[k] == RenderRow(weeks[k], holidays, today)
  {
    seq(|weeks|, k requires 0 <= k < |weeks| => RenderRow(weeks[k], holidays, today))
  }

  /** Two row sequences of the same shape flatten to sequences of the same length. */
  lemma {:induction false} FlattenSameShape<T, U>(a: seq<seq<T>>, b: seq<seq<U>>)
    requires |a| == |b| && forall k :: 0 <= k < |a| ==> |a[k]| == |b[k]|
    ensures |Flatten(a)| == |Flatten(b)|
  {
    if |a| > 0 {
      FlattenSameShape(a[..|a| - 1], b[..|b| - 1]);
    }
  }

  /** The table has as many cells as the flattened weeks have elements, whatever the rows'
      lengths. */
  lemma RenderedCellCount(weeks: seq<seq<Cell>>, holidays: seq<Holiday>, today: Date)
    requires WellFormedGrid(weeks)
    ensures |Flatten(RenderTable(weeks, holidays, today))| == |Flatten(weeks)|
  {
    FlattenSameShape(RenderTable(weeks, holidays, today), weeks);
  }

  /** For the grid the calendar builds, every day of the month is rendered with its number
      under the header of its weekday, and every other cell is a blank with nothing in it. */
  lemma RenderMonthCell(currentDate: Date, weeks: seq<seq<Cell>>, holidays: seq<Holiday>, today: Date, k: int, j: int)
    requires currentDate.Valid() && |weeks| == RowCount(currentDate)
    requires forall r :: 0 <= r < |weeks| ==> |weeks[r]| == 7
    requires forall r, c :: 0 <= r < |weeks| && 0 <= c < 7 ==> weeks[r][c] == ExpectedCell(currentDate, 7 * r + c)
    requires 0 <= k < |weeks| && 0 <= j < 7
    ensures WellFormedGrid(weeks)
    ensures var v := RenderTable(weeks, holidays, today)[k][j];
      (v.background == Blank <==> ExpectedCell(currentDate, 7 * k + j).None?) &&
      (v.dayNumber.Some? ==> DigitsValue(v.dayNumber.value) == 7 * k + j - Lead(currentDate) + 1) &&
      (v.dayNumber.Some? ==> DayOfWeek(weeks[k][j].value) == j)
  {
    ExpectedGridWellFormed(currentDate, weeks);
    var v := RenderTable(weeks, holidays, today)[k][j];
    assert v == RenderCell(ExpectedCell(currentDate, 7 * k + j), holidays, today);
    RenderExpectedCell(currentDate, 7 * k + j, holidays, today);
    CellWeekday(currentDate, k, j);
  }

  /** The day in row `k`, column `j` of a month's grid falls on weekday `j`. */
  lemma CellWeekday(currentDate: Date, k: int, j: int)
    requires currentDate.Valid() && 0 <= j < 7 && 0 <= 7 * k + j < 7 * RowCount(currentDate)
    ensures ExpectedCell(currentDate, 7 * k + j).Some? ==> DayOfWeek(ExpectedCell(currentDate, 7 * k + j).value) == j
  {
    CellColumnIsWeekday(currentDate, 7 * k + j);
    ColumnOfCell(k, j);
  }

  /** Cell `i` of a month's grid renders as a blank outside the month, and otherwise with
      its place in the month as its number. */
  lemma RenderExpectedCell(currentDate: Date, i: int, holidays: seq<Holiday>, today: Date)
    requires currentDate.Valid() && 0 <= i < 7 * RowCount(currentDate)
    ensures var v := RenderCell(ExpectedCell(currentDate, i), holidays, today);
      (v.background == Blank <==> ExpectedCell(currentDate, i).None?) &&
      (v.dayNumber.Some? ==> DigitsValue(v.dayNumber.value) == i - Lead(currentDate) + 1)
  {
    var c := ExpectedCell(currentDate, i);
    if c.Some? {
      RenderCellDayNumber(c.value, holidays, today);
    }
  }

  /** The grid the calendar builds holds only real dates. */
  lemma ExpectedGridWellFormed(currentDate: Date, weeks: seq<seq<Cell>>)
    requires currentDate.Valid()
    requires forall r :: 0 <= r < |weeks| ==> |weeks[r]| == 7
    requires forall r, c :: 0 <= r < |weeks| && 0 <= c < 7 ==> weeks[r][c] == ExpectedCell(currentDate, 7 * r + c)
    ensures WellFormedGrid(weeks)
  {
  }

  /** 1 February 2022 fell on a Tuesday, and its weekday picks the `Tue` header. */
  lemma KnownTuesday()
    ensures Headers[DayOfWeek(Date(2022, 2, 1))] == "Tue"
  {
    assert MonthTerm(12) == 31 && YearTerm(2021) == 131;
    assert WeekdaySum(Date(2022, 2, 1)) == 163;
  }

  /** A day's number reads `1` exactly on the first of its month. */
  lemma DayNumberOne(d: Date, holidays: seq<Holiday>, today: Date)
    requires d.Valid()
    ensures RenderCell(Some(d), holidays, today).dayNumber == Some("1") <==> d.day == 1
  {
    var s := RenderCell(Some(d), holidays, today).dayNumber.value;
    RenderCellDayNumber(d, holidays, today);
    if s == "1" {
      assert DigitsValue(s) == 1 by { assert s[..0] == []; }
    }
    if d.day == 1 {
      assert s == Decimal(1);
    }
  }

  /** The two-week grid of the calendar table's test: 1 to 3 and 4 to 6 February 2022,
      each followed by four blanks. */
  function FebruaryWeeks(): (weeks: seq<seq<Cell>>)
    ensures WellFormedGrid(weeks) && |weeks| == 2 && |weeks[0]| == 7 && |weeks[1]| == 7
  {
    [[Some(Date(2022, 2, 1)), Some(Date(2022, 2, 2)), Some(Date(2022, 2, 3)), None, None, None, None],
     [Some(Date(2022, 2, 4)), Some(Date(2022, 2, 5)), Some(Date(2022, 2, 6)), None, None, None, None]]
  }

  function FebruaryHolidays(): (holidays: seq<Holiday>)
  {
    [Holiday("2022-02-01", "Holiday 1"), Holiday("2022-02-05", "Holiday 2")]
  }

  /** The test's table has fourteen cells under seven headers. */
  lemma FebruaryCellCount(today: Date)
    ensures |Headers| == 7
    ensures |Flatten(RenderTable(FebruaryWeeks(), FebruaryHolidays(), today))| == 14
  {
    RenderedCellCount(FebruaryWeeks(), FebruaryHolidays(), today);
    FlattenUniformLength(FebruaryWeeks(), 7);
  }

  /** Clicking the cell of 1 February in the test's table reports `2022-02-01`, whatever the
      holidays. */
  lemma FebruaryClickExample(holidays: seq<Holiday>, today: Date)
    ensures RenderCell(Some(Date(2022, 2, 1)), holidays, today).click == Some("2022-02-01")
  {
    IsoFirstOfFebruary();
  }

  /** The same cell lists the one holiday of that date. */
  lemma FebruaryNamesExample(today: Date)
    ensures RenderCell(Some(Date(2022, 2, 1)), FebruaryHolidays(), today).holidayNames == Some(["Holiday 1"])
  {
    FirstOfFebruaryExample();
    assert Names([Holiday("2022-02-01", "Holiday 1")]) == ["Holiday 1"];
  }

  /** Exactly one cell of the test's table reads `1`, the first cell of the first row,
      whatever the holidays. */
  lemma FebruaryDayOneExample(holidays: seq<Holiday>, today: Date, k: int, j: int)
    requires 0 <= k < 2 && 0 <= j < 7
    ensures RenderTable(FebruaryWeeks(), holidays, today)[k][j].dayNumber == Some("1") <==> k == 0 && j == 0
  {
    var c := FebruaryWeeks()[k][j];
    FebruaryCell(k, j);
    assert RenderTable(FebruaryWeeks(), holidays, today)[k][j] == RenderCell(c, holidays, today);
    if c.Some? {
      DayNumberOne(c.value, holidays, today);
    }
  }

  /** Row `k` of the test's grid holds the three days from `3k + 1` on, then blanks. */
  lemma FebruaryCell(k: int, j: int)
    requires 0 <= k < 2 && 0 <= j < 7
    ensures FebruaryWeeks()[k][j] == if j < 3 then Some(Date(2022, 2, 3 * k + j + 1)) else None
  {
  }
}
