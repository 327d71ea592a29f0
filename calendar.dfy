/** The calendar component: the month grid built on every render from `currentDate`, and
    the navigation state `(currentDate, view)` that the control buttons change. */
module Calendar {
  import opened Seqs
  import opened CivilDate

  /** A grid cell: a day of the displayed month, or a blank (`null`). */
  type Cell = Option<Date>

  datatype View = MonthView | YearView

  // ---------------------------------------------------------------------------------------
  // Walking the days

  /** The days from `from` to `until`, both included, in ascending order; empty when `until` comes
      before `from`. */
  function DateRange(from: Date, until: Date): (days: seq<Date>)
    requires from.Valid()
    decreases until.year - from.year, 12 - from.month, 31 - from.day
  {
    if OnOrBefore(from, until) then [from] + DateRange(NextDay(from), until) else []
  }

  /** The `while (day <= endOfWeekDate)` loop: pushes every day from `start` to `end`. */
  method WalkDays(start: Date, end: Date) returns (days: seq<Date>)
    requires start.Valid()
    ensures days == DateRange(start, end)
  {
    days := [];
    var day := start;
    while OnOrBefore(day, end)
      invariant day.Valid()
      invariant days + DateRange(day, end) == DateRange(start, end)
      decreases end.year - day.year, 12 - day.month, 31 - day.day
    {
      days := days + [day];
      day := AddDays(day, 1);
    }
  }

  /** Walking forward from `d` to `n` days later visits `n + 1` consecutive days. */
  lemma {:induction false} DateRangeWalk(d: Date, n: nat)
    requires d.Valid()
    ensures |DateRange(d, AddDays(d, n))| == n + 1
    ensures forall i :: 0 <= i <= n ==> DateRange(d, AddDays(d, n))[i] == AddDays(d, i)
    decreases n
  {
    var e := AddDays(d, n);
    AddDaysLater(d, n);
    if n == 0 {
      assert DateRange(NextDay(d), e) == [];
    } else {
      assert e == AddDays(NextDay(d), n - 1);
      DateRangeWalk(NextDay(d), n - 1);
      forall i | 1 <= i <= n ensures DateRange(d, e)[i] == AddDays(d, i) {
        assert DateRange(d, e)[i] == DateRange(NextDay(d), e)[i - 1];
      }
    }
  }

  // ---------------------------------------------------------------------------------------
  // Blanking and chunking

  /** Each walked day becomes its own cell when it is in the displayed month, a blank
      otherwise. */
  function MarkMonth(days: seq<Date>, currentDate: Date): (cells: seq<Cell>)
    ensures |cells| == |days|
    ensures forall i :: 0 <= i < |days| ==> (cells[i].Some? <==> SameMonth(days[i], currentDate))
    ensures forall i :: 0 <= i < |days| && cells[i].Some? ==> cells[i].value == days[i]
  {
    seq(|days|, i requires 0 <= i < |days| => if SameMonth(days[i], currentDate) then Some(days[i]) else None)
  }

  /** The `days.forEach` loop: marks each day and closes a row every seven cells. A partial
      last row would stay in `week` and never reach `weeks`. */
  method ChunkWeeks(days: seq<Date>, currentDate: Date) returns (weeks: seq<seq<Cell>>)
    ensures |weeks| == |days| / 7
    ensures forall k :: 0 <= k < |weeks| ==> |weeks[k]| == 7
    ensures Flatten(weeks) == MarkMonth(days, currentDate)[..7 * |weeks|]
  {
    ghost var cells := MarkMonth(days, currentDate);
    weeks := [];
    var week: seq<Cell> := [];
    for i := 0 to |days|
      invariant |week| < 7
      invariant forall k :: 0 <= k < |weeks| ==> |weeks[k]| == 7
      invariant 7 * |weeks| + |week| == i
      invariant Flatten(weeks) + week == cells[..i]
    {
      var currentDay := days[i];
      if SameMonth(currentDay, currentDate) {
        week := week + [Some(currentDay)];
      } else {
        week := week + [None];
      }
      assert cells[..i + 1] == cells[..i] + [cells[i]];
      if |week| == 7 {
        FlattenAppend(weeks, week);
        weeks := weeks + [week];
        week := [];
      }
    }
    assert cells[..7 * |weeks|] == Flatten(weeks) by {
      assert Flatten(weeks) + week == cells[..|days|];
    }
  }

  // ---------------------------------------------------------------------------------------
  // The grid of a month

  /** The Sunday on or before the first of the month. */
  function GridStart(currentDate: Date): (r: Date)
    requires currentDate.Valid()
    ensures r.Valid()
  {
    StartOfWeek(StartOfMonth(currentDate))
  }

  /** The Saturday on or after the last day of the month. */
  function GridEnd(currentDate: Date): (r: Date)
    requires currentDate.Valid()
    ensures r.Valid()
  {
    EndOfWeek(EndOfMonth(currentDate))
  }

  /** What the builder computes: the marked days from the grid's Sunday to its Saturday. */
  function MonthCells(currentDate: Date): (cells: seq<Cell>)
    requires currentDate.Valid()
  {
    MarkMonth(DateRange(GridStart(currentDate), GridEnd(currentDate)), currentDate)
  }

  /** Blank cells before the first of the month: the weekday of the first. */
  function Lead(currentDate: Date): (lead: int)
    requires currentDate.Valid()
  {
    DayOfWeek(StartOfMonth(currentDate))
  }

  function MonthLength(currentDate: Date): (n: int)
    requires currentDate.Valid()
  {
    DaysInMonth(currentDate.year, currentDate.month)
  }

  /** The number of rows: enough to hold the leading blanks and every day of the month. */
  function RowCount(currentDate: Date): (rows: int)
    requires currentDate.Valid()
    ensures 4 <= rows <= 6
    ensures 7 * (rows - 1) < Lead(currentDate) + MonthLength(currentDate) <= 7 * rows
  {
    (Lead(currentDate) + MonthLength(currentDate) - 1) / 7 + 1
  }

  /** The grid as a calendar reads: `Lead` blanks, the days 1..N of the month, then blanks. */
  function ExpectedCell(currentDate: Date, i: int): (cell: Cell)
    requires currentDate.Valid()
  {
    var lead := Lead(currentDate);
    if lead <= i < lead + MonthLength(currentDate)
    then Some(Date(currentDate.year, currentDate.month, i - lead + 1))
    else None
  }

  lemma SpanArith(p: int, n: int, q: int)
    requires q == (p + n - 1) % 7
    ensures p + n - 1 + 6 - q == 7 * ((p + n - 1) / 7 + 1) - 1
  {
  }

  /** The grid's Sunday is `Lead` days before the first of the month. */
  lemma GridLead(currentDate: Date)
    requires currentDate.Valid()
    ensures AddDays(GridStart(currentDate), Lead(currentDate)) == StartOfMonth(currentDate)
  {
  }

  /** The last of the month is `MonthLength - 1` days after the first. */
  lemma MonthLast(currentDate: Date)
    requires currentDate.Valid()
    ensures AddDays(StartOfMonth(currentDate), MonthLength(currentDate) - 1) == EndOfMonth(currentDate)
  {
    AddDaysInMonth(StartOfMonth(currentDate), MonthLength(currentDate) - 1);
  }

  lemma GridLast(currentDate: Date)
    requires currentDate.Valid()
    ensures AddDays(GridStart(currentDate), Lead(currentDate) + MonthLength(currentDate) - 1) == EndOfMonth(currentDate)
  {
    GridLead(currentDate);
    MonthLast(currentDate);
    AddDaysVia(GridStart(currentDate), StartOfMonth(currentDate), Lead(currentDate), MonthLength(currentDate) - 1,
      Lead(currentDate) + MonthLength(currentDate) - 1);
  }

  lemma LastWeekday(currentDate: Date)
    requires currentDate.Valid()
    ensures DayOfWeek(EndOfMonth(currentDate)) == (Lead(currentDate) + MonthLength(currentDate) - 1) % 7
  {
    MonthLast(currentDate);
    DayOfWeekAddDays(StartOfMonth(currentDate), MonthLength(currentDate) - 1);
  }

  /** The grid's Saturday closes the last of `RowCount` rows. */
  lemma GridSpan(currentDate: Date)
    requires currentDate.Valid()
    ensures GridEnd(currentDate) == AddDays(GridStart(currentDate), 7 * RowCount(currentDate) - 1)
  {
    GridLast(currentDate);
    LastRowEnd(currentDate);
    SaturdayAfter(EndOfMonth(currentDate), GridStart(currentDate),
      Lead(currentDate) + MonthLength(currentDate) - 1, 7 * RowCount(currentDate) - 1);
  }

  /** If `e` is `k` days after `s`, the Saturday closing the week of `e` is `k + 6 - DayOfWeek(e)`
      days after `s`. */
  lemma SaturdayAfter(e: Date, s: Date, k: nat, t: int)
    requires s.Valid() && AddDays(s, k) == e && t == k + 6 - DayOfWeek(e)
    ensures EndOfWeek(e) == AddDays(s, t)
  {
    AddDaysCompose(s, k, 6 - DayOfWeek(e));
  }

  /** The last row ends `6 - DayOfWeek` days after the last of the month. */
  lemma LastRowEnd(currentDate: Date)
    requires currentDate.Valid()
    ensures 7 * RowCount(currentDate) - 1 ==
      Lead(currentDate) + MonthLength(currentDate) - 1 + 6 - DayOfWeek(EndOfMonth(currentDate))
  {
    LastWeekday(currentDate);
    SpanArith(Lead(currentDate), MonthLength(currentDate), DayOfWeek(EndOfMonth(currentDate)));
  }

  /** The walked days are consecutive, from a Sunday to a Saturday, seven per row. */
  lemma GridDays(currentDate: Date)
    requires currentDate.Valid()
    ensures var days := DateRange(GridStart(currentDate), GridEnd(currentDate));
      |days| == 7 * RowCount(currentDate) &&
      (forall i :: 0 <= i < |days| ==> days[i] == AddDays(GridStart(currentDate), i)) &&
      DayOfWeek(GridStart(currentDate)) == 0 && DayOfWeek(GridEnd(currentDate)) == 6
  {
    GridSpan(currentDate);
    DateRangeWalk(GridStart(currentDate), 7 * RowCount(currentDate) - 1);
  }

  /** Cell `i` of the grid is the day `i` days after the grid's Sunday: blank before the first
      of the month, the `(i - Lead + 1)`th of the month within it, blank after the last. */
  lemma GridDayAt(currentDate: Date, i: int)
    requires currentDate.Valid() && 0 <= i < 7 * RowCount(currentDate)
    ensures var day := AddDays(GridStart(currentDate), i);
      (if SameMonth(day, currentDate) then Some(day) else None) == ExpectedCell(currentDate, i)
  {
    if i < Lead(currentDate) {
      GridDayBefore(currentDate, i);
    } else if i < Lead(currentDate) + MonthLength(currentDate) {
      GridDayWithin(currentDate, i);
    } else {
      GridDayAfter(currentDate, i);
    }
  }

  lemma GridDayBefore(currentDate: Date, i: int)
    requires currentDate.Valid() && 0 <= i < Lead(currentDate)
    ensures !SameMonth(AddDays(GridStart(currentDate), i), currentDate)
  {
    var start := GridStart(currentDate);
    var p := Lead(currentDate);
    var day := AddDays(start, i);
    GridLead(currentDate);
    AddDaysCompose(start, i, p - i);
    AddDaysLater(day, p - i);
    assert Before(day, StartOfMonth(currentDate));
  }

  lemma GridDayWithin(currentDate: Date, i: int)
    requires currentDate.Valid() && Lead(currentDate) <= i < Lead(currentDate) + MonthLength(currentDate)
    ensures AddDays(GridStart(currentDate), i) == Date(currentDate.year, currentDate.month, i - Lead(currentDate) + 1)
  {
    GridLead(currentDate);
    DaysIntoMonth(GridStart(currentDate), StartOfMonth(currentDate), Lead(currentDate), i - Lead(currentDate), i);
  }

  /** If `first` is `p` days after `start`, then `q` more days, staying in the month, are
      `p + q` days after `start`. */
  lemma DaysIntoMonth(start: Date, first: Date, p: nat, q: nat, t: int)
    requires start.Valid() && AddDays(start, p) == first && t == p + q
    requires first.day + q <= DaysInMonth(first.year, first.month)
    ensures AddDays(start, t) == Date(first.year, first.month, first.day + q)
  {
    AddDaysCompose(start, p, q);
    AddDaysInMonth(first, q);
  }

  lemma GridDayAfter(currentDate: Date, i: int)
    requires currentDate.Valid() && Lead(currentDate) + MonthLength(currentDate) <= i
    ensures !SameMonth(AddDays(GridStart(currentDate), i), currentDate)
  {
    var start := GridStart(currentDate);
    var k := Lead(currentDate) + MonthLength(currentDate) - 1;
    var day := AddDays(start, i);
    GridLast(currentDate);
    AddDaysCompose(start, k, i - k);
    AddDaysLater(EndOfMonth(currentDate), i - k);
    assert Before(EndOfMonth(currentDate), day);
  }

  /** Each walked day is blanked exactly when it lies outside the displayed month, and the
      cells that remain are the days of the month in order; every cell falls in the column of
      its weekday. */
  lemma MonthCellAt(currentDate: Date, i: int)
    requires currentDate.Valid() && 0 <= i < 7 * RowCount(currentDate)
    ensures |MonthCells(currentDate)| == 7 * RowCount(currentDate)
    ensures MonthCells(currentDate)[i] == ExpectedCell(currentDate, i)
    ensures DayOfWeek(AddDays(GridStart(currentDate), i)) == i % 7
  {
    GridDays(currentDate);
    GridDayAt(currentDate, i);
    DayOfWeekAddDays(GridStart(currentDate), i);
  }

  /** The days a sequence of cells shows, in order. */
  function Shown(cells: seq<Cell>): (days: seq<Date>)
  {
    if |cells| == 0 then []
    else (match cells[0] case Some(d) => [d] case None => []) + Shown(cells[1..])
  }

  lemma {:induction false} ShownConcat(a: seq<Cell>, b: seq<Cell>)
    ensures Shown(a + b) == Shown(a) + Shown(b)
  {
    if |a| == 0 {
      assert a + b == b;
    } else {
      assert (a + b)[0] == a[0];
      assert (a + b)[1..] == a[1..] + b;
      ShownConcat(a[1..], b);
    }
  }

  function Blanks(k: nat): (r: seq<Cell>)
    ensures |r| == k && forall i :: 0 <= i < k ==> r[i] == None
  {
    seq(k, _ => None)
  }

  lemma {:induction false} ShownBlanks(k: nat)
    ensures Shown(Blanks(k)) == []
  {
    if k > 0 {
      assert Blanks(k)[1..] == Blanks(k - 1);
      ShownBlanks(k - 1);
    }
  }

  /** The cells of days `from..to` of one month show exactly those days. */
  lemma {:induction false} ShownRun(y: int, m: int, from: int, to: int, cells: seq<Cell>)
    requires from <= to + 1 && |cells| == to - from + 1
    requires forall k :: 0 <= k < |cells| ==> cells[k] == Some(Date(y, m, from + k))
    ensures |Shown(cells)| == |cells|
    ensures forall k :: 0 <= k < |cells| ==> Shown(cells)[k] == Date(y, m, from + k)
    decreases |cells|
  {
    if |cells| > 0 {
      ShownRun(y, m, from + 1, to, cells[1..]);
    }
  }

  /** Read in order, the non-blank cells of a month's grid are the days 1..N of that month. */
  lemma MonthCellsShowMonth(currentDate: Date)
    requires currentDate.Valid()
    ensures var shown := Shown(MonthCells(currentDate));
      |shown| == MonthLength(currentDate) &&
      forall k :: 0 <= k < |shown| ==> shown[k] == Date(currentDate.year, currentDate.month, k + 1)
  {
    MonthCellsExpected(currentDate);
    ExpectedCellsShowMonth(currentDate, MonthCells(currentDate));
  }

  /** The builder's cells are the calendar's expected cells. */
  lemma MonthCellsExpected(currentDate: Date)
    requires currentDate.Valid()
    ensures |MonthCells(currentDate)| == 7 * RowCount(currentDate)
    ensures forall i :: 0 <= i < 7 * RowCount(currentDate) ==> MonthCells(currentDate)[i] == ExpectedCell(currentDate, i)
  {
    MonthCellAt(currentDate, 0);
    forall i | 0 <= i < 7 * RowCount(currentDate) ensures MonthCells(currentDate)[i] == ExpectedCell(currentDate, i) {
      MonthCellAt(currentDate, i);
    }
  }

  /** Cells laid out as the calendar expects show the days 1..N of the month, in order. */
  lemma ExpectedCellsShowMonth(currentDate: Date, cells: seq<Cell>)
    requires currentDate.Valid() && |cells| == 7 * RowCount(currentDate)
    requires forall i :: 0 <= i < |cells| ==> cells[i] == ExpectedCell(currentDate, i)
    ensures |Shown(cells)| == MonthLength(currentDate)
    ensures forall k :: 0 <= k < |Shown(cells)| ==> Shown(cells)[k] == Date(currentDate.year, currentDate.month, k + 1)
  {
    var p := Lead(currentDate);
    var n := MonthLength(currentDate);
    ExpectedLayout(currentDate, cells, p, n);
    var run := cells[p..p + n];
    forall k | 0 <= k < n ensures run[k] == Some(Date(currentDate.year, currentDate.month, 1 + k)) {
      assert run[k] == cells[p + k];
    }
    ShownBetweenBlanks(p, run, |cells| - p - n);
    ShownRun(currentDate.year, currentDate.month, 1, n, run);
  }

  /** Expected cells are `Lead` blanks, the days of the month, then blanks. */
  lemma ExpectedLayout(currentDate: Date, cells: seq<Cell>, p: int, n: int)
    requires currentDate.Valid() && |cells| == 7 * RowCount(currentDate)
    requires forall i :: 0 <= i < |cells| ==> cells[i] == ExpectedCell(currentDate, i)
    requires p == Lead(currentDate) && n == MonthLength(currentDate)
    ensures 0 <= p <= p + n <= |cells|
    ensures cells == Blanks(p) + cells[p..p + n] + Blanks(|cells| - p - n)
    ensures forall i :: p <= i < p + n ==> cells[i] == Some(Date(currentDate.year, currentDate.month, 1 + i - p))
  {
    var run := cells[p..p + n];
    var laid := Blanks(p) + run + Blanks(|cells| - p - n);
    forall i | 0 <= i < |cells| ensures cells[i] == laid[i] {
      if i < p {
        assert laid[i] == None;
      } else if i < p + n {
        assert laid[i] == run[i - p];
      } else {
        assert laid[i] == Blanks(|cells| - p - n)[i - p - n];
      }
    }
  }

  /** Blanks around a run of cells show nothing. */
  lemma ShownBetweenBlanks(x: nat, run: seq<Cell>, y: nat)
    ensures Shown(Blanks(x) + run + Blanks(y)) == Shown(run)
  {
    ShownConcat(Blanks(x) + run, Blanks(y));
    ShownConcat(Blanks(x), run);
    ShownBlanks(x);
    ShownBlanks(y);
  }

  /** The month grid of `currentDate` (lines 17 to 44 of the component). */
  method BuildWeeks(currentDate: Date) returns (weeks: seq<seq<Cell>>)
    requires currentDate.Valid()
    ensures |weeks| == RowCount(currentDate)
    ensures forall k :: 0 <= k < |weeks| ==> |weeks[k]| == 7
    ensures Flatten(weeks) == MonthCells(currentDate)
    ensures forall k, j :: 0 <= k < |weeks| && 0 <= j < 7 ==> weeks[k][j] == ExpectedCell(currentDate, 7 * k + j)
  {
    var firstDayOfMonth := StartOfMonth(currentDate);
    var lastDayOfMonth := EndOfMonth(currentDate);
    var startOfWeekDate := StartOfWeek(firstDayOfMonth);
    var endOfWeekDate := EndOfWeek(lastDayOfMonth);
    var days := WalkDays(startOfWeekDate, endOfWeekDate);
    weeks := ChunkWeeks(days, currentDate);
    GridDays(currentDate);
    assert |weeks| == RowCount(currentDate);
    assert MarkMonth(days, currentDate)[..7 * |weeks|] == MonthCells(currentDate);
    WeeksOfMonthCells(currentDate, weeks);
  }

  /** Rows of seven that flatten to the month's cells hold the expected cell at (k, j). */
  lemma WeeksOfMonthCells(currentDate: Date, weeks: seq<seq<Cell>>)
    requires currentDate.Valid() && |weeks| == RowCount(currentDate)
    requires forall k :: 0 <= k < |weeks| ==> |weeks[k]| == 7
    requires Flatten(weeks) == MonthCells(currentDate)
    ensures forall k, j :: 0 <= k < |weeks| && 0 <= j < 7 ==> weeks[k][j] == ExpectedCell(currentDate, 7 * k + j)
  {
    MonthCellsExpected(currentDate);
    forall k, j | 0 <= k < |weeks| && 0 <= j < 7 ensures weeks[k][j] == ExpectedCell(currentDate, 7 * k + j) {
      FlattenUniformAt(weeks, 7, k, j);
    }
  }

  /** Cell `7 * k + j` of the flattened grid is in column `j`. */
  lemma ColumnOfCell(k: int, j: int)
    requires 0 <= j < 7
    ensures (7 * k + j) % 7 == j
  {
    ModShift(j, k);
  }

  /** Every cell of the grid sits under the header of its weekday (Sunday first). */
  lemma CellColumnIsWeekday(currentDate: Date, i: int)
    requires currentDate.Valid() && 0 <= i < 7 * RowCount(currentDate)
    ensures ExpectedCell(currentDate, i).Some? ==> DayOfWeek(ExpectedCell(currentDate, i).value) == i % 7
  {
    var start := GridStart(currentDate);
    GridDayAt(currentDate, i);
    DayOfWeekForward(start, i);
    assert (0 + i) % 7 == i % 7;
  }

  /** The grid depends only on the displayed month, not on the day within it. */
  lemma MonthCellsOfSameMonth(a: Date, b: Date)
    requires a.Valid() && b.Valid() && SameMonth(a, b)
    ensures MonthCells(a) == MonthCells(b)
  {
    assert StartOfMonth(a) == StartOfMonth(b);
    assert EndOfMonth(a) == EndOfMonth(b);
  }

  /** February's grid shows a 29th exactly in leap years (2024 does, 2023 does not). */
  lemma LeapFebruary(y: int)
    ensures Date(y, 2, 29) in Shown(MonthCells(Date(y, 2, 1))) <==> IsLeapYear(y)
  {
    MonthShowsDay(Date(y, 2, 1), Date(y, 2, 29));
  }

  /** A month's grid shows a date exactly when it is a day of that month. */
  lemma MonthShowsDay(currentDate: Date, e: Date)
    requires currentDate.Valid()
    ensures e in Shown(MonthCells(currentDate)) <==> e.Valid() && SameMonth(e, currentDate)
  {
    MonthCellsShowMonth(currentDate);
    var shown := Shown(MonthCells(currentDate));
    if e.Valid() && SameMonth(e, currentDate) {
      assert shown[e.day - 1] == e;
    }
    if e in shown {
      var k :| 0 <= k < |shown| && shown[k] == e;
    }
  }

  // ---------------------------------------------------------------------------------------
  // Navigation

  /** `handlePrev`'s new date: one month back in the month view, one year back otherwise. */
  function PrevDate(d: Date, view: View): (r: Date)
    requires d.Valid()
    ensures r.Valid()
    ensures view == MonthView ==> MonthIndex(r) == MonthIndex(d) - 1
    ensures view == YearView ==> r.year == d.year - 1 && r.month == d.month
    ensures r.day == Min(d.day, DaysInMonth(r.year, r.month))
  {
    if view == MonthView then SubMonths(d, 1) else SubYears(d, 1)
  }

  /** `handleNext`'s new date: one month on in the month view, one year on otherwise. */
  function NextDate(d: Date, view: View): (r: Date)
    requires d.Valid()
    ensures r.Valid()
    ensures view == MonthView ==> MonthIndex(r) == MonthIndex(d) + 1
    ensures view == YearView ==> r.year == d.year + 1 && r.month == d.month
    ensures r.day == Min(d.day, DaysInMonth(r.year, r.month))
  {
    if view == MonthView then AddMonths(d, 1) else AddYears(d, 1)
  }

  /** In the month view the buttons move by exactly one month, rolling the year over at
      December and January; in the year view they move the year and keep the month. */
  lemma NavigationSteps(d: Date)
    requires d.Valid()
    ensures var p := PrevDate(d, MonthView);
      p.year == (if d.month == 1 then d.year - 1 else d.year) && p.month == (if d.month == 1 then 12 else d.month - 1)
    ensures var n := NextDate(d, MonthView);
      n.year == (if d.month == 12 then d.year + 1 else d.year) && n.month == (if d.month == 12 then 1 else d.month + 1)
    ensures PrevDate(d, YearView).year == d.year - 1 && PrevDate(d, YearView).month == d.month
    ensures NextDate(d, YearView).year == d.year + 1 && NextDate(d, YearView).month == d.month
  {
    SubOneMonth(d);
    AddOneMonth(d);
  }

  /** `next` after `prev` in the same view returns to the same month, so the same grid; the
      day of the month can only have been clamped down. */
  lemma NextAfterPrev(d: Date, view: View)
    requires d.Valid()
    ensures var r := NextDate(PrevDate(d, view), view);
      SameMonth(r, d) && r.day <= d.day && (d.day <= 28 ==> r == d) &&
      MonthCells(r) == MonthCells(d)
  {
    var r := NextDate(PrevDate(d, view), view);
    if view == MonthView {
      AddMonthsRoundTrip(d, -1);
    } else {
      AddMonthsRoundTrip(d, -12);
      assert r == AddMonths(AddMonths(d, -12), 12);
    }
    MonthCellsOfSameMonth(r, d);
  }

  /** The same the other way round: `prev` after `next` returns to the same month. */
  lemma PrevAfterNext(d: Date, view: View)
    requires d.Valid()
    ensures var r := PrevDate(NextDate(d, view), view);
      SameMonth(r, d) && r.day <= d.day && (d.day <= 28 ==> r == d) &&
      MonthCells(r) == MonthCells(d)
  {
    var r := PrevDate(NextDate(d, view), view);
    if view == MonthView {
      AddMonthsRoundTrip(d, 1);
    } else {
      AddMonthsRoundTrip(d, 12);
      assert r == AddMonths(AddMonths(d, 12), -12);
    }
    MonthCellsOfSameMonth(r, d);
  }

  /** The component's state: the date whose month is shown and the selected view. */
  class CalendarState {
    var currentDate: Date
    var view: View

    ghost predicate Valid()
      reads this
    {
      currentDate.Valid()
    }

    /** `useState(new Date())` and `useState('month')`, with the clock read passed in. */
    constructor (today: Date)
      requires today.Valid()
      ensures Valid() && currentDate == today && view == MonthView
    {
      currentDate := today;
      view := MonthView;
    }

    method HandlePrev()
      requires Valid()
      modifies this
      ensures Valid()
      ensures currentDate == PrevDate(old(currentDate), old(view)) && view == old(view)
    {
      if view == MonthView {
        currentDate := SubMonths(currentDate, 1);
      } else {
        currentDate := SubYears(currentDate, 1);
      }
    }

    method HandleNext()
      requires Valid()
      modifies this
      ensures Valid()
      ensures currentDate == NextDate(old(currentDate), old(view)) && view == old(view)
    {
      if view == MonthView {
        currentDate := AddMonths(currentDate, 1);
      } else {
        currentDate := AddYears(currentDate, 1);
      }
    }

    method HandleViewChange(newView: View)
      requires Valid()
      modifies this
      ensures Valid()
      ensures view == newView && currentDate == old(currentDate)
    {
      view := newView;
    }

    /** `setCurrentDate(new Date())`, with the clock read passed in. */
    method HandleGoToToday(today: Date)
      requires Valid() && today.Valid()
      modifies this
      ensures Valid()
      ensures currentDate == today && view == old(view)
    {
      currentDate := today;
    }

    /** The grid the component renders for its current state. */
    method Weeks() returns (weeks: seq<seq<Cell>>)
      requires Valid()
      ensures Flatten(weeks) == MonthCells(currentDate)
      ensures forall k :: 0 <= k < |weeks| ==> |weeks[k]| == 7
    {
      weeks := BuildWeeks(currentDate);
    }
  }

  /** Pressing `next` right after `prev` leaves the same view and the same rendered grid. */
  method PrevThenNext(state: CalendarState)
    requires state.Valid()
    modifies state
    ensures state.Valid() && state.view == old(state.view)
    ensures SameMonth(state.currentDate, old(state.currentDate))
    ensures MonthCells(state.currentDate) == MonthCells(old(state.currentDate))
  {
    state.HandlePrev();
    state.HandleNext();
    NextAfterPrev(old(state.currentDate), old(state.view));
  }
}
