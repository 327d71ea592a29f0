/** The control bar: previous, next and today buttons, the location label, the month-and-year
    title, the Year and Month view buttons and the year drop-down. */
module CalendarControls {
  import opened Seqs
  import opened CivilDate
  import opened DateFormat
  import opened Calendar
  import opened CountrySelector

  /** The drop-down's years: 81 consecutive years starting at 1950. */
  function YearOptions(): (r: seq<int>)
    ensures |r| == 81 && r[0] == 1950 && r[80] == 2030
    ensures forall y :: y in r <==> 1950 <= y <= 2030
    ensures forall i, j :: 0 <= i < j < |r| ==> r[i] < r[j]
  {
    var years := seq(81, index => 1950 + index);
    forall y | 1950 <= y <= 2030 ensures y in years {
      assert years[y - 1950] == y;
    }
    years
  }

  /** The location label: the chosen country's name, found by its value; the prompt
      `Select Country` when no location is set (the empty string is falsy); nothing when
      the value names no option. */
  function LocationLabel(location: string, options: seq<CountryOption>): (r: Option<string>)
    ensures location == "" ==> r == Some("Select Country")
    ensures location != "" ==> (r.Some? <==> exists i :: 0 <= i < |options| && options[i].value == location)
    ensures location != "" && r.Some? ==>
      exists i :: 0 <= i < |options| && options[i].value == location && options[i].name == r.value &&
        forall j :: 0 <= j < i ==> options[j].value != location
  {
    if location == "" then Some("Select Country")
    else
      match SelectedOption(options, Some(location))
      case Some(o) => Some(o.name)
      case None => None
  }

  /** The label shows the same option the country selector marks as its value. */
  lemma LocationLabelAgreesWithSelector(location: string, options: seq<CountryOption>)
    requires location != ""
    ensures LocationLabel(location, options).Some? <==> SelectedOption(options, Some(location)).Some?
    ensures LocationLabel(location, options).Some? ==>
      LocationLabel(location, options).value == SelectedOption(options, Some(location)).value.name
  {
  }

  /** The controls' test: location `us` among United States and Canada reads
      `United States`. */
  lemma LocationLabelExample()
    ensures LocationLabel("us", [CountryOption("us", "United States"), CountryOption("ca", "Canada")]) == Some("United States")
  {
    SelectedExample();
  }

  /** The title: `MMMM yyyy` in both views. */
  function Title(view: View, currentDate: Date): (s: string)
    requires currentDate.Valid()
    ensures s == FormatMonthYear(currentDate)
  {
    if view == MonthView then FormatMonthYear(currentDate) else FormatMonthYear(currentDate)
  }

  /** The title names the shown month and nothing else: it does not depend on the view, and
      from year 1 on two dates get the same title exactly when they lie in the same month
      (before year 1, `yyyy` writes the year of era, so 1 BC reads like 1 AD). */
  lemma TitleIdentifiesMonth(v: View, w: View, a: Date, b: Date)
    requires a.Valid() && b.Valid()
    ensures Title(v, a) == Title(w, b) <==> a.month == b.month && YearOfEra(a.year) == YearOfEra(b.year)
    ensures a.year >= 1 && b.year >= 1 ==> (Title(v, a) == Title(w, b) <==> SameMonth(a, b))
  {
    FormatMonthYearIdentifiesMonth(a, b);
  }

  /** Navigating in the year view keeps the month's name and changes only the year. */
  lemma YearStepKeepsMonthName(d: Date)
    requires d.Valid()
    ensures Title(YearView, NextDate(d, YearView)) == MonthName(d.month) + " " + FormatYear(d.year + 1)
    ensures Title(YearView, PrevDate(d, YearView)) == MonthName(d.month) + " " + FormatYear(d.year - 1)
  {
    NavigationSteps(d);
  }

  /** A view button: its text, its class and the view its click asks for. */
  datatype ViewButton = ViewButton(text: string, className: string, onClick: View)

  function ButtonClass(active: bool): (s: string)
  {
    "text-white px-4 py-2 rounded " + (if active then "bg-blue-300 " else "bg-blue-500 hover:bg-blue-600") + " transition duration-300"
  }

  predicate Active(b: ViewButton)
  {
    b.className == ButtonClass(true)
  }

  /** The Year button, then the Month button, each highlighted when its view is selected. */
  function ViewButtons(view: View): (buttons: seq<ViewButton>)
    ensures |buttons| == 2 && buttons[0].text == "Year" && buttons[1].text == "Month"
  {
    [ViewButton("Year", ButtonClass(view == YearView), YearView),
     ViewButton("Month", ButtonClass(view == MonthView), MonthView)]
  }

  lemma ButtonClassDistinct()
    ensures ButtonClass(true) != ButtonClass(false)
  {
    assert |ButtonClass(true)| != |ButtonClass(false)|;
  }

  /** Exactly one view button is highlighted, the one whose click selects the current
      view; the Year click asks for `year` and the Month click for `month`. */
  lemma ExactlyOneActive(view: View)
    ensures var b := ViewButtons(view);
      (Active(b[0]) <==> view == YearView) && (Active(b[1]) <==> view == MonthView) &&
      (Active(b[0]) != Active(b[1])) &&
      b[0].onClick == YearView && b[1].onClick == MonthView
  {
    ButtonClassDistinct();
  }

  /** Clicking a view button highlights that button. */
  lemma ClickHighlights(view: View, i: int)
    requires 0 <= i < 2
    ensures Active(ViewButtons(ViewButtons(view)[i].onClick)[i])
  {
  }

  /** The buttons of the bar. */
  datatype Control = PrevButton | NextButton | TodayButton | YearButton | MonthButton

  /** A click on a button of the bar, passed to the calendar's handlers; the clock read of the
      today button is passed in. */
  method Click(state: CalendarState, control: Control, today: Date)
    requires state.Valid() && today.Valid()
    modifies state
    ensures state.Valid()
    ensures control == PrevButton ==>
      state.currentDate == PrevDate(old(state.currentDate), old(state.view)) && state.view == old(state.view)
    ensures control == NextButton ==>
      state.currentDate == NextDate(old(state.currentDate), old(state.view)) && state.view == old(state.view)
    ensures control == TodayButton ==> state.currentDate == today && state.view == old(state.view)
    ensures control == YearButton ==> state.view == YearView && state.currentDate == old(state.currentDate)
    ensures control == MonthButton ==> state.view == MonthView && state.currentDate == old(state.currentDate)
  {
    match control
    case PrevButton => state.HandlePrev();
    case NextButton => state.HandleNext();
    case TodayButton => state.HandleGoToToday(today);
    case YearButton => state.HandleViewChange(ViewButtons(state.view)[0].onClick);
    case MonthButton => state.HandleViewChange(ViewButtons(state.view)[1].onClick);
  }
}
