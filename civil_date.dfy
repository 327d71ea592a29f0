/** Proleptic Gregorian calendar dates at day granularity: the calendar meaning of the
    date-fns calls the components make (`startOfMonth`, `endOfMonth`, `startOfWeek`,
    `endOfWeek` with weeks starting on Sunday, `addDays`, `isSameMonth`, `addMonths`,
    `subMonths`, `addYears`, `subYears`). Leap years and month lengths follow section 5.7
    and Appendix C of RFC 3339, the day of the week Appendix B of RFC 3339. */
module CivilDate {

  datatype Date = Date(year: int, month: int, day: int)
  {
    /** A calendar date: a month 1..12 and a day that exists in that month. */
    predicate Valid() {
      1 <= month <= 12 && 1 <= day <= DaysInMonth(year, month)
    }
  }

  predicate IsLeapYear(y: int) {
    y % 4 == 0 && (y % 100 != 0 || y % 400 == 0)
  }

  function DaysInMonth(y: int, m: int): (n: int)
    requires 1 <= m <= 12
    ensures 28 <= n <= 31
    ensures n == 29 <==> m == 2 && IsLeapYear(y)
    ensures n == 28 <==> m == 2 && !IsLeapYear(y)
  {
    if m == 2 then (if IsLeapYear(y) then 29 else 28)
    else if m == 4 || m == 6 || m == 9 || m == 11 then 30
    else 31
  }

  function Min(a: int, b: int): (m: int) { if a <= b then a else b }

  // ---------------------------------------------------------------------------------------
  // Order

  /** The order of dates in time (`<` on JavaScript `Date`s at day granularity). */
  predicate Before(a: Date, b: Date) {
    a.year < b.year || (a.year == b.year && (a.month < b.month || (a.month == b.month && a.day < b.day)))
  }

  predicate OnOrBefore(a: Date, b: Date) {
    Before(a, b) || a == b
  }

  /** `isSameMonth`: for valid dates, exactly when their month indices agree. */
  predicate SameMonth(a: Date, b: Date)
    ensures a.Valid() && b.Valid() ==> (SameMonth(a, b) <==> MonthIndex(a) == MonthIndex(b))
  {
    a.year == b.year && a.month == b.month
  }

  // ---------------------------------------------------------------------------------------
  // Days

  /** The following day. */
  function NextDay(d: Date): (r: Date)
    requires d.Valid()
    ensures r.Valid() && Before(d, r)
    ensures d.day < DaysInMonth(d.year, d.month) ==> SameMonth(r, d)
    ensures d.day == DaysInMonth(d.year, d.month) ==> r.day == 1
  {
    if d.day < DaysInMonth(d.year, d.month) then Date(d.year, d.month, d.day + 1)
    else if d.month < 12 then Date(d.year, d.month + 1, 1)
    else Date(d.year + 1, 1, 1)
  }

  /** The preceding day. */
  function PrevDay(d: Date): (r: Date)
    requires d.Valid()
    ensures r.Valid() && Before(r, d)
    ensures NextDay(r) == d
  {
    if d.day > 1 then Date(d.year, d.month, d.day - 1)
    else if d.month > 1 then Date(d.year, d.month - 1, DaysInMonth(d.year, d.month - 1))
    else Date(d.year - 1, 12, 31)
  }

  lemma {:induction false} PrevDayOfNextDay(d: Date)
    requires d.Valid()
    ensures PrevDay(NextDay(d)) == d
  {
    var n := NextDay(d);
    if d.day == DaysInMonth(d.year, d.month) && d.month < 12 {
      assert n == Date(d.year, d.month + 1, 1);
    }
  }

  /** No date lies strictly between a date and the next one. */
  lemma NextDayImmediate(d: Date, e: Date)
    requires d.Valid() && e.Valid() && Before(d, e)
    ensures OnOrBefore(NextDay(d), e)
  {
  }

  /** `addDays(d, n)` for any whole number of days `n`. */
  function AddDays(d: Date, n: int): (r: Date)
    requires d.Valid()
    ensures r.Valid()
    decreases if n < 0 then -n else n
  {
    if n == 0 then d
    else if n > 0 then AddDays(NextDay(d), n - 1)
    else AddDays(PrevDay(d), n + 1)
  }

  lemma {:induction false} AddDaysNextLast(d: Date, n: nat)
    requires d.Valid()
    ensures AddDays(d, n + 1) == NextDay(AddDays(d, n))
    decreases n
  {
    if n > 0 {
      AddDaysNextLast(NextDay(d), n - 1);
    }
  }

  lemma {:induction false} AddDaysPrevLast(d: Date, n: nat)
    requires d.Valid()
    ensures AddDays(d, -(n as int) - 1) == PrevDay(AddDays(d, -(n as int)))
    decreases n
  {
    if n > 0 {
      AddDaysPrevLast(PrevDay(d), n - 1);
    }
  }

  /** If `m` is `a` days after `s`, then `b` days after `m` is `a + b` days after `s`. */
  lemma AddDaysVia(s: Date, m: Date, a: nat, b: nat, t: int)
    requires s.Valid() && AddDays(s, a) == m && t == a + b
    ensures AddDays(m, b) == AddDays(s, t)
  {
    AddDaysCompose(s, a, b);
  }

  /** Adding days in two forward steps is adding their sum. */
  lemma {:induction false} AddDaysCompose(d: Date, a: nat, b: nat)
    requires d.Valid()
    ensures AddDays(AddDays(d, a), b) == AddDays(d, a + b)
    decreases a
  {
    if a > 0 {
      AddDaysCompose(NextDay(d), a - 1, b);
    }
  }

  /** Going back `k` days and then forward `k` days returns to the same date. */
  lemma {:induction false} AddDaysBackForth(d: Date, k: nat)
    requires d.Valid()
    ensures AddDays(AddDays(d, -(k as int)), k) == d
    decreases k
  {
    if k > 0 {
      var z := AddDays(d, -(k as int) + 1);
      AddDaysPrevLast(d, k - 1);
      assert AddDays(d, -(k as int)) == PrevDay(z);
      assert AddDays(PrevDay(z), k) == AddDays(z, k - 1);
      AddDaysBackForth(d, k - 1);
    }
  }

  /** Moving forward a positive number of days moves strictly later. */
  lemma {:induction false} AddDaysLater(d: Date, n: nat)
    requires d.Valid()
    ensures n > 0 ==> Before(d, AddDays(d, n))
    ensures OnOrBefore(d, AddDays(d, n))
    decreases n
  {
    if n > 0 {
      AddDaysLater(NextDay(d), n - 1);
    }
  }

  /** Within one month, adding days only advances the day of the month. */
  lemma {:induction false} AddDaysInMonth(d: Date, n: nat)
    requires d.Valid() && d.day + n <= DaysInMonth(d.year, d.month)
    ensures AddDays(d, n) == Date(d.year, d.month, d.day + n)
    decreases n
  {
    if n > 0 {
      AddDaysInMonth(NextDay(d), n - 1);
    }
  }

  // ---------------------------------------------------------------------------------------
  // Day of the week (RFC 3339, Appendix B)

  /** The month term of Appendix B: months counted from March (March = 1, February = 12). */
  function MonthTerm(shifted: int): (t: int) {
    (26 * shifted - 2) / 10
  }

  /** The year term of Appendix B, split into century and year of century. The source
      formula is written in C for non-negative years; floor division, which Dafny's `/` and
      `%` perform, extends it to every year. */
  function YearTerm(y: int): (t: int) {
    var cent := y / 100;
    var yy := y % 100;
    yy + yy / 4 + cent / 4 + 5 * cent
  }

  /** Appendix B's sum before it is reduced modulo 7: January and February count as months
      11 and 12 of the previous year. */
  function WeekdaySum(d: Date): (t: int) {
    var shifted := if d.month <= 2 then d.month + 10 else d.month - 2;
    var y := if d.month <= 2 then d.year - 1 else d.year;
    MonthTerm(shifted) + d.day + YearTerm(y)
  }

  /** Appendix B's `day_of_week`: Sunday = 0 through Saturday = 6. */
  function DayOfWeek(d: Date): (w: int)
    requires d.Valid()
    ensures 0 <= w < 7
  {
    WeekdaySum(d) % 7
  }

  lemma Div4(a: int, q: int, r: int)
    requires a == 4 * q + r && 0 <= r < 4
    ensures a / 4 == q && a % 4 == r
  {
  }

  lemma Div12(a: int, q: int, r: int)
    requires a == 12 * q + r && 0 <= r < 12
    ensures a / 12 == q && a % 12 == r
  {
  }

  lemma Div100(a: int, q: int, r: int)
    requires a == 100 * q + r && 0 <= r < 100
    ensures a / 100 == q && a % 100 == r
  {
  }

  lemma Div400(a: int, q: int, r: int)
    requires a == 400 * q + r && 0 <= r < 400
    ensures a / 400 == q && a % 400 == r
  {
  }

  lemma ModShift(x: int, k: int)
    ensures (x + 7 * k) % 7 == x % 7
  {
    var q := x / 7;
    var r := x % 7;
    assert x + 7 * k == 7 * (q + k) + r;
  }

  /** From one year to the next the year term advances by 1, or by 2 when the later year
      ends in a leap February, except at a century, where it also falls back by 17 weeks. */
  lemma YearTermStep(y: int)
    ensures var g := YearTerm(y) - YearTerm(y - 1) - 1 - (if IsLeapYear(y) then 1 else 0);
      g == 0 || g == -119
  {
    var c := y / 100;
    var yy := y % 100;
    assert YearTerm(y) == yy + yy / 4 + c / 4 + 5 * c;
    if yy != 0 {
      Div100(y - 1, c, yy - 1);
      assert YearTerm(y - 1) == (yy - 1) + (yy - 1) / 4 + c / 4 + 5 * c;
      var q := yy / 4;
      Div4(y, 25 * c + q, yy % 4);
      assert IsLeapYear(y) <==> yy % 4 == 0;
      if yy % 4 == 0 {
        Div4(yy - 1, q - 1, 3);
      } else {
        Div4(yy - 1, q, yy % 4 - 1);
      }
    } else {
      Div100(y - 1, c - 1, 99);
      assert YearTerm(y - 1) == 99 + 24 + (c - 1) / 4 + 5 * (c - 1);
      Div400(y, c / 4, 100 * (c % 4));
      Div4(y, 25 * c, 0);
      assert IsLeapYear(y) <==> c % 4 == 0;
      if c % 4 == 0 {
        Div4(c - 1, c / 4 - 1, 3);
      } else {
        Div4(c - 1, c / 4, c % 4 - 1);
      }
    }
  }

  /** At the end of a month other than February the sum drops by four weeks less one day. */
  lemma WeekdaySumMonthEnd(d: Date)
    requires d.Valid() && d.month != 2 && d.day == DaysInMonth(d.year, d.month)
    ensures WeekdaySum(NextDay(d)) == WeekdaySum(d) + 1 - 28
  {
    assert MonthTerm(1) == 2 && MonthTerm(2) == 5 && MonthTerm(3) == 7 && MonthTerm(4) == 10;
    assert MonthTerm(5) == 12 && MonthTerm(6) == 15 && MonthTerm(7) == 18 && MonthTerm(8) == 20;
    assert MonthTerm(9) == 23 && MonthTerm(10) == 25 && MonthTerm(11) == 28 && MonthTerm(12) == 31;
    if d.month == 12 {
      assert NextDay(d) == Date(d.year + 1, 1, 1);
    } else {
      assert NextDay(d) == Date(d.year, d.month + 1, 1);
    }
  }

  /** From the last of February to the first of March the shifted year changes. */
  lemma WeekdaySumFebruaryEnd(d: Date)
    requires d.Valid() && d.month == 2 && d.day == DaysInMonth(d.year, d.month)
    ensures var g := WeekdaySum(NextDay(d)) - WeekdaySum(d) - 1; g == -56 || g == -175
  {
    YearTermStep(d.year);
    assert NextDay(d) == Date(d.year, 3, 1);
    assert MonthTerm(1) == 2 && MonthTerm(12) == 31;
  }

  /** A sum that moves one day forward, less whole weeks, moves one place round the week. */
  lemma NextResidue(before: int, after: int, k: int)
    requires after == before + 1 - 7 * k
    ensures after % 7 == (before % 7 + 1) % 7
  {
    ModShift(after, k);
    ModAdd(before, 1);
  }

  /** The day after a given day falls on the next day of the week. */
  lemma DayOfWeekNext(d: Date)
    requires d.Valid()
    ensures DayOfWeek(NextDay(d)) == (DayOfWeek(d) + 1) % 7
  {
    var before := WeekdaySum(d);
    var after := WeekdaySum(NextDay(d));
    if d.day < DaysInMonth(d.year, d.month) {
      NextResidue(before, after, 0);
    } else if d.month == 2 {
      WeekdaySumFebruaryEnd(d);
      if after == before + 1 - 56 {
        NextResidue(before, after, 8);
      } else {
        NextResidue(before, after, 25);
      }
    } else {
      WeekdaySumMonthEnd(d);
      NextResidue(before, after, 4);
    }
  }

  lemma PrevResidue(a: int, b: int)
    requires 0 <= a < 7 && b == (a + 1) % 7
    ensures a == (b + 6) % 7
  {
  }

  lemma DayOfWeekPrev(d: Date)
    requires d.Valid()
    ensures DayOfWeek(PrevDay(d)) == (DayOfWeek(d) + 6) % 7
  {
    DayOfWeekNext(PrevDay(d));
    PrevResidue(DayOfWeek(PrevDay(d)), DayOfWeek(d));
  }

  lemma ModAdd(x: int, b: int)
    ensures (x % 7 + b) % 7 == (x + b) % 7
  {
    ModShift(x % 7 + b, x / 7);
    assert x % 7 + b + 7 * (x / 7) == x + b;
  }

  lemma ForwardResidue(w: int, w1: int, r: int, n: int)
    requires w1 == w % 7 && r == (w1 + n) % 7
    ensures r == (w + n) % 7
  {
    ModAdd(w, n);
  }

  lemma BackwardResidue(x: int, w1: int, r: int, t: int)
    requires w1 == x % 7 && r == (w1 + 6) % 7 && t == x - 1
    ensures r == t % 7
  {
    ModAdd(x, 6);
    ModShift(x - 1, 1);
  }

  lemma SmallResidue(w: int, n: int)
    requires 0 <= w < 7 && n == 0
    ensures (w + n) % 7 == w && (w - n) % 7 == w
  {
  }

  lemma {:induction false} DayOfWeekForward(d: Date, n: nat)
    requires d.Valid()
    ensures DayOfWeek(AddDays(d, n)) == (DayOfWeek(d) + n) % 7
    decreases n
  {
    if n == 0 {
      assert AddDays(d, n) == d;
      SmallResidue(DayOfWeek(d), n);
    } else {
      var e := AddDays(d, n - 1);
      DayOfWeekForward(d, n - 1);
      AddDaysNextLast(d, n - 1);
      assert NextDay(e) == AddDays(d, n);
      DayOfWeekNext(e);
      ForwardResidue(DayOfWeek(d) + n - 1, DayOfWeek(e), DayOfWeek(NextDay(e)), 1);
    }
  }

  lemma {:induction false} DayOfWeekBackward(d: Date, n: nat)
    requires d.Valid()
    ensures DayOfWeek(AddDays(d, -(n as int))) == (DayOfWeek(d) - n) % 7
    decreases n
  {
    if n == 0 {
      assert AddDays(d, -(n as int)) == d;
      SmallResidue(DayOfWeek(d), n);
    } else {
      var m := n - 1;
      var e := AddDays(d, -(m as int));
      DayOfWeekBackward(d, m);
      AddDaysPrevLast(d, m);
      assert PrevDay(e) == AddDays(d, -(n as int));
      DayOfWeekPrev(e);
      BackwardResidue(DayOfWeek(d) - m, DayOfWeek(e), DayOfWeek(PrevDay(e)), DayOfWeek(d) - n);
    }
  }

  /** Adding `n` days moves `n` places round the week. */
  lemma DayOfWeekAddDays(d: Date, n: int)
    requires d.Valid()
    ensures DayOfWeek(AddDays(d, n)) == (DayOfWeek(d) + n) % 7
  {
    if n >= 0 {
      DayOfWeekForward(d, n);
    } else {
      DayOfWeekBackward(d, -n);
    }
  }

  // ---------------------------------------------------------------------------------------
  // Month and week boundaries

  /** `startOfMonth`. */
  function StartOfMonth(d: Date): (r: Date)
    requires d.Valid()
    ensures r.Valid() && SameMonth(r, d) && r.day == 1
  {
    Date(d.year, d.month, 1)
  }

  /** `endOfMonth`, at day granularity. */
  function EndOfMonth(d: Date): (r: Date)
    requires d.Valid()
    ensures r.Valid() && SameMonth(r, d)
    ensures forall e: Date {:trigger SameMonth(e, d)} :: e.Valid() && SameMonth(e, d) ==> OnOrBefore(e, r)
  {
    Date(d.year, d.month, DaysInMonth(d.year, d.month))
  }

  /** `startOfWeek(d, { weekStartsOn: 0 })`: the Sunday on or before `d`, from which `d` is
      reached by moving forward `DayOfWeek(d)` (at most six) days. */
  function StartOfWeek(d: Date): (r: Date)
    requires d.Valid()
    ensures r.Valid() && DayOfWeek(r) == 0
    ensures AddDays(r, DayOfWeek(d)) == d && OnOrBefore(r, d)
  {
    var w := DayOfWeek(d);
    BackToSunday(d, w);
    BackAndForth(d, w);
    AddDays(d, -w)
  }

  lemma BackToSunday(d: Date, w: nat)
    requires d.Valid() && w == DayOfWeek(d)
    ensures DayOfWeek(AddDays(d, -(w as int))) == 0
  {
    DayOfWeekBackward(d, w);
    assert (w - w) % 7 == 0;
  }

  lemma BackAndForth(d: Date, w: nat)
    requires d.Valid()
    ensures AddDays(AddDays(d, -(w as int)), w) == d
    ensures OnOrBefore(AddDays(d, -(w as int)), d)
  {
    AddDaysBackForth(d, w);
    AddDaysLater(AddDays(d, -(w as int)), w);
  }

  /** `endOfWeek(d, { weekStartsOn: 0 })`, at day granularity: the Saturday on or after `d`,
      at most six days after it. */
  function EndOfWeek(d: Date): (r: Date)
    requires d.Valid()
    ensures r.Valid() && DayOfWeek(r) == 6
    ensures OnOrBefore(d, r)
    ensures exists k :: 0 <= k <= 6 && AddDays(d, k) == r
  {
    var k := 6 - DayOfWeek(d);
    OnToSaturday(d, k);
    AddDaysLater(d, k);
    AddDays(d, k)
  }

  lemma OnToSaturday(d: Date, k: nat)
    requires d.Valid() && k == 6 - DayOfWeek(d)
    ensures DayOfWeek(AddDays(d, k)) == 6
  {
    DayOfWeekForward(d, k);
    assert DayOfWeek(d) + k == 6;
  }

  // ---------------------------------------------------------------------------------------
  // Months and years

  /** Months since the start of year 0, so that consecutive months differ by one. */
  function MonthIndex(d: Date): (index: int) {
    12 * d.year + d.month - 1
  }

  /** `addMonths(d, n)`: the same day of the month `n` months later (earlier for negative
      `n`), clamped to the last day of the target month when that month is shorter. */
  function AddMonths(d: Date, n: int): (r: Date)
    requires d.Valid()
    ensures r.Valid()
    ensures MonthIndex(r) == MonthIndex(d) + n
    ensures r.day == Min(d.day, DaysInMonth(r.year, r.month))
  {
    var index := MonthIndex(d) + n;
    var y := index / 12;
    var m := index % 12 + 1;
    Date(y, m, Min(d.day, DaysInMonth(y, m)))
  }

  /** `subMonths(d, n)`. */
  function SubMonths(d: Date, n: int): (r: Date)
    requires d.Valid()
    ensures r.Valid()
    ensures MonthIndex(r) == MonthIndex(d) - n
    ensures r.day == Min(d.day, DaysInMonth(r.year, r.month))
  {
    AddMonths(d, -n)
  }

  /** `addYears(d, n)`, which date-fns defines as `addMonths(d, 12 * n)`. */
  function AddYears(d: Date, n: int): (r: Date)
    requires d.Valid()
    ensures r.Valid()
    ensures r.year == d.year + n && r.month == d.month
    ensures r.day == Min(d.day, DaysInMonth(r.year, r.month))
  {
    var r := AddMonths(d, 12 * n);
    Div12(MonthIndex(d) + 12 * n, d.year + n, d.month - 1);
    r
  }

  /** `subYears(d, n)`. */
  function SubYears(d: Date, n: int): (r: Date)
    requires d.Valid()
    ensures r.Valid()
    ensures r.year == d.year - n && r.month == d.month
    ensures r.day == Min(d.day, DaysInMonth(r.year, r.month))
  {
    AddYears(d, -n)
  }

  /** One month later: December rolls over to January of the next year. */
  lemma AddOneMonth(d: Date)
    requires d.Valid()
    ensures var r := AddMonths(d, 1);
      r.year == (if d.month == 12 then d.year + 1 else d.year) &&
      r.month == (if d.month == 12 then 1 else d.month + 1)
  {
    var r := AddMonths(d, 1);
    if d.month == 12 {
      Div12(MonthIndex(d) + 1, d.year + 1, 0);
    } else {
      Div12(MonthIndex(d) + 1, d.year, d.month);
    }
  }

  /** One month earlier: January rolls back to December of the previous year. */
  lemma SubOneMonth(d: Date)
    requires d.Valid()
    ensures var r := SubMonths(d, 1);
      r.year == (if d.month == 1 then d.year - 1 else d.year) &&
      r.month == (if d.month == 1 then 12 else d.month - 1)
  {
    if d.month == 1 {
      Div12(MonthIndex(d) - 1, d.year - 1, 11);
    } else {
      Div12(MonthIndex(d) - 1, d.year, d.month - 2);
    }
  }

  /** Moving `n` months away and back lands in the original month; the day of the month
      can only have been clamped down, and it is unchanged when it exists in every month. */
  lemma AddMonthsRoundTrip(d: Date, n: int)
    requires d.Valid()
    ensures var r := AddMonths(AddMonths(d, n), -n);
      SameMonth(r, d) && r.day <= d.day && (d.day <= 28 ==> r == d)
  {
    var r := AddMonths(AddMonths(d, n), -n);
    assert MonthIndex(r) == MonthIndex(d);
  }
}
