/** The date-fns `format` patterns the components use (`yyyy-MM-dd`, `d`, `MMMM yyyy`), and
    the reading of a holiday's `yyyy-MM-dd` full-date (section 5.6 of RFC 3339) back into a
    date. */
module DateFormat {
  import opened CivilDate
  import opened Seqs

  predicate IsDigit(c: char) { '0' <= c <= '9' }

  predicate AllDigits(s: string) {
    forall i :: 0 <= i < |s| ==> IsDigit(s[i])
  }

  function DigitChar(k: int): (c: char)
    requires 0 <= k < 10
    ensures IsDigit(c)
  {
    (48 + k) as char
  }

  function DigitValue(c: char): (k: int)
    requires IsDigit(c)
    ensures 0 <= k < 10
  {
    c as int - 48
  }

  /** The shortest decimal numeral of `n`. */
  function Decimal(n: nat): (s: string)
    ensures |s| >= 1 && AllDigits(s)
  {
    if n < 10 then [DigitChar(n)] else Decimal(n / 10) + [DigitChar(n % 10)]
  }

  /** The number a string of decimal digits denotes. */
  function DigitsValue(s: string): (v: nat)
    requires AllDigits(s)
  {
    if |s| == 0 then 0 else 10 * DigitsValue(s[..|s| - 1]) + DigitValue(s[|s| - 1])
  }

  /** Reading a numeral back gives the number it was written from. */
  lemma {:induction false} DecimalValue(n: nat)
    ensures DigitsValue(Decimal(n)) == n
  {
    if n >= 10 {
      DecimalValue(n / 10);
      var s := Decimal(n);
      assert s[..|s| - 1] == Decimal(n / 10);
    }
  }

  function Zeros(k: nat): (s: string)
    ensures |s| == k && AllDigits(s)
    ensures forall i :: 0 <= i < k ==> s[i] == '0'
  {
    if k == 0 then [] else Zeros(k - 1) + ['0']
  }

  /** Zero padding on the left up to width `w`, as numeric format tokens do. */
  function LeftPad(s: string, w: nat): (r: string)
    requires AllDigits(s)
    ensures AllDigits(r)
    ensures |r| == if |s| >= w then |s| else w
  {
    if |s| >= w then s else Zeros(w - |s|) + s
  }

  lemma {:induction false} ZerosValue(k: nat)
    ensures DigitsValue(Zeros(k)) == 0
  {
    if k > 0 {
      var z := Zeros(k);
      ZerosValue(k - 1);
      assert z[..k - 1] == Zeros(k - 1);
      assert z[k - 1] == '0';
      assert DigitsValue(z) == 10 * DigitsValue(z[..k - 1]) + DigitValue(z[k - 1]);
    }
  }

  /** Leading zeros do not change the value of a numeral. */
  lemma {:induction false} LeadingZerosValue(k: nat, s: string)
    requires AllDigits(s)
    ensures DigitsValue(Zeros(k) + s) == DigitsValue(s)
    decreases |s|
  {
    if |s| == 0 {
      assert Zeros(k) + s == Zeros(k);
      ZerosValue(k);
    } else {
      var t := Zeros(k) + s;
      assert t[..|t| - 1] == Zeros(k) + s[..|s| - 1];
      LeadingZerosValue(k, s[..|s| - 1]);
    }
  }

  lemma LeftPadValue(n: nat, w: nat)
    ensures DigitsValue(LeftPad(Decimal(n), w)) == n
  {
    DecimalValue(n);
    if |Decimal(n)| < w {
      LeadingZerosValue(w - |Decimal(n)|, Decimal(n));
    }
  }

  function Pow10(k: nat): (p: nat) {
    if k == 0 then 1 else 10 * Pow10(k - 1)
  }

  /** A number below 10^k has at most k digits. */
  lemma {:induction false} DecimalShort(n: nat, k: nat)
    requires k >= 1 && n < Pow10(k)
    ensures |Decimal(n)| <= k
  {
    if n >= 10 {
      DecimalShort(n / 10, k - 1);
    }
  }

  /** A number of at least 10^k has more than k digits. */
  lemma {:induction false} DecimalLong(n: nat, k: nat)
    requires n >= Pow10(k)
    ensures |Decimal(n)| > k
  {
    if k > 0 {
      DecimalLong(n / 10, k - 1);
    }
  }

  // ---------------------------------------------------------------------------------------
  // Formatting

  /** The year of era the `y` tokens write: year 0 is 1 BC, year -1 is 2 BC, and so on. */
  function YearOfEra(y: int): (e: nat)
    ensures e >= 1
  {
    if y > 0 then y else 1 - y
  }

  /** The `yyyy` token: the year of era in at least four digits, with no sign. */
  function FormatYear(y: int): (s: string)
    ensures |s| >= 4 && AllDigits(s) && DigitsValue(s) == YearOfEra(y)
    ensures |s| == 4 <==> YearOfEra(y) <= 9999
  {
    var e := YearOfEra(y);
    assert e <= 9999 ==> |Decimal(e)| <= 4 by {
      if e <= 9999 { DecimalShort(e, 4); }
    }
    assert e > 9999 ==> |Decimal(e)| > 4 by {
      if e > 9999 { DecimalLong(e, 4); }
    }
    LeftPadValue(e, 4);
    LeftPad(Decimal(e), 4)
  }

  /** Two years are written alike exactly when they have the same year of era, so the years
      from 1 on are written each in its own way. */
  lemma FormatYearInjective(a: int, b: int)
    ensures FormatYear(a) == FormatYear(b) <==> YearOfEra(a) == YearOfEra(b)
  {
  }

  /** Year 0 (1 BC) is written like year 1. */
  lemma YearZeroLikeYearOne()
    ensures FormatYear(0) == FormatYear(1)
  {
  }

  /** The `MM` and `dd` tokens. */
  function Pad2(n: nat): (s: string)
    requires n < 100
    ensures |s| == 2 && AllDigits(s) && DigitsValue(s) == n
  {
    DecimalShort(n, 2);
    LeftPadValue(n, 2);
    LeftPad(Decimal(n), 2)
  }

  /** `format(d, 'yyyy-MM-dd')`. */
  function FormatIso(d: Date): (s: string)
    requires d.Valid()
    ensures |s| >= 10
    ensures |s| == 10 <==> YearOfEra(d.year) <= 9999
  {
    FormatYear(d.year) + "-" + Pad2(d.month) + "-" + Pad2(d.day)
  }

  /** Dates that agree in month, day and year of era: the ones `yyyy-MM-dd` cannot tell
      apart. */
  predicate SameEraDate(a: Date, b: Date)
  {
    a.month == b.month && a.day == b.day && YearOfEra(a.year) == YearOfEra(b.year)
  }

  /** Two dates are written alike exactly when they agree in month, day and year of era. */
  lemma FormatIsoInjective(a: Date, b: Date)
    requires a.Valid() && b.Valid()
    ensures FormatIso(a) == FormatIso(b) <==> SameEraDate(a, b)
  {
    FormatYearInjective(a.year, b.year);
    if FormatIso(a) == FormatIso(b) {
      JoinedFieldsSplit(FormatYear(a.year), Pad2(a.month), Pad2(a.day), FormatYear(b.year), Pad2(b.month), Pad2(b.day));
    }
  }

  /** Three fields joined by hyphens, the last two of width 2, can be split apart again. */
  lemma JoinedFieldsSplit(y1: string, m1: string, d1: string, y2: string, m2: string, d2: string)
    requires |m1| == 2 && |d1| == 2 && |m2| == 2 && |d2| == 2
    requires y1 + "-" + m1 + "-" + d1 == y2 + "-" + m2 + "-" + d2
    ensures y1 == y2 && m1 == m2 && d1 == d2
  {
    var s := y1 + "-" + m1 + "-" + d1;
    var t := y2 + "-" + m2 + "-" + d2;
    var k := |y1|;
    assert |y2| == k;
    assert s[..k] == y1 && t[..k] == y2;
    assert s[k + 1..k + 3] == m1 && t[k + 1..k + 3] == m2;
    assert s[k + 4..] == d1 && t[k + 4..] == d2;
  }

  /** `format(d, 'd')`: the day of the month without padding. */
  function FormatDayOfMonth(d: Date): (s: string)
    requires d.Valid()
    ensures 1 <= |s| <= 2 && AllDigits(s) && DigitsValue(s) == d.day && s[0] != '0'
  {
    DecimalValue(d.day);
    DecimalShort(d.day, 2);
    Decimal(d.day)
  }

  /** The `MMMM` token: the month's English name. */
  function MonthName(m: int): (s: string)
    requires 1 <= m <= 12
    ensures |s| >= 3 && ' ' !in s
  {
    ["January", "February", "March", "April", "May", "June", "July", "August",
     "September", "October", "November", "December"][m - 1]
  }

  /** `format(d, 'MMMM yyyy')`. */
  function FormatMonthYear(d: Date): (s: string)
    requires d.Valid()
    ensures SpaceAt(s) < |s|
    ensures s[..SpaceAt(s)] == MonthName(d.month) && s[SpaceAt(s) + 1..] == FormatYear(d.year)
  {
    var s := MonthName(d.month) + " " + FormatYear(d.year);
    SpaceAtPrefix(MonthName(d.month), FormatYear(d.year));
    s
  }

  /** Position of the first space in `s`, or `|s|` when there is none. */
  function SpaceAt(s: string): (i: nat)
  {
    if |s| == 0 || s[0] == ' ' then 0 else 1 + SpaceAt(s[1..])
  }

  lemma {:induction false} SpaceAtPrefix(a: string, b: string)
    requires ' ' !in a
    ensures SpaceAt(a + " " + b) == |a|
  {
    if |a| > 0 {
      assert (a + " " + b)[1..] == a[1..] + " " + b;
      SpaceAtPrefix(a[1..], b);
    }
  }

  lemma SplitAtSpace(a: string, b: string, c: string, e: string)
    requires ' ' !in a && ' ' !in c && a + " " + b == c + " " + e
    ensures a == c && b == e
  {
    var s := a + " " + b;
    SpaceAtPrefix(a, b);
    SpaceAtPrefix(c, e);
    assert a == s[..|a|] == c;
    assert b == s[|a| + 1..] == e;
  }

  /** Two dates share a month-and-year title exactly when they lie in the same month of
      years with the same year of era; from year 1 on, exactly when they lie in the same
      month. */
  lemma FormatMonthYearIdentifiesMonth(a: Date, b: Date)
    requires a.Valid() && b.Valid()
    ensures FormatMonthYear(a) == FormatMonthYear(b) <==> a.month == b.month && YearOfEra(a.year) == YearOfEra(b.year)
    ensures a.year >= 1 && b.year >= 1 ==> (FormatMonthYear(a) == FormatMonthYear(b) <==> SameMonth(a, b))
  {
    if FormatMonthYear(a) == FormatMonthYear(b) {
      SplitAtSpace(MonthName(a.month), FormatYear(a.year), MonthName(b.month), FormatYear(b.year));
      MonthNameInjective(a.month, b.month);
    }
  }

  lemma MonthNameInjective(m: int, n: int)
    requires 1 <= m <= 12 && 1 <= n <= 12 && MonthName(m) == MonthName(n)
    ensures m == n
  {
  }

  // ---------------------------------------------------------------------------------------
  // Parsing

  /** Reads a `yyyy-MM-dd` full-date. Anything else, including a well-shaped string that
      names no calendar date, reads as no date. */
  function ParseIso(s: string): (r: Option<Date>)
    ensures r.Some? ==> r.value.Valid() && 0 <= r.value.year <= 9999
  {
    if |s| == 10 && s[4] == '-' && s[7] == '-' &&
       AllDigits(s[..4]) && AllDigits(s[5..7]) && AllDigits(s[8..])
    then
      var d := Date(DigitsValue(s[..4]), DigitsValue(s[5..7]), DigitsValue(s[8..]));
      assert d.year < 10000 by { DigitsBound(s[..4]); }
      if d.Valid() then Some(d) else None
    else None
  }

  lemma {:induction false} DigitsBound(s: string)
    requires AllDigits(s)
    ensures DigitsValue(s) < Pow10(|s|)
  {
    if |s| > 0 {
      DigitsBound(s[..|s| - 1]);
    }
  }

  /** A full-date written from its parts reads back as those parts. */
  lemma ParseIsoParts(y: int, m: int, day: int)
    requires 0 <= y <= 9999 && Date(y, m, day).Valid()
    ensures ParseIso(LeftPad(Decimal(y), 4) + "-" + Pad2(m) + "-" + Pad2(day)) == Some(Date(y, m, day))
  {
    DecimalShort(y, 4);
    LeftPadValue(y, 4);
    ParseIsoFields(LeftPad(Decimal(y), 4), Pad2(m), Pad2(day));
  }

  /** Four, two and two digits joined by hyphens read as the date they denote, when it
      exists. */
  lemma ParseIsoFields(a: string, b: string, c: string)
    requires |a| == 4 && |b| == 2 && |c| == 2 && AllDigits(a) && AllDigits(b) && AllDigits(c)
    requires Date(DigitsValue(a), DigitsValue(b), DigitsValue(c)).Valid()
    ensures ParseIso(a + "-" + b + "-" + c) == Some(Date(DigitsValue(a), DigitsValue(b), DigitsValue(c)))
  {
    var s := a + "-" + b + "-" + c;
    assert s[..4] == a;
    assert s[5..7] == b;
    assert s[8..] == c;
  }

  /** Reading a formatted date gives the date back, for the years 1 to 9999 that `yyyy`
      writes with four digits. */
  lemma ParseFormatIso(d: Date)
    requires d.Valid() && 1 <= d.year <= 9999
    ensures ParseIso(FormatIso(d)) == Some(d)
  {
    ParseIsoParts(d.year, d.month, d.day);
  }
}
