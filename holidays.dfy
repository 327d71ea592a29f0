/** The holiday overlay: which of the fetched holidays a calendar cell shows. The same
    expression appears in the calendar and in the calendar table. */
module Holidays {
  import opened Seqs
  import opened CivilDate
  import opened DateFormat

  datatype Holiday = Holiday(date: string, name: string)

  /** `format(new Date(raw), 'yyyy-MM-dd')` for a well-formed full-date; a string that names
      no date has no normal form. Dates from year 1 on normalise to a string that reads back
      as the same date. */
  function Normalise(raw: string): (r: Option<string>)
    ensures r.Some? <==> ParseIso(raw).Some?
    ensures r.Some? ==> |r.value| == 10
    ensures r.Some? && ParseIso(raw).value.year >= 1 ==> ParseIso(r.value) == ParseIso(raw)
  {
    match ParseIso(raw)
    case Some(d) =>
      assert d.year >= 1 ==> ParseIso(FormatIso(d)) == Some(d) by {
        if d.year >= 1 { ParseFormatIso(d); }
      }
      Some(FormatIso(d))
    case None => None
  }

  /** The filter's test: the holiday's normalised date equals the cell's. */
  predicate Matches(h: Holiday, cell: Date)
    requires cell.Valid()
  {
    Normalise(h.date) == Some(FormatIso(cell))
  }

  /** A holiday matches a cell exactly when its date string reads as a date that agrees with
      the cell's in month, day and year of era; for cells from year 2 on, exactly when it
      reads as the cell's own date. */
  lemma MatchesIff(h: Holiday, cell: Date)
    requires cell.Valid()
    ensures Matches(h, cell) <==> ParseIso(h.date).Some? && SameEraDate(ParseIso(h.date).value, cell)
    ensures cell.year >= 2 ==> (Matches(h, cell) <==> ParseIso(h.date) == Some(cell))
  {
    match ParseIso(h.date)
    case Some(d) => FormatIsoInjective(d, cell);
    case None =>
  }

  /** The holidays shown in the cell of `cell`, in the order they were fetched. */
  function HolidaysOn(holidays: seq<Holiday>, cell: Date): (r: seq<Holiday>)
    requires cell.Valid()
    ensures forall h :: h in r <==> h in holidays && ParseIso(h.date).Some? && SameEraDate(ParseIso(h.date).value, cell)
    ensures cell.year >= 2 ==> forall h :: h in r <==> h in holidays && ParseIso(h.date) == Some(cell)
  {
    MatchesIffAll(holidays, cell);
    Filter(holidays, h => Matches(h, cell))
  }

  lemma MatchesIffAll(holidays: seq<Holiday>, cell: Date)
    requires cell.Valid()
    ensures forall h :: Matches(h, cell) <==> ParseIso(h.date).Some? && SameEraDate(ParseIso(h.date).value, cell)
    ensures cell.year >= 2 ==> forall h :: Matches(h, cell) <==> ParseIso(h.date) == Some(cell)
  {
    forall h: Holiday ensures Matches(h, cell) <==> ParseIso(h.date).Some? && SameEraDate(ParseIso(h.date).value, cell) {
      MatchesIff(h, cell);
    }
    forall h: Holiday | cell.year >= 2 ensures Matches(h, cell) <==> ParseIso(h.date) == Some(cell) {
      MatchesIff(h, cell);
    }
  }

  /** The overlay is a stable filter: it splits along any split of the holiday list, so the
      shown holidays keep the fetched order. */
  lemma HolidaysOnConcat(a: seq<Holiday>, b: seq<Holiday>, cell: Date)
    requires cell.Valid()
    ensures HolidaysOn(a + b, cell) == HolidaysOn(a, cell) + HolidaysOn(b, cell)
  {
    FilterConcat(a, b, h => Matches(h, cell));
  }

  /** Every matching holiday is shown as many times as it was fetched; no other is shown. */
  lemma HolidaysOnCount(holidays: seq<Holiday>, cell: Date, h: Holiday)
    requires cell.Valid()
    requires cell.year >= 2
    ensures multiset(HolidaysOn(holidays, cell))[h] ==
      if ParseIso(h.date) == Some(cell) then multiset(holidays)[h] else 0
  {
    FilterCount(holidays, h => Matches(h, cell), h);
    MatchesIff(h, cell);
  }

  /** A holiday whose date is not a well-formed full-date is shown in no cell. */
  lemma MalformedShownNowhere(holidays: seq<Holiday>, h: Holiday, cell: Date)
    requires cell.Valid() && ParseIso(h.date).None?
    ensures h !in HolidaysOn(holidays, cell)
  {
  }

  /** Of the holidays `2022-02-01` and `2022-02-05`, the cell of 1 February 2022 shows only the
      first. */
  lemma FirstOfFebruaryExample()
    ensures HolidaysOn([Holiday("2022-02-01", "Holiday 1"), Holiday("2022-02-05", "Holiday 2")], Date(2022, 2, 1))
         == [Holiday("2022-02-01", "Holiday 1")]
  {
    var h1 := Holiday("2022-02-01", "Holiday 1");
    var h2 := Holiday("2022-02-05", "Holiday 2");
    var cell := Date(2022, 2, 1);
    ParseFormatIso(cell);
    IsoFirstOfFebruary();
    ParseFormatIso(Date(2022, 2, 5));
    IsoFifthOfFebruary();
    MatchesIff(h1, cell);
    MatchesIff(h2, cell);
  }

  lemma ParseYearZero()
    ensures ParseIso("0000-03-01") == Some(Date(0, 3, 1))
  {
    assert "0000"[..3] == "000" && "000"[..2] == "00" && "00"[..1] == "0" && "0"[..0] == "";
    assert "03"[..1] == "0" && "01"[..1] == "0";
    assert DigitsValue("0000") == 0 && DigitsValue("03") == 3 && DigitsValue("01") == 1;
    assert "0000" + "-" + "03" + "-" + "01" == "0000-03-01";
    ParseIsoFields("0000", "03", "01");
  }

  /** A holiday dated in year 0 (1 BC) is written with the year of era 1, so it shows in
      the cell of the same day in year 1. */
  lemma YearZeroHolidayExample()
    ensures HolidaysOn([Holiday("0000-03-01", "Old")], Date(1, 3, 1)) == [Holiday("0000-03-01", "Old")]
  {
    ParseYearZero();
    MatchesIff(Holiday("0000-03-01", "Old"), Date(1, 3, 1));
  }

  lemma IsoFirstOfFebruary()
    ensures FormatIso(Date(2022, 2, 1)) == "2022-02-01"
  {
    Pad2Literals();
    YearLiteral();
  }

  lemma IsoFifthOfFebruary()
    ensures FormatIso(Date(2022, 2, 5)) == "2022-02-05"
  {
    Pad2Literals();
    YearLiteral();
  }

  lemma Pad2Literals()
    ensures Pad2(1) == "01" && Pad2(2) == "02" && Pad2(5) == "05"
  {
    assert Zeros(1) == "0" by { assert Zeros(0) == []; }
    assert Decimal(1) == "1" && Decimal(2) == "2" && Decimal(5) == "5";
  }

  lemma YearLiteral()
    ensures FormatYear(2022) == "2022"
  {
    assert Decimal(2022) == "2022" by {
      assert Decimal(2) == "2" && Decimal(20) == "20" && Decimal(202) == "202";
    }
  }
}
