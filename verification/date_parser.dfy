/** `parse_month_day`: an "M/D" cell plus a reference year to a calendar date, or
    the "no date" sentinel (pandas' NaT) on any failure. */
module DateParser {
  import opened Wrappers
  import opened Calendar
  import opened Text

  /** A cell of the Date column: text, or anything else pandas put there
      (an empty cell reads as a float NaN, which has no `split`). */
  datatype Cell = Str(s: string) | NotText

  /** Returns Some(date) in the reference year, or None for NaT. Any exception in the
      source (no `split`, a non-integer part, an impossible date) is caught and
      becomes None; a part count other than two is None explicitly. */
  function ParseMonthDay(cell: Cell, refYear: int): (r: Option<Date>)
    ensures r.Some? ==> r.value.year == refYear && ValidDate(r.value)
  {
    match cell
    case NotText => None
    case Str(s) =>
      var parts := Split(s, '/');
      if |parts| != 2 then None
      else
        match (ParseDecimal(parts[0]), ParseDecimal(parts[1]))
        case (Some(m), Some(d)) =>
          if ValidDate(Date(refYear, m, d)) then Some(Date(refYear, m, d)) else None
        case _ => None
  }

  /** Exact success condition: the text splits on '/' into exactly two parts, both
      are decimal integers, and they name a real day of the reference year; the
      result then carries those month and day numbers. */
  lemma ParseMonthDaySucceeds(s: string, refYear: int, d: Date)
    ensures ParseMonthDay(Str(s), refYear) == Some(d) <==>
      (|Split(s, '/')| == 2
       && ParseDecimal(Split(s, '/')[0]) == Some(d.month)
       && ParseDecimal(Split(s, '/')[1]) == Some(d.day)
       && d.year == refYear
       && ValidDate(d))
  {
  }

  /** Any number of '/' other than one gives NaT ("3", "1/2/3", "//"). */
  lemma {:induction false} WrongPartCount(s: string, refYear: int)
    requires Count(s, '/') != 1
    ensures ParseMonthDay(Str(s), refYear) == None
  {
    SplitParts(s, '/');
  }

  /** Writes a date back as "M/D", the form the Date column holds. */
  function FormatMonthDay(d: Date): string
    requires d.month >= 0 && d.day >= 0
  {
    ShowNat(d.month) + "/" + ShowNat(d.day)
  }

  /** Every real day of the reference year, written as "M/D", parses back to itself. */
  lemma {:induction false} FormatParseRoundTrip(d: Date)
    requires ValidDate(d)
    ensures ParseMonthDay(Str(FormatMonthDay(d)), d.year) == Some(d)
  {
    var m, n := ShowNat(d.month), ShowNat(d.day);
    ShowNatShape(d.month);
    ShowNatShape(d.day);
    assert '/' !in m && '/' !in n;
    assert Join([m, n], '/') == FormatMonthDay(d);
    SplitJoin([m, n], '/');
    ParseShowNat(d.month);
    ParseShowNat(d.day);
  }

  /** Every date the parser produces is the parse of its own "M/D" form. */
  lemma ParseFormatRoundTrip(cell: Cell, refYear: int)
    requires ParseMonthDay(cell, refYear).Some?
    ensures ParseMonthDay(Str(FormatMonthDay(ParseMonthDay(cell, refYear).value)), refYear)
            == ParseMonthDay(cell, refYear)
  {
    FormatParseRoundTrip(ParseMonthDay(cell, refYear).value);
  }

  /** "A/B" with no other '/' parses exactly when A and B are integers naming a real
      day of the reference year. */
  lemma {:induction false} ParseJoined(a: string, b: string, y: int)
    requires '/' !in a && '/' !in b
    ensures ParseMonthDay(Str(a + "/" + b), y) ==
      if ParseDecimal(a).Some? && ParseDecimal(b).Some?
         && ValidDate(Date(y, ParseDecimal(a).value, ParseDecimal(b).value))
      then Some(Date(y, ParseDecimal(a).value, ParseDecimal(b).value))
      else None
  {
    assert Join([a, b], '/') == a + "/" + b;
    SplitJoin([a, b], '/');
  }

  lemma ExampleMarch15(y: int)
    ensures ParseMonthDay(Str("3/15"), y) == Some(Date(y, 3, 15))
  {
    assert "3/15" == "3" + "/" + "15";
    ParseJoined("3", "15", y);
    assert "15"[..1] == "1";
    assert DigitsValue("15") == 15;
  }

  /** Leading zeros are accepted, as Python's int() accepts them (up to its 4300-digit
      limit, which this model does not have). */
  lemma ExampleLeadingZeros(y: int)
    ensures ParseMonthDay(Str("03/015"), y) == Some(Date(y, 3, 15))
  {
    assert "03/015" == "03" + "/" + "015";
    ParseJoined("03", "015", y);
    assert "03"[..1] == "0";
    assert "015"[..2] == "01" && "01"[..1] == "0";
    assert DigitsValue("03") == 3 && DigitsValue("015") == 15;
  }

  lemma ExamplePartCounts(y: int)
    ensures ParseMonthDay(Str("3"), y) == None
    ensures ParseMonthDay(Str("1/2/3"), y) == None
    ensures ParseMonthDay(NotText, y) == None
  {
    assert Count("3", '/') == 0;
    assert Count("1/2/3", '/') == 2;
    WrongPartCount("3", y);
    WrongPartCount("1/2/3", y);
  }

  lemma ExampleNonInteger(y: int)
    ensures ParseMonthDay(Str("a/5"), y) == None
  {
    assert "a/5" == "a" + "/" + "5";
    ParseJoined("a", "5", y);
  }

  lemma ExampleImpossibleDates(y: int)
    ensures ParseMonthDay(Str("13/1"), y) == None
    ensures ParseMonthDay(Str("4/31"), y) == None
    ensures ParseMonthDay(Str("1/0"), y) == None
  {
    assert "13/1" == "13" + "/" + "1";
    ParseJoined("13", "1", y);
    assert DigitsValue("13") == 13;
    assert "4/31" == "4" + "/" + "31";
    ParseJoined("4", "31", y);
    assert DigitsValue("31") == 31;
    assert "1/0" == "1" + "/" + "0";
    ParseJoined("1", "0", y);
  }

  lemma ExampleLeapDay(y: int)
    ensures ParseMonthDay(Str("2/29"), y) == (if IsLeapYear(y) then Some(Date(y, 2, 29)) else None)
  {
    assert "2/29" == "2" + "/" + "29";
    ParseJoined("2", "29", y);
    assert DigitsValue("29") == 29;
  }
}
