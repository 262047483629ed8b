/** The load-time cleanup of the table: the Date column is overwritten with the parsed
    dates (NaT where parsing failed), then every row without a date is dropped.
    Value cells are carried through unchanged; their type V is left abstract. */
module Loader {
  import opened Wrappers
  import opened Calendar
  import opened DateParser

  /** A row as read from the CSV: the "M/D" cell and the series cells. */
  datatype RawRow<V> = RawRow(date: Cell, cells: seq<V>)

  /** A row after the Date column was overwritten: a date or NaT. */
  datatype ParsedRow<V> = ParsedRow(date: Option<Date>, cells: seq<V>)

  /** A row that survived the cleanup. */
  datatype Row<V> = Row(date: Date, cells: seq<V>)

  /** The cleaned table: series names (all columns after Date) and the rows. */
  datatype Dataset<V> = Dataset(series: seq<string>, rows: seq<Row<V>>)

  /** Series names are distinct (read_csv renames a repeated header "X" to "X.1", ...). */
  predicate DistinctNames(series: seq<string>) {
    forall i, j :: 0 <= i < j < |series| ==> series[i] != series[j]
  }

  /** Distinct series names, one cell per series in every row, as read_csv produces,
      and a real calendar date in every row. */
  predicate WellFormed<V>(ds: Dataset<V>) {
    DistinctNames(ds.series)
    && forall k :: 0 <= k < |ds.rows| ==> |ds.rows[k].cells| == |ds.series| && ValidDate(ds.rows[k].date)
  }

  /** `data["Date"].apply(parse_month_day)`, row by row. */
  function ParseColumn<V>(raw: seq<RawRow<V>>, refYear: int): (p: seq<ParsedRow<V>>)
    ensures |p| == |raw|
    ensures forall i :: 0 <= i < |raw| ==> p[i].cells == raw[i].cells
    ensures forall i :: 0 <= i < |raw| ==>
      (p[i].date.Some? ==> p[i].date.value.year == refYear && ValidDate(p[i].date.value))
  {
    seq(|raw|, i requires 0 <= i < |raw| => ParsedRow(ParseMonthDay(raw[i].date, refYear), raw[i].cells))
  }

  /** `dropna(subset=["Date"])`: the rows that have a date, in their original order. */
  function DropMissing<V>(p: seq<ParsedRow<V>>): (rows: seq<Row<V>>)
    ensures |rows| <= |p|
    ensures |rows| == 0 <==> forall i :: 0 <= i < |p| ==> p[i].date.None?
    decreases |p|
  {
    if |p| == 0 then []
    else
      var last := p[|p| - 1];
      DropMissing(p[..|p| - 1]) + (if last.date.Some? then [Row(last.date.value, last.cells)] else [])
  }

  /** How many rows of p have a date. */
  function CountDated<V>(p: seq<ParsedRow<V>>): nat
    decreases |p|
  {
    if |p| == 0 then 0
    else CountDated(p[..|p| - 1]) + (if p[|p| - 1].date.Some? then 1 else 0)
  }

  /** Position k of the dropna output is taken by some dated input row. */
  predicate FilledFrom<V>(p: seq<ParsedRow<V>>, k: nat) {
    exists i :: 0 <= i < |p| && p[i].date.Some? && CountDated(p[..i]) == k
  }

  /** Rows before a dated row keep it at least one place further on. */
  lemma {:induction false} CountDatedMonotone<V>(p: seq<ParsedRow<V>>, i: nat, j: nat)
    requires i <= j <= |p|
    ensures CountDated(p[..i]) <= CountDated(p[..j])
    ensures i < j && p[i].date.Some? ==> CountDated(p[..i]) < CountDated(p[..j])
    decreases j - i
  {
    if i < j {
      CountDatedMonotone(p, i, j - 1);
      assert p[..j][..j - 1] == p[..j - 1];
      if i == j - 1 {
        assert p[..j][j - 1] == p[i];
      }
    }
  }

  /** The number of rows dropna keeps is the number of dated rows. */
  lemma {:induction false} DropMissingCount<V>(p: seq<ParsedRow<V>>)
    ensures |DropMissing(p)| == CountDated(p)
    decreases |p|
  {
    if |p| > 0 {
      DropMissingCount(p[..|p| - 1]);
    }
  }

  /** The dated row at index i lands at position CountDated(p[..i]). */
  lemma {:induction false} DropMissingPositions<V>(p: seq<ParsedRow<V>>)
    ensures forall i :: 0 <= i < |p| && p[i].date.Some? ==>
      CountDated(p[..i]) < |DropMissing(p)|
      && DropMissing(p)[CountDated(p[..i])] == Row(p[i].date.value, p[i].cells)
    decreases |p|
  {
    if |p| > 0 {
      var n := |p| - 1;
      var front := p[..n];
      DropMissingPositions(front);
      DropMissingCount(front);
      var out := DropMissing(p);
      assert out == DropMissing(front) + (if p[n].date.Some? then [Row(p[n].date.value, p[n].cells)] else []);
      forall i | 0 <= i < |p| && p[i].date.Some?
        ensures CountDated(p[..i]) < |out| && out[CountDated(p[..i])] == Row(p[i].date.value, p[i].cells)
      {
        if i < n {
          assert front[..i] == p[..i];
          assert front[i] == p[i];
        } else {
          assert p[..n] == front;
        }
      }
    }
  }

  /** Every output position of dropna is filled by some dated input row. */
  lemma {:induction false} DropMissingFilled<V>(p: seq<ParsedRow<V>>)
    ensures forall k :: 0 <= k < |DropMissing(p)| ==> FilledFrom(p, k)
    decreases |p|
  {
    if |p| > 0 {
      var n := |p| - 1;
      var front := p[..n];
      DropMissingFilled(front);
      DropMissingCount(front);
      var out := DropMissing(p);
      assert out == DropMissing(front) + (if p[n].date.Some? then [Row(p[n].date.value, p[n].cells)] else []);
      forall k | 0 <= k < |out|
        ensures FilledFrom(p, k)
      {
        if k < |DropMissing(front)| {
          assert FilledFrom(front, k);
          var i :| 0 <= i < |front| && front[i].date.Some? && CountDated(front[..i]) == k;
          assert front[..i] == p[..i];
        } else {
          assert p[..n] == front;
          assert p[n].date.Some? && CountDated(p[..n]) == k;
        }
      }
    }
  }

  /** dropna keeps exactly the dated rows, in order: the dated row at index i lands at
      position CountDated(p[..i]) (these positions strictly increase with i), and every
      output position is filled by some dated input row. */
  lemma DropMissingExact<V>(p: seq<ParsedRow<V>>)
    ensures |DropMissing(p)| == CountDated(p)
    ensures forall i :: 0 <= i < |p| && p[i].date.Some? ==>
      CountDated(p[..i]) < |DropMissing(p)|
      && DropMissing(p)[CountDated(p[..i])] == Row(p[i].date.value, p[i].cells)
    ensures forall k :: 0 <= k < |DropMissing(p)| ==> FilledFrom(p, k)
  {
    DropMissingCount(p);
    DropMissingPositions(p);
    DropMissingFilled(p);
  }

  /** Every row left by dropna has a date. */
  lemma {:induction false} DropMissingFrom<V>(p: seq<ParsedRow<V>>, k: nat)
    requires k < |DropMissing(p)|
    ensures exists i :: 0 <= i < |p| && p[i] == ParsedRow(Some(DropMissing(p)[k].date), DropMissing(p)[k].cells)
  {
    DropMissingExact(p);
    assert FilledFrom(p, k);
    var i :| 0 <= i < |p| && p[i].date.Some? && CountDated(p[..i]) == k;
    assert p[i] == ParsedRow(Some(DropMissing(p)[k].date), DropMissing(p)[k].cells);
  }

  /** The cleaned rows of a raw table: only dates the parser produced, so each is a
      real calendar day of the reference year, taken from a raw row with the same cells. */
  lemma CleanedRowsValid<V>(raw: seq<RawRow<V>>, refYear: int, k: nat)
    requires k < |DropMissing(ParseColumn(raw, refYear))|
    ensures var r := DropMissing(ParseColumn(raw, refYear))[k];
      r.date.year == refYear && ValidDate(r.date)
      && exists i :: 0 <= i < |raw| && ParseMonthDay(raw[i].date, refYear) == Some(r.date) && raw[i].cells == r.cells
  {
    var p := ParseColumn(raw, refYear);
    DropMissingFrom(p, k);
    var i :| 0 <= i < |p| && p[i] == ParsedRow(Some(DropMissing(p)[k].date), DropMissing(p)[k].cells);
    assert ParseMonthDay(raw[i].date, refYear) == Some(DropMissing(p)[k].date);
  }

  lemma ParseColumnPrefix<V>(raw: seq<RawRow<V>>, refYear: int)
    requires |raw| > 0
    ensures ParseColumn(raw, refYear)[..|raw| - 1] == ParseColumn(raw[..|raw| - 1], refYear)
  {
  }

  /** A raw row whose date cell does not parse contributes nothing: the cleaned table is
      the same with or without it. */
  lemma {:induction false} UnparsedRowDropped<V>(before: seq<RawRow<V>>, r: RawRow<V>, after: seq<RawRow<V>>, refYear: int)
    requires ParseMonthDay(r.date, refYear) == None
    ensures DropMissing(ParseColumn(before + [r] + after, refYear))
         == DropMissing(ParseColumn(before + after, refYear))
    decreases |after|
  {
    if |after| == 0 {
      assert ParseColumn(before + [r] + after, refYear)[..|before|] == ParseColumn(before + after, refYear);
    } else {
      var n := |after| - 1;
      UnparsedRowDropped(before, r, after[..n], refYear);
      var a1, a2 := before + [r] + after, before + after;
      var p1, p2 := ParseColumn(a1, refYear), ParseColumn(a2, refYear);
      assert a1[..|a1| - 1] == before + [r] + after[..n];
      assert a2[..|a2| - 1] == before + after[..n];
      ParseColumnPrefix(a1, refYear);
      ParseColumnPrefix(a2, refYear);
      assert a1[|a1| - 1] == a2[|a2| - 1];
    }
  }

  /** The column overwrite: every row's date cell replaced by its parse. */
  method ApplyParse<V>(raw: seq<RawRow<V>>, refYear: int) returns (parsed: seq<ParsedRow<V>>)
    ensures |parsed| == |raw|
    ensures forall i :: 0 <= i < |raw| ==>
      parsed[i] == ParsedRow(ParseMonthDay(raw[i].date, refYear), raw[i].cells)
  {
    parsed := [];
    var i := 0;
    while i < |raw|
      invariant 0 <= i <= |raw|
      invariant |parsed| == i
      invariant forall j :: 0 <= j < i ==>
        parsed[j] == ParsedRow(ParseMonthDay(raw[j].date, refYear), raw[j].cells)
    {
      parsed := parsed + [ParsedRow(ParseMonthDay(raw[i].date, refYear), raw[i].cells)];
      i := i + 1;
    }
  }

  /** dropna on the Date column, row by row. */
  method DropNa<V>(parsed: seq<ParsedRow<V>>) returns (rows: seq<Row<V>>)
    ensures rows == DropMissing(parsed)
  {
    rows := [];
    var i := 0;
    while i < |parsed|
      invariant 0 <= i <= |parsed|
      invariant rows == DropMissing(parsed[..i])
    {
      assert parsed[..i + 1][..i] == parsed[..i];
      if parsed[i].date.Some? {
        rows := rows + [Row(parsed[i].date.value, parsed[i].cells)];
      }
      i := i + 1;
    }
    assert parsed[..i] == parsed;
  }

  /** The whole load-time pass: parse the Date column, then drop undated rows. */
  method Load<V>(series: seq<string>, raw: seq<RawRow<V>>, refYear: int) returns (ds: Dataset<V>)
    requires DistinctNames(series)
    requires forall i :: 0 <= i < |raw| ==> |raw[i].cells| == |series|
    ensures ds.series == series
    ensures ds.rows == DropMissing(ParseColumn(raw, refYear))
    ensures WellFormed(ds)
    ensures forall k :: 0 <= k < |ds.rows| ==> ds.rows[k].date.year == refYear
  {
    var parsed := ApplyParse(raw, refYear);
    assert parsed == ParseColumn(raw, refYear);
    var rows := DropNa(parsed);
    ds := Dataset(series, rows);
    forall k | 0 <= k < |rows|
      ensures |rows[k].cells| == |series| && ValidDate(rows[k].date) && rows[k].date.year == refYear
    {
      CleanedRowsValid(raw, refYear, k);
    }
  }
}
