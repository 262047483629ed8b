/** `update_plot`: the chart description rebuilt from the checklist selection. The
    figure is an abstract record; plotly itself is not modelled. */
module Chart {
  import opened Wrappers
  import opened Calendar
  import opened Loader
  import opened Ticks

  /** One line trace: its series name, x dates, y values (None is a gap) and mode. */
  datatype Trace<N> = Trace(name: string, x: seq<Date>, y: seq<Option<N>>, mode: string)

  datatype AxisRange = AxisRange(lo: int, hi: int)

  datatype Figure<N> = Figure(traces: seq<Trace<N>>, tickVals: seq<Date>, tickText: seq<string>, yRange: AxisRange)

  /** The fixed y-axis range of the layout. */
  const YRange := AxisRange(0, 300)

  /** `data["Date"]`: the cleaned dates in row order. */
  function DatesOf<V>(ds: Dataset<V>): (dates: seq<Date>)
    ensures |dates| == |ds.rows|
    ensures forall k :: 0 <= k < |ds.rows| ==> dates[k] == ds.rows[k].date
  {
    seq(|ds.rows|, k requires 0 <= k < |ds.rows| => ds.rows[k].date)
  }

  /** `data[name]` selects the column with that name. */
  function ColumnIndex(series: seq<string>, name: string): (j: nat)
    requires name in series
    ensures j < |series| && series[j] == name
    ensures forall i :: 0 <= i < j ==> series[i] != name
  {
    if series[0] == name then 0 else 1 + ColumnIndex(series[1..], name)
  }

  /** Rebuilds the figure: one trace per selected series, in selection order, then the
      x ticks and labels (which depend on the dates only) and the fixed y range. */
  method UpdatePlot<V, N>(ds: Dataset<V>, selected: seq<string>, coerce: V -> Option<N>)
    returns (fig: Figure<N>)
    requires WellFormed(ds)
    requires forall i :: 0 <= i < |selected| ==> selected[i] in ds.series
    ensures |fig.traces| == |selected|
    ensures forall i :: 0 <= i < |selected| ==>
      fig.traces[i].name == selected[i] && fig.traces[i].mode == "lines"
      && fig.traces[i].x == DatesOf(ds) && |fig.traces[i].y| == |ds.rows|
      && forall k :: 0 <= k < |ds.rows| ==>
           fig.traces[i].y[k] == coerce(ds.rows[k].cells[ColumnIndex(ds.series, selected[i])])
    ensures fig.tickVals == TickValues(DatesOf(ds))
    ensures |fig.tickText| == |fig.tickVals|
    ensures forall i :: 0 <= i < |fig.tickVals| ==>
      ValidDate(fig.tickVals[i]) && fig.tickText[i] == TickLabel(fig.tickVals[i])
    ensures fig.yRange == AxisRange(0, 300)
  {
    var dates := DatesOf(ds);
    var traces: seq<Trace<N>> := [];
    for i := 0 to |selected|
      invariant |traces| == i
      invariant forall t :: 0 <= t < i ==>
        traces[t].name == selected[t] && traces[t].mode == "lines"
        && traces[t].x == dates && |traces[t].y| == |ds.rows|
        && forall k :: 0 <= k < |ds.rows| ==>
             traces[t].y[k] == coerce(ds.rows[k].cells[ColumnIndex(ds.series, selected[t])])
    {
      var j := ColumnIndex(ds.series, selected[i]);
      var y := seq(|ds.rows|, k requires 0 <= k < |ds.rows| && j < |ds.rows[k].cells| => coerce(ds.rows[k].cells[j]));
      traces := traces + [Trace(selected[i], dates, y, "lines")];
    }
    var tickVals := TickValues(dates);
    TicksAreDates(dates);
    assert forall i :: 0 <= i < |tickVals| ==> ValidDate(tickVals[i]) by {
      forall i | 0 <= i < |tickVals| ensures ValidDate(tickVals[i]) {
        assert tickVals[i] in dates;
      }
    }
    fig := Figure(traces, tickVals, TickTexts(tickVals), YRange);
  }
}
