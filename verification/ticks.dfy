/** X-axis ticks: the first-of-month dates when there are any, otherwise every k-th
    date with k = max(1, n // 6); each tick labelled "Mon D". */
module Ticks {
  import opened Calendar
  import opened Text
  import opened Wrappers

  /** `dates[dates.dt.is_month_start]`: the dates falling on day 1, in order. */
  function FirstOfMonth(dates: seq<Date>): (r: seq<Date>)
    ensures |r| <= |dates|
    ensures forall j :: 0 <= j < |r| ==> IsMonthStart(r[j])
    decreases |dates|
  {
    if |dates| == 0 then []
    else
      var last := dates[|dates| - 1];
      FirstOfMonth(dates[..|dates| - 1]) + (if IsMonthStart(last) then [last] else [])
  }

  /** How many of the dates fall on day 1. */
  function CountMonthStarts(dates: seq<Date>): nat
    decreases |dates|
  {
    if |dates| == 0 then 0
    else CountMonthStarts(dates[..|dates| - 1]) + (if IsMonthStart(dates[|dates| - 1]) then 1 else 0)
  }

  /** Position k of the filtered list is taken by some first-of-month date. */
  predicate MonthStartAt(dates: seq<Date>, k: nat) {
    exists i :: 0 <= i < |dates| && IsMonthStart(dates[i]) && CountMonthStarts(dates[..i]) == k
  }

  /** The boolean mask keeps exactly the day-1 dates, in order: the day-1 date at index
      i lands at position CountMonthStarts(dates[..i]), every kept date is day 1, and
      every position is filled by one of them. */
  lemma {:induction false} FirstOfMonthExact(dates: seq<Date>)
    ensures |FirstOfMonth(dates)| == CountMonthStarts(dates)
    ensures |FirstOfMonth(dates)| > 0 <==> exists i :: 0 <= i < |dates| && IsMonthStart(dates[i])
    ensures forall i :: 0 <= i < |dates| && IsMonthStart(dates[i]) ==>
      CountMonthStarts(dates[..i]) < |FirstOfMonth(dates)|
      && FirstOfMonth(dates)[CountMonthStarts(dates[..i])] == dates[i]
    ensures forall k :: 0 <= k < |FirstOfMonth(dates)| ==> MonthStartAt(dates, k)
    decreases |dates|
  {
    if |dates| > 0 {
      var n := |dates| - 1;
      var front := dates[..n];
      FirstOfMonthExact(front);
      var out := FirstOfMonth(dates);
      assert out == FirstOfMonth(front) + (if IsMonthStart(dates[n]) then [dates[n]] else []);
      assert dates[..n] == front;
      forall i | 0 <= i < |dates| && IsMonthStart(dates[i])
        ensures CountMonthStarts(dates[..i]) < |out| && out[CountMonthStarts(dates[..i])] == dates[i]
      {
        if i < n {
          assert front[..i] == dates[..i];
          assert front[i] == dates[i];
        }
      }
      forall k | 0 <= k < |out| ensures MonthStartAt(dates, k) {
        if k < |FirstOfMonth(front)| {
          assert MonthStartAt(front, k);
          var i :| 0 <= i < |front| && IsMonthStart(front[i]) && CountMonthStarts(front[..i]) == k;
          assert front[..i] == dates[..i];
        } else {
          assert IsMonthStart(dates[n]) && CountMonthStarts(dates[..n]) == k;
        }
      }
    }
  }

  /** The fallback stride `max(1, len(dates) // 6)`. */
  function Stride(n: nat): (k: nat)
    ensures k >= 1
    ensures n >= 6 ==> k * 6 <= n < k * 6 + 6
    ensures n < 12 ==> k == 1
  {
    if n / 6 > 1 then n / 6 else 1
  }

  /** `s[::k]`: the elements at indices 0, k, 2k, ... */
  function EveryKth<T>(s: seq<T>, k: nat): (r: seq<T>)
    requires k >= 1
    ensures |r| <= |s| && (|s| > 0 <==> |r| > 0)
    ensures forall t :: t in r ==> t in s
    ensures |s| > 0 ==> r[0] == s[0]
    decreases |s|
  {
    if |s| == 0 then []
    else [s[0]] + EveryKth(if k <= |s| then s[k..] else [], k)
  }

  lemma MulMono(a: int, b: int, k: nat)
    requires a <= b
    ensures a * k <= b * k
  {
  }

  lemma MulStep(a: int, k: int)
    ensures (a + 1) * k == a * k + k
  {
  }

  /** c is ceil(n / k) exactly when (c - 1) * k < n <= c * k. */
  lemma CeilDiv(n: nat, k: nat, c: nat)
    requires k >= 1 && (c - 1) * k < n <= c * k
    ensures (n + k - 1) / k == c
  {
    var q, r := (n + k - 1) / k, (n + k - 1) % k;
    assert n + k - 1 == q * k + r && 0 <= r < k;
    if q > c {
      MulStep(c, k);
      MulMono(c + 1, q, k);
      assert false;
    }
    if q < c {
      MulStep(q, k);
      MulMono(q + 1, c, k);
      MulStep(c - 1, k);
      assert false;
    }
  }

  /** `s[::k]` has ceil(|s| / k) elements and its j-th element is s[j * k]. */
  lemma EveryKthExact<T>(s: seq<T>, k: nat)
    requires k >= 1
    ensures |EveryKth(s, k)| == (|s| + k - 1) / k
    ensures forall j :: 0 <= j < |EveryKth(s, k)| ==> j * k < |s| && EveryKth(s, k)[j] == s[j * k]
  {
    EveryKthLength(s, k);
    if |s| > 0 {
      CeilDiv(|s|, k, |EveryKth(s, k)|);
    }
    forall j | 0 <= j < |EveryKth(s, k)| ensures j * k < |s| && EveryKth(s, k)[j] == s[j * k] {
      EveryKthAt(s, k, j);
    }
  }

  /** The number of elements of `s[::k]`, bounded without division. */
  lemma {:induction false} EveryKthLength<T>(s: seq<T>, k: nat)
    requires k >= 1
    ensures |s| == 0 ==> |EveryKth(s, k)| == 0
    ensures |s| > 0 ==> (|EveryKth(s, k)| - 1) * k < |s| <= |EveryKth(s, k)| * k
    decreases |s|
  {
    if |s| > 0 {
      var rest := if k <= |s| then s[k..] else [];
      EveryKthLength(rest, k);
      var c := |EveryKth(s, k)|;
      assert c == 1 + |EveryKth(rest, k)|;
      if |rest| > 0 {
        MulStep(c - 2, k);
        MulStep(c - 1, k);
      }
    }
  }

  /** Element j of `s[::k]` is s[j * k]. */
  lemma {:induction false} EveryKthAt<T>(s: seq<T>, k: nat, j: nat)
    requires k >= 1 && j < |EveryKth(s, k)|
    ensures j * k < |s| && EveryKth(s, k)[j] == s[j * k]
    decreases j
  {
    if j > 0 {
      var rest := if k <= |s| then s[k..] else [];
      assert EveryKth(s, k) == [s[0]] + EveryKth(rest, k);
      EveryKthAt(rest, k, j - 1);
      MulStep(j - 1, k);
    }
  }

  /** Tick positions: first-of-month dates if any exist, else every k-th date. */
  function TickValues(dates: seq<Date>): (ticks: seq<Date>)
    ensures |ticks| <= |dates|
    ensures |dates| > 0 ==> |ticks| > 0
  {
    if |FirstOfMonth(dates)| > 0 then FirstOfMonth(dates)
    else EveryKth(dates, Stride(|dates|))
  }

  /** With at least one day-1 date, the ticks are exactly the day-1 dates. */
  lemma TicksAtMonthStarts(dates: seq<Date>, i: nat)
    requires i < |dates| && IsMonthStart(dates[i])
    ensures TickValues(dates) == FirstOfMonth(dates)
    ensures forall t :: t in TickValues(dates) ==> IsMonthStart(t)
  {
    FirstOfMonthExact(dates);
  }

  /** With no day-1 date, the ticks are the stride picks. */
  lemma FallbackIsStride(dates: seq<Date>)
    requires forall i :: 0 <= i < |dates| ==> !IsMonthStart(dates[i])
    ensures TickValues(dates) == EveryKth(dates, Stride(|dates|))
  {
    FirstOfMonthExact(dates);
  }

  /** `s[::1]` is s. */
  lemma {:induction false} EveryFirst<T>(s: seq<T>)
    ensures EveryKth(s, 1) == s
    decreases |s|
  {
    if |s| > 0 {
      EveryFirst(s[1..]);
    }
  }

  /** With no day-1 date, the ticks are dates[0], dates[k], dates[2k], ... */
  lemma TicksFallback(dates: seq<Date>)
    requires forall i :: 0 <= i < |dates| ==> !IsMonthStart(dates[i])
    ensures var k := Stride(|dates|);
      |TickValues(dates)| == (|dates| + k - 1) / k
      && forall j :: 0 <= j < |TickValues(dates)| ==> j * k < |dates| && TickValues(dates)[j] == dates[j * k]
  {
    FallbackIsStride(dates);
    EveryKthExact(dates, Stride(|dates|));
  }

  /** A count c of stride-k picks from n >= 6 items lies between 6 and 11. */
  lemma StridePickCount(n: nat, c: nat)
    requires n >= 6
    requires (c - 1) * Stride(n) < n <= c * Stride(n)
    ensures 6 <= c <= 11
  {
    var k := Stride(n);
    if c < 6 {
      MulMono(c, 5, k);
      assert false;
    }
    if c > 11 {
      if k >= 2 {
        MulMono(9, c - 1, k);
      }
      assert false;
    }
  }

  /** Fewer than 12 dates: every date is a tick; otherwise between 6 and 11 ticks. */
  lemma FallbackTickCount(dates: seq<Date>)
    requires forall i :: 0 <= i < |dates| ==> !IsMonthStart(dates[i])
    ensures |dates| < 12 ==> TickValues(dates) == dates
    ensures |dates| >= 6 ==> 6 <= |TickValues(dates)| <= 11
  {
    FallbackIsStride(dates);
    var n, c := |dates|, |TickValues(dates)|;
    if n < 12 {
      EveryFirst(dates);
    }
    if n >= 6 {
      EveryKthLength(dates, Stride(n));
      StridePickCount(n, c);
    }
  }

  /** No tick is invented: every tick is one of the dates. An empty date list has no ticks. */
  lemma TicksAreDates(dates: seq<Date>)
    ensures forall t :: t in TickValues(dates) ==> t in dates
    ensures |dates| == 0 ==> TickValues(dates) == []
  {
    FirstOfMonthExact(dates);
    if |FirstOfMonth(dates)| > 0 {
      forall t | t in TickValues(dates) ensures t in dates {
        var k :| 0 <= k < |FirstOfMonth(dates)| && FirstOfMonth(dates)[k] == t;
        assert MonthStartAt(dates, k);
        var i :| 0 <= i < |dates| && IsMonthStart(dates[i]) && CountMonthStarts(dates[..i]) == k;
      }
    } else {
      EveryKthExact(dates, Stride(|dates|));
      forall t | t in TickValues(dates) ensures t in dates {
        var j :| 0 <= j < |TickValues(dates)| && TickValues(dates)[j] == t;
      }
    }
  }

  /** `d.strftime("%b") + " " + str(d.day)`. */
  function TickLabel(d: Date): (l: string)
    requires ValidDate(d)
    ensures 5 <= |l| <= 6
    ensures l[..3] == MonthAbbrev(d.month) && l[3] == ' '
    ensures forall i :: 4 <= i < |l| ==> IsDigit(l[i])
  {
    MonthAbbrev(d.month) + " " + ShowNat(d.day)
  }

  /** The label is the 3-letter month, a space, and the day with no leading zero; the
      month and the day can be read back from it. */
  lemma TickLabelShape(d: Date)
    requires ValidDate(d)
    ensures var l := TickLabel(d);
      (|l| == 5 <==> d.day < 10) && (|l| == 6 <==> d.day >= 10)
      && l[..3] == MonthAbbrev(d.month) && l[3] == ' '
      && l[4] != '0' && ParseDecimal(l[4..]) == Some(d.day)
  {
    ShowNatShape(d.day);
    ParseShowNat(d.day);
    var l := TickLabel(d);
    assert l[4..] == ShowNat(d.day);
  }

  /** Two dates get the same label exactly when they share month and day. */
  lemma TickLabelInjective(d1: Date, d2: Date)
    requires ValidDate(d1) && ValidDate(d2)
    ensures TickLabel(d1) == TickLabel(d2) <==> d1.month == d2.month && d1.day == d2.day
  {
    if TickLabel(d1) == TickLabel(d2) {
      TickLabelShape(d1);
      TickLabelShape(d2);
      MonthAbbrevInjective(d1.month, d2.month);
    }
  }

  lemma TickLabelExamples(y: int)
    ensures TickLabel(Date(y, 4, 1)) == "Apr 1"
    ensures TickLabel(Date(y, 1, 15)) == "Jan 15"
  {
    assert ShowNat(15) == "15";
  }

  /** `[d.strftime("%b") + " " + str(d.day) for d in tick_vals]`. */
  function TickTexts(ticks: seq<Date>): (texts: seq<string>)
    requires forall i :: 0 <= i < |ticks| ==> ValidDate(ticks[i])
    ensures |texts| == |ticks|
    ensures forall i :: 0 <= i < |ticks| ==> texts[i] == TickLabel(ticks[i])
  {
    seq(|ticks|, i requires 0 <= i < |ticks| => TickLabel(ticks[i]))
  }
}
