/**
 * metrics.py, `add_return_metrics`: sort a price frame by date, add the simple daily
 * return, and the trailing 20-row mean and sample standard deviation of the return.
 * NaN and infinite values are `None`; the volatility column is carried as its square,
 * the sample variance.
 */
module Metrics {
  import opened Wrappers

  /** A calendar day, as a day number. */
  type Date = int

  /** `rolling(window=20)`. */
  const Window: nat := 20

  /** A row of the frame `get_price_data` returns. */
  datatype PriceRow = PriceRow(symbol: string, date: Date, close: real)

  /**
   * A row of the frame `add_return_metrics` returns: the input row, `daily_return`,
   * `rolling_20d_return`, and the square of `rolling_20d_volatility`.
   */
  datatype MetricRow = MetricRow(
    row: PriceRow,
    dailyReturn: Option<real>,
    rollingReturn20: Option<real>,
    rollingVariance20: Option<real>)

  // ---------------------------------------------------------------- sorting

  predicate SortedByDate(rows: seq<PriceRow>) {
    forall i, j :: 0 <= i < j < |rows| ==> rows[i].date <= rows[j].date
  }

  /** Rows that share a date are the same row (in particular: no date repeats). */
  predicate DateDeterminesRow(rows: seq<PriceRow>) {
    forall i, j :: 0 <= i < |rows| && 0 <= j < |rows| && rows[i].date == rows[j].date ==> rows[i] == rows[j]
  }

  /** Every row is dated `d` or later. */
  predicate DatedFrom(d: Date, rows: seq<PriceRow>) {
    forall k :: 0 <= k < |rows| ==> d <= rows[k].date
  }

  lemma DatedFromPermutation(d: Date, x: PriceRow, rows: seq<PriceRow>, r: seq<PriceRow>)
    requires d <= x.date && DatedFrom(d, rows)
    requires multiset(r) == multiset(rows) + multiset{x}
    ensures DatedFrom(d, r)
  {
    forall k | 0 <= k < |r| ensures d <= r[k].date {
      assert r[k] in multiset(r);
      if r[k] != x {
        assert r[k] in multiset(rows);
        var m :| 0 <= m < |rows| && rows[m] == r[k];
      }
    }
  }

  lemma SortedCons(y: PriceRow, rows: seq<PriceRow>)
    requires SortedByDate(rows) && (rows == [] || y.date <= rows[0].date)
    ensures SortedByDate([y] + rows)
  {
    var r := [y] + rows;
    forall i, j | 0 <= i < j < |r| ensures r[i].date <= r[j].date {
      assert r[j] == rows[j - 1];
      if i > 0 {
        assert r[i] == rows[i - 1];
      } else if j > 1 {
        assert rows[0].date <= rows[j - 1].date;
      }
    }
  }

  function InsertByDate(x: PriceRow, rows: seq<PriceRow>): (r: seq<PriceRow>)
    requires SortedByDate(rows)
    ensures SortedByDate(r)
    ensures multiset(r) == multiset(rows) + multiset{x}
  {
    if rows == [] || x.date <= rows[0].date then
      SortedCons(x, rows);
      [x] + rows
    else
      var tail := InsertByDate(x, rows[1..]);
      assert rows == [rows[0]] + rows[1..];
      DatedFromPermutation(rows[0].date, x, rows[1..], tail);
      SortedCons(rows[0], tail);
      [rows[0]] + tail
  }

  /** `sort_values("date")`: the rows in ascending date order. */
  function SortByDate(rows: seq<PriceRow>): (r: seq<PriceRow>)
    ensures SortedByDate(r)
    ensures multiset(r) == multiset(rows)
    ensures |r| == |rows|
  {
    if rows == [] then []
    else
      assert rows == [rows[0]] + rows[1..];
      InsertByDate(rows[0], SortByDate(rows[1..]))
  }

  lemma SameFirstRow(a: seq<PriceRow>, b: seq<PriceRow>)
    requires SortedByDate(a) && SortedByDate(b) && multiset(a) == multiset(b)
    requires DateDeterminesRow(a) && a != []
    ensures b != [] && a[0] == b[0]
  {
    assert |b| == |multiset(b)| == |a|;
    assert a[0] in multiset(b) && b[0] in multiset(a);
    var j :| 0 <= j < |b| && b[j] == a[0];
    var i :| 0 <= i < |a| && a[i] == b[0];
    assert a[0].date <= a[i].date == b[0].date <= b[j].date == a[0].date;
    assert a[i] == a[0];
  }

  lemma TailPermutation(a: seq<PriceRow>, b: seq<PriceRow>)
    requires a != [] && b != [] && a[0] == b[0] && multiset(a) == multiset(b)
    ensures multiset(a[1..]) == multiset(b[1..])
  {
    assert a == [a[0]] + a[1..] && b == [b[0]] + b[1..];
    assert multiset(a[1..]) == multiset(a) - multiset{a[0]};
    assert multiset(b[1..]) == multiset(b) - multiset{a[0]};
  }

  /**
   * When a date determines its row, a frame has exactly one date-ordered
   * arrangement, so any sort (stable or not) produces it.
   */
  lemma {:induction false} SortedPermutationUnique(a: seq<PriceRow>, b: seq<PriceRow>)
    requires SortedByDate(a) && SortedByDate(b) && multiset(a) == multiset(b)
    requires DateDeterminesRow(a)
    ensures a == b
  {
    if a == [] {
      assert |b| == |multiset(b)| == 0;
    } else {
      SameFirstRow(a, b);
      TailPermutation(a, b);
      assert forall k :: 0 <= k < |a| - 1 ==> a[1..][k] == a[k + 1];
      SortedPermutationUnique(a[1..], b[1..]);
      assert a == [a[0]] + a[1..] && b == [b[0]] + b[1..];
    }
  }

  // ---------------------------------------------------------------- daily returns

  function Closes(rows: seq<PriceRow>): (c: seq<real>)
    ensures |c| == |rows| && forall i :: 0 <= i < |rows| ==> c[i] == rows[i].close
  {
    seq(|rows|, i requires 0 <= i < |rows| => rows[i].close)
  }

  /**
   * `pct_change()`: no return at row 0; a zero previous close gives inf or NaN,
   * which is `None` and never 0.
   */
  function PctChange(closes: seq<real>): (r: seq<Option<real>>)
    ensures |r| == |closes|
    ensures |r| > 0 ==> r[0] == None
    ensures forall i {:trigger r[i]} :: 1 <= i < |r| ==> (r[i].Some? <==> closes[i - 1] != 0.0)
  {
    seq(|closes|, i requires 0 <= i < |closes| =>
      if i == 0 || closes[i - 1] == 0.0 then None
      else Some((closes[i] - closes[i - 1]) / closes[i - 1]))
  }

  /** A price after it grew by the relative change `r`. */
  function Grow(price: real, r: real): real {
    price * (1.0 + r)
  }

  /** A defined return is the relative change: the previous close grown by it is the close. */
  lemma PctChangeIsRelativeChange(closes: seq<real>, i: int)
    requires 1 <= i < |closes| && closes[i - 1] != 0.0
    ensures PctChange(closes)[i] == Some((closes[i] - closes[i - 1]) / closes[i - 1])
    ensures Grow(closes[i - 1], PctChange(closes)[i].value) == closes[i]
  {
    var p, c := closes[i - 1], closes[i];
    assert (c - p) / p * p == c - p;
  }

  /** Prices compounded from `first` by each return in turn. */
  function Compound(first: real, rets: seq<real>): (c: seq<real>)
    ensures |c| == |rets| + 1 && c[0] == first
  {
    if rets == [] then [first]
    else
      var prefix := Compound(first, rets[..|rets| - 1]);
      prefix + [Grow(prefix[|prefix| - 1], rets[|rets| - 1])]
  }

  // ---------------------------------------------------------------- rolling statistics

  predicate AllDefined(xs: seq<Option<real>>) {
    forall k :: 0 <= k < |xs| ==> xs[k].Some?
  }

  function Values(xs: seq<Option<real>>): (v: seq<real>)
    requires AllDefined(xs)
    ensures |v| == |xs| && forall k :: 0 <= k < |xs| ==> xs[k] == Some(v[k])
  {
    seq(|xs|, k requires 0 <= k < |xs| => xs[k].value)
  }

  function Sum(s: seq<real>): real {
    if s == [] then 0.0 else Sum(s[..|s| - 1]) + s[|s| - 1]
  }

  function Mean(s: seq<real>): real
    requires |s| > 0
  {
    Sum(s) / (|s| as real)
  }

  function Square(x: real): real {
    x * x
  }

  function SquaredDeviations(s: seq<real>, m: real): real {
    if s == [] then 0.0
    else SquaredDeviations(s[..|s| - 1], m) + Square(s[|s| - 1] - m)
  }

  /** Sample variance, denominator |s| - 1 (pandas' default ddof=1). */
  function SampleVariance(s: seq<real>): real
    requires |s| > 1
  {
    SquaredDeviations(s, Mean(s)) / ((|s| - 1) as real)
  }

  /** Row `i` has 20 trailing rows (itself included), all with a return. */
  predicate FullWindow(rets: seq<Option<real>>, i: int) {
    Window - 1 <= i < |rets| && AllDefined(rets[i + 1 - Window..i + 1])
  }

  /** `rolling(window=20).mean()`. */
  function RollingMean(rets: seq<Option<real>>): (r: seq<Option<real>>)
    ensures |r| == |rets|
  {
    seq(|rets|, i requires 0 <= i < |rets| =>
      if FullWindow(rets, i) then Some(Mean(Values(rets[i + 1 - Window..i + 1]))) else None)
  }

  /** `rolling(window=20).std()`, squared. */
  function RollingVariance(rets: seq<Option<real>>): (r: seq<Option<real>>)
    ensures |r| == |rets|
  {
    seq(|rets|, i requires 0 <= i < |rets| =>
      if FullWindow(rets, i) then Some(SampleVariance(Values(rets[i + 1 - Window..i + 1]))) else None)
  }

  function RowsOf(r: seq<MetricRow>): (rows: seq<PriceRow>)
    ensures |rows| == |r| && forall i :: 0 <= i < |r| ==> rows[i] == r[i].row
  {
    seq(|r|, i requires 0 <= i < |r| => r[i].row)
  }

  /** `add_return_metrics`: a new frame; the caller's frame is a value and stays as it was. */
  function AddReturnMetrics(frame: seq<PriceRow>): (r: seq<MetricRow>)
    ensures |r| == |frame|
    ensures SortedByDate(RowsOf(r)) && multiset(RowsOf(r)) == multiset(frame)
    ensures |r| > 0 ==> r[0].dailyReturn == None
  {
    var sorted := SortByDate(frame);
    var rets := PctChange(Closes(sorted));
    var means := RollingMean(rets);
    var variances := RollingVariance(rets);
    var r := seq(|sorted|, i requires 0 <= i < |sorted| => MetricRow(sorted[i], rets[i], means[i], variances[i]));
    assert RowsOf(r) == sorted;
    r
  }

  // ---------------------------------------------------------------- lemmas

  /**
   * `r` is the derived frame over the date-ordered rows `sorted`: row `k` carries
   * `sorted[k]`, its return, and the rolling mean and variance at `k`.
   */
  ghost predicate MetricsOver(r: seq<MetricRow>, sorted: seq<PriceRow>) {
    && |r| == |sorted|
    && forall k {:trigger r[k]} :: 0 <= k < |r| ==>
         r[k] == MetricRow(sorted[k], PctChange(Closes(sorted))[k],
                           RollingMean(PctChange(Closes(sorted)))[k],
                           RollingVariance(PctChange(Closes(sorted)))[k])
  }

  lemma MetricsOverSorted(frame: seq<PriceRow>)
    ensures MetricsOver(AddReturnMetrics(frame), SortByDate(frame))
  {
  }

  lemma DateDeterminesRowPermutation(a: seq<PriceRow>, b: seq<PriceRow>)
    requires multiset(a) == multiset(b) && DateDeterminesRow(a)
    ensures DateDeterminesRow(b)
  {
    forall i, j | 0 <= i < |b| && 0 <= j < |b| && b[i].date == b[j].date ensures b[i] == b[j] {
      assert b[i] in multiset(a) && b[j] in multiset(a);
      var i' :| 0 <= i' < |a| && a[i'] == b[i];
      var j' :| 0 <= j' < |a| && a[j'] == b[j];
    }
  }

  /**
   * The derived frame does not depend on the order of the input rows, provided a
   * date determines its row (as it does for one ticker's stored rows).
   */
  lemma MetricsIgnoreInputOrder(f1: seq<PriceRow>, f2: seq<PriceRow>)
    requires multiset(f1) == multiset(f2) && DateDeterminesRow(f1)
    ensures AddReturnMetrics(f1) == AddReturnMetrics(f2)
  {
    DateDeterminesRowPermutation(f1, SortByDate(f1));
    SortedPermutationUnique(SortByDate(f1), SortByDate(f2));
  }

  /** The worked example: closes 100, 110, 99 give no return, then +10%, then -10%. */
  lemma PctChangeExample()
    ensures PctChange([100.0, 110.0, 99.0]) == [None, Some(0.1), Some(-0.1)]
  {
    var r := PctChange([100.0, 110.0, 99.0]);
    assert r[1] == Some((110.0 - 100.0) / 100.0);
    assert r[2] == Some((99.0 - 110.0) / 110.0);
  }

  /** The defined returns of `closes` are those of its prefix followed by the last one. */
  lemma ReturnValuesSnoc(closes: seq<real>)
    requires |closes| > 1
    requires forall k :: 0 <= k < |closes| - 1 ==> closes[k] != 0.0
    ensures AllDefined(PctChange(closes)[1..])
    ensures AllDefined(PctChange(closes[..|closes| - 1])[1..])
    ensures Values(PctChange(closes)[1..]) ==
              Values(PctChange(closes[..|closes| - 1])[1..]) + [PctChange(closes)[|closes| - 1].value]
  {
    var n := |closes|;
    var pre := closes[..n - 1];
    var rets, prets := PctChange(closes)[1..], PctChange(pre)[1..];
    assert forall k :: 0 <= k < |rets| ==> rets[k] == PctChange(closes)[k + 1];
    assert forall k :: 0 <= k < |prets| ==> prets[k] == PctChange(pre)[k + 1];
    var vs, pvs := Values(rets), Values(prets);
    forall k | 0 <= k < |pvs| ensures vs[k] == pvs[k] {
      assert closes[k] == pre[k];
    }
    assert vs == pvs + [vs[|vs| - 1]];
  }

  /** Compounding the returns from the first close rebuilds the closes. */
  lemma {:induction false} CompoundInvertsPctChange(closes: seq<real>)
    requires |closes| > 0
    requires forall k :: 0 <= k < |closes| - 1 ==> closes[k] != 0.0
    ensures AllDefined(PctChange(closes)[1..])
    ensures Compound(closes[0], Values(PctChange(closes)[1..])) == closes
  {
    var n := |closes|;
    if n > 1 {
      var pre := closes[..n - 1];
      CompoundInvertsPctChange(pre);
      ReturnValuesSnoc(closes);
      PctChangeIsRelativeChange(closes, n - 1);
      var vs := Values(PctChange(closes)[1..]);
      assert vs[..|vs| - 1] == Values(PctChange(pre)[1..]);
      assert Compound(closes[0], vs) == pre + [Grow(pre[n - 2], vs[|vs| - 1])];
      assert closes == pre + [closes[n - 1]];
    } else {
      assert Values(PctChange(closes)[1..]) == [];
      assert closes == [closes[0]];
    }
  }

  /** Row `i` of the return series has a full window iff the 20 closes before it are nonzero. */
  lemma FullWindowIff(closes: seq<real>, i: int)
    ensures FullWindow(PctChange(closes), i) <==>
              Window <= i < |closes| && forall k :: i - Window <= k < i ==> closes[k] != 0.0
  {
    var rets := PctChange(closes);
    if Window - 1 <= i < |closes| {
      var lo := i + 1 - Window;
      var w := rets[lo..i + 1];
      assert forall m :: 0 <= m < |w| ==> w[m] == rets[lo + m];
      if AllDefined(w) {
        assert w[0].Some?;
        forall k | i - Window <= k < i ensures closes[k] != 0.0 {
          assert w[k + 1 - lo].Some?;
        }
      }
      if Window <= i && forall k :: i - Window <= k < i ==> closes[k] != 0.0 {
        forall m | 0 <= m < |w| ensures w[m].Some? {
          assert closes[lo + m - 1] != 0.0;
        }
      }
    }
  }

  /** On the closes: the rolling values at `i` exist iff the 20 closes before `i` are nonzero. */
  lemma RollingDefinedAt(closes: seq<real>, i: int)
    requires 0 <= i < |closes|
    ensures RollingMean(PctChange(closes))[i].Some? <==>
              Window <= i && forall k :: i - Window <= k < i ==> closes[k] != 0.0
    ensures RollingVariance(PctChange(closes))[i].Some? <==> RollingMean(PctChange(closes))[i].Some?
  {
    FullWindowIff(closes, i);
  }

  lemma DailyReturnOver(r: seq<MetricRow>, sorted: seq<PriceRow>, i: int)
    requires MetricsOver(r, sorted) && 0 <= i < |r|
    ensures r[i].dailyReturn.Some? <==> i >= 1 && r[i - 1].row.close != 0.0
    ensures r[i].dailyReturn.Some? ==> Grow(r[i - 1].row.close, r[i].dailyReturn.value) == r[i].row.close
  {
    var closes := Closes(sorted);
    if i >= 1 && closes[i - 1] != 0.0 {
      PctChangeIsRelativeChange(closes, i);
    }
  }

  /**
   * `daily_return` of output row `i`: defined iff `i >= 1` and the previous close is
   * nonzero, and then the previous close grown by it is the close.
   */
  lemma DailyReturnAt(frame: seq<PriceRow>, i: int)
    requires 0 <= i < |frame|
    ensures var r := AddReturnMetrics(frame);
      && (r[i].dailyReturn.Some? <==> i >= 1 && r[i - 1].row.close != 0.0)
      && (r[i].dailyReturn.Some? ==> Grow(r[i - 1].row.close, r[i].dailyReturn.value) == r[i].row.close)
  {
    MetricsOverSorted(frame);
    DailyReturnOver(AddReturnMetrics(frame), SortByDate(frame), i);
  }

  lemma RollingDefinedOver(r: seq<MetricRow>, sorted: seq<PriceRow>, i: int)
    requires MetricsOver(r, sorted) && 0 <= i < |r|
    ensures r[i].rollingReturn20.Some? <==> Window <= i && forall k :: i - Window <= k < i ==> r[k].row.close != 0.0
    ensures r[i].rollingVariance20.Some? <==> r[i].rollingReturn20.Some?
  {
    var closes := Closes(sorted);
    RollingDefinedAt(closes, i);
    if Window <= i {
      assert forall k :: i - Window <= k < i ==> r[k].row.close == closes[k];
    }
  }

  /**
   * Output row `i` has a rolling mean iff `i >= 20` and the closes of the 20 rows
   * before it are all nonzero; the rolling volatility is defined on exactly the same rows.
   */
  lemma RollingDefinedIff(frame: seq<PriceRow>, i: int)
    requires 0 <= i < |frame|
    ensures var r := AddReturnMetrics(frame);
      && (r[i].rollingReturn20.Some? <==> Window <= i && forall k :: i - Window <= k < i ==> r[k].row.close != 0.0)
      && (r[i].rollingVariance20.Some? <==> r[i].rollingReturn20.Some?)
  {
    MetricsOverSorted(frame);
    RollingDefinedOver(AddReturnMetrics(frame), SortByDate(frame), i);
  }

  /**
   * A zero close leaves the next row without a return and the 20 rows after it
   * without rolling values.
   */
  lemma ZeroCloseUndefines(frame: seq<PriceRow>, j: int)
    requires 0 <= j < |frame| && AddReturnMetrics(frame)[j].row.close == 0.0
    ensures var r := AddReturnMetrics(frame);
      && (j + 1 < |r| ==> r[j + 1].dailyReturn == None)
      && forall i :: j < i <= j + Window && i < |r| ==>
           r[i].rollingReturn20 == None && r[i].rollingVariance20 == None
  {
    var r := AddReturnMetrics(frame);
    if j + 1 < |r| { DailyReturnAt(frame, j + 1); }
    forall i | j < i <= j + Window && i < |r|
      ensures r[i].rollingReturn20 == None && r[i].rollingVariance20 == None
    {
      RollingDefinedIff(frame, i);
    }
  }

  /**
   * With no zero close, row 0 has no return and rows 1.. have one, and the rolling
   * values are defined exactly from row 20 on (e.g. rows 20-24 of a 25-row frame).
   */
  lemma NonZeroClosesBoundary(frame: seq<PriceRow>)
    requires forall k :: 0 <= k < |frame| ==> frame[k].close != 0.0
    ensures var r := AddReturnMetrics(frame);
      forall i :: 0 <= i < |r| ==>
        && (r[i].dailyReturn.Some? <==> i >= 1)
        && (r[i].rollingReturn20.Some? <==> i >= Window)
        && (r[i].rollingVariance20.Some? <==> i >= Window)
  {
    var r := AddReturnMetrics(frame);
    forall k | 0 <= k < |r| ensures r[k].row.close != 0.0 {
      assert RowsOf(r)[k] in multiset(frame);
    }
    forall i | 0 <= i < |r|
      ensures && (r[i].dailyReturn.Some? <==> i >= 1)
              && (r[i].rollingReturn20.Some? <==> i >= Window)
              && (r[i].rollingVariance20.Some? <==> i >= Window)
    {
      DailyReturnAt(frame, i);
      RollingDefinedIff(frame, i);
    }
  }

  /**
   * A frame of at most 20 rows has no rolling values; in particular an empty frame
   * gives an empty one and a one-row frame a row with nothing derived.
   */
  lemma ShortFrameUndefined(frame: seq<PriceRow>)
    requires |frame| <= Window
    ensures var r := AddReturnMetrics(frame);
      forall i :: 0 <= i < |r| ==>
        r[i].rollingReturn20 == None && r[i].rollingVariance20 == None
  {
    forall i | 0 <= i < |frame|
      ensures AddReturnMetrics(frame)[i].rollingReturn20 == None && AddReturnMetrics(frame)[i].rollingVariance20 == None
    {
      RollingDefinedIff(frame, i);
    }
  }

  lemma {:induction false} SumBounds(s: seq<real>, lo: real, hi: real)
    requires forall k :: 0 <= k < |s| ==> lo <= s[k] <= hi
    ensures (|s| as real) * lo <= Sum(s) <= (|s| as real) * hi
  {
    if s != [] {
      SumBounds(s[..|s| - 1], lo, hi);
      assert (|s| as real) * lo == ((|s| - 1) as real) * lo + lo;
      assert (|s| as real) * hi == ((|s| - 1) as real) * hi + hi;
    }
  }

  lemma MeanBounds(s: seq<real>, lo: real, hi: real)
    requires |s| > 0
    requires forall k :: 0 <= k < |s| ==> lo <= s[k] <= hi
    ensures lo <= Mean(s) <= hi
  {
    SumBounds(s, lo, hi);
    var n := |s| as real;
    assert Mean(s) * n == Sum(s);
  }

  /** A full window's mean lies between bounds that hold for each of its returns. */
  lemma WindowMeanBounds(rets: seq<Option<real>>, i: int, lo: real, hi: real)
    requires FullWindow(rets, i)
    requires forall k :: i + 1 - Window <= k <= i ==> lo <= rets[k].value <= hi
    ensures lo <= RollingMean(rets)[i].value <= hi
  {
    var w := rets[i + 1 - Window..i + 1];
    var vs := Values(w);
    forall m | 0 <= m < |vs| ensures lo <= vs[m] <= hi {
      assert w[m] == rets[i + 1 - Window + m];
    }
    MeanBounds(vs, lo, hi);
  }

  lemma RollingMeanBoundsOver(r: seq<MetricRow>, sorted: seq<PriceRow>, i: int, lo: real, hi: real)
    requires MetricsOver(r, sorted) && 0 <= i < |r| && r[i].rollingReturn20.Some?
    requires forall k :: 0 <= k <= i && i < k + Window && r[k].dailyReturn.Some? ==> lo <= r[k].dailyReturn.value <= hi
    ensures lo <= r[i].rollingReturn20.value <= hi
  {
    var rets := PctChange(Closes(sorted));
    assert FullWindow(rets, i);
    forall k | i + 1 - Window <= k <= i ensures lo <= rets[k].value <= hi {
      assert rets[k] == rets[i + 1 - Window..i + 1][k - (i + 1 - Window)];
      assert r[k].dailyReturn == rets[k];
    }
    WindowMeanBounds(rets, i, lo, hi);
  }

  /** The rolling mean lies between the smallest and largest return of its window. */
  lemma RollingMeanBounds(frame: seq<PriceRow>, i: int, lo: real, hi: real)
    requires 0 <= i < |frame| && AddReturnMetrics(frame)[i].rollingReturn20.Some?
    requires forall k :: 0 <= k <= i && i < k + Window && AddReturnMetrics(frame)[k].dailyReturn.Some? ==>
               lo <= AddReturnMetrics(frame)[k].dailyReturn.value <= hi
    ensures lo <= AddReturnMetrics(frame)[i].rollingReturn20.value <= hi
  {
    MetricsOverSorted(frame);
    RollingMeanBoundsOver(AddReturnMetrics(frame), SortByDate(frame), i, lo, hi);
  }

  lemma {:induction false} SquaredDeviationsNonNegative(s: seq<real>, m: real)
    ensures SquaredDeviations(s, m) >= 0.0
  {
    if s != [] {
      SquaredDeviationsNonNegative(s[..|s| - 1], m);
      var d := s[|s| - 1] - m;
      assert Square(d) >= 0.0;
    }
  }

  /** A product of two positive factors is positive. */
  lemma ProductPositive(a: real, b: real, p: real)
    requires a > 0.0 && b > 0.0 && p == a * b
    ensures p > 0.0
  {
  }

  lemma SquarePositive(x: real)
    requires x != 0.0
    ensures Square(x) > 0.0
  {
    if x > 0.0 {
      ProductPositive(x, x, Square(x));
    } else {
      ProductPositive(-x, -x, Square(x));
    }
  }

  lemma {:induction false} SquaredDeviationsZero(s: seq<real>, m: real)
    ensures SquaredDeviations(s, m) == 0.0 <==> forall k :: 0 <= k < |s| ==> s[k] == m
  {
    if s != [] {
      var pre := s[..|s| - 1];
      var d := s[|s| - 1] - m;
      SquaredDeviationsZero(pre, m);
      SquaredDeviationsNonNegative(pre, m);
      assert SquaredDeviations(s, m) == SquaredDeviations(pre, m) + Square(d);
      if d != 0.0 { SquarePositive(d); }
      if SquaredDeviations(s, m) == 0.0 {
        assert SquaredDeviations(pre, m) == 0.0 && d == 0.0;
        forall k | 0 <= k < |s| ensures s[k] == m {
          if k < |s| - 1 { assert s[k] == pre[k]; }
        }
      }
      if forall k :: 0 <= k < |s| ==> s[k] == m {
        assert forall k :: 0 <= k < |pre| ==> pre[k] == m;
        assert d == 0.0;
      }
    }
  }

  lemma {:induction false} SumConstant(s: seq<real>, c: real)
    requires forall k :: 0 <= k < |s| ==> s[k] == c
    ensures Sum(s) == (|s| as real) * c
  {
    if s != [] {
      SumConstant(s[..|s| - 1], c);
      assert (|s| as real) * c == ((|s| - 1) as real) * c + c;
    }
  }

  /** The sample variance is zero exactly when all values are equal. */
  lemma VarianceZeroIff(s: seq<real>)
    requires |s| > 1
    ensures SampleVariance(s) == 0.0 <==> forall k :: 0 <= k < |s| ==> s[k] == s[|s| - 1]
  {
    var n := (|s| - 1) as real;
    var m := Mean(s);
    SquaredDeviationsZero(s, m);
    assert SampleVariance(s) * n == SquaredDeviations(s, m);
    if forall k :: 0 <= k < |s| ==> s[k] == s[|s| - 1] {
      SumConstant(s, s[|s| - 1]);
      assert m == s[|s| - 1];
    }
  }

  /**
   * A full window's variance is never negative, and is zero exactly when the window's
   * returns all equal its last one.
   */
  lemma WindowVarianceProperties(rets: seq<Option<real>>, i: int)
    requires FullWindow(rets, i)
    ensures RollingVariance(rets)[i].value >= 0.0
    ensures RollingVariance(rets)[i].value == 0.0 <==>
              forall k :: i + 1 - Window <= k <= i ==> rets[k] == rets[i]
  {
    var lo := i + 1 - Window;
    var w := rets[lo..i + 1];
    var vs := Values(w);
    assert forall m :: 0 <= m < |w| ==> w[m] == rets[lo + m];
    SquaredDeviationsNonNegative(vs, Mean(vs));
    VarianceZeroIff(vs);
    assert RollingVariance(rets)[i].value * ((Window - 1) as real) == SquaredDeviations(vs, Mean(vs));
    if forall k :: lo <= k <= i ==> rets[k] == rets[i] {
      forall m | 0 <= m < |vs| ensures vs[m] == vs[|vs| - 1] {
        assert rets[lo + m] == rets[i];
      }
    }
    if forall m :: 0 <= m < |vs| ==> vs[m] == vs[|vs| - 1] {
      forall k | lo <= k <= i ensures rets[k] == rets[i] {
        assert vs[k - lo] == vs[|vs| - 1];
      }
    }
  }

  lemma RollingVarianceOver(r: seq<MetricRow>, sorted: seq<PriceRow>, i: int)
    requires MetricsOver(r, sorted) && 0 <= i < |r| && r[i].rollingVariance20.Some?
    ensures r[i].rollingVariance20.value >= 0.0
    ensures r[i].rollingVariance20.value == 0.0 <==>
              forall k :: 0 <= k <= i && i < k + Window ==> r[k].dailyReturn == r[i].dailyReturn
  {
    var rets := PctChange(Closes(sorted));
    assert FullWindow(rets, i);
    WindowVarianceProperties(rets, i);
    assert forall k :: 0 <= k < |r| ==> r[k].dailyReturn == rets[k];
  }

  /**
   * The rolling variance (the squared volatility) is never negative, so its square
   * root exists, and it is zero exactly when the 20 returns of the window are equal.
   */
  lemma RollingVarianceProperties(frame: seq<PriceRow>, i: int)
    requires 0 <= i < |frame| && AddReturnMetrics(frame)[i].rollingVariance20.Some?
    ensures var r := AddReturnMetrics(frame);
      && r[i].rollingVariance20.value >= 0.0
      && (r[i].rollingVariance20.value == 0.0 <==>
            forall k :: 0 <= k <= i && i < k + Window ==> r[k].dailyReturn == r[i].dailyReturn)
  {
    MetricsOverSorted(frame);
    RollingVarianceOver(AddReturnMetrics(frame), SortByDate(frame), i);
  }
}
