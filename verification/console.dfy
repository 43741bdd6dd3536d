/**
  The pure helpers of the console view: the sparkline of recent
  round-trip times, the histogram bars, and the choice between a number
  and a dash in the statistics table.

  Round-trip times are exact reals: `std::floor` and `std::round` act on
  exact values here, so the properties below do not rely on how doubles
  round.
*/
module Console {
  import opened Wrappers
  import Stats

  /** The ten sparkline characters, lowest level first. */
  const SparkChars: string := " .:-=+*#%@"
  const Levels: nat := 10
  /** The level every position of a flat line gets. */
  const FlatLevel: nat := 5
  const SparklineWidth: nat := 40
  const HistogramBarWidth: nat := 30

  /** `std::round` on a non-negative value: halves round up. */
  function RoundHalfUp(x: real): (n: nat)
    requires x >= 0.0
    ensures n as real - 0.5 <= x < n as real + 0.5
  {
    (x + 0.5).Floor
  }

  lemma RoundMonotone(x: real, y: real)
    requires 0.0 <= x <= y
    ensures RoundHalfUp(x) <= RoundHalfUp(y)
  {
  }

  function MinOf(s: seq<real>): (m: real)
    requires s != []
    ensures forall i :: 0 <= i < |s| ==> m <= s[i]
    ensures exists i :: 0 <= i < |s| && m == s[i]
    decreases |s|
  {
    if |s| == 1 then s[0]
    else
      var rest := MinOf(s[1..]);
      assert forall i :: 1 <= i < |s| ==> s[i] == s[1..][i - 1];
      if s[0] <= rest then s[0] else rest
  }

  function MaxOf(s: seq<real>): (m: real)
    requires s != []
    ensures forall i :: 0 <= i < |s| ==> s[i] <= m
    ensures exists i :: 0 <= i < |s| && m == s[i]
    decreases |s|
  {
    if |s| == 1 then s[0]
    else
      var rest := MaxOf(s[1..]);
      assert forall i :: 1 <= i < |s| ==> s[i] == s[1..][i - 1];
      if s[0] >= rest then s[0] else rest
  }

  // ---------------------------------------------------------------------
  // Sparkline

  /** The value index shown at position `i` when `n` values are squeezed into `width` positions: `floor(i * n / width)`. */
  function SampleIndex(i: nat, n: nat, width: nat): (k: nat)
    requires i < width
    ensures n > 0 ==> k < n
  {
    if n > 0 then IndexBound(i, n, width); (i * n) / width
    else (i * n) / width
  }

  lemma IndexBound(i: nat, n: nat, width: nat)
    requires i < width && n > 0
    ensures (i * n) / width < n
  {
    var q := (i * n) / width;
    assert width * q <= i * n;
    MulLeq(i + 1, width, n);
    assert i * n < width * n;
    if q >= n {
      MulLeq(n, q, width);
    }
  }

  /** Later positions never show earlier values. */
  lemma SampleIndexMonotone(i: nat, j: nat, n: nat, width: nat)
    requires i <= j < width
    ensures SampleIndex(i, n, width) <= SampleIndex(j, n, width)
  {
    MulLeq(i, j, n);
    DivMonotone(i * n, j * n, width);
  }

  lemma MulLeq(i: nat, j: nat, n: nat)
    requires i <= j
    ensures i * n <= j * n
  {
  }

  lemma DivMonotone(a: nat, b: nat, d: nat)
    requires a <= b && d > 0
    ensures a / d <= b / d
  {
    var qa := a / d;
    var qb := b / d;
    assert d * qa <= a;
    assert b < d * qb + d;
    assert d * qa < d * (qb + 1);
    MulLtCancel(d, qa, qb + 1);
  }

  lemma MulLtCancel(d: nat, x: nat, y: nat)
    requires d * x < d * y
    ensures x < y
  {
    if x >= y {
      MulLeq(y, x, d);
    }
  }

  /** The values a sparkline of width `width` shows: all of them when they fit, evenly spaced ones otherwise. */
  function Downsample(values: seq<real>, width: nat): (s: seq<real>)
    requires width > 0
    ensures |s| == Stats.MinN(|values|, width)
    ensures |values| <= width ==> s == values
    ensures |values| > width ==>
      forall i :: 0 <= i < width ==> s[i] == values[SampleIndex(i, |values|, width)]
  {
    if |values| <= width then values
    else seq(width, i requires 0 <= i < width => values[SampleIndex(i, |values|, width)])
  }

  /** The level of value `v` on a scale from `lo` to `hi`: 0 to 9, or the middle level when the scale is flat. */
  function Level(v: real, lo: real, hi: real): (k: nat)
    requires lo <= v
    ensures k < Levels
    ensures hi <= lo ==> k == FlatLevel
  {
    if hi > lo then
      var scaled := (v - lo) / (hi - lo) * (Levels - 1) as real;
      Stats.MinN(RoundHalfUp(scaled), Levels - 1)
    else FlatLevel
  }

  /**
    `make_sparkline`: empty for no values or zero width, otherwise one
    character per shown value.
  */
  function MakeSparkline(values: seq<real>, width: nat): (line: string)
    ensures |line| == if values == [] || width == 0 then 0 else Stats.MinN(|values|, width)
    ensures forall i :: 0 <= i < |line| ==> line[i] in SparkChars
  {
    if values == [] || width == 0 then ""
    else
      var s := Downsample(values, width);
      var lo := MinOf(s);
      var hi := MaxOf(s);
      seq(|s|, i requires 0 <= i < |s| => SparkChars[Level(s[i], lo, hi)])
  }

  /** The position of a sparkline character in the scale. */
  function Rank(c: char): nat {
    RankFrom(c, 0)
  }

  function RankFrom(c: char, k: nat): nat
    requires k <= |SparkChars|
    decreases |SparkChars| - k
  {
    if k == |SparkChars| then k
    else if SparkChars[k] == c then k
    else RankFrom(c, k + 1)
  }

  lemma RankOfChar(k: nat)
    requires k < |SparkChars|
    ensures Rank(SparkChars[k]) == k
  {
  }

  /** Position `i` of a sparkline shows the level of the value shown there, on the scale of the shown values. */
  lemma SparklineAt(values: seq<real>, width: nat, i: nat)
    requires values != [] && width > 0
    requires i < |MakeSparkline(values, width)|
    ensures var s := Downsample(values, width);
      MakeSparkline(values, width)[i] == SparkChars[Level(s[i], MinOf(s), MaxOf(s))]
  {
  }

  lemma LevelMonotone(v: real, w: real, lo: real, hi: real)
    requires lo <= v <= w
    ensures Level(v, lo, hi) <= Level(w, lo, hi)
  {
    if hi > lo {
      var d := hi - lo;
      assert (v - lo) / d <= (w - lo) / d;
      RoundMonotone((v - lo) / d * 9.0, (w - lo) / d * 9.0);
    }
  }

  /**
    The sparkline preserves order: a position showing a value no larger
    than another's gets a character no higher in the scale.
  */
  lemma SparklineMonotone(values: seq<real>, width: nat, i: nat, j: nat)
    requires values != [] && width > 0
    requires i < |MakeSparkline(values, width)| && j < |MakeSparkline(values, width)|
    requires Downsample(values, width)[i] <= Downsample(values, width)[j]
    ensures Rank(MakeSparkline(values, width)[i]) <= Rank(MakeSparkline(values, width)[j])
  {
    var s := Downsample(values, width);
    var lo := MinOf(s);
    var hi := MaxOf(s);
    SparklineAt(values, width, i);
    SparklineAt(values, width, j);
    LevelMonotone(s[i], s[j], lo, hi);
    RankOfChar(Level(s[i], lo, hi));
    RankOfChar(Level(s[j], lo, hi));
  }

  /**
    Non-flat input spans the whole scale: a position showing the smallest
    shown value gets ' ' and one showing the largest gets '@'.
  */
  lemma SparklineExtremes(values: seq<real>, width: nat, i: nat)
    requires values != [] && width > 0
    requires i < |MakeSparkline(values, width)|
    ensures var s := Downsample(values, width);
      MaxOf(s) > MinOf(s) ==>
        (s[i] == MinOf(s) ==> MakeSparkline(values, width)[i] == ' ') &&
        (s[i] == MaxOf(s) ==> MakeSparkline(values, width)[i] == '@')
  {
    var s := Downsample(values, width);
    var lo := MinOf(s);
    var hi := MaxOf(s);
    SparklineAt(values, width, i);
    if hi > lo {
      LevelEnds(lo, hi);
    }
  }

  lemma LevelEnds(lo: real, hi: real)
    requires lo < hi
    ensures Level(lo, lo, hi) == 0 && Level(hi, lo, hi) == Levels - 1
  {
    assert (hi - lo) / (hi - lo) == 1.0;
    assert (lo - lo) / (hi - lo) == 0.0;
  }

  /** A constant series draws a flat line of '+'. */
  lemma SparklineFlat(values: seq<real>, width: nat, c: real)
    requires values != [] && width > 0
    requires forall k :: 0 <= k < |values| ==> values[k] == c
    ensures forall i :: 0 <= i < |MakeSparkline(values, width)| ==> MakeSparkline(values, width)[i] == '+'
  {
    var s := Downsample(values, width);
    assert forall k :: 0 <= k < |s| ==> s[k] == c;
    assert MinOf(s) == c && MaxOf(s) == c;
    forall i | 0 <= i < |MakeSparkline(values, width)|
      ensures MakeSparkline(values, width)[i] == '+'
    {
      SparklineAt(values, width, i);
    }
  }

  // ---------------------------------------------------------------------
  // Histogram bars

  /** `n` copies of `c`. */
  function Repeat(n: nat, c: char): (r: string)
    ensures |r| == n && forall i :: 0 <= i < n ==> r[i] == c
  {
    seq(n, _ => c)
  }

  /**
    `make_histogram_bar`: nothing when the largest count is not positive,
    otherwise the count's share of `width`, rounded, in '#' characters.
  */
  function MakeHistogramBar(value: real, maxValue: real, width: nat): (bar: string)
    requires value >= 0.0
    ensures forall i :: 0 <= i < |bar| ==> bar[i] == '#'
    ensures maxValue <= 0.0 ==> bar == ""
    ensures maxValue > 0.0 ==>
      |bar| as real - 0.5 <= value / maxValue * width as real < |bar| as real + 0.5
  {
    if maxValue <= 0.0 then ""
    else Repeat(RoundHalfUp(value / maxValue * width as real), '#')
  }

  /** The bar of the largest count fills the width, a zero count draws nothing, and no bar overruns. */
  lemma BarBounds(value: real, maxValue: real, width: nat)
    requires 0.0 <= value <= maxValue && maxValue > 0.0
    ensures |MakeHistogramBar(value, maxValue, width)| <= width
    ensures value == maxValue ==> |MakeHistogramBar(value, maxValue, width)| == width
    ensures value == 0.0 ==> MakeHistogramBar(value, maxValue, width) == ""
  {
    assert value / maxValue <= 1.0;
    assert value / maxValue * width as real <= width as real;
  }

  /** A larger count never draws a shorter bar. */
  lemma BarMonotone(a: real, b: real, maxValue: real, width: nat)
    requires 0.0 <= a <= b
    ensures |MakeHistogramBar(a, maxValue, width)| <= |MakeHistogramBar(b, maxValue, width)|
  {
    if maxValue > 0.0 {
      var w := width as real;
      ShareMonotone(0.0, a, maxValue);
      ShareMonotone(a, b, maxValue);
      ScaleMonotone(0.0, a / maxValue, w);
      ScaleMonotone(a / maxValue, b / maxValue, w);
      RoundMonotone(a / maxValue * w, b / maxValue * w);
      assert |MakeHistogramBar(a, maxValue, width)| == RoundHalfUp(a / maxValue * w);
      assert |MakeHistogramBar(b, maxValue, width)| == RoundHalfUp(b / maxValue * w);
    }
  }

  /** Dividing by a positive number keeps the order. */
  lemma ShareMonotone(a: real, b: real, m: real)
    requires a <= b && m > 0.0
    ensures a / m <= b / m
  {
    assert b / m - a / m == (b - a) / m;
  }

  /** Multiplying by a non-negative number keeps the order. */
  lemma ScaleMonotone(x: real, y: real, w: real)
    requires x <= y && w >= 0.0
    ensures x * w <= y * w
  {
    assert y * w - x * w == (y - x) * w;
  }

  /** The largest bucket count of a snapshot, never below 0, as the histogram view computes it. */
  function MaxCount(hist: seq<(real, real)>): (m: real)
    ensures m >= 0.0
    ensures forall i :: 0 <= i < |hist| ==> hist[i].1 <= m
    ensures m == 0.0 || exists i :: 0 <= i < |hist| && hist[i].1 == m
    decreases |hist|
  {
    if hist == [] then 0.0
    else
      var rest := MaxCount(hist[1..]);
      assert forall i :: 1 <= i < |hist| ==> hist[i] == hist[1..][i - 1];
      if hist[0].1 > rest then hist[0].1 else rest
  }

  /**
    Each bucket of a snapshot histogram draws a bar within the width; the
    fullest bucket fills it.
  */
  lemma HistogramBarsFit(hist: seq<(real, real)>, i: nat)
    requires i < |hist| && forall k :: 0 <= k < |hist| ==> hist[k].1 >= 0.0
    ensures |MakeHistogramBar(hist[i].1, MaxCount(hist), HistogramBarWidth)| <= HistogramBarWidth
    ensures hist[i].1 == MaxCount(hist) && MaxCount(hist) > 0.0 ==>
      |MakeHistogramBar(hist[i].1, MaxCount(hist), HistogramBarWidth)| == HistogramBarWidth
  {
    if MaxCount(hist) > 0.0 {
      BarBounds(hist[i].1, MaxCount(hist), HistogramBarWidth);
    }
  }

  // ---------------------------------------------------------------------
  // Table cells

  /** A table cell: a dash, or a number to be printed with one decimal. */
  datatype Cell = Dash | Number(value: real)

  /** `format_double_or_dash`: a dash when there is no value. */
  function FormatDoubleOrDash(value: real, hasValue: bool): (c: Cell)
    ensures c == Dash <==> !hasValue
    ensures c.Number? ==> c.value == value
  {
    if !hasValue then Dash else Number(value)
  }

  /** `format_loss`: a dash when there is no value or the ratio is negative, otherwise the loss in percent. */
  function FormatLoss(lossRatio: real, hasValue: bool): (c: Cell)
    ensures c == Dash <==> !hasValue || lossRatio < 0.0
    ensures c.Number? ==> c.value == lossRatio * 100.0
  {
    if !hasValue || lossRatio < 0.0 then Dash else Number(lossRatio * 100.0)
  }

  /** The cells of one table row: loss, min, max, mean, median and the last time. */
  datatype Row = Row(loss: Cell, minMs: Cell, maxMs: Cell, meanMs: Cell, medianMs: Cell, last: Cell)

  /**
    A row of the statistics table; a host has data as soon as one ping was
    sent.  Without data every statistic is a dash; with data each shows
    the snapshot's value, the loss in percent unless the ratio is negative.
    The last time is the newest recent round-trip time, a dash if none.
  */
  function RowOf(snap: Stats.Snapshot): (row: Row)
    ensures row.loss == Dash <==> snap.count == 0 || snap.lossRatio < 0.0
    ensures row.loss.Number? ==> row.loss.value == snap.lossRatio * 100.0
    ensures snap.count == 0 ==> row.minMs == Dash && row.maxMs == Dash && row.meanMs == Dash && row.medianMs == Dash
    ensures snap.count > 0 ==>
      row.minMs == Number(snap.minMs) && row.maxMs == Number(snap.maxMs) &&
      row.meanMs == Number(snap.meanMs) && row.medianMs == Number(snap.medianMs)
    ensures row.last == Dash <==> snap.recentRtts == []
    ensures row.last.Number? ==> row.last.value == snap.recentRtts[|snap.recentRtts| - 1]
  {
    var hasData := snap.count > 0;
    Row(FormatLoss(snap.lossRatio, hasData),
        FormatDoubleOrDash(snap.minMs, hasData),
        FormatDoubleOrDash(snap.maxMs, hasData),
        FormatDoubleOrDash(snap.meanMs, hasData),
        FormatDoubleOrDash(snap.medianMs, hasData),
        if snap.recentRtts == [] then Dash else Number(snap.recentRtts[|snap.recentRtts| - 1]))
  }

  /**
    For a host in a valid store, the row shows dashes exactly when no ping
    was sent yet (the last time: exactly when no reply came), the loss is
    a percentage in [0, 100], and a host whose pings were all lost shows
    0.0 for min, max, mean and median rather than dashes.
  */
  lemma RowOfValidRecord(s: Stats.HostStats)
    requires Stats.ValidStats(s)
    ensures var row := RowOf(Stats.BuildSnapshot(s));
      && (row.loss == Dash <==> s.sent == 0)
      && (row.minMs == Dash <==> s.sent == 0)
      && (row.medianMs == Dash <==> s.sent == 0)
      && (row.last == Dash <==> s.success == 0)
      && (row.loss.Number? ==> 0.0 <= row.loss.value <= 100.0)
      && (s.sent > 0 && s.success == 0 ==>
            row.minMs == Number(0.0) && row.maxMs == Number(0.0) &&
            row.meanMs == Number(0.0) && row.medianMs == Number(0.0))
  {
    var snap := Stats.BuildSnapshot(s);
    assert snap.count == s.sent;
    assert 0.0 <= snap.lossRatio <= 1.0;
    assert snap.recentRtts == s.recentRtts;
  }
}
