// What the progress graph shows beside the chart: the current month's value,
// the rounded average of the series, and the trend message that compares the
// last three months with the months before them.

module Stats {
  import opened Rounding

  /** reduce((a, b) => a + b, 0) */
  function Sum(s: seq<int>): int {
    if s == [] then 0 else Sum(s[..|s| - 1]) + s[|s| - 1]
  }

  /** chartData.slice(-3): the last three values, or all of them when there are fewer. */
  function Recent(s: seq<int>): (r: seq<int>)
    ensures |r| == if |s| < 3 then |s| else 3
    ensures r == s[|s| - |r|..]
  {
    if |s| < 3 then s else s[|s| - 3..]
  }

  /** chartData.slice(0, -3): everything before the last three values. */
  function Older(s: seq<int>): (o: seq<int>)
    ensures o + Recent(s) == s
  {
    if |s| < 3 then [] else s[..|s| - 3]
  }

  datatype Trend = NoTrend | Improved | Declined | Stable

  /**
   * trend(): the average of the recent values against the average of the
   * older ones (0 when there are none), with a margin of 10 either way. The
   * averages are compared by cross-multiplying the sums with the counts.
   */
  function TrendOf(data: seq<int>): (t: Trend)
    ensures t == NoTrend <==> |data| < 2
  {
    if |data| < 2 then NoTrend
    else
      var sr, nr := Sum(Recent(data)), |Recent(data)|;
      var so, no := Sum(Older(data)), |Older(data)|;
      if no == 0 then
        if sr > 10 * nr then Improved
        else if sr < -10 * nr then Declined
        else Stable
      else
        if sr * no > so * nr + 10 * nr * no then Improved
        else if sr * no < so * nr - 10 * nr * no then Declined
        else Stable
  }

  /** The text the graph shows for a trend. */
  function TrendMessage(t: Trend): (m: string)
    ensures m == "" <==> t == NoTrend
  {
    match t
    case NoTrend => ""
    case Improved => "\U{1F4C8} Great improvement!"
    case Declined => "\U{1F4C9} Your consistency has declined."
    case Stable => "\U{27A1}\U{FE0F} Your consistency is stable."
  }

  /** The exact average of a non-empty sequence. */
  function Mean(s: seq<int>): real
    requires |s| > 0
  {
    Sum(s) as real / |s| as real
  }

  /** avgR: the mean of the recent values. */
  function RecentMean(data: seq<int>): real
    requires |data| > 0
  {
    Mean(Recent(data))
  }

  /** avgO: the mean of the older values, or 0 when there are none. */
  function OlderMean(data: seq<int>): real {
    if |Older(data)| > 0 then Mean(Older(data)) else 0.0
  }

  lemma CastMul(a: int, b: int)
    ensures (a * b) as real == a as real * b as real
  {
  }

  lemma ScaleLess(a: real, b: real, k: real)
    requires k > 0.0
    ensures a < b <==> a * k < b * k
  {
  }

  lemma QuotientTimes(x: real, y: real)
    requires y != 0.0
    ensures (x / y) * y == x
  {
  }

  /** Scaling both sides by a positive factor keeps a comparison. */
  lemma CompareScaled(a: real, b: real, k: real, x: int, y: int)
    requires k > 0.0 && a * k == x as real && b * k == y as real
    ensures a > b <==> x > y
    ensures a < b <==> x < y
  {
    ScaleLess(b, a, k);
    ScaleLess(a, b, k);
  }

  lemma CrossMultiply(sr: int, nr: int, so: int, no: int)
    requires nr > 0 && no > 0
    ensures (sr as real / nr as real > so as real / no as real + 10.0) <==> sr * no > so * nr + 10 * nr * no
    ensures (sr as real / nr as real < so as real / no as real - 10.0) <==> sr * no < so * nr - 10 * nr * no
  {
    var a := sr as real / nr as real;
    var b := so as real / no as real;
    var k := nr as real * no as real;
    MeanScaled(sr, nr, no);
    MeanScaled(so, no, nr);
    assert b * k == (so * nr) as real by {
      assert nr as real * no as real == no as real * nr as real;
    }
    CastMul(10, nr);
    CastMul(10 * nr, no);
    assert 10.0 * k == (10 * nr * no) as real;
    assert (b + 10.0) * k == b * k + 10.0 * k;
    assert (b - 10.0) * k == b * k - 10.0 * k;
    CompareScaled(a, b + 10.0, k, sr * no, so * nr + 10 * nr * no);
    CompareScaled(a, b - 10.0, k, sr * no, so * nr - 10 * nr * no);
  }

  /** (s / n) * (n * m) == s * m */
  lemma MeanScaled(s: int, n: int, m: int)
    requires n > 0
    ensures (s as real / n as real) * (n as real * m as real) == (s * m) as real
  {
    QuotientTimes(s as real, n as real);
    CastMul(s, m);
    var q := s as real / n as real;
    assert q * (n as real * m as real) == (q * n as real) * m as real;
  }

  lemma DivideByCount(sr: int, nr: int)
    requires nr > 0
    ensures (sr as real / nr as real > 10.0) <==> sr > 10 * nr
    ensures (sr as real / nr as real < -10.0) <==> sr < -10 * nr
  {
    var a := sr as real / nr as real;
    var k := nr as real;
    QuotientTimes(sr as real, k);
    CastMul(10, nr);
    CastMul(-10, nr);
    CompareScaled(a, 10.0, k, sr, 10 * nr);
    CompareScaled(a, -10.0, k, sr, -10 * nr);
  }

  /** The cross-multiplied comparison is the comparison of the exact averages. */
  lemma TrendByMeans(data: seq<int>)
    requires |data| >= 2
    ensures TrendOf(data) == Improved <==> RecentMean(data) > OlderMean(data) + 10.0
    ensures TrendOf(data) == Declined <==>
      !(RecentMean(data) > OlderMean(data) + 10.0) && RecentMean(data) < OlderMean(data) - 10.0
    ensures TrendOf(data) == Stable <==>
      OlderMean(data) - 10.0 <= RecentMean(data) <= OlderMean(data) + 10.0
  {
    var sr, nr := Sum(Recent(data)), |Recent(data)|;
    var so, no := Sum(Older(data)), |Older(data)|;
    if no == 0 {
      DivideByCount(sr, nr);
    } else {
      CrossMultiply(sr, nr, so, no);
    }
  }

  lemma {:induction false} SumAtLeast(s: seq<int>, lo: int)
    requires forall i :: 0 <= i < |s| ==> lo <= s[i]
    ensures lo * |s| <= Sum(s)
  {
    if s != [] {
      SumAtLeast(s[..|s| - 1], lo);
    }
  }

  lemma {:induction false} SumAtMost(s: seq<int>, hi: int)
    requires forall i :: 0 <= i < |s| ==> s[i] <= hi
    ensures Sum(s) <= hi * |s|
  {
    if s != [] {
      SumAtMost(s[..|s| - 1], hi);
    }
  }

  /** With at most three values and none negative, the trend can never read 'declined'. */
  lemma ShortSeriesNeverDeclines(data: seq<int>)
    requires 2 <= |data| <= 3
    requires forall i :: 0 <= i < |data| ==> data[i] >= 0
    ensures TrendOf(data) != Declined
  {
    SumAtLeast(data, 0);
    assert Recent(data) == data;
  }

  // ---------------------------------------------------------------------
  // The two figures of the stats grid

  /** chartData[chartData.length - 1] || 0 */
  function CurrentMonthValue(data: seq<int>): (v: int)
    ensures |data| == 0 ==> v == 0
    ensures |data| > 0 ==> v == data[|data| - 1]
  {
    if |data| == 0 then 0 else data[|data| - 1]
  }

  /**
   * Math.round(chartData.reduce((a, b) => a + b, 0) / chartData.length),
   * shown only when there is at least one value.
   */
  function AverageValue(data: seq<int>): (v: int)
    requires |data| > 0
    ensures 2 * |data| * v <= 2 * Sum(data) + |data| < 2 * |data| * (v + 1)
  {
    RoundHalfUp(Sum(data), |data|)
  }

  /** The rounded average lies within the values' bounds, so within 0..100 for the series. */
  lemma AverageWithin(data: seq<int>, lo: int, hi: int)
    requires |data| > 0
    requires forall i :: 0 <= i < |data| ==> lo <= data[i] <= hi
    ensures lo <= AverageValue(data) <= hi
  {
    SumAtLeast(data, lo);
    SumAtMost(data, hi);
    assert lo * |data| == |data| * lo && hi * |data| == |data| * hi;
    RoundBetween(Sum(data), |data|, lo, hi);
  }
}
