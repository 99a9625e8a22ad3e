// Summary statistics of ring measurements and the shape guards of the
// Pearson correlation (Tools.java:131-148, 239-284; ImageChannel.java:157-172).
// Values are idealised as reals; the standard deviation is kept as the
// variance it is the square root of, and the correlation itself is an
// abstract function of the two sample arrays.

module Statistics {
  import opened Results

  function Sum(xs: seq<real>): real {
    if |xs| == 0 then 0.0 else xs[0] + Sum(xs[1..])
  }

  /** The sum of squared deviations from `m`. */
  function SquaredDeviations(xs: seq<real>, m: real): (r: real)
    ensures r >= 0.0
  {
    if |xs| == 0 then 0.0
    else
      SquareNonNegative(xs[0] - m);
      (xs[0] - m) * (xs[0] - m) + SquaredDeviations(xs[1..], m)
  }

  lemma SquareNonNegative(d: real)
    ensures d * d >= 0.0
  {
    if d < 0.0 {
      assert d * d == (-d) * (-d);
    }
  }

  /** The smallest value (Stream.min with natural order). */
  function Min(xs: seq<real>): (m: real)
    requires |xs| > 0
    ensures m in xs && forall k :: 0 <= k < |xs| ==> m <= xs[k]
  {
    if |xs| == 1 then xs[0]
    else
      var rest := Min(xs[1..]);
      assert rest in xs;
      if xs[0] <= rest then xs[0] else rest
  }

  /** The largest value (Stream.max with natural order). */
  function Max(xs: seq<real>): (m: real)
    requires |xs| > 0
    ensures m in xs && forall k :: 0 <= k < |xs| ==> xs[k] <= m
  {
    if |xs| == 1 then xs[0]
    else
      var rest := Max(xs[1..]);
      assert rest in xs;
      if xs[0] >= rest then xs[0] else rest
  }

  /** k copies of `x` added up: multiplication by a count, unfolded. */
  function Scaled(k: nat, x: real): real {
    if k == 0 then 0.0 else x + Scaled(k - 1, x)
  }

  /** The sum lies between n copies of the lower and of the upper bound. */
  lemma {:induction false} SumBounds(xs: seq<real>, lo: real, hi: real)
    requires forall k :: 0 <= k < |xs| ==> lo <= xs[k] <= hi
    ensures Scaled(|xs|, lo) <= Sum(xs) <= Scaled(|xs|, hi)
    decreases |xs|
  {
    if |xs| > 0 {
      SumBounds(xs[1..], lo, hi);
    }
  }

  lemma {:induction false} ScaledIsProduct(k: nat, x: real)
    ensures Scaled(k, x) == (k as real) * x
  {
    if k > 0 {
      ScaledIsProduct(k - 1, x);
    }
  }

  /** Adding up more of the larger value gives more. */
  lemma {:induction false} ScaledOrder(k: nat, a: real, b: real)
    requires k > 0 && Scaled(k, a) <= Scaled(k, b)
    ensures a <= b
  {
    ScaledIsProduct(k, a);
    ScaledIsProduct(k, b);
    PositiveFactor(k as real, a, b);
  }

  lemma PositiveFactor(n: real, a: real, b: real)
    requires n > 0.0 && n * a <= n * b
    ensures a <= b
  {
  }

  /** [average, variance, min, max]; the source reports sqrt(variance). */
  datatype Stats = Stats(mean: real, variance: real, min: real, max: real)

  /** Tools.computeStatistics: all zeros for no values; otherwise the mean,
      the population variance (n variances make up the squared deviations
      from the mean), the smallest and the largest value. */
  function ComputeStatistics(values: seq<real>): (r: Stats)
    ensures |values| == 0 ==> r == Stats(0.0, 0.0, 0.0, 0.0)
    ensures |values| > 0 ==>
      Scaled(|values|, r.mean) == Sum(values) &&
      r.min <= r.mean <= r.max &&
      r.variance >= 0.0 &&
      Scaled(|values|, r.variance) == SquaredDeviations(values, r.mean) &&
      r.min in values && r.max in values &&
      forall k :: 0 <= k < |values| ==> r.min <= values[k] <= r.max
  {
    if |values| == 0 then Stats(0.0, 0.0, 0.0, 0.0)
    else
      var mean := Mean(values);
      MeanBetween(values);
      MeanScaled(values);
      Stats(mean, Variance(values, mean), Min(values), Max(values))
  }

  /** The population variance about `mean`: n copies of it add up to the
      squared deviations. */
  function Variance(values: seq<real>, mean: real): (v: real)
    requires |values| > 0
    ensures v >= 0.0 && Scaled(|values|, v) == SquaredDeviations(values, mean)
  {
    var v := Quotient(SquaredDeviations(values, mean), |values| as real);
    ScaledIsProduct(|values|, v);
    v
  }

  /** A non-negative quotient of a non-negative sum. */
  function Quotient(s: real, n: real): (q: real)
    requires s >= 0.0 && n > 0.0
    ensures q >= 0.0 && q * n == s
  {
    s / n
  }

  /** The arithmetic mean. */
  function Mean(values: seq<real>): real
    requires |values| > 0
  {
    Sum(values) / (|values| as real)
  }

  /** The mean lies between the smallest and the largest value. */
  lemma MeanBetween(values: seq<real>)
    requires |values| > 0
    ensures Min(values) <= Mean(values) <= Max(values)
  {
    SumBounds(values, Min(values), Max(values));
    MeanScaled(values);
    ScaledOrder(|values|, Min(values), Mean(values));
    ScaledOrder(|values|, Mean(values), Max(values));
  }

  /** n means add up to the sum. */
  lemma MeanScaled(values: seq<real>)
    requires |values| > 0
    ensures Scaled(|values|, Mean(values)) == Sum(values)
  {
    ScaledIsProduct(|values|, Mean(values));
    DivideScale(Sum(values), |values| as real);
  }

  lemma DivideScale(s: real, n: real)
    requires n > 0.0
    ensures n * (s / n) == s
  {
  }

  /** ImageChannel's private computeStatistics has no guard for an empty
      list: Optional.get() on the missing minimum throws; on values it
      agrees with the Tools version. */
  function ChannelStatistics(values: seq<real>): (r: Result<Stats>)
    ensures r.Throws? <==> |values| == 0
    ensures r.Throws? ==> r.error == NoSuchElement
    ensures r.Ok? ==> r.value == ComputeStatistics(values)
  {
    if |values| == 0 then Throws(NoSuchElement) else Ok(ComputeStatistics(values))
  }

  /** Only the empty list separates the two versions. */
  lemma StatisticsAgree(values: seq<real>)
    ensures ChannelStatistics(values).Ok? <==> |values| > 0
    ensures ChannelStatistics(values).Ok? ==>
      var s := ChannelStatistics(values).value;
      s.min <= s.mean <= s.max && s.variance >= 0.0
  {
  }

  // ---------------------------------------------------------------------------
  // Pearson correlation guards

  /** A cropped image: its size and its pixel values. */
  datatype Patch = Patch(width: nat, height: nat, pixel: (int, int) -> real)

  /** Pixel values of columns 0..k-1, each column top to bottom: the order of
      the nested k (outer), l (inner) loops. */
  function Columns(p: Patch, k: nat): (r: seq<real>)
    ensures |r| == k * p.height
  {
    if k == 0 then []
    else
      var prev := Columns(p, k - 1);
      assert (k - 1) * p.height + p.height == k * p.height;
      prev + Column(p, k - 1)
  }

  /** Column `a`, top to bottom. */
  function Column(p: Patch, a: int): (r: seq<real>)
    ensures |r| == p.height && forall b :: 0 <= b < p.height ==> r[b] == p.pixel(a, b)
  {
    seq(p.height, l requires 0 <= l < p.height => p.pixel(a, l))
  }

  /** Pixel (a, b) sits at index a * height + b. */
  lemma {:induction false} ColumnsAt(p: Patch, k: nat, a: nat, b: nat)
    requires a < k && b < p.height
    ensures a * p.height + b < |Columns(p, k)| && Columns(p, k)[a * p.height + b] == p.pixel(a, b)
    decreases k
  {
    var prev := Columns(p, k - 1);
    assert Columns(p, k) == prev + Column(p, k - 1);
    if a < k - 1 {
      ColumnsAt(p, k - 1, a, b);
      CellBelow(a, b, k - 1, p.height);
    } else {
      assert a * p.height == |prev|;
    }
  }

  lemma CellBelow(a: nat, b: nat, k: nat, h: nat)
    requires a < k && b < h
    ensures a * h + b < k * h
  {
    assert (a + 1) * h <= k * h by {
      MulMonotone(a + 1, k, h);
    }
  }

  lemma MulMonotone(a: nat, b: nat, h: nat)
    requires a <= b
    ensures a * h <= b * h
  {
  }

  /** The sample array of a patch: width * height values. */
  function Samples(p: Patch): seq<real> {
    Columns(p, p.width)
  }

  /** The correlation of one pair: NaN when the patches differ in size,
      otherwise the correlation of their sample arrays. */
  function PatchPcc(a: Patch, b: Patch, corr: (seq<real>, seq<real>) -> Cell): (r: Cell)
    ensures a.width != b.width || a.height != b.height ==> r == NaN
    ensures a.width == b.width && a.height == b.height ==> r == corr(Samples(a), Samples(b))
  {
    if a.width != b.width || a.height != b.height then NaN
    else corr(Samples(a), Samples(b))
  }

  /** Patches of one size give sample arrays of one length, and the entries
      at index k * height + l of both come from pixel (k, l). */
  lemma SamplesAligned(a: Patch, b: Patch, k: nat, l: nat)
    requires a.width == b.width && a.height == b.height
    requires k < a.width && l < a.height
    ensures |Samples(a)| == |Samples(b)| == a.width * a.height
    ensures k * a.height + l < |Samples(a)|
    ensures Samples(a)[k * a.height + l] == a.pixel(k, l)
    ensures Samples(b)[k * a.height + l] == b.pixel(k, l)
  {
    ColumnsAt(a, a.width, k, l);
    ColumnsAt(b, b.width, k, l);
  }

  /** computePCC over two lists of patches: empty when the lists differ in
      length, otherwise one value per pair, in order. */
  function ComputePcc(first: seq<Patch>, second: seq<Patch>, corr: (seq<real>, seq<real>) -> Cell): (r: seq<Cell>)
    ensures |first| != |second| ==> r == []
    ensures |first| == |second| ==> (|r| == |first| &&
      forall i :: 0 <= i < |first| ==> r[i] == PatchPcc(first[i], second[i], corr))
  {
    if |first| != |second| then []
    else seq(|first|, i requires 0 <= i < |first| => PatchPcc(first[i], second[i], corr))
  }
}
