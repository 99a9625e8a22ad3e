/** One channel of an analysed image (ImageChannel.java): the ring metrics
    it accumulates, its key-values, the heat maps drawn from the metrics and
    the per-channel summary row. */
module Channels {
  import opened Results
  import opened JavaLang
  import opened Heatmap
  import opened Statistics

  /** An ImageJ region of interest, kept as an opaque handle. */
  datatype Roi = Roi(handle: int)

  /** The three ring metrics a channel accumulates. */
  datatype Metric = Fwhm | Distortion | Uniformity

  datatype Channel = Channel(
    id: int, width: int, height: int,
    fwhm: seq<Cell>, distortion: seq<Cell>, uniformity: seq<Cell>,
    gridRings: seq<Roi>, idealRings: seq<Roi>,
    rotation: real,
    keyValues: map<string, string>,
    cross: Option<Roi>)

  /** A new channel: no metrics, no rings, rotation 0, no centre cross. */
  function NewChannel(id: int, width: int, height: int): (c: Channel)
    ensures c.id == id && c.width == width && c.height == height
    ensures forall m :: Values(c, m) == []
    ensures c.gridRings == [] && c.idealRings == [] && c.keyValues == map[] && c.cross == None
  {
    Channel(id, width, height, [], [], [], [], [], 0.0, map[], None)
  }

  function Values(c: Channel, m: Metric): seq<Cell> {
    match m
    case Fwhm => c.fwhm
    case Distortion => c.distortion
    case Uniformity => c.uniformity
  }

  /** The channel with the list of metric `m` replaced. */
  function WithValues(c: Channel, m: Metric, xs: seq<Cell>): (r: Channel)
    ensures Values(r, m) == xs
    ensures forall other :: other != m ==> Values(r, other) == Values(c, other)
  {
    match m
    case Fwhm => c.(fwhm := xs)
    case Distortion => c.(distortion := xs)
    case Uniformity => c.(uniformity := xs)
  }

  // ---------------------------------------------------------------------------
  // Accumulators

  /** addFWHM / addFieldDistortion / addFieldUniformity: the new values go at
      the end, the earlier ones stay where they were, and nothing else of the
      channel changes. */
  function AddMetric(c: Channel, m: Metric, xs: seq<Cell>): (r: Channel)
    ensures |Values(r, m)| == |Values(c, m)| + |xs|
    ensures Values(r, m)[..|Values(c, m)|] == Values(c, m)
    ensures Values(r, m)[|Values(c, m)|..] == xs
    ensures r == WithValues(c, m, Values(r, m))
  {
    WithValues(c, m, Values(c, m) + xs)
  }

  /** Two additions are one addition of both lists, in order. */
  lemma AddMetricTwice(c: Channel, m: Metric, xs: seq<Cell>, ys: seq<Cell>)
    ensures AddMetric(AddMetric(c, m, xs), m, ys) == AddMetric(c, m, xs + ys)
  {
    var once := AddMetric(AddMetric(c, m, xs), m, ys);
    var both := AddMetric(c, m, xs + ys);
    assert Values(once, m) == Values(both, m) by {
      assert Values(c, m) + xs + ys == Values(c, m) + (xs + ys);
    }
  }

  /** Additions to different metrics do not interfere. */
  lemma AddMetricsCommute(c: Channel, m: Metric, n: Metric, xs: seq<Cell>, ys: seq<Cell>)
    requires m != n
    ensures AddMetric(AddMetric(c, m, xs), n, ys) == AddMetric(AddMetric(c, n, ys), m, xs)
  {
  }

  /** addGridRings / addIdealRings: rings appended at the end. */
  function AddRings(c: Channel, ideal: bool, rings: seq<Roi>): (r: Channel)
    ensures ideal ==> (|r.idealRings| == |c.idealRings| + |rings| &&
      r.idealRings[..|c.idealRings|] == c.idealRings && r.idealRings[|c.idealRings|..] == rings &&
      r == c.(idealRings := r.idealRings))
    ensures !ideal ==> (|r.gridRings| == |c.gridRings| + |rings| &&
      r.gridRings[..|c.gridRings|] == c.gridRings && r.gridRings[|c.gridRings|..] == rings &&
      r == c.(gridRings := r.gridRings))
  {
    if ideal then c.(idealRings := c.idealRings + rings) else c.(gridRings := c.gridRings + rings)
  }

  /** addKeyValue (a TreeMap put): the key now maps to the value, every other
      key keeps its value, and the key set gains at most this key. */
  function AddKeyValue(c: Channel, key: string, value: string): (r: Channel)
    ensures key in r.keyValues && r.keyValues[key] == value
    ensures r.keyValues.Keys == c.keyValues.Keys + {key}
    ensures forall k :: k in c.keyValues && k != key ==> r.keyValues[k] == c.keyValues[k]
    ensures r == c.(keyValues := r.keyValues)
  {
    c.(keyValues := c.keyValues[key := value])
  }

  /** A second put on the same key overwrites the first. */
  lemma KeyValueOverwrites(c: Channel, key: string, v1: string, v2: string)
    ensures AddKeyValue(AddKeyValue(c, key, v1), key, v2) == AddKeyValue(c, key, v2)
  {
    var twice := AddKeyValue(AddKeyValue(c, key, v1), key, v2);
    var once := AddKeyValue(c, key, v2);
    assert twice.keyValues == once.keyValues;
  }

  // ---------------------------------------------------------------------------
  // Heat maps

  /** The heat map is resized to HEAT_MAP_SIZE pixels square. */
  const HeatMapSize: int := 256

  function TitleSuffix(m: Metric): string {
    match m
    case Fwhm => "_FWHM"
    case Distortion => "_FieldDistortion"
    case Uniformity => "_FieldUniformity"
  }

  /** The value of the image's "feature" property. */
  function Feature(m: Metric): string {
    match m
    case Fwhm => "fwhm"
    case Distortion => "field_distortion"
    case Uniformity => "field_uniformity"
  }

  /** A drawn heat map: its title and feature, the side of the ring grid,
      the list it was filled from (row-major), and the enlarged size. */
  datatype HeatMapImage = HeatMapImage(title: string, feature: string, gridSide: nat, values: seq<Cell>, size: int)

  datatype Drawn = Drawn(channel: Channel, image: HeatMapImage)

  /** getFWHMHeatMap / getFieldDistortionHeatMap / getFieldUniformityHeatMap.
      The private computeHeatMap puts NaN into the channel's own list at
      floor(len / 2) and never takes it out, so the stored list keeps the
      sentinel; the grid side is computed before the insertion. */
  function HeatMap(c: Channel, m: Metric, imageName: string): (r: Drawn)
    ensures r.image.title == imageName + "_ch" + IntToString(c.id) + TitleSuffix(m)
    ensures r.image.feature == Feature(m) && r.image.size == HeatMapSize
    ensures r.image.gridSide == GridSide(|Values(c, m)|)
    ensures |Values(r.channel, m)| == |Values(c, m)| + 1
    ensures Values(r.channel, m)[|Values(c, m)| / 2] == NaN
    ensures RemoveAt(Values(r.channel, m), |Values(c, m)| / 2) == Values(c, m)
    ensures r.image.values == Values(r.channel, m)
    ensures r.channel == WithValues(c, m, Values(r.channel, m)) == AfterHeatMap(c, m)
  {
    var title := imageName + "_ch" + IntToString(c.id) + TitleSuffix(m);
    var next := AfterHeatMap(c, m);
    ChannelSentinelRemovable(Values(c, m));
    Drawn(next, HeatMapImage(title, Feature(m), GridSide(|Values(c, m)|), Values(next, m), HeatMapSize))
  }

  /** The channel a heat map leaves behind: the sentinel stays in the list
      of `m`, everything else is as before. */
  function AfterHeatMap(c: Channel, m: Metric): (r: Channel)
    ensures Values(r, m) == ChannelAfterHeatMap(Values(c, m))
    ensures |Values(r, m)| == |Values(c, m)| + 1
    ensures forall other :: other != m ==> Values(r, other) == Values(c, other)
  {
    WithValues(c, m, ChannelAfterHeatMap(Values(c, m)))
  }

  /** The grid side is floor(sqrt(len + 1)) of the list before the
      sentinel went in. */
  lemma HeatMapGridSide(c: Channel, m: Metric, imageName: string)
    ensures var n := HeatMap(c, m, imageName).image.gridSide; var len := |Values(c, m)|;
      n * n <= len + 1 < (n + 1) * (n + 1)
  {
  }

  /** The three heat maps of one channel never share a title. */
  lemma HeatMapTitlesDistinct(c: Channel, imageName: string, m: Metric, n: Metric)
    requires m != n
    ensures HeatMap(c, m, imageName).image.title != HeatMap(c, n, imageName).image.title
  {
    var prefix := imageName + "_ch" + IntToString(c.id);
    var a, b := TitleSuffix(m), TitleSuffix(n);
    if |a| == |b| {
      assert a[6] != b[6];
      assert (prefix + a)[|prefix| + 6] == a[6];
      assert (prefix + b)[|prefix| + 6] == b[6];
    } else {
      assert |prefix + a| != |prefix + b|;
    }
  }

  // ---------------------------------------------------------------------------
  // Statistics of a metric list, with Java's NaN arithmetic

  predicate AllNumbers(xs: seq<Cell>) {
    forall k :: 0 <= k < |xs| ==> xs[k].Num?
  }

  /** The non-NaN values, in order. */
  function Numbers(xs: seq<Cell>): (r: seq<real>)
    ensures |r| <= |xs|
    ensures AllNumbers(xs) ==> |r| == |xs| && forall k :: 0 <= k < |xs| ==> r[k] == xs[k].x
    ensures |r| == 0 <==> forall k :: 0 <= k < |xs| ==> xs[k] == NaN
    ensures forall v :: v in r <==> Num(v) in xs
  {
    if |xs| == 0 then []
    else
      var rest := Numbers(xs[1..]);
      assert forall k :: 1 <= k < |xs| ==> xs[k] == xs[1..][k - 1];
      match xs[0]
      case NaN => rest
      case Num(v) => [v] + rest
  }

  /** [avg, std, min, max] of one metric; the spread is the variance. */
  datatype CellStats = CellStats(avg: Cell, spread: Cell, min: Cell, max: Cell)

  /** ImageChannel's computeStatistics. An empty list throws when the
      minimum is read. A NaN in the list makes the sum, the mean and the
      spread NaN; under Double's natural order NaN is above every number,
      so the maximum is NaN and the minimum is the smallest number, or NaN
      when there is none. */
  function MetricStatistics(values: seq<Cell>): (r: Result<CellStats>)
    ensures r.Throws? <==> |values| == 0
    ensures r.Throws? ==> r.error == NoSuchElement
    ensures r.Ok? && AllNumbers(values) ==>
      r.value.avg.Num? && r.value.min.Num? && r.value.max.Num? && r.value.spread.Num? &&
      r.value.min.x <= r.value.avg.x <= r.value.max.x && r.value.spread.x >= 0.0 &&
      forall k :: 0 <= k < |values| ==> r.value.min.x <= values[k].x <= r.value.max.x
    ensures r.Ok? && !AllNumbers(values) ==>
      r.value.avg == NaN && r.value.spread == NaN && r.value.max == NaN &&
      (r.value.min == NaN <==> forall k :: 0 <= k < |values| ==> values[k] == NaN)
    ensures r.Ok? && !AllNumbers(values) && r.value.min != NaN ==>
      Num(r.value.min.x) in values && forall k :: 0 <= k < |values| && values[k].Num? ==> r.value.min.x <= values[k].x
  {
    var nums := Numbers(values);
    if |values| == 0 then Throws(NoSuchElement)
    else if AllNumbers(values) then
      var s := ComputeStatistics(nums);
      Ok(CellStats(Num(s.mean), Num(s.variance), Num(s.min), Num(s.max)))
    else
      Ok(CellStats(NaN, NaN, if |nums| == 0 then NaN else Num(Min(nums)), NaN))
  }

  /** Over numbers only, the channel's statistics are the Tools ones. */
  lemma MetricStatisticsAgree(values: seq<Cell>)
    requires |values| > 0 && AllNumbers(values)
    ensures var s := ComputeStatistics(Numbers(values));
      ChannelStatistics(Numbers(values)) == Ok(s) &&
      MetricStatistics(values) == Ok(CellStats(Num(s.mean), Num(s.variance), Num(s.min), Num(s.max)))
  {
  }

  // ---------------------------------------------------------------------------
  // channelSummary

  const SummaryKeys: set<string> := {
    "Channel", "Rotation_angle__\U{B0}", "Cross_horizontal_shift__pix", "Cross_vertical_shift__pix",
    "Field_Distortion_avg__um", "Field_Distortion_std__um", "Field_Distortion_min__um", "Field_Distortion_max__um",
    "Field_Uniformity_avg", "Field_Uniformity_std", "Field_Uniformity_min", "Field_Uniformity_max",
    "Field_FWHM_avg__um", "Field_FWHM_std__um", "Field_FWHM_min__um", "Field_FWHM_max__um"
  }

  /** The four entries of one metric. */
  function StatEntries(avg: string, std: string, min: string, max: string, s: CellStats): map<string, Cell> {
    map[avg := s.avg, std := s.spread, min := s.min, max := s.max]
  }

  /** `n / 2` in Java int arithmetic, truncating toward zero. */
  function Half(n: int): (h: int)
    ensures n >= 0 ==> 0 <= h && 2 * h <= n < 2 * h + 2
    ensures n < 0 ==> h <= 0 && 2 * h >= n > 2 * h - 2
  {
    if n >= 0 then n / 2 else -((-n) / 2)
  }

  lemma HalfIsJavaDiv(n: int)
    ensures Half(n) == JavaDiv(n, 2)
  {
  }

  /** How far the cross centroid lies from the image centre, the centre
      taken as half the size in int arithmetic. */
  function CrossShift(c: Channel, centroid: (real, real)): (r: (real, real))
    ensures c.width >= 0 ==> centroid.0 - (c.width as real) / 2.0 <= r.0 < centroid.0 - (c.width as real) / 2.0 + 1.0
    ensures c.height >= 0 ==> centroid.1 - (c.height as real) / 2.0 <= r.1 < centroid.1 - (c.height as real) / 2.0 + 1.0
  {
    (centroid.0 - Half(c.width) as real, centroid.1 - Half(c.height) as real)
  }

  /** The summary row of a channel whose statistics could all be taken. */
  function SummaryMap(id: int, rotation: real, dx: real, dy: real, d: CellStats, u: CellStats, f: CellStats)
    : (r: map<string, Cell>)
    ensures r.Keys == SummaryKeys
    ensures r["Channel"] == Num(id as real)
    ensures r["Cross_horizontal_shift__pix"] == Num(dx) && r["Cross_vertical_shift__pix"] == Num(dy)
  {
    map["Rotation_angle__\U{B0}" := Num(rotation),
        "Field_Distortion_avg__um" := d.avg, "Field_Distortion_std__um" := d.spread,
        "Field_Distortion_min__um" := d.min, "Field_Distortion_max__um" := d.max,
        "Field_Uniformity_avg" := u.avg, "Field_Uniformity_std" := u.spread,
        "Field_Uniformity_min" := u.min, "Field_Uniformity_max" := u.max,
        "Field_FWHM_avg__um" := f.avg, "Field_FWHM_std__um" := f.spread,
        "Field_FWHM_min__um" := f.min, "Field_FWHM_max__um" := f.max,
        "Cross_horizontal_shift__pix" := Num(dx), "Cross_vertical_shift__pix" := Num(dy),
        "Channel" := Num(id as real)]
  }

  /** channelSummary. Without a centre cross the centroid read throws;
      then the statistics of distortion, uniformity and FWHM are taken in
      that order and the first empty list throws. Otherwise the map has the
      sixteen keys, "Channel" holds the id, and the cross shifts are the
      centroid minus half the image size in integer division. */
  function Summary(c: Channel, centroid: Roi -> (real, real)): (r: Result<map<string, Cell>>)
    ensures r.Ok? <==> c.cross.Some? && |c.distortion| > 0 && |c.uniformity| > 0 && |c.fwhm| > 0
    ensures r.Throws? ==> r.error == (if c.cross.None? then NullPointer else NoSuchElement)
    ensures r.Ok? ==> (
      var shift := CrossShift(c, centroid(c.cross.value));
      r.value == SummaryMap(c.id, c.rotation, shift.0, shift.1,
                            MetricStatistics(c.distortion).value,
                            MetricStatistics(c.uniformity).value,
                            MetricStatistics(c.fwhm).value))
  {
    if c.cross.None? then Throws(NullPointer)
    else
      var d, u, f := MetricStatistics(c.distortion), MetricStatistics(c.uniformity), MetricStatistics(c.fwhm);
      if d.Throws? then Throws(d.error)
      else if u.Throws? then Throws(u.error)
      else if f.Throws? then Throws(f.error)
      else
        var shift := CrossShift(c, centroid(c.cross.value));
        Ok(SummaryMap(c.id, c.rotation, shift.0, shift.1, d.value, u.value, f.value))
  }

  /** Drawing the distortion heat map before the summary leaks the sentinel:
      the reported maximum distortion becomes NaN. */
  lemma SummaryAfterHeatMap(c: Channel, imageName: string, centroid: Roi -> (real, real))
    requires c.cross.Some? && |c.distortion| > 0 && |c.uniformity| > 0 && |c.fwhm| > 0
    ensures var after := HeatMap(c, Distortion, imageName).channel;
      Summary(after, centroid).Ok? && MetricStatistics(after.distortion).value.max == NaN
  {
    var after := HeatMap(c, Distortion, imageName).channel;
    assert after.distortion[|c.distortion| / 2] == NaN;
    assert !AllNumbers(after.distortion);
  }
}
