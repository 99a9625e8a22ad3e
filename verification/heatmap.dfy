// The integer side of the heat maps (Tools.computeHeatMap, Tools.java:158-206,
// and ImageChannel.computeHeatMap, ImageChannel.java:174-192): the grid side,
// the NaN sentinel put in the middle of the ring values, the row-major grid,
// the canvas size, and the loop that paints the enlarged grid onto the
// canvas.  The rotation that places each enlarged pixel is an abstract map,
// and ImageJ's resize is an abstract source of pixel values.

module Heatmap {
  import opened Results
  import opened JavaLang

  /** HEAT_MAP_SCALED_SIZE in Tools and HEAT_MAP_SIZE in ImageChannel. */
  const ScaledSize: int := 256

  // ---------------------------------------------------------------------------
  // Grid side

  /** `(int) Math.sqrt(m)`: the integer square root (the double square root
      of a list size is exact enough that the cast gives its floor). */
  function IntSqrt(m: nat): (n: nat)
    ensures n * n <= m < (n + 1) * (n + 1)
    decreases m
  {
    if m == 0 then 0
    else
      var r := IntSqrt(m - 1);
      if (r + 1) * (r + 1) <= m then
        SquareStep(r);
        r + 1
      else r
  }

  lemma SquareStep(r: nat)
    ensures (r + 1) * (r + 1) < (r + 2) * (r + 2)
  {
  }

  lemma {:induction false} SquareMonotone(a: nat, b: nat)
    requires a <= b
    ensures a * a <= b * b
  {
    assert a * a <= a * b by {
      MulLeft(a, a, b);
    }
    assert a * b <= b * b by {
      MulLeft(b, a, b);
    }
  }

  lemma MulLeft(c: nat, a: nat, b: nat)
    requires a <= b
    ensures a * c <= b * c
  {
  }

  /** The integer square root is the only n with n^2 <= m < (n+1)^2. */
  lemma IntSqrtUnique(m: nat, n: nat)
    requires n * n <= m < (n + 1) * (n + 1)
    ensures IntSqrt(m) == n
  {
    var s := IntSqrt(m);
    if s < n {
      SquareMonotone(s + 1, n);
    } else if s > n {
      SquareMonotone(n + 1, s);
    }
  }

  /** The grid is `n` by `n` with n = floor(sqrt(len + 1)). */
  function GridSide(len: nat): nat {
    IntSqrt(len + 1)
  }

  // ---------------------------------------------------------------------------
  // The sentinel

  /** List.add(i, v) */
  function InsertAt(xs: seq<Cell>, i: nat, v: Cell): (r: seq<Cell>)
    requires i <= |xs|
    ensures |r| == |xs| + 1 && r[i] == v
    ensures forall k :: 0 <= k < i ==> r[k] == xs[k]
    ensures forall k :: i < k < |r| ==> r[k] == xs[k - 1]
  {
    xs[..i] + [v] + xs[i..]
  }

  /** List.remove(i) */
  function RemoveAt(xs: seq<Cell>, i: nat): (r: seq<Cell>)
    requires i < |xs|
    ensures |r| == |xs| - 1
    ensures forall k :: 0 <= k < i ==> r[k] == xs[k]
    ensures forall k :: i <= k < |r| ==> r[k] == xs[k + 1]
  {
    xs[..i] + xs[i + 1..]
  }

  /** Removing what was just inserted, at the same index, gives the list back. */
  lemma RemoveInsert(xs: seq<Cell>, i: nat, v: Cell)
    requires i <= |xs|
    ensures RemoveAt(InsertAt(xs, i, v), i) == xs
  {
  }

  /** The ring values with NaN put at floor(len / 2), where no ring is
      measured. */
  function WithSentinel(values: seq<Cell>): (r: seq<Cell>)
    ensures |r| == |values| + 1 && r[|values| / 2] == NaN
  {
    InsertAt(values, |values| / 2, NaN)
  }

  /** The grid always fits in the extended list: n^2 <= len + 1. */
  lemma GridFits(len: nat)
    ensures GridSide(len) * GridSide(len) <= len + 1
  {
  }

  /** Pixel (x, y) of the n-by-n grid: row-major, element y*n + x. */
  function GridPixel(ext: seq<Cell>, n: nat, x: nat, y: nat): Cell
    requires n * n <= |ext| && x < n && y < n
  {
    GridIndexInRange(n, x, y);
    ext[y * n + x]
  }

  lemma GridIndexInRange(n: nat, x: nat, y: nat)
    requires x < n && y < n
    ensures y * n + x < n * n
  {
    MulLeft(n, y, n - 1);
    assert (n - 1) * n + n == n * n;
  }

  /** The n-by-n grid shows every element of `ext`, element k as pixel
      (k mod n, k div n). */
  predicate ShowsAll(ext: seq<Cell>, n: nat) {
    n > 0 && n * n == |ext| &&
    forall k :: 0 <= k < |ext| ==> k % n < n && k / n < n && GridPixel(ext, n, k % n, k / n) == ext[k]
  }

  /** When len + 1 is a square, the grid shows every element of the extended
      list exactly once. */
  lemma GridCoversList(values: seq<Cell>)
    requires GridSide(|values|) * GridSide(|values|) == |values| + 1
    ensures ShowsAll(WithSentinel(values), GridSide(|values|))
  {
    var n := GridSide(|values|);
    var ext := WithSentinel(values);
    assert |ext| == n * n;
    SquareGridCovers(ext, n);
  }

  lemma SquareGridCovers(ext: seq<Cell>, n: nat)
    requires |ext| == n * n && |ext| > 0
    ensures ShowsAll(ext, n)
  {
    assert n > 0;
    forall k | 0 <= k < |ext| ensures k % n < n && k / n < n && GridPixel(ext, n, k % n, k / n) == ext[k] {
      GridCell(ext, n, k);
    }
  }

  /** Element k of a square grid's list is pixel (k mod n, k div n). */
  lemma GridCell(ext: seq<Cell>, n: nat, k: nat)
    requires 0 < n && |ext| == n * n && k < |ext|
    ensures k % n < n && k / n < n && GridPixel(ext, n, k % n, k / n) == ext[k]
  {
    DivBelow(k, n);
    DivMod(k, n);
  }

  lemma DivMod(k: nat, n: nat)
    requires 0 < n
    ensures (k / n) * n + k % n == k
  {
  }

  lemma DivBelow(k: nat, n: nat)
    requires 0 < n && k < n * n
    ensures k / n < n
  {
    assert (k / n) * n <= k;
    assert (k / n) * n + k % n == k;
    FactorBelow(k / n, n);
  }

  lemma FactorBelow(y: nat, n: nat)
    requires 0 < n && y * n < n * n
    ensures y < n
  {
  }

  /** For an odd side n = 2c + 1 and len = n^2 - 1 values, the sentinel is
      the centre pixel (c, c). */
  lemma SentinelAtCentre(values: seq<Cell>, c: nat)
    requires |values| + 1 == (2 * c + 1) * (2 * c + 1)
    ensures GridSide(|values|) == 2 * c + 1
    ensures GridPixel(WithSentinel(values), 2 * c + 1, c, c) == NaN
  {
    var n := 2 * c + 1;
    SquareBelowNext(n);
    IntSqrtUnique(|values| + 1, n);
    CentreSquare(c);
    CentreIndex(c);
    var sq := c * c;
    assert |values| == 4 * sq + 4 * c;
    assert |values| / 2 == 2 * sq + 2 * c;
  }

  lemma SquareBelowNext(n: nat)
    ensures n * n < (n + 1) * (n + 1)
  {
  }

  lemma CentreSquare(c: nat)
    ensures (2 * c + 1) * (2 * c + 1) == 4 * (c * c) + 4 * c + 1
  {
  }

  lemma CentreIndex(c: nat)
    ensures c * (2 * c + 1) + c == 2 * (c * c) + 2 * c
  {
  }

  // ---------------------------------------------------------------------------
  // What the caller's list looks like afterwards

  /** Tools.computeHeatMap as written: the sentinel goes in at floor(len / 2)
      but is taken out at floor((len + 1) / 2), the middle of the longer
      list. */
  function ToolsCallerList(values: seq<Cell>): (r: seq<Cell>)
    ensures |r| == |values|
  {
    RemoveAt(WithSentinel(values), (|values| + 1) / 2)
  }

  /** For an even number of values both indices agree and the caller's list
      comes back unchanged. */
  lemma ToolsRestoresEven(values: seq<Cell>)
    requires |values| % 2 == 0
    ensures ToolsCallerList(values) == values
  {
    RemoveInsert(values, |values| / 2, NaN);
  }

  /** For an odd number of values the middle value is lost: NaN takes its
      place and everything else is as before. */
  lemma ToolsOddOverwritesMiddle(values: seq<Cell>)
    requires |values| % 2 == 1
    ensures var r := ToolsCallerList(values); var m := |values| / 2;
      r[m] == NaN && forall k :: 0 <= k < |values| && k != m ==> r[k] == values[k]
  {
  }

  /** Three values: the caller gets [1, NaN, 3] back instead of [1, 2, 3]. */
  lemma ToolsOddCounterexample()
    ensures ToolsCallerList([Num(1.0), Num(2.0), Num(3.0)]) == [Num(1.0), NaN, Num(3.0)]
    ensures ToolsCallerList([Num(1.0), Num(2.0), Num(3.0)]) != [Num(1.0), Num(2.0), Num(3.0)]
  {
    var r := ToolsCallerList([Num(1.0), Num(2.0), Num(3.0)]);
    assert r[1] == NaN;
  }

  /** The removal as evidently intended, at the index the sentinel went in:
      the caller's list always comes back unchanged. */
  function RestoredCallerList(values: seq<Cell>): (r: seq<Cell>)
    ensures r == values
  {
    RemoveInsert(values, |values| / 2, NaN);
    RemoveAt(WithSentinel(values), |values| / 2)
  }

  /** ImageChannel.computeHeatMap never removes the sentinel: the stored
      metric list grows by one NaN per heat map drawn. */
  function ChannelAfterHeatMap(values: seq<Cell>): (r: seq<Cell>)
    ensures |r| == |values| + 1
    ensures r[|values| / 2] == NaN
  {
    WithSentinel(values)
  }

  /** The stored list after the heat map of its metric is drawn k times. */
  function Redrawn(values: seq<Cell>, k: nat): seq<Cell>
    decreases k
  {
    if k == 0 then values else ChannelAfterHeatMap(Redrawn(values, k - 1))
  }

  /** Each drawing inserts exactly one NaN and keeps every other value. */
  lemma SentinelCounted(values: seq<Cell>)
    ensures multiset(ChannelAfterHeatMap(values)) == multiset(values) + multiset{NaN}
  {
    var h := |values| / 2;
    assert ChannelAfterHeatMap(values) == values[..h] + [NaN] + values[h..];
    assert values[..h] + values[h..] == values;
  }

  /** k NaNs. */
  function Sentinels(k: nat): (r: multiset<Cell>)
    ensures r[NaN] == k && |r| == k
  {
    if k == 0 then multiset{} else Sentinels(k - 1) + multiset{NaN}
  }

  /** One more NaN on each side of a multiset equation keeps it. */
  lemma OneMoreSentinel(after: multiset<Cell>, before: multiset<Cell>, kept: multiset<Cell>, k: nat)
    requires after == before + multiset{NaN} && before == kept + Sentinels(k)
    ensures after == kept + Sentinels(k + 1)
  {
    assert Sentinels(k + 1) == Sentinels(k) + multiset{NaN};
  }

  /** One drawing adds exactly one NaN to the stored list. */
  lemma RedrawnStep(values: seq<Cell>, k: nat)
    requires k > 0
    ensures multiset(Redrawn(values, k)) == multiset(Redrawn(values, k - 1)) + multiset{NaN}
  {
    SentinelCounted(Redrawn(values, k - 1));
  }

  /** The sentinels pile up: after k drawings the list is k entries longer. */
  lemma {:induction false} SentinelsAccumulate(values: seq<Cell>, k: nat)
    ensures |Redrawn(values, k)| == |values| + k
    decreases k
  {
    if k > 0 {
      SentinelsAccumulate(values, k - 1);
    }
  }

  /** ... and the k new entries are all NaN: no other value is added or lost. */
  lemma {:induction false} SentinelsOnly(values: seq<Cell>, k: nat)
    ensures multiset(Redrawn(values, k)) == multiset(values) + Sentinels(k)
    decreases k
  {
    if k > 0 {
      SentinelsOnly(values, k - 1);
      RedrawnStep(values, k);
      OneMoreSentinel(multiset(Redrawn(values, k)), multiset(Redrawn(values, k - 1)), multiset(values), k - 1);
    }
  }

  /** Removing the channel's leftover sentinel gives the list from before
      the drawing back. */
  lemma ChannelSentinelRemovable(values: seq<Cell>)
    ensures RemoveAt(ChannelAfterHeatMap(values), |values| / 2) == values
  {
    RemoveInsert(values, |values| / 2, NaN);
  }

  // ---------------------------------------------------------------------------
  // Canvas

  /** The canvas is 256 high and 256 * imgWidth / imgHeight wide (integer
      division): the image's aspect ratio, rounded down. */
  function CanvasWidth(imgWidth: int, imgHeight: int): (w: int)
    requires imgWidth >= 1 && imgHeight >= 1
    ensures w >= 0 && w * imgHeight <= ScaledSize * imgWidth < (w + 1) * imgHeight
  {
    JavaDiv(ScaledSize * imgWidth, imgHeight)
  }

  /** The enlarged grid's side: the computed target size, but at least 1. */
  function EnlargedSide(targetScaledSize: int): (s: int)
    ensures s >= 1 && s >= targetScaledSize
    ensures s == 1 || s == targetScaledSize
  {
    if targetScaledSize > 1 then targetScaledSize else 1
  }

  /** The painting: an enlarged grid `side` pixels square, a canvas
      `width` by `height`, where each enlarged pixel lands, and its value. */
  datatype Painting = Painting(side: nat, width: nat, height: nat,
                               target: (int, int) -> (int, int), source: (int, int) -> Cell)

  /** Enlarged pixel (i, j) lands on canvas pixel (x, y), inside the canvas. */
  predicate Hits(p: Painting, i: int, j: int, x: int, y: int) {
    p.target(i, j) == (x, y) && 0 <= x < p.width && 0 <= y < p.height
  }

  /** Step (a, b) comes before step (i, j) in i-outer, j-inner order. */
  predicate StepBefore(p: Painting, a: int, b: int, i: int, j: int) {
    0 <= a && 0 <= b < p.side && (a < i || (a == i && b < j))
  }

  /** The last step before (i, j) that lands on (x, y), if any. */
  function LastHit(p: Painting, i: nat, j: nat, x: int, y: int): (r: Option<(int, int)>)
    requires j <= p.side
    ensures r.None? ==> forall a, b :: StepBefore(p, a, b, i, j) ==> !Hits(p, a, b, x, y)
    ensures r.Some? ==> StepBefore(p, r.value.0, r.value.1, i, j) && Hits(p, r.value.0, r.value.1, x, y)
    ensures r.Some? ==> forall a, b :: StepBefore(p, a, b, i, j) && StepBefore(p, r.value.0, r.value.1, a, b) ==>
      !Hits(p, a, b, x, y)
    decreases i, j
  {
    if j > 0 then
      if Hits(p, i, j - 1, x, y) then Some((i, j - 1)) else LastHit(p, i, j - 1, x, y)
    else if i > 0 then LastHit(p, i - 1, p.side, x, y)
    else None
  }

  /** What (x, y) holds after the steps before (i, j): the value of the last
      step landing there, or the black background. */
  function Painted(p: Painting, i: nat, j: nat, x: int, y: int): Cell
    requires j <= p.side
  {
    match LastHit(p, i, j, x, y)
    case None => Num(0.0)
    case Some(ij) => p.source(ij.0, ij.1)
  }

  /** The canvas has `height` rows of `width` pixels. */
  predicate Shaped(canvas: seq<seq<Cell>>, p: Painting) {
    |canvas| == p.height && forall y :: 0 <= y < p.height ==> |canvas[y]| == p.width
  }

  /** The painting loop: every enlarged pixel, column by column, is written to
      where it lands if that is on the canvas.  Each canvas pixel ends up
      with the value of the last enlarged pixel landing on it, or black if
      none does. */
  method Paint(p: Painting) returns (canvas: seq<seq<Cell>>)
    ensures Shaped(canvas, p)
    ensures forall y, x :: 0 <= y < p.height && 0 <= x < p.width ==> canvas[y][x] == Painted(p, p.side, 0, x, y)
  {
    canvas := seq(p.height, _ => seq(p.width, _ => Num(0.0)));
    var i := 0;
    while i < p.side
      invariant 0 <= i <= p.side
      invariant Shaped(canvas, p)
      invariant forall y, x :: 0 <= y < p.height && 0 <= x < p.width ==> canvas[y][x] == Painted(p, i, 0, x, y)
    {
      var j := 0;
      while j < p.side
        invariant 0 <= j <= p.side
        invariant Shaped(canvas, p)
        invariant forall y, x :: 0 <= y < p.height && 0 <= x < p.width ==> canvas[y][x] == Painted(p, i, j, x, y)
      {
        var (tx, ty) := p.target(i, j);
        if 0 <= tx < p.width && 0 <= ty < p.height {
          canvas := canvas[ty := canvas[ty][tx := p.source(i, j)]];
        }
        j := j + 1;
      }
      i := i + 1;
    }
  }
}
