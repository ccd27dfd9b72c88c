/** The two per-pixel kernels.

    Both look at a `side` x `side` window whose cell (m, n) is the pixel
    (x + m - 1, y + n - 1): the window is anchored one pixel up and to the
    left of the centre, whatever its size. Reads are linear indices into the
    flat input buffer, so a window may wrap from the end of one image row to
    the start of the next; only a read outside the buffer is undefined.
 */
module Kernels {
  import opened Grid

  /** Intensity separating "dark" from "light" in both kernels. */
  const Threshold := 128
  /** Value written for an edge pixel; a non-edge pixel gets 0. */
  const EdgeValue := 255

  function Abs(v: int): (r: int) {
    if v < 0 then -v else v
  }

  /** Linear index of window cell (m, n) around centre (x, y). */
  function Tap(width: int, x: int, y: int, m: int, n: int): (k: int) {
    Idx(width, x + m - 1, y + n - 1)
  }

  /** Every cell of the window around (x, y) is inside a buffer of length `len`. */
  predicate WindowInBuffer(len: int, width: int, x: int, y: int, side: nat): (b: bool) {
    forall m, n :: 0 <= m < side && 0 <= n < side ==> 0 <= Tap(width, x, y, m, n) < len
  }

  /** The window around (x, y) lies inside the width x height image. */
  predicate WindowInImage(width: int, height: int, x: int, y: int, side: nat): (b: bool) {
    1 <= x && x + side - 1 <= width && 1 <= y && y + side - 1 <= height
  }

  /** A window inside the image only reads inside the image's buffer. */
  lemma WindowInImageInBuffer(width: int, height: int, x: int, y: int, side: nat)
    requires WindowInImage(width, height, x, y, side)
    ensures WindowInBuffer(width * height, width, x, y, side)
  {
    forall m, n | 0 <= m < side && 0 <= n < side
      ensures 0 <= Tap(width, x, y, m, n) < width * height
    {
      IdxInRange(width, height, x + m - 1, y + n - 1);
    }
  }

  // ---------------------------------------------------------------------
  // Prewitt gradient

  /** Window cell (m, n) times its weight, weights[n * side + m]. */
  function Cell(img: seq<int>, width: int, x: int, y: int, weights: seq<int>, side: nat, m: nat, n: nat): (r: int)
    requires WindowInBuffer(|img|, width, x, y, side)
    requires |weights| == side * side
    requires m < side && n < side
  {
    IdxInRange(side, side, m, n);
    img[Tap(width, x, y, m, n)] * weights[Idx(side, m, n)]
  }

  /** Sum of the cells (m, 0) .. (m, n - 1) of window column m: the source's
      inner loop over n. */
  function ColumnSum(img: seq<int>, width: int, x: int, y: int, weights: seq<int>, side: nat, m: nat, n: nat): (r: int)
    requires WindowInBuffer(|img|, width, x, y, side)
    requires |weights| == side * side
    requires m < side && n <= side
    decreases n
  {
    if n == 0 then 0
    else ColumnSum(img, width, x, y, weights, side, m, n - 1) + Cell(img, width, x, y, weights, side, m, n - 1)
  }

  /** Sum over the first m columns of the window. WindowSum(.., side) is the
      whole convolution the source accumulates in Gx or Gy. */
  function WindowSum(img: seq<int>, width: int, x: int, y: int, weights: seq<int>, side: nat, m: nat): (r: int)
    requires WindowInBuffer(|img|, width, x, y, side)
    requires |weights| == side * side
    requires m <= side
    decreases m
  {
    if m == 0 then 0
    else WindowSum(img, width, x, y, weights, side, m - 1) + ColumnSum(img, width, x, y, weights, side, m - 1, side)
  }

  /** Reference convolution in the weight table's own order: the sum over
      table entries t < k of weights[t] times the pixel under it. Entry t of
      a side x side table covers window cell (t % side, t / side). */
  function Conv(img: seq<int>, width: int, x: int, y: int, weights: seq<int>, side: nat, k: nat): (r: int)
    requires WindowInBuffer(|img|, width, x, y, side)
    requires |weights| == side * side
    requires k <= side * side
    decreases k
  {
    if k == 0 then 0
    else
      IdxDecompose(side, side, k - 1);
      Conv(img, width, x, y, weights, side, k - 1) + img[Tap(width, x, y, (k - 1) % side, (k - 1) / side)] * weights[k - 1]
  }

  /** Sum of the cells (0, n) .. (M - 1, n) of window row n. */
  function RowSum(img: seq<int>, width: int, x: int, y: int, weights: seq<int>, side: nat, n: nat, M: nat): (r: int)
    requires WindowInBuffer(|img|, width, x, y, side)
    requires |weights| == side * side
    requires n < side && M <= side
    decreases M
  {
    if M == 0 then 0
    else RowSum(img, width, x, y, weights, side, n, M - 1) + Cell(img, width, x, y, weights, side, M - 1, n)
  }

  /** Sum of the first M cells of each of the window rows 0 .. R - 1. */
  function Rows(img: seq<int>, width: int, x: int, y: int, weights: seq<int>, side: nat, R: nat, M: nat): (r: int)
    requires WindowInBuffer(|img|, width, x, y, side)
    requires |weights| == side * side
    requires R <= side && M <= side
    decreases R
  {
    if R == 0 then 0
    else Rows(img, width, x, y, weights, side, R - 1, M) + RowSum(img, width, x, y, weights, side, R - 1, M)
  }

  /** Sum of the first R cells of each of the window columns 0 .. M - 1. */
  function Columns(img: seq<int>, width: int, x: int, y: int, weights: seq<int>, side: nat, M: nat, R: nat): (r: int)
    requires WindowInBuffer(|img|, width, x, y, side)
    requires |weights| == side * side
    requires M <= side && R <= side
    decreases M
  {
    if M == 0 then 0
    else Columns(img, width, x, y, weights, side, M - 1, R) + ColumnSum(img, width, x, y, weights, side, M - 1, R)
  }

  lemma MulSucc(a: int, b: int)
    ensures (a + 1) * b == a * b + b
  {
  }

  /** Table entry n * side + m sits at cell (m, n): its remainder and
      quotient by side give back the column and the row. */
  lemma TableEntry(side: nat, m: int, n: int)
    requires 0 <= m < side && 0 <= n < side
    ensures 0 <= Idx(side, m, n) < side * side
    ensures Idx(side, m, n) % side == m && Idx(side, m, n) / side == n
  {
    var k := Idx(side, m, n);
    IdxInRange(side, side, m, n);
    IdxDecompose(side, side, k);
    IdxInjective(side, k % side, k / side, m, n);
  }

  /** The table-order sum up to entry n * side + M is the sum of the full
      rows before n plus the first M cells of row n. */
  lemma {:induction false} ConvRowMajor(img: seq<int>, width: int, x: int, y: int, weights: seq<int>, side: nat, n: nat, M: nat)
    requires WindowInBuffer(|img|, width, x, y, side)
    requires |weights| == side * side
    requires n < side && M <= side
    ensures n * side + M <= side * side
    ensures Conv(img, width, x, y, weights, side, n * side + M)
              == Rows(img, width, x, y, weights, side, n, side) + RowSum(img, width, x, y, weights, side, n, M)
    decreases n, M
  {
    MulMonotone(n + 1, side, side);
    MulSucc(n, side);
    if M > 0 {
      ConvRowMajor(img, width, x, y, weights, side, n, M - 1);
      TableEntry(side, M - 1, n);
      var t := Idx(side, M - 1, n);
      assert t + 1 == n * side + M;
      assert Conv(img, width, x, y, weights, side, t + 1)
               == Conv(img, width, x, y, weights, side, t) + Cell(img, width, x, y, weights, side, M - 1, n);
    } else if n > 0 {
      ConvRowMajor(img, width, x, y, weights, side, n - 1, side);
      MulSucc(n - 1, side);
    }
  }

  lemma {:induction false} ColumnsEmpty(img: seq<int>, width: int, x: int, y: int, weights: seq<int>, side: nat, M: nat)
    requires WindowInBuffer(|img|, width, x, y, side)
    requires |weights| == side * side
    requires M <= side
    ensures Columns(img, width, x, y, weights, side, M, 0) == 0
    decreases M
  {
    if M > 0 {
      ColumnsEmpty(img, width, x, y, weights, side, M - 1);
    }
  }

  /** Lengthening every column by one cell adds one row. */
  lemma {:induction false} ColumnsStep(img: seq<int>, width: int, x: int, y: int, weights: seq<int>, side: nat, M: nat, R: nat)
    requires WindowInBuffer(|img|, width, x, y, side)
    requires |weights| == side * side
    requires M <= side && R < side
    ensures Columns(img, width, x, y, weights, side, M, R + 1)
              == Columns(img, width, x, y, weights, side, M, R) + RowSum(img, width, x, y, weights, side, R, M)
    decreases M
  {
    if M > 0 {
      ColumnsStep(img, width, x, y, weights, side, M - 1, R);
    }
  }

  /** Exchange of summation order: rows first or columns first. */
  lemma {:induction false} RowsColumns(img: seq<int>, width: int, x: int, y: int, weights: seq<int>, side: nat, R: nat, M: nat)
    requires WindowInBuffer(|img|, width, x, y, side)
    requires |weights| == side * side
    requires R <= side && M <= side
    ensures Rows(img, width, x, y, weights, side, R, M) == Columns(img, width, x, y, weights, side, M, R)
    decreases R
  {
    if R == 0 {
      ColumnsEmpty(img, width, x, y, weights, side, M);
    } else {
      RowsColumns(img, width, x, y, weights, side, R - 1, M);
      ColumnsStep(img, width, x, y, weights, side, M, R - 1);
    }
  }

  lemma {:induction false} WindowSumColumns(img: seq<int>, width: int, x: int, y: int, weights: seq<int>, side: nat, M: nat)
    requires WindowInBuffer(|img|, width, x, y, side)
    requires |weights| == side * side
    requires M <= side
    ensures WindowSum(img, width, x, y, weights, side, M) == Columns(img, width, x, y, weights, side, M, side)
    decreases M
  {
    if M > 0 {
      WindowSumColumns(img, width, x, y, weights, side, M - 1);
    }
  }

  /** The source's m-outer, n-inner accumulation over filter[n * side + m]
      uses every table entry exactly once, each on the pixel it covers: it
      equals the convolution in table order. */
  lemma WindowSumIsConv(img: seq<int>, width: int, x: int, y: int, weights: seq<int>, side: nat)
    requires WindowInBuffer(|img|, width, x, y, side)
    requires |weights| == side * side
    ensures WindowSum(img, width, x, y, weights, side, side) == Conv(img, width, x, y, weights, side, side * side)
  {
    WindowSumColumns(img, width, x, y, weights, side, side);
    RowsColumns(img, width, x, y, weights, side, side, side);
    if side > 0 {
      ConvRowMajor(img, width, x, y, weights, side, side - 1, side);
      MulSucc(side - 1, side);
    }
  }

  /** The Prewitt kernel: Gx is the convolution with `gxWeights`, Gy the one
      with `gyWeights`, and the pixel is an edge when |Gx| + |Gy| exceeds
      the threshold strictly. */
  function PrewittPixel(img: seq<int>, width: int, x: int, y: int, gxWeights: seq<int>, gyWeights: seq<int>, side: nat): (r: int)
    requires WindowInBuffer(|img|, width, x, y, side)
    requires |gxWeights| == side * side && |gyWeights| == side * side
    ensures r == 0 || r == EdgeValue
    ensures r == EdgeValue <==>
              Abs(Conv(img, width, x, y, gxWeights, side, side * side))
              + Abs(Conv(img, width, x, y, gyWeights, side, side * side)) > Threshold
  {
    WindowSumIsConv(img, width, x, y, gxWeights, side);
    WindowSumIsConv(img, width, x, y, gyWeights, side);
    var gx := WindowSum(img, width, x, y, gxWeights, side, side);
    var gy := WindowSum(img, width, x, y, gyWeights, side, side);
    var g := Abs(gx) + Abs(gy);
    if g > Threshold then EdgeValue else 0
  }

  // ---------------------------------------------------------------------
  // Neighbourhood contrast test

  /** A sampled value is "above" (> Threshold) or "below" (< Threshold). */
  predicate Hit(v: int, above: bool): (b: bool) {
    if above then v > Threshold else v < Threshold
  }

  /** Some of the first n cells of window column m is a hit. */
  predicate ColumnAny(img: seq<int>, width: int, x: int, y: int, side: nat, above: bool, m: nat, n: nat): (b: bool)
    requires WindowInBuffer(|img|, width, x, y, side)
    requires m < side && n <= side
    decreases n
  {
    n > 0 && (ColumnAny(img, width, x, y, side, above, m, n - 1) || Hit(img[Tap(width, x, y, m, n - 1)], above))
  }

  /** Some cell of the first m window columns is a hit: the final value of a
      flag the source's two nested loops set on the first hit. */
  predicate WindowAny(img: seq<int>, width: int, x: int, y: int, side: nat, above: bool, m: nat): (b: bool)
    requires WindowInBuffer(|img|, width, x, y, side)
    requires m <= side
    decreases m
  {
    m > 0 && (WindowAny(img, width, x, y, side, above, m - 1) || ColumnAny(img, width, x, y, side, above, m - 1, side))
  }

  /** The contrast kernel with the source's integer flags: P starts at 0 and
      becomes 1 on a sample above the threshold, O starts at 1 and becomes 0
      on a sample below it, and the pixel is an edge when |P - O| == 1. */
  function ContrastPixel(img: seq<int>, width: int, x: int, y: int, side: nat): (r: int)
    requires WindowInBuffer(|img|, width, x, y, side)
    ensures r == 0 || r == EdgeValue
    ensures r == EdgeValue <==> SomeHit(img, width, x, y, side, true, side) == SomeHit(img, width, x, y, side, false, side)
  {
    WindowAnyIff(img, width, x, y, side, true, side);
    WindowAnyIff(img, width, x, y, side, false, side);
    var p := if WindowAny(img, width, x, y, side, true, side) then 1 else 0;
    var o := if WindowAny(img, width, x, y, side, false, side) then 0 else 1;
    var f := Abs(p - o);
    if f == 1 then EdgeValue else 0
  }

  // ---------------------------------------------------------------------
  // Filter descriptors

  /** A kernel configuration: a Prewitt pair of `size` x `size` weight tables
      (flat, row n at n * size), or a contrast test over a `surrounding` x
      `surrounding` window. In both the window side is also the margin the
      executors keep clear of the image border. */
  datatype Filter = Prewitt(hor: seq<int>, ver: seq<int>, size: nat) | Contrast(surrounding: nat) {

    function Side(): (r: nat) {
      if Prewitt? then size else surrounding
    }

    predicate Valid(): (b: bool) {
      Side() >= 1 && (Prewitt? ==> |hor| == size * size && |ver| == size * size)
    }

    /** The same filter with the Prewitt tables exchanged, as the parallel
        executor passes them (vertical table into Gx, horizontal into Gy). */
    function Swapped(): (g: Filter)
      ensures g.Side() == Side() && g.Valid() == Valid()
    {
      if Prewitt? then Prewitt(ver, hor, size) else this
    }
  }

  /** One output pixel of a filter at centre (x, y) of an image `width` wide. */
  function Pixel(f: Filter, img: seq<int>, width: int, x: int, y: int): (r: int)
    requires f.Valid()
    requires WindowInBuffer(|img|, width, x, y, f.Side())
    ensures r == 0 || r == EdgeValue
  {
    match f
    case Prewitt(hor, ver, size) => PrewittPixel(img, width, x, y, hor, ver, size)
    case Contrast(surrounding) => ContrastPixel(img, width, x, y, surrounding)
  }

  const FilterHor3: seq<int> := [-1, 0, 1, -1, 0, 1, -1, 0, 1]
  const FilterVer3: seq<int> := [-1, -1, -1, 0, 0, 0, 1, 1, 1]
  const FilterHor5: seq<int> := [9, 9, 9, 9, 9, 9, 5, 5, 5, 9, -7, -3, 0, -3, -7, -7, -3, -3, -3, -7, -7, -7, -7, -7, -7]
  const FilterVer5: seq<int> := [9, 9, -7, -7, -7, 9, 5, -3, -3, -7, 9, 5, 0, -3, -7, 9, 5, -3, -3, -7, 9, 9, -7, -7, -7]

  const Prewitt3: Filter := Prewitt(FilterHor3, FilterVer3, 3)
  const Prewitt5: Filter := Prewitt(FilterHor5, FilterVer5, 5)

  // ---------------------------------------------------------------------
  // Properties

  /** Exchanging the Prewitt tables never changes a pixel: |Gx| + |Gy| does
      not care which sum is called Gx. So the parallel executor's swapped
      tables are harmless. */
  lemma SwapHarmless(f: Filter, img: seq<int>, width: int, x: int, y: int)
    requires f.Valid()
    requires WindowInBuffer(|img|, width, x, y, f.Side())
    ensures Pixel(f.Swapped(), img, width, x, y) == Pixel(f, img, width, x, y)
  {
  }

  /** The window cells the contrast flags range over, as a quantified
      reference: some cell among the first m columns is a hit. */
  predicate SomeHit(img: seq<int>, width: int, x: int, y: int, side: nat, above: bool, m: nat): (b: bool)
    requires WindowInBuffer(|img|, width, x, y, side)
    requires m <= side
  {
    exists i, j :: 0 <= i < m && 0 <= j < side && Hit(img[Tap(width, x, y, i, j)], above)
  }

  lemma {:induction false} ColumnAnyIff(img: seq<int>, width: int, x: int, y: int, side: nat, above: bool, m: nat, n: nat)
    requires WindowInBuffer(|img|, width, x, y, side)
    requires m < side && n <= side
    ensures ColumnAny(img, width, x, y, side, above, m, n) <==>
              exists j :: 0 <= j < n && Hit(img[Tap(width, x, y, m, j)], above)
    decreases n
  {
    if n > 0 {
      ColumnAnyIff(img, width, x, y, side, above, m, n - 1);
      if Hit(img[Tap(width, x, y, m, n - 1)], above) {
        assert exists j :: 0 <= j < n && Hit(img[Tap(width, x, y, m, j)], above);
      }
    }
  }

  /** The recursive flag computation agrees with the quantified reference. */
  lemma {:induction false} WindowAnyIff(img: seq<int>, width: int, x: int, y: int, side: nat, above: bool, m: nat)
    requires WindowInBuffer(|img|, width, x, y, side)
    requires m <= side
    ensures WindowAny(img, width, x, y, side, above, m) <==> SomeHit(img, width, x, y, side, above, m)
    decreases m
  {
    if m > 0 {
      WindowAnyIff(img, width, x, y, side, above, m - 1);
      ColumnAnyIff(img, width, x, y, side, above, m - 1, side);
      if ColumnAny(img, width, x, y, side, above, m - 1, side) {
        var j :| 0 <= j < side && Hit(img[Tap(width, x, y, m - 1, j)], above);
        assert Hit(img[Tap(width, x, y, m - 1, j)], above);
      }
      if SomeHit(img, width, x, y, side, above, m) {
        var i, j :| 0 <= i < m && 0 <= j < side && Hit(img[Tap(width, x, y, i, j)], above);
        if i == m - 1 {
          assert Hit(img[Tap(width, x, y, m - 1, j)], above);
        } else {
          assert SomeHit(img, width, x, y, side, above, m - 1);
        }
      }
    }
  }

  /** Truth table of the contrast test: the pixel is an edge exactly when
      "some sample is above the threshold" differs from "no sample is below
      it", and is 0 otherwise. */
  lemma ContrastTruthTable(img: seq<int>, width: int, x: int, y: int, side: nat)
    requires WindowInBuffer(|img|, width, x, y, side)
    ensures var p := exists i, j :: 0 <= i < side && 0 <= j < side && img[Tap(width, x, y, i, j)] > Threshold;
            var o := forall i, j :: 0 <= i < side && 0 <= j < side ==> img[Tap(width, x, y, i, j)] >= Threshold;
            (ContrastPixel(img, width, x, y, side) == EdgeValue <==> p != o) &&
            (ContrastPixel(img, width, x, y, side) == 0 <==> p == o)
  {
    WindowAnyIff(img, width, x, y, side, true, side);
    WindowAnyIff(img, width, x, y, side, false, side);
  }

  /** Every cell of the window holds the value v. */
  predicate UniformWindow(img: seq<int>, width: int, x: int, y: int, side: nat, v: int): (b: bool)
    requires WindowInBuffer(|img|, width, x, y, side)
  {
    forall i, j :: 0 <= i < side && 0 <= j < side ==> img[Tap(width, x, y, i, j)] == v
  }

  /** A window uniformly above the threshold has no contrast (P = O = 1). */
  lemma UniformBrightIsNotEdge(img: seq<int>, width: int, x: int, y: int, side: nat, v: int)
    requires side >= 1
    requires WindowInBuffer(|img|, width, x, y, side)
    requires v > Threshold && UniformWindow(img, width, x, y, side, v)
    ensures ContrastPixel(img, width, x, y, side) == 0
  {
    ContrastTruthTable(img, width, x, y, side);
    assert img[Tap(width, x, y, 0, 0)] > Threshold;
  }

  /** A window uniformly equal to the threshold is an edge: no sample is
      above it (P = 0) and none is below it (O = 1). */
  lemma UniformThresholdIsEdge(img: seq<int>, width: int, x: int, y: int, side: nat)
    requires WindowInBuffer(|img|, width, x, y, side)
    requires UniformWindow(img, width, x, y, side, Threshold)
    ensures ContrastPixel(img, width, x, y, side) == EdgeValue
  {
    ContrastTruthTable(img, width, x, y, side);
  }

  /** A 3 x 3 patch whose only non-zero pixel, of value v, sits right of the centre. */
  function Patch(v: int): (img: seq<int>) {
    [0, 0, 0, 0, 0, v, 0, 0, 0]
  }

  /** The Prewitt threshold is strict. On Patch(v) the 3 x 3 tables give
      Gx = v and Gy = 0, so G = |v|: v = 128 is background and v = 129 is
      an edge. */
  lemma PrewittThresholdIsStrict(v: int)
    ensures WindowInBuffer(|Patch(v)|, 3, 1, 1, 3)
    ensures PrewittPixel(Patch(v), 3, 1, 1, FilterHor3, FilterVer3, 3) == EdgeValue <==> Abs(v) > Threshold
  {
    WindowInImageInBuffer(3, 3, 1, 1, 3);
    var img := Patch(v);
    assert ColumnSum(img, 3, 1, 1, FilterHor3, 3, 0, 3) == 0;
    assert ColumnSum(img, 3, 1, 1, FilterHor3, 3, 1, 3) == 0;
    assert ColumnSum(img, 3, 1, 1, FilterHor3, 3, 2, 3) == v;
    assert ColumnSum(img, 3, 1, 1, FilterVer3, 3, 0, 3) == 0;
    assert ColumnSum(img, 3, 1, 1, FilterVer3, 3, 1, 3) == 0;
    assert ColumnSum(img, 3, 1, 1, FilterVer3, 3, 2, 3) == 0;
  }

  /** Two inputs agree on every cell of the window around (x, y). */
  predicate SameWindow(img1: seq<int>, img2: seq<int>, width: int, x: int, y: int, side: nat): (b: bool)
    requires WindowInBuffer(|img1|, width, x, y, side) && WindowInBuffer(|img2|, width, x, y, side)
  {
    forall i, j :: 0 <= i < side && 0 <= j < side ==> img1[Tap(width, x, y, i, j)] == img2[Tap(width, x, y, i, j)]
  }

  lemma {:induction false} ColumnSumLocal(img1: seq<int>, img2: seq<int>, width: int, x: int, y: int, weights: seq<int>, side: nat, m: nat, n: nat)
    requires WindowInBuffer(|img1|, width, x, y, side) && WindowInBuffer(|img2|, width, x, y, side)
    requires SameWindow(img1, img2, width, x, y, side)
    requires |weights| == side * side && m < side && n <= side
    ensures ColumnSum(img1, width, x, y, weights, side, m, n) == ColumnSum(img2, width, x, y, weights, side, m, n)
    decreases n
  {
    if n > 0 {
      ColumnSumLocal(img1, img2, width, x, y, weights, side, m, n - 1);
    }
  }

  lemma {:induction false} WindowSumLocal(img1: seq<int>, img2: seq<int>, width: int, x: int, y: int, weights: seq<int>, side: nat, m: nat)
    requires WindowInBuffer(|img1|, width, x, y, side) && WindowInBuffer(|img2|, width, x, y, side)
    requires SameWindow(img1, img2, width, x, y, side)
    requires |weights| == side * side && m <= side
    ensures WindowSum(img1, width, x, y, weights, side, m) == WindowSum(img2, width, x, y, weights, side, m)
    decreases m
  {
    if m > 0 {
      WindowSumLocal(img1, img2, width, x, y, weights, side, m - 1);
      ColumnSumLocal(img1, img2, width, x, y, weights, side, m - 1, side);
    }
  }

  /** A kernel reads nothing but its window: inputs that agree on the window
      around (x, y) give the same output pixel there. This is why a base
      region may read pixels of its neighbours' regions: the input buffer is
      shared and never written. */
  lemma PixelLocal(f: Filter, img1: seq<int>, img2: seq<int>, width: int, x: int, y: int)
    requires f.Valid()
    requires WindowInBuffer(|img1|, width, x, y, f.Side()) && WindowInBuffer(|img2|, width, x, y, f.Side())
    requires SameWindow(img1, img2, width, x, y, f.Side())
    ensures Pixel(f, img1, width, x, y) == Pixel(f, img2, width, x, y)
  {
    var side := f.Side();
    match f
    case Prewitt(hor, ver, size) =>
      WindowSumLocal(img1, img2, width, x, y, hor, side, side);
      WindowSumLocal(img1, img2, width, x, y, ver, side, side);
    case Contrast(_) =>
      WindowAnyIff(img1, width, x, y, side, true, side);
      WindowAnyIff(img2, width, x, y, side, true, side);
      WindowAnyIff(img1, width, x, y, side, false, side);
      WindowAnyIff(img2, width, x, y, side, false, side);
      assert SomeHit(img1, width, x, y, side, true, side) == SomeHit(img2, width, x, y, side, true, side);
      assert SomeHit(img1, width, x, y, side, false, side) == SomeHit(img2, width, x, y, side, false, side);
  }
}
