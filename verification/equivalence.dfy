/** When the decomposer reproduces the serial scan, and when it does not.

    Started on the whole image, the decomposer writes exactly the serial
    executor's interior pixels provided every split it makes is exact (even
    width and height) and leaves quadrants at least `margin` wide and high.
    Under those conditions the two outputs are equal, which is what the
    driver's byte comparison checks. Without them the outputs can differ:
    an odd split leaves an unscanned column, and an image narrower than 10
    pixels is not scanned at all.
 */
module Equivalence {
  import opened Grid
  import opened Kernels
  import opened Sequential
  import opened Decomposer

  /** The whole image, where the driver starts the decomposer. */
  function Whole(width: nat, height: nat): (r: Region) {
    Region(0, 0, width, height)
  }

  /** Every split the decomposer makes on a width x height region is of even
      sides and produces quadrants at least `margin` wide and high. */
  predicate ExactTiling(width: nat, height: nat, fullWidth: nat, margin: nat): (b: bool)
    decreases width
  {
    width <= fullWidth / 10 ||
      (&& width % 2 == 0 && height % 2 == 0
       && width / 2 >= margin && height / 2 >= margin
       && ExactTiling(width / 2, height / 2, fullWidth, margin))
  }

  /** Each side of the region either lies on the image border or is at least
      `margin` away from it. */
  predicate Aligned(r: Region, fullWidth: nat, fullHeight: nat, margin: nat): (b: bool) {
    && (r.row == 0 || r.row >= margin)
    && (r.col == 0 || r.col >= margin)
    && (r.row + r.width == fullWidth || r.row + r.width + margin <= fullWidth)
    && (r.col + r.height == fullHeight || r.col + r.height + margin <= fullHeight)
  }

  /** The quadrants of an exactly tiled, aligned region are again within
      the image, aligned and exactly tiled. */
  lemma QuadrantAligned(r: Region, fullWidth: nat, fullHeight: nat, margin: nat, q: nat)
    requires q < 4 && !IsBase(r, fullWidth)
    requires Within(r, fullWidth, fullHeight)
    requires Aligned(r, fullWidth, fullHeight, margin)
    requires ExactTiling(r.width, r.height, fullWidth, margin)
    ensures Within(Quadrant(r, q), fullWidth, fullHeight)
    ensures Aligned(Quadrant(r, q), fullWidth, fullHeight, margin)
    ensures ExactTiling(Quadrant(r, q).width, Quadrant(r, q).height, fullWidth, margin)
  {
  }

  /** An even-sided region is exactly the union of its four quadrants. */
  lemma QuadrantsCover(r: Region, x: int, y: int)
    requires r.width % 2 == 0 && r.height % 2 == 0
    ensures r.Contains(x, y) <==>
              Quadrant(r, 0).Contains(x, y) || Quadrant(r, 1).Contains(x, y) ||
              Quadrant(r, 2).Contains(x, y) || Quadrant(r, 3).Contains(x, y)
  {
  }

  /** Under exact tiling an aligned region's decomposition writes exactly the
      pixels of the region that the serial executor writes. */
  lemma {:induction false} VisitsExactly(r: Region, fullWidth: nat, fullHeight: nat, margin: nat, x: int, y: int)
    requires Within(r, fullWidth, fullHeight)
    requires Aligned(r, fullWidth, fullHeight, margin)
    requires ExactTiling(r.width, r.height, fullWidth, margin)
    ensures Visits(r, fullWidth, fullHeight, margin, x, y) <==>
              r.Contains(x, y) && InInterior(fullWidth, fullHeight, margin, x, y)
    decreases r.width
  {
    if IsBase(r, fullWidth) {
      BaseBoundsClip(r, fullWidth, fullHeight, margin, x, y);
    } else {
      forall q | 0 <= q < 4
        ensures Visits(Quadrant(r, q), fullWidth, fullHeight, margin, x, y) <==>
                  Quadrant(r, q).Contains(x, y) && InInterior(fullWidth, fullHeight, margin, x, y)
      {
        QuadrantAligned(r, fullWidth, fullHeight, margin, q);
        VisitsExactly(Quadrant(r, q), fullWidth, fullHeight, margin, x, y);
      }
      QuadrantsCover(r, x, y);
    }
  }

  /** Partition completeness: started on the whole image under exact
      tiling, the decomposer writes a pixel exactly when the serial
      executor does. */
  lemma WholeVisitsInterior(width: nat, height: nat, margin: nat, x: int, y: int)
    requires ExactTiling(width, height, width, margin)
    ensures Visits(Whole(width, height), width, height, margin, x, y) <==> InInterior(width, height, margin, x, y)
  {
    VisitsExactly(Whole(width, height), width, height, margin, x, y);
  }

  /** Under exact tiling the decomposer never reads outside the input. */
  lemma ExactTilingReadsSafe(f: Filter, width: nat, height: nat)
    requires f.Valid()
    requires ExactTiling(width, height, width, f.Side())
    ensures ReadsSafe(f, width * height, Whole(width, height), width, height)
  {
    forall x, y | Visits(Whole(width, height), width, height, f.Side(), x, y)
      ensures WindowInBuffer(width * height, width, x, y, f.Side())
    {
      WholeVisitsInterior(width, height, f.Side(), x, y);
      InteriorReadsInBounds(f, width, height, x, y);
    }
  }

  /** The property the driver's comparison checks: from the same input and
      the same prior output, the serial pass and the decomposer started on
      the whole image produce identical buffers, under exact tiling. */
  lemma ParallelMatchesSerial(f: Filter, img: seq<int>, prior: seq<int>, serialOut: seq<int>, parallelOut: seq<int>,
                              width: nat, height: nat)
    requires f.Valid()
    requires |img| == width * height && |prior| == width * height
    requires ExactTiling(width, height, width, f.Side())
    requires SerialSpec(f, img, prior, serialOut, width, height)
    requires ReadsSafe(f, |img|, Whole(width, height), width, height)
    requires ParallelSpec(f, img, prior, parallelOut, Whole(width, height), width, height)
    ensures serialOut == parallelOut
  {
    forall x, y | InImage(width, height, x, y)
      ensures At(serialOut, width, height, x, y) == At(parallelOut, width, height, x, y)
    {
      WholeVisitsInterior(width, height, f.Side(), x, y);
      if InInterior(width, height, f.Side(), x, y) {
        InteriorReadsInBounds(f, width, height, x, y);
        SwapHarmless(f, img, width, x, y);
      }
    }
    BuffersEqual(serialOut, parallelOut, width, height);
  }

  // ---------------------------------------------------------------------
  // Exact tiling in terms of the split depth

  function Pow2(k: nat): (p: nat)
    ensures p >= 1
  {
    if k == 0 then 1 else 2 * Pow2(k - 1)
  }

  /** How many times the decomposer halves a region `width` wide before it
      is no wider than fullWidth / 10. */
  function SplitDepth(width: nat, fullWidth: nat): (d: nat)
    decreases width
  {
    if width <= fullWidth / 10 then 0 else 1 + SplitDepth(width / 2, fullWidth)
  }

  lemma DoubleMul(p: int, b: int)
    ensures (2 * p) * b == 2 * (p * b)
  {
  }

  /** Exact tiling holds when both sides are multiples of 2^k, k the split
      depth, and (if any split happens) the base regions, of sides
      width / 2^k and height / 2^k, are at least `margin` wide and high. */
  lemma {:induction false} TilingFromMultiples(width: nat, height: nat, fullWidth: nat, margin: nat, baseWidth: nat, baseHeight: nat)
    requires width == Pow2(SplitDepth(width, fullWidth)) * baseWidth
    requires height == Pow2(SplitDepth(width, fullWidth)) * baseHeight
    requires SplitDepth(width, fullWidth) > 0 ==> baseWidth >= margin && baseHeight >= margin
    ensures ExactTiling(width, height, fullWidth, margin)
    decreases width
  {
    var k := SplitDepth(width, fullWidth);
    if k > 0 {
      var halfWidth := HalveMultiple(k, baseWidth);
      var halfHeight := HalveMultiple(k, baseHeight);
      assert width / 2 == halfWidth && height / 2 == halfHeight;
      assert SplitDepth(halfWidth, fullWidth) == k - 1;
      TilingFromMultiples(halfWidth, halfHeight, fullWidth, margin, baseWidth, baseHeight);
    }
  }

  /** Half of 2^k * b is 2^(k-1) * b, which is still at least b. */
  lemma HalveMultiple(k: nat, b: nat) returns (half: nat)
    requires k > 0
    ensures half == Pow2(k - 1) * b
    ensures Pow2(k) * b == 2 * half
    ensures half >= b
  {
    var p := Pow2(k - 1);
    half := p * b;
    DoubleMul(p, b);
    MulMonotone(1, p, b);
  }

  lemma DivExact(a: int, p: int)
    requires p > 0 && a % p == 0
    ensures a == p * (a / p)
  {
  }

  /** The same condition phrased with divisibility. */
  lemma TilingFromDivisibility(width: nat, height: nat, margin: nat)
    requires width % Pow2(SplitDepth(width, width)) == 0
    requires height % Pow2(SplitDepth(width, width)) == 0
    requires SplitDepth(width, width) > 0 ==>
               width / Pow2(SplitDepth(width, width)) >= margin && height / Pow2(SplitDepth(width, width)) >= margin
    ensures ExactTiling(width, height, width, margin)
  {
    var p := Pow2(SplitDepth(width, width));
    DivExact(width, p);
    DivExact(height, p);
    TilingFromMultiples(width, height, width, margin, width / p, height / p);
  }

  /** Exact tiling is sufficient, not necessary. A 32 x 33 image has an odd
      height, so its first split is inexact; yet its four 16 x 16 quadrants
      are aligned and exactly tiled, and the row the split drops (y = 32)
      lies in the bottom margin, so the decomposer still writes exactly the
      serial executor's pixels. */
  lemma TilingNotNecessary(x: int, y: int)
    ensures !ExactTiling(32, 33, 32, 1)
    ensures Visits(Whole(32, 33), 32, 33, 1, x, y) <==> InInterior(32, 33, 1, x, y)
  {
    var top := Whole(32, 33);
    assert ExactTiling(2, 2, 32, 1) && ExactTiling(4, 4, 32, 1) && ExactTiling(8, 8, 32, 1);
    assert ExactTiling(16, 16, 32, 1);
    forall q | 0 <= q < 4
      ensures Visits(Quadrant(top, q), 32, 33, 1, x, y) <==>
                Quadrant(top, q).Contains(x, y) && InInterior(32, 33, 1, x, y)
    {
      VisitsExactly(Quadrant(top, q), 32, 33, 1, x, y);
    }
  }

  // ---------------------------------------------------------------------
  // Where the equivalence fails

  /** An image narrower than 10 pixels gives fullWidth / 10 == 0: the
      decomposer splits down to regions of width 0 and writes nothing. */
  lemma {:induction false} NarrowImageVisitsNothing(r: Region, fullWidth: nat, fullHeight: nat, margin: nat, x: int, y: int)
    requires fullWidth < 10
    ensures !Visits(r, fullWidth, fullHeight, margin, x, y)
    decreases r.width
  {
    if !IsBase(r, fullWidth) {
      NarrowImageVisitsNothing(Quadrant(r, 0), fullWidth, fullHeight, margin, x, y);
      NarrowImageVisitsNothing(Quadrant(r, 1), fullWidth, fullHeight, margin, x, y);
      NarrowImageVisitsNothing(Quadrant(r, 2), fullWidth, fullHeight, margin, x, y);
      NarrowImageVisitsNothing(Quadrant(r, 3), fullWidth, fullHeight, margin, x, y);
    }
  }

  /** On a 30 x 30 image the first split gives 15 x 15 quadrants, and halving
      15 drops column 14: pixel (14, 14) is interior for a margin of 1 but
      the decomposer never writes it. */
  lemma OddSplitLeavesGap()
    ensures InInterior(30, 30, 1, 14, 14)
    ensures !Visits(Whole(30, 30), 30, 30, 1, 14, 14)
  {
    var top := Whole(30, 30);
    var q0 := Quadrant(top, 0);
    assert q0 == Region(0, 0, 15, 15);
    assert Quadrant(q0, 0) == Region(0, 0, 7, 7);
    assert Quadrant(q0, 1) == Region(7, 0, 7, 7);
    assert Quadrant(q0, 2) == Region(0, 7, 7, 7);
    assert Quadrant(q0, 3) == Region(7, 7, 7, 7);
    assert !Visits(q0, 30, 30, 1, 14, 14);
    assert Quadrant(top, 1) == Region(15, 0, 15, 15);
    assert Quadrant(top, 2) == Region(0, 15, 15, 15);
    assert Quadrant(top, 3) == Region(15, 15, 15, 15);
  }

  /** The decomposer can read past the input buffer on a common image size.
      With the 5 x 5 operator on an 800 x 600 image, taking the third
      quadrant four times leads to the base region (0, 562, 50, 37). Its
      bottom edge 562 + 37 = 599 is not the image border, so it is not
      clipped, and it writes pixel (10, 598). That pixel's window cell
      (0, 4) is row 601, beyond the 480000-entry buffer. */
  lemma Prewitt5ReadsPast800x600()
    ensures !ReadsSafe(Prewitt5, 800 * 600, Whole(800, 600), 800, 600)
  {
    var a := Whole(800, 600);
    var b := Quadrant(a, 2);
    assert b == Region(0, 300, 400, 300);
    var c := Quadrant(b, 2);
    assert c == Region(0, 450, 200, 150);
    var d := Quadrant(c, 2);
    assert d == Region(0, 525, 100, 75);
    var e := Quadrant(d, 2);
    assert e == Region(0, 562, 50, 37);
    assert Prewitt5.Side() == 5;
    assert BaseBounds(e, 800, 600, 5) == Rect(5, 50, 562, 599);
    assert Visits(e, 800, 600, 5, 10, 598);
    assert Visits(d, 800, 600, 5, 10, 598);
    assert Visits(c, 800, 600, 5, 10, 598);
    assert Visits(b, 800, 600, 5, 10, 598);
    assert Visits(a, 800, 600, 5, 10, 598);
    assert Tap(800, 10, 598, 0, 4) == 601 * 800 + 9;
    assert !WindowInBuffer(800 * 600, 800, 10, 598, 5);
  }

  /** Even splits read past the buffer too when the base regions are
      narrower than the margin. A 32 x 32 image splits 32, 16, 8, 4, 2, all
      even, down to the base region (28, 28, 2, 2), which touches no border
      and is not clipped. Its pixel (29, 29) has window cell (4, 4) at index
      32 * 32 + 32, beyond the 1024-entry buffer. */
  lemma Prewitt5ReadsPast32x32()
    ensures !ReadsSafe(Prewitt5, 32 * 32, Whole(32, 32), 32, 32)
  {
    var a := Whole(32, 32);
    var b := Quadrant(a, 3);
    assert b == Region(16, 16, 16, 16);
    var c := Quadrant(b, 3);
    assert c == Region(24, 24, 8, 8);
    var d := Quadrant(c, 3);
    assert d == Region(28, 28, 4, 4);
    var e := Quadrant(d, 0);
    assert e == Region(28, 28, 2, 2);
    assert Prewitt5.Side() == 5;
    assert BaseBounds(e, 32, 32, 5) == Rect(28, 30, 28, 30);
    assert Visits(e, 32, 32, 5, 29, 29);
    assert Visits(d, 32, 32, 5, 29, 29);
    assert Visits(c, 32, 32, 5, 29, 29);
    assert Visits(b, 32, 32, 5, 29, 29);
    assert Visits(a, 32, 32, 5, 29, 29);
    assert Tap(32, 29, 29, 4, 4) == 32 * 32 + 32;
    assert !WindowInBuffer(32 * 32, 32, 29, 29, 5);
  }

  /** A 1 x 1 window (surrounding 1) reads only pixel (x - 1, y - 1), which
      the decomposer keeps inside the image on any image shape. */
  lemma UnitWindowReadsSafe(width: nat, height: nat)
    ensures ReadsSafe(Contrast(1), width * height, Whole(width, height), width, height)
  {
    forall x, y | Visits(Whole(width, height), width, height, 1, x, y)
      ensures WindowInBuffer(width * height, width, x, y, 1)
    {
      VisitsInside(Whole(width, height), width, height, 1, x, y);
      WindowInImageInBuffer(width, height, x, y, 1);
    }
  }

  /** An image of the given shape whose every pixel is v. */
  function Uniform(width: nat, height: nat, v: int): (img: seq<int>)
    ensures |img| == width * height
    ensures forall k :: 0 <= k < |img| ==> img[k] == v
  {
    seq(width * height, _ => v)
  }

  /** Runs both executors of the contrast test (surrounding 1) on a uniform
      image of value 128 with a zeroed output; pixel (x, y) is interior but
      never visited, and the two outputs differ there. */
  method RunUnitContrast(width: nat, height: nat, x: int, y: int) returns (serialOut: seq<int>, parallelOut: seq<int>)
    requires InInterior(width, height, 1, x, y)
    requires !Visits(Whole(width, height), width, height, 1, x, y)
    ensures |serialOut| == width * height && |parallelOut| == width * height
    ensures serialOut != parallelOut
    ensures At(serialOut, width, height, x, y) == EdgeValue && At(parallelOut, width, height, x, y) == 0
  {
    var f := Contrast(1);
    var img := Uniform(width, height, Threshold);
    var zeros := Uniform(width, height, 0);
    serialOut := SerialFilter(f, img, zeros, width, height);
    UnitWindowReadsSafe(width, height);
    parallelOut := ParallelFilter(f, img, zeros, Whole(width, height), width, height);
    assert InImage(width, height, x, y);
    InteriorReadsInBounds(f, width, height, x, y);
    assert img[Tap(width, x, y, 0, 0)] == Threshold;
    assert UniformWindow(img, width, x, y, 1, Threshold);
    UniformThresholdIsEdge(img, width, x, y, 1);
    assert At(serialOut, width, height, x, y) == Pixel(f, img, width, x, y) == EdgeValue;
    IdxInRange(width, height, x, y);
    assert zeros[Idx(width, x, y)] == 0;
    assert At(parallelOut, width, height, x, y) == At(zeros, width, height, x, y);
  }

  /** A 9 x 9 image: the serial pass marks pixel (4, 4), the decomposer
      leaves the whole output zero. */
  method NarrowImageMismatch() returns (serialOut: seq<int>, parallelOut: seq<int>)
    ensures |serialOut| == 81 && |parallelOut| == 81
    ensures serialOut != parallelOut
  {
    NarrowImageVisitsNothing(Whole(9, 9), 9, 9, 1, 4, 4);
    serialOut, parallelOut := RunUnitContrast(9, 9, 4, 4);
  }

  /** A 30 x 30 image: the serial pass marks pixel (14, 14), which the
      decomposer skips after halving 15, so the outputs differ. */
  method OddSplitMismatch() returns (serialOut: seq<int>, parallelOut: seq<int>)
    ensures |serialOut| == 900 && |parallelOut| == 900
    ensures serialOut != parallelOut
  {
    OddSplitLeavesGap();
    serialOut, parallelOut := RunUnitContrast(30, 30, 14, 14);
  }
}
