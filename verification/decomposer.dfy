/** The recursive quadrant decomposer shared by both parallel executors.

    A region (row, col, width, height) is the sub-rectangle
    [row, row + width) x [col, col + height) of a fullWidth x fullHeight
    image. A region no wider than fullWidth / 10 is scanned directly; any
    other region is cut into four width/2 x height/2 quadrants. The four
    quadrant calls are run one after another here; `QuadrantsDisjoint`
    shows they write pairwise-disjoint pixels, which is what makes the
    source's concurrent task group equivalent to this sequence.
 */
module Decomposer {
  import opened Grid
  import opened Kernels
  import opened Sequential

  datatype Region = Region(row: nat, col: nat, width: nat, height: nat) {
    predicate Contains(x: int, y: int): (b: bool) {
      row <= x < row + width && col <= y < col + height
    }
  }

  predicate Within(r: Region, fullWidth: nat, fullHeight: nat): (b: bool) {
    r.row + r.width <= fullWidth && r.col + r.height <= fullHeight
  }

  /** Regions at most a tenth of the image wide are not split further. */
  predicate IsBase(r: Region, fullWidth: nat): (b: bool) {
    r.width <= fullWidth / 10
  }

  /** Quadrant q of r, in the order the source starts them: top-left,
      x-shifted, y-shifted, both shifted. Each is width/2 x height/2, so an
      odd width or height leaves the last column or row out. */
  function Quadrant(r: Region, q: nat): (s: Region)
    requires q < 4
    ensures s.width == r.width / 2 && s.height == r.height / 2
    ensures s.row == r.row + (q % 2) * s.width && s.col == r.col + (q / 2) * s.height
    ensures r.row <= s.row && s.row + s.width <= r.row + r.width
    ensures r.col <= s.col && s.col + s.height <= r.col + r.height
  {
    var widthMiddle := r.width / 2;
    var heightMiddle := r.height / 2;
    if q == 0 then Region(r.row, r.col, widthMiddle, heightMiddle)
    else if q == 1 then Region(r.row + widthMiddle, r.col, widthMiddle, heightMiddle)
    else if q == 2 then Region(r.row, r.col + heightMiddle, widthMiddle, heightMiddle)
    else Region(r.row + widthMiddle, r.col + heightMiddle, widthMiddle, heightMiddle)
  }

  /** The rectangle a base case scans: its region, less `margin` pixels on
      each side where the region touches the image border. */
  function BaseBounds(r: Region, fullWidth: nat, fullHeight: nat, margin: nat): (b: Rect)
    ensures r.row <= b.rowFirst && b.rowLast <= r.row + r.width
    ensures r.col <= b.colFirst && b.colLast <= r.col + r.height
  {
    var rowFirst := if r.row == 0 then margin else r.row;
    var colFirst := if r.col == 0 then margin else r.col;
    var rowLast := if r.row + r.width == fullWidth then r.row + r.width - margin else r.row + r.width;
    var colLast := if r.col + r.height == fullHeight then r.col + r.height - margin else r.col + r.height;
    Rect(rowFirst, rowLast, colFirst, colLast)
  }

  /** A base case scans exactly the pixels of its region that are not within
      `margin` of a border the region touches: clipping happens on a side
      only when row == 0, col == 0, row + width == fullWidth or
      col + height == fullHeight. */
  lemma BaseBoundsClip(r: Region, fullWidth: nat, fullHeight: nat, margin: nat, x: int, y: int)
    ensures BaseBounds(r, fullWidth, fullHeight, margin).Contains(x, y) <==>
              && r.Contains(x, y)
              && (r.row == 0 ==> margin <= x)
              && (r.col == 0 ==> margin <= y)
              && (r.row + r.width == fullWidth ==> x < fullWidth - margin)
              && (r.col + r.height == fullHeight ==> y < fullHeight - margin)
  {
  }

  /** Pixel (x, y) is written by the decomposer started on region r. */
  predicate Visits(r: Region, fullWidth: nat, fullHeight: nat, margin: nat, x: int, y: int): (b: bool)
    ensures b ==> r.Contains(x, y)
    decreases r.width
  {
    if IsBase(r, fullWidth) then BaseBounds(r, fullWidth, fullHeight, margin).Contains(x, y)
    else
      || Visits(Quadrant(r, 0), fullWidth, fullHeight, margin, x, y)
      || Visits(Quadrant(r, 1), fullWidth, fullHeight, margin, x, y)
      || Visits(Quadrant(r, 2), fullWidth, fullHeight, margin, x, y)
      || Visits(Quadrant(r, 3), fullWidth, fullHeight, margin, x, y)
  }

  /** Every pixel the decomposer writes lies in its region, and (for a margin
      of at least 1) at least one pixel away from the top and left image
      edges, so the offset -1 of the window never reads before the buffer. */
  lemma {:induction false} VisitsInside(r: Region, fullWidth: nat, fullHeight: nat, margin: nat, x: int, y: int)
    requires Visits(r, fullWidth, fullHeight, margin, x, y)
    ensures r.Contains(x, y)
    ensures margin >= 1 ==> 1 <= x && 1 <= y
    decreases r.width
  {
    if IsBase(r, fullWidth) {
      BaseBoundsClip(r, fullWidth, fullHeight, margin, x, y);
    } else {
      var q :| 0 <= q < 4 && Visits(Quadrant(r, q), fullWidth, fullHeight, margin, x, y);
      VisitsInside(Quadrant(r, q), fullWidth, fullHeight, margin, x, y);
    }
  }

  /** Race freedom: two different quadrants of a split region never write the
      same pixel. */
  lemma QuadrantsDisjoint(r: Region, fullWidth: nat, fullHeight: nat, margin: nat, p: nat, q: nat, x: int, y: int)
    requires !IsBase(r, fullWidth)
    requires p < 4 && q < 4
    requires Visits(Quadrant(r, p), fullWidth, fullHeight, margin, x, y)
    requires Visits(Quadrant(r, q), fullWidth, fullHeight, margin, x, y)
    ensures p == q
  {
    VisitsInside(Quadrant(r, p), fullWidth, fullHeight, margin, x, y);
    VisitsInside(Quadrant(r, q), fullWidth, fullHeight, margin, x, y);
  }

  /** No pixel the decomposer writes has a window tap outside the input
      buffer; the source's behaviour is undefined otherwise. */
  ghost predicate ReadsSafe(f: Filter, len: int, r: Region, fullWidth: nat, fullHeight: nat): (b: bool) {
    forall x, y :: Visits(r, fullWidth, fullHeight, f.Side(), x, y) ==> WindowInBuffer(len, fullWidth, x, y, f.Side())
  }

  /** What the decomposer started on r leaves in the output: the kernel's
      value (with the Prewitt tables swapped, as the parallel source passes
      them) on every visited pixel, the prior value everywhere else. */
  ghost predicate ParallelSpec(f: Filter, img: seq<int>, prior: seq<int>, out: seq<int>, r: Region, fullWidth: nat, fullHeight: nat): (b: bool)
    requires f.Valid()
    requires |prior| == fullWidth * fullHeight
    requires ReadsSafe(f, |img|, r, fullWidth, fullHeight)
  {
    && |out| == |prior|
    && forall x, y :: InImage(fullWidth, fullHeight, x, y) ==>
         At(out, fullWidth, fullHeight, x, y) ==
           (if Visits(r, fullWidth, fullHeight, f.Side(), x, y)
            then Pixel(f.Swapped(), img, fullWidth, x, y)
            else At(prior, fullWidth, fullHeight, x, y))
  }

  lemma QuadrantReadsSafe(f: Filter, len: int, r: Region, fullWidth: nat, fullHeight: nat, q: nat)
    requires !IsBase(r, fullWidth) && q < 4
    requires ReadsSafe(f, len, r, fullWidth, fullHeight)
    ensures ReadsSafe(f, len, Quadrant(r, q), fullWidth, fullHeight)
  {
    forall x, y | Visits(Quadrant(r, q), fullWidth, fullHeight, f.Side(), x, y)
      ensures WindowInBuffer(len, fullWidth, x, y, f.Side())
    {
      assert Visits(r, fullWidth, fullHeight, f.Side(), x, y);
    }
  }

  /** Running two quadrants in either order gives the same buffer: the task
      group's scheduling order cannot change the result. */
  lemma QuadrantOrderIrrelevant(f: Filter, img: seq<int>, prior: seq<int>, r: Region, fullWidth: nat, fullHeight: nat,
                                p: nat, q: nat, mid1: seq<int>, out1: seq<int>, mid2: seq<int>, out2: seq<int>)
    requires f.Valid() && !IsBase(r, fullWidth) && p < 4 && q < 4
    requires |prior| == fullWidth * fullHeight
    requires ReadsSafe(f, |img|, Quadrant(r, p), fullWidth, fullHeight)
    requires ReadsSafe(f, |img|, Quadrant(r, q), fullWidth, fullHeight)
    requires ParallelSpec(f, img, prior, mid1, Quadrant(r, p), fullWidth, fullHeight)
    requires ParallelSpec(f, img, mid1, out1, Quadrant(r, q), fullWidth, fullHeight)
    requires ParallelSpec(f, img, prior, mid2, Quadrant(r, q), fullWidth, fullHeight)
    requires ParallelSpec(f, img, mid2, out2, Quadrant(r, p), fullWidth, fullHeight)
    ensures out1 == out2
  {
    forall x, y | InImage(fullWidth, fullHeight, x, y)
      ensures At(out1, fullWidth, fullHeight, x, y) == At(out2, fullWidth, fullHeight, x, y)
    {
      if Visits(Quadrant(r, p), fullWidth, fullHeight, f.Side(), x, y) && Visits(Quadrant(r, q), fullWidth, fullHeight, f.Side(), x, y) {
        QuadrantsDisjoint(r, fullWidth, fullHeight, f.Side(), p, q, x, y);
      }
    }
    BuffersEqual(out1, out2, fullWidth, fullHeight);
  }

  /** The decomposer. It terminates: it splits only when
      width > fullWidth / 10 >= 0, so each quadrant's width/2 is smaller. */
  method ParallelFilter(f: Filter, img: seq<int>, prior: seq<int>, r: Region, fullWidth: nat, fullHeight: nat)
    returns (out: seq<int>)
    requires f.Valid()
    requires |img| == fullWidth * fullHeight && |prior| == fullWidth * fullHeight
    requires Within(r, fullWidth, fullHeight)
    requires ReadsSafe(f, |img|, r, fullWidth, fullHeight)
    ensures ParallelSpec(f, img, prior, out, r, fullWidth, fullHeight)
    decreases r.width
  {
    var margin := f.Side();
    if r.width <= fullWidth / 10 {
      var rect := BaseBounds(r, fullWidth, fullHeight, margin);
      forall x, y | rect.Contains(x, y)
        ensures WindowInBuffer(|img|, fullWidth, x, y, f.Swapped().Side())
      {
        assert Visits(r, fullWidth, fullHeight, margin, x, y);
      }
      out := PaintRect(f.Swapped(), img, prior, fullWidth, fullHeight, rect);
    } else {
      QuadrantReadsSafe(f, |img|, r, fullWidth, fullHeight, 0);
      QuadrantReadsSafe(f, |img|, r, fullWidth, fullHeight, 1);
      QuadrantReadsSafe(f, |img|, r, fullWidth, fullHeight, 2);
      QuadrantReadsSafe(f, |img|, r, fullWidth, fullHeight, 3);
      // the task group's four runs, in order; their write sets are disjoint
      var out0 := ParallelFilter(f, img, prior, Quadrant(r, 0), fullWidth, fullHeight);
      var out1 := ParallelFilter(f, img, out0, Quadrant(r, 1), fullWidth, fullHeight);
      var out2 := ParallelFilter(f, img, out1, Quadrant(r, 2), fullWidth, fullHeight);
      out := ParallelFilter(f, img, out2, Quadrant(r, 3), fullWidth, fullHeight);
    }
  }

  /** filter_parallel_prewitt on region (row, col, width, height). */
  method ParallelPrewitt(img: seq<int>, prior: seq<int>, width: nat, height: nat, row: nat, col: nat,
                         fullWidth: nat, fullHeight: nat, filterHor: seq<int>, filterVer: seq<int>, filterSize: nat)
    returns (out: seq<int>)
    requires filterSize >= 1 && |filterHor| == filterSize * filterSize && |filterVer| == filterSize * filterSize
    requires |img| == fullWidth * fullHeight && |prior| == fullWidth * fullHeight
    requires Within(Region(row, col, width, height), fullWidth, fullHeight)
    requires ReadsSafe(Prewitt(filterHor, filterVer, filterSize), |img|, Region(row, col, width, height), fullWidth, fullHeight)
    ensures ParallelSpec(Prewitt(filterHor, filterVer, filterSize), img, prior, out, Region(row, col, width, height), fullWidth, fullHeight)
  {
    out := ParallelFilter(Prewitt(filterHor, filterVer, filterSize), img, prior, Region(row, col, width, height), fullWidth, fullHeight);
  }

  /** filter_parallel_edge_detection on region (row, col, width, height). */
  method ParallelEdgeDetection(img: seq<int>, prior: seq<int>, width: nat, height: nat, row: nat, col: nat,
                               fullWidth: nat, fullHeight: nat, surrounding: nat)
    returns (out: seq<int>)
    requires surrounding >= 1
    requires |img| == fullWidth * fullHeight && |prior| == fullWidth * fullHeight
    requires Within(Region(row, col, width, height), fullWidth, fullHeight)
    requires ReadsSafe(Contrast(surrounding), |img|, Region(row, col, width, height), fullWidth, fullHeight)
    ensures ParallelSpec(Contrast(surrounding), img, prior, out, Region(row, col, width, height), fullWidth, fullHeight)
  {
    out := ParallelFilter(Contrast(surrounding), img, prior, Region(row, col, width, height), fullWidth, fullHeight);
  }
}
