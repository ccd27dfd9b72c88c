/** Flat row-major pixel buffers.

    A buffer of an image `width` pixels wide and `height` pixels high holds
    `width * height` integers; pixel (x, y) lives at linear index
    `y * width + x`. The source's names for the two axes are unusual: a
    "row" offset moves along x and a "col" offset moves along y; `Rect`
    keeps those names so the executors read like the source.
 */
module Grid {

  /** Linear index of pixel (x, y) in a row-major buffer of the given width. */
  function Idx(width: int, x: int, y: int): (k: int) {
    y * width + x
  }

  predicate InImage(width: int, height: int, x: int, y: int): (b: bool) {
    0 <= x < width && 0 <= y < height
  }

  lemma MulMonotone(a: int, b: int, c: int)
    requires a <= b && 0 <= c
    ensures a * c <= b * c
  {
    assert b * c - a * c == (b - a) * c;
  }

  /** Every pixel of the image has its linear index inside the buffer. */
  lemma IdxInRange(width: int, height: int, x: int, y: int)
    requires InImage(width, height, x, y)
    ensures 0 <= Idx(width, x, y) < width * height
  {
    MulMonotone(0, y, width);
    MulMonotone(y + 1, height, width);
  }

  /** Distinct pixels of one image never share a linear index. */
  lemma IdxInjective(width: int, x1: int, y1: int, x2: int, y2: int)
    requires 0 <= x1 < width && 0 <= x2 < width
    requires Idx(width, x1, y1) == Idx(width, x2, y2)
    ensures x1 == x2 && y1 == y2
  {
    if y1 < y2 {
      MulMonotone(y1 + 1, y2, width);
    } else if y2 < y1 {
      MulMonotone(y2 + 1, y1, width);
    }
  }

  /** Every linear index of the buffer is the index of exactly one pixel. */
  lemma IdxDecompose(width: nat, height: nat, k: int)
    requires 0 <= k < width * height
    ensures width > 0
    ensures InImage(width, height, k % width, k / width)
    ensures Idx(width, k % width, k / width) == k
  {
    if width == 0 {
      assert false;
    }
    var x, y := k % width, k / width;
    assert k == y * width + x;
    if y >= height {
      MulMonotone(height, y, width);
    }
    if y < 0 {
      MulMonotone(y, -1, width);
    }
  }

  lemma AllIdxInRange(width: int, height: int)
    ensures forall x, y :: InImage(width, height, x, y) ==> 0 <= Idx(width, x, y) < width * height
  {
    forall x, y | InImage(width, height, x, y)
      ensures 0 <= Idx(width, x, y) < width * height
    {
      IdxInRange(width, height, x, y);
    }
  }

  lemma AllIdxInjective(width: int, height: int)
    ensures forall x1, y1, x2, y2 ::
              (InImage(width, height, x1, y1) && InImage(width, height, x2, y2) &&
               Idx(width, x1, y1) == Idx(width, x2, y2)) ==> x1 == x2 && y1 == y2
  {
    forall x1, y1, x2, y2 |
      InImage(width, height, x1, y1) && InImage(width, height, x2, y2) &&
      Idx(width, x1, y1) == Idx(width, x2, y2)
      ensures x1 == x2 && y1 == y2
    {
      IdxInjective(width, x1, y1, x2, y2);
    }
  }

  /** The value of pixel (x, y) in a buffer of the given shape. */
  function At(buf: seq<int>, width: int, height: int, x: int, y: int): (v: int)
    requires |buf| == width * height
    requires InImage(width, height, x, y)
  {
    IdxInRange(width, height, x, y);
    buf[Idx(width, x, y)]
  }

  /** Two buffers of the same shape are equal exactly when they agree on every pixel. */
  lemma BuffersEqual(a: seq<int>, b: seq<int>, width: nat, height: nat)
    requires |a| == width * height && |b| == width * height
    requires forall x, y :: InImage(width, height, x, y) ==> At(a, width, height, x, y) == At(b, width, height, x, y)
    ensures a == b
  {
    forall k | 0 <= k < |a|
      ensures a[k] == b[k]
    {
      IdxDecompose(width, height, k);
      assert At(a, width, height, k % width, k / width) == At(b, width, height, k % width, k / width);
    }
  }

  /** The half-open pixel rectangle [rowFirst, rowLast) x [colFirst, colLast)
      an executor's nested loops visit; it is empty when either range is. */
  datatype Rect = Rect(rowFirst: int, rowLast: int, colFirst: int, colLast: int) {
    predicate Contains(x: int, y: int): (b: bool) {
      rowFirst <= x < rowLast && colFirst <= y < colLast
    }
  }
}
