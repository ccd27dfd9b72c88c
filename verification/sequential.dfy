/** The sequential executors: one pass over every interior pixel.

    Output buffers are values here. An executor takes the buffer's prior
    contents and returns its contents afterwards, so "nothing else changes"
    is a statement about the returned sequence.
 */
module Sequential {
  import opened Grid
  import opened Kernels

  /** Writes Pixel(f, ..) into every pixel of `rect` and copies every other
      pixel from `prior`. This is the nested i/j loop that both the serial
      executors and the decomposer's base case run. */
  method PaintRect(f: Filter, img: seq<int>, prior: seq<int>, width: nat, height: nat, rect: Rect)
    returns (out: seq<int>)
    requires f.Valid()
    requires |prior| == width * height
    requires 0 <= rect.rowFirst && rect.rowLast <= width
    requires 0 <= rect.colFirst && rect.colLast <= height
    requires forall x, y :: rect.Contains(x, y) ==> WindowInBuffer(|img|, width, x, y, f.Side())
    ensures |out| == |prior|
    ensures forall x, y :: InImage(width, height, x, y) ==>
              At(out, width, height, x, y) ==
                (if rect.Contains(x, y) then Pixel(f, img, width, x, y) else At(prior, width, height, x, y))
  {
    AllIdxInRange(width, height);
    AllIdxInjective(width, height);
    var a := new int[|prior|](k requires 0 <= k < |prior| => prior[k]);
    var i := rect.rowFirst;
    while i < rect.rowLast
      invariant i == rect.rowFirst || rect.rowFirst < i <= rect.rowLast
      invariant a.Length == |prior|
      invariant forall x, y :: InImage(width, height, x, y) ==>
                  a[Idx(width, x, y)] ==
                    (if Rect(rect.rowFirst, i, rect.colFirst, rect.colLast).Contains(x, y)
                     then Pixel(f, img, width, x, y) else prior[Idx(width, x, y)])
    {
      var j := rect.colFirst;
      while j < rect.colLast
        invariant j == rect.colFirst || rect.colFirst < j <= rect.colLast
        invariant forall x, y :: InImage(width, height, x, y) ==>
                    a[Idx(width, x, y)] ==
                      (if Rect(rect.rowFirst, i, rect.colFirst, rect.colLast).Contains(x, y)
                          || (x == i && rect.colFirst <= y < j)
                       then Pixel(f, img, width, x, y) else prior[Idx(width, x, y)])
      {
        a[Idx(width, i, j)] := Pixel(f, img, width, i, j);
        j := j + 1;
      }
      i := i + 1;
    }
    out := a[..];
  }

  /** The pixels a serial executor writes: at least `margin` away from every
      image edge. */
  predicate InInterior(width: int, height: int, margin: int, x: int, y: int): (b: bool) {
    margin <= x < width - margin && margin <= y < height - margin
  }

  /** The serial executors only read inside the input: with margin equal to
      the window side (at least 1), the window of an interior pixel, anchored
      at offset -1, lies inside the image. */
  lemma InteriorReadsInBounds(f: Filter, width: nat, height: nat, x: int, y: int)
    requires f.Valid()
    requires InInterior(width, height, f.Side(), x, y)
    ensures WindowInImage(width, height, x, y, f.Side())
    ensures WindowInBuffer(width * height, width, x, y, f.Side())
  {
    WindowInImageInBuffer(width, height, x, y, f.Side());
  }

  /** What a serial pass leaves in the output: the kernel's value on every
      interior pixel, the prior value everywhere else. */
  ghost predicate SerialSpec(f: Filter, img: seq<int>, prior: seq<int>, out: seq<int>, width: nat, height: nat): (b: bool)
    requires f.Valid()
    requires |img| == width * height && |prior| == width * height
  {
    && |out| == |prior|
    && forall x, y :: InImage(width, height, x, y) ==>
         At(out, width, height, x, y) ==
           (if InInterior(width, height, f.Side(), x, y)
            then (InteriorReadsInBounds(f, width, height, x, y); Pixel(f, img, width, x, y))
            else At(prior, width, height, x, y))
  }

  /** Serial executor: margin = window side; x and y run over
      [margin, width - margin) and [margin, height - margin). */
  method SerialFilter(f: Filter, img: seq<int>, prior: seq<int>, width: nat, height: nat) returns (out: seq<int>)
    requires f.Valid()
    requires |img| == width * height && |prior| == width * height
    ensures SerialSpec(f, img, prior, out, width, height)
  {
    var margin := f.Side();
    var rect := Rect(margin, width - margin, margin, height - margin);
    forall x, y | rect.Contains(x, y)
      ensures WindowInBuffer(|img|, width, x, y, f.Side())
    {
      InteriorReadsInBounds(f, width, height, x, y);
    }
    out := PaintRect(f, img, prior, width, height, rect);
  }

  /** filter_serial_prewitt: Gx from the horizontal table, Gy from the vertical one. */
  method SerialPrewitt(img: seq<int>, prior: seq<int>, width: nat, height: nat, filterHor: seq<int>, filterVer: seq<int>, filterSize: nat)
    returns (out: seq<int>)
    requires filterSize >= 1 && |filterHor| == filterSize * filterSize && |filterVer| == filterSize * filterSize
    requires |img| == width * height && |prior| == width * height
    ensures SerialSpec(Prewitt(filterHor, filterVer, filterSize), img, prior, out, width, height)
  {
    out := SerialFilter(Prewitt(filterHor, filterVer, filterSize), img, prior, width, height);
  }

  /** filter_serial_edge_detection over a `surrounding` x `surrounding` window. */
  method SerialEdgeDetection(img: seq<int>, prior: seq<int>, width: nat, height: nat, surrounding: nat)
    returns (out: seq<int>)
    requires surrounding >= 1
    requires |img| == width * height && |prior| == width * height
    ensures SerialSpec(Contrast(surrounding), img, prior, out, width, height)
  {
    out := SerialFilter(Contrast(surrounding), img, prior, width, height);
  }
}
