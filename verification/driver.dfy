/** The driver's verification step: run the four executions on zeroed
    output buffers and compare each serial/parallel pair byte for byte.
    Timing, prompts and bitmap I/O are not modelled; the user's answers are
    parameters: `prewitt` selects the 3 x 3 ("1") or 5 x 5 ("2") tables
    (anything else runs no Prewitt filter), and `edge` gives the contrast
    window side 2 * edge + 1.
 */
module Driver {
  import opened Kernels
  import opened Sequential
  import opened Decomposer
  import opened Equivalence

  method RunAndCompare(img: seq<int>, width: nat, height: nat, prewitt: string, edge: nat)
    returns (prewittPass: bool, edgePass: bool)
    requires |img| == width * height
    requires prewitt == "1" ==> ReadsSafe(Prewitt3, |img|, Whole(width, height), width, height)
    requires prewitt == "2" ==> ReadsSafe(Prewitt5, |img|, Whole(width, height), width, height)
    requires ReadsSafe(Contrast(2 * edge + 1), |img|, Whole(width, height), width, height)
    ensures prewitt == "1" && ExactTiling(width, height, width, 3) ==> prewittPass
    ensures prewitt == "2" && ExactTiling(width, height, width, 5) ==> prewittPass
    ensures prewitt != "1" && prewitt != "2" ==> prewittPass
    ensures ExactTiling(width, height, width, 2 * edge + 1) ==> edgePass
  {
    var zeros := Uniform(width, height, 0);
    var serialPrewitt, parallelPrewitt := zeros, zeros;
    if prewitt == "1" {
      serialPrewitt := SerialPrewitt(img, zeros, width, height, FilterHor3, FilterVer3, 3);
      parallelPrewitt := ParallelPrewitt(img, zeros, width, height, 0, 0, width, height, FilterHor3, FilterVer3, 3);
      if ExactTiling(width, height, width, 3) {
        ParallelMatchesSerial(Prewitt3, img, zeros, serialPrewitt, parallelPrewitt, width, height);
      }
    } else if prewitt == "2" {
      serialPrewitt := SerialPrewitt(img, zeros, width, height, FilterHor5, FilterVer5, 5);
      parallelPrewitt := ParallelPrewitt(img, zeros, width, height, 0, 0, width, height, FilterHor5, FilterVer5, 5);
      if ExactTiling(width, height, width, 5) {
        ParallelMatchesSerial(Prewitt5, img, zeros, serialPrewitt, parallelPrewitt, width, height);
      }
    }
    var surrounding := 2 * edge + 1;
    var serialEdge := SerialEdgeDetection(img, zeros, width, height, surrounding);
    var parallelEdge := ParallelEdgeDetection(img, zeros, width, height, 0, 0, width, height, surrounding);
    if ExactTiling(width, height, width, surrounding) {
      ParallelMatchesSerial(Contrast(surrounding), img, zeros, serialEdge, parallelEdge, width, height);
    }
    prewittPass := serialPrewitt == parallelPrewitt;
    edgePass := serialEdge == parallelEdge;
  }
}
