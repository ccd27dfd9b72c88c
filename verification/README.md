# Edge detection: serial scan vs. recursive quadrant decomposition

A Dafny model of the pixel-filtering core of `Windows/main.cpp`. The program
computes edge maps of a grey-scale image with two per-pixel kernels:

- a **Prewitt gradient threshold**. It convolves a `filterSize` x `filterSize`
  window with a horizontal and a vertical weight table. The pixel becomes 255
  when `|Gx| + |Gy| > 128` and 0 otherwise.
- a **neighbourhood contrast test**. Flag P says some sampled pixel is above
  128. Flag O says no sampled pixel is below 128. The pixel becomes 255 when
  `|P - O| == 1`.

Each kernel runs two ways:

- a **serial scan** of every pixel at least `margin` away from every edge;
- a **recursive decomposer**. It cuts the image into `width/2 x height/2`
  quadrants until a region is at most `fullWidth / 10` wide. Then it scans
  the region, clipping `margin` pixels only on sides that touch the image
  border.

The driver compares the serial and the parallel output buffers byte for byte.

Both kernels read a window whose cell (m, n) is pixel (x + m - 1, y + n - 1).
Buffers are flat row-major `seq<int>`: pixel (x, y) is at `y * width + x`. An
executor takes the prior contents of the output buffer and returns its new
contents. So "nothing else changes" is a statement about the returned
sequence.

Modules, one per component:

- `Grid` (grid.dfy): row-major indexing.
- `Kernels` (kernels.dfy): the two kernels, the `Filter` descriptor and the
  weight tables.
- `Sequential` (sequential.dfy): the scan loop and the serial executors.
- `Decomposer` (decomposer.dfy): regions, quadrants, base-case clipping and
  the recursive executor.
- `Equivalence` (equivalence.dfy): when the two executors agree, and inputs
  on which they do not.
- `Driver` (driver.dfy): the final comparison.

The central result is `Equivalence.ParallelMatchesSerial`. The two outputs
are equal when `ExactTiling` holds: every split the decomposer makes is of an
even width and height, and leaves quadrants at least `margin` wide and high.
`TilingFromDivisibility` gives a sufficient condition for it in terms of the
split depth k: both sides are multiples of 2^k, and the base regions are at
least `margin` wide and high. `ExactTiling` is sufficient, not necessary:
`TilingNotNecessary` shows a 32 x 33 image with margin 1 on which it fails and the
decomposer still writes exactly the serial pixels. Without it the outputs
can differ. `OddSplitMismatch` shows a 30 x 30 image where halving 15 drops
column 14 (`OddSplitLeavesGap`, `RunUnitContrast`). `NarrowImageMismatch`
shows a 9 x 9 image, where `fullWidth / 10 == 0` and the decomposer writes
nothing.

The decomposer can also read past the end of the input buffer, which is
undefined behaviour. Choosing the 5 x 5 operator on an 800 x 600 image does
so (`Prewitt5ReadsPast800x600`): a base region whose bottom edge stops one row
short of the border is not clipped, and its last rows read below the image.
Even splits are no protection when base regions are narrower than the margin
(`Prewitt5ReadsPast32x32`). Under `ExactTiling` no such read happens
(`ExactTilingReadsSafe`).

Two points of the code worth knowing:

- The serial executor feeds `filterHor` into Gx (main.cpp:42); the parallel
  executor feeds `filterVer` into Gx (main.cpp:101). `SwapHarmless` shows
  the result is the same.
- The serial and parallel outputs are equal under `ExactTiling`, and differ
  on the inputs above.

## Model

| member | source | states |
|---|---|---|
| Kernels.WindowSumIsConv | Windows/main.cpp:37-45 | the m-outer, n-inner accumulation over filter[n * filterSize + m] equals the convolution in table order: every table entry is used exactly once, on the pixel it covers |
| Kernels.PrewittPixel | Windows/main.cpp:37-53 | the Prewitt pixel is 0 or 255, and 255 exactly when \|Gx\| + \|Gy\| exceeds 128 strictly, Gx and Gy being the table-order convolutions `Conv` with the two weight tables |
| Kernels.PrewittThresholdIsStrict | Windows/main.cpp:47-48 | on a 3 x 3 patch with Gx = v and Gy = 0, the pixel is an edge iff \|v\| > 128; so G = 128 is background and G = 129 is an edge |
| Kernels.SwapHarmless | Windows/main.cpp:101-105 | the parallel executor feeds the vertical table into Gx and the horizontal one into Gy; the output pixel is the same as with the serial executor's assignment |
| Kernels.Pixel | Windows/main.cpp:47-158 | every output pixel of either kernel is 0 or 255: the Prewitt branch (lines 47-53) and the contrast branch (lines 153-158) |
| Kernels.WindowAnyIff | Windows/main.cpp:143-152 | the flag the nested loops compute is set exactly when some window cell is above (or below) the threshold |
| Kernels.ContrastPixel | Windows/main.cpp:140-158 | the contrast pixel is 0 or 255, and 255 exactly when "some window cell is above 128" and "some window cell is below 128" are both true or both false (`SomeHit`) |
| Kernels.ContrastTruthTable | Windows/main.cpp:140-158 | the contrast pixel is 255 iff "some sample > 128" differs from "no sample < 128", and 0 iff they agree |
| Kernels.UniformBrightIsNotEdge | Windows/main.cpp:140-158 | a window uniformly above 128 (e.g. all 200) gives 0 |
| Kernels.UniformThresholdIsEdge | Windows/main.cpp:140-158 | a window uniformly equal to 128 gives 255 |
| Kernels.PixelLocal | Windows/main.cpp:40-45 | a kernel depends only on its window: inputs equal on the window give equal pixels |
| Kernels.WindowInImageInBuffer | Windows/main.cpp:42-43 | a window inside the image reads only indices in [0, width*height) |
| Sequential.PaintRect | Windows/main.cpp:94-113 | the nested scan writes the kernel's value on every pixel of its rectangle and leaves every other pixel at its prior value |
| Sequential.InteriorReadsInBounds | Windows/main.cpp:34-43 | with margin = window side >= 1, every index (j+n-1)*width + (i+m-1) a serial executor reads lies in the image |
| Sequential.SerialFilter | Windows/main.cpp:34-36 | the serial executor writes exactly the pixels with margin <= x < width-margin and margin <= y < height-margin; all others keep their prior value |
| Sequential.SerialPrewitt | Windows/main.cpp:32-56 | filter_serial_prewitt: serial scan with margin = filterSize, Gx from the horizontal table |
| Sequential.SerialEdgeDetection | Windows/main.cpp:136-162 | filter_serial_edge_detection: serial scan with margin = surrounding |
| Decomposer.Quadrant | Windows/main.cpp:116-121 | quadrant q is width/2 x height/2 (floor), offset by (q % 2) * width/2 along x and (q / 2) * height/2 along y, and lies inside its parent |
| Decomposer.Visits | Windows/main.cpp:77-123 | the write set of the recursion: the clipped base rectangle, or the union of the four quadrants' write sets; a written pixel always lies in the region |
| Decomposer.BaseBounds | Windows/main.cpp:79-91 | the base-case rectangle lies inside the region [row,row+width) x [col,col+height) |
| Decomposer.BaseBoundsClip | Windows/main.cpp:83-91 | margin is removed on a side only when row == 0, col == 0, row+width == fullWidth or col+height == fullHeight |
| Decomposer.VisitsInside | Windows/main.cpp:77-123 | every pixel the decomposer writes lies in its region and at least one pixel from the top and left edges |
| Decomposer.QuadrantsDisjoint | Windows/main.cpp:118-121 | two different quadrants never write the same pixel |
| Decomposer.QuadrantOrderIrrelevant | Windows/main.cpp:118-122 | running two quadrants in either order yields the same buffer, so the task group's order cannot matter |
| Decomposer.ParallelFilter | Windows/main.cpp:77-123 | the decomposer terminates (width/2 < width when splitting), writes the swapped-table kernel value on exactly the pixels it visits, and leaves every other pixel at its prior value |
| Decomposer.ParallelPrewitt | Windows/main.cpp:73-125 | filter_parallel_prewitt on region (row, col, width, height) |
| Decomposer.ParallelEdgeDetection | Windows/main.cpp:177-231 | filter_parallel_edge_detection on region (row, col, width, height) |
| Equivalence.VisitsExactly | Windows/main.cpp:116-121 | under exact tiling, an aligned region's decomposition writes exactly the region's pixels that the serial scan writes |
| Equivalence.WholeVisitsInterior | Windows/main.cpp:272 | started on (0, 0, fullWidth, fullHeight) under exact tiling, the decomposer writes a pixel iff the serial executor does |
| Equivalence.ExactTilingReadsSafe | Windows/main.cpp:101-102 | under exact tiling no parallel read leaves the input buffer |
| Equivalence.ParallelMatchesSerial | Windows/main.cpp:380-391 | under exact tiling the serial and parallel outputs are equal, which is what memcmp checks |
| Equivalence.TilingFromMultiples | Windows/main.cpp:116-121 | sides that are 2^k times base sides of at least margin, k the split depth, give exact tiling |
| Equivalence.TilingFromDivisibility | Windows/main.cpp:77 | both dimensions divisible by 2^k, with base regions at least margin wide and high, imply exact tiling |
| Equivalence.TilingNotNecessary | Windows/main.cpp:116-121 | with margin 1 (contrast window 1), on a 32 x 33 image exact tiling fails, yet the decomposer writes a pixel iff the serial executor does |
| Equivalence.NarrowImageVisitsNothing | Windows/main.cpp:77 | when fullWidth < 10 the decomposer writes no pixel at all |
| Equivalence.OddSplitLeavesGap | Windows/main.cpp:116-119 | on a 30 x 30 image pixel (14, 14) is interior but never written by the decomposer |
| Equivalence.Prewitt5ReadsPast800x600 | Windows/main.cpp:83-102 | with the 5 x 5 tables on an 800 x 600 image, the unclipped base region (0, 562, 50, 37) writes pixel (10, 598), whose window reads row 601, past the buffer |
| Equivalence.Prewitt5ReadsPast32x32 | Windows/main.cpp:83-102 | with the 5 x 5 tables on a 32 x 32 image, where every split is even, the 2 x 2 base region (28, 28) writes pixel (29, 29), whose window reads past the buffer |
| Equivalence.UnitWindowReadsSafe | Windows/main.cpp:204-207 | with surrounding = 1 the decomposer reads only inside the buffer on any image shape |
| Equivalence.RunUnitContrast | Windows/main.cpp:286-294 | on a uniform 128 image, an interior pixel the decomposer skips is 255 in the serial output and 0 in the parallel one, so the outputs differ |
| Equivalence.OddSplitMismatch | Windows/main.cpp:391 | on a 30 x 30 image the serial and parallel contrast outputs differ |
| Equivalence.NarrowImageMismatch | Windows/main.cpp:391 | on a 9 x 9 image the serial and parallel contrast outputs differ |
| Driver.RunAndCompare | Windows/main.cpp:378-400 | with zeroed outputs, the Prewitt and edge comparisons pass whenever the chosen configuration tiles exactly; an unrecognised Prewitt choice runs nothing and passes |

## Left out

- Bitmap loading and saving (`BitmapRawConverter`): file I/O through a header that is not part of this model. The input is a `seq<int>` of length width*height.
- TBB `task_group` and `tick_count`: concurrency and wall-clock timing. The four quadrant calls run in sequence. `QuadrantsDisjoint` and `QuadrantOrderIrrelevant` justify this. The input buffer is an immutable sequence, so no task writes what another reads.
- Console prompts, `usage()` and the argument-count check: user interface. The driver's answers are parameters of `RunAndCompare`, and the contrast window is `2 * edge + 1` as in the source.
- `run_test_nr`'s error message for an unknown test number: never reached from `main`.
- `new`/`delete`/`memset`: C++ memory management. Output buffers start as zero sequences of length width*height.
- C `int` overflow in the Gx/Gy sums: the model uses mathematical integers. With the given tables and 0-255 inputs the sums stay far below 2^31.
- C `int` overflow in the index arithmetic `(j + n - 1) * width + (i + m - 1)` and `j * fullWidth + i`: the model assumes width * height < 2^31, so every index fits in an `int`.
- Reads outside the input buffer are undefined in C++. The decomposer is therefore modelled only on calls where none happens (`ReadsSafe`). A read that wraps from one image row into the next is inside the buffer and is modelled as the source performs it.
- Decomposer.ParallelFilter: requires `ReadsSafe`, because with an odd split, or with base regions narrower than `margin` (e.g. 32 x 32 with the 5 x 5 tables), an unclipped base region near the far border reads past the buffer, which the source does not define.
- Kernels.Pixel: requires a window side of at least 1. The driver passes `2 * edge + 1`, so a negative `edge` (undefined behaviour in the source) is not modelled.
- No lemma covers a one-pixel vertical line; the threshold boundary is shown on a 3 x 3 patch.
