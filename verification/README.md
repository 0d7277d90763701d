# ImageProcess in Dafny

A model of `ImageProcess`, a small Java class of computer-vision helpers for
black-and-white (and greyscale) images:

- binary morphology: `erosion` and `dilation`;
- thresholding, both by an intensity range and by a cut intensity;
- the intensity histogram: `rawHistogram` with its `HistData` record, and the
  bar-chart image that `histogram` draws;
- region detection: counting the 4-connected regions of non-white pixels by
  iterative flood fill over an `int[width][height]` mask.

An image is `Images.Image(width, height, rows)`. The pixel at column x and
row y is `rows[y][x]`. It holds the pixel's blue byte (`getRGB(x, y) & 0xff`),
which is what every routine reads. The two colours the routines write are
`setRGB(.., -1)` (white, 255) and `setRGB(.., -16777216)` (black, 0).

Modules, in the order of `ImageProcess.Java`:

- `Images`: the pixel grid, bounds, and single-pixel writes.
- `Morphology`: erosion and dilation as one parameterised scan. The scan is
  an imperative method that does the Java code's in-place writes. It is proved
  equal to a pointwise description of the result.
- `Thresholding`: both thresholding loops, written as functions over the image.
- `Histogram`: `rawHistogram` as a loop, proved against a counting definition,
  and `histogram`'s canvas and bar painting.
- `Masks`: the binary mask, 4-adjacency, paths and connectivity.
- `Regions`: `floodfill` with an explicit stack, and `regionDetection`. The
  result is characterised by connectivity.
- `Scenarios`: small worked images.

Behaviour kept exactly as the code has it:

- Erosion and dilation only touch a neighbour with `nX > 0` and `nY > 0`.
  Row 0 and column 0 are therefore never changed.
- Both passes read their source pixel from the input. They read the target
  pixel from the output that is being written.
- The histogram canvas is `4096 + 50` pixels wide. `256 * 8 + 50` would be
  enough for the bars, but the code uses 4096.
- Bars hang from row `ceil(max / 4) + 25` upward, one row per unit of
  `ceil(hist[v] / 4)`.
- Dilating a lone black pixel in a 3x3 white image blackens only its east
  and south neighbours (`Scenarios.DilateDot`). The corners are not
  4-neighbours of the centre, and the west and north neighbours lie on
  column 0 and row 0.
- Flood fill writes the region number into the mask. The Java code calls it
  `label`, which is a Dafny keyword, so the model calls it `tag`.

## Model

| member | source | states |
|---|---|---|
| Morphology.Eroded | ImageProcess.Java:18-53 | a pixel of the eroded image is white iff it was white, or it was black, lies off row 0 and column 0, and has a white 4-neighbour in the input; every pixel that is not white keeps its input value |
| Morphology.Dilated | ImageProcess.Java:60-95 | a pixel of the dilated image is black iff it was black, or it was white, lies off row 0 and column 0, and has a black 4-neighbour in the input; every pixel that is not black keeps its input value |
| Morphology.Spread | ImageProcess.Java:38-48 | offering the four neighbours of one seed pixel, in the Java code's neighbour order, brings the in-place output from "every pixel before (x, y) handled" to "every pixel up to (x, y) handled" |
| Morphology.Scan | ImageProcess.Java:31-51 | the row-by-row in-place scan over a copy of the input produces exactly the pointwise pass image |
| Morphology.Erosion | ImageProcess.Java:18-53 | `erosion` returns the eroded image |
| Morphology.Dilation | ImageProcess.Java:60-95 | `dilation` returns the dilated image |
| Morphology.ErosionOnlyWhitens | ImageProcess.Java:36-46 | a pixel erosion changes was black, becomes white, and is off row 0 and column 0 |
| Morphology.DilationOnlyBlackens | ImageProcess.Java:78-88 | a pixel dilation changes was white, becomes black, and is off row 0 and column 0 |
| Morphology.Duality | ImageProcess.Java:60-95 | dilating an image equals eroding its photographic negative and negating the result |
| Thresholding.Threshold | ImageProcess.Java:102-121 | the output has the input's size, is purely black and white, and a pixel is black iff min <= its intensity <= max |
| Thresholding.ThresholdAtCut | ImageProcess.Java:147-163 | the output has the input's size, is purely black and white, and a pixel is black iff its intensity is at least the cut |
| Thresholding.CutIsRange | ImageProcess.Java:155 | thresholding at a cut equals range thresholding with the range [cut, 255] |
| Thresholding.EmptyRangeIsWhite | ImageProcess.Java:112-117 | when min > max every output pixel is white |
| Thresholding.BinaryIsFixed | ImageProcess.Java:112-117 | a black-and-white image is returned unchanged by range thresholding with any range that holds 0 but not 255 |
| Thresholding.ThresholdIdempotent | ImageProcess.Java:102-121 | thresholding twice with the same range [min, max] equals thresholding once, whenever min <= 0 <= max < 255 |
| Thresholding.ThresholdFixedAtZero | ImageProcess.Java:102-121 | every thresholded image is unchanged by thresholding it again at [0, 0] |
| Thresholding.CutMonotone | ImageProcess.Java:155 | a pixel black under a higher cut is black under every lower cut |
| Histogram.MaxOf | ImageProcess.Java:224-225 | the reference maximum of the buckets: it is one of them and no bucket exceeds it |
| Histogram.RawHistogram | ImageProcess.Java:206-231 | bucket v counts the pixels of intensity v, the count is width * height and equals the sum of the buckets, and max is the largest bucket (one of them, bounded by the count) |
| Histogram.CeilDiv4 | ImageProcess.Java:178 | the scaled height r is the least number with 4 * r >= n |
| Histogram.Squished | ImageProcess.Java:180-183 | 256 bars, each the least height whose fourfold covers its bucket |
| Histogram.Histogram | ImageProcess.Java:170-202 | the chart is 4096 + 50 wide and ceil(max / 4) + 50 high, and a pixel is black iff it lies in a bar, where bar v spans columns 25 + 8v to 25 + 8v + 7 and its squished height in rows ending at row ceil(max / 4) + 25 |
| Histogram.BarPixels | ImageProcess.Java:193-200 | the pixels the painting loop writes are exactly the bar pixels: (8x + i + 25, top - y + 25) is in a bar iff i < 8 and y < bars[x], and every bar pixel has that form |
| Histogram.BarsFit | ImageProcess.Java:186-197 | every bar pixel lies on the canvas, so no `setRGB` of the painting loop is out of bounds |
| Regions.Binarize | ImageProcess.Java:242-254 | the mask is width x height, indexed [x][y], and holds 0 exactly at white pixels and 1 everywhere else |
| Regions.FloodFill | ImageProcess.Java:272-291 | the result has the mask's shape; a cell 4-connected to (x, y) through 1-cells gets the tag and every other cell keeps its value (nothing is tagged when (x, y) is not a 1-cell) |
| Regions.RegionDetection | ImageProcess.Java:237-270 | the count is the number of 4-connected regions of non-white pixels: tags 2 .. count + 1 are each used, every non-white cell carries one of them, white cells hold 0, and two non-white cells share a tag iff they are connected; the count is at most the number of non-white pixels |
| Regions.AllWhiteHasNoRegion | ImageProcess.Java:258-267 | an all-white image has no regions |
| Regions.OneBlobCountsOne | ImageProcess.Java:258-267 | an image with at least one non-white pixel whose non-white pixels are all 4-connected to each other has exactly one region |
| Masks.ConnectedSymmetric | ImageProcess.Java:283-286 | 4-connectivity is symmetric |
| Masks.ConnectedTransitive | ImageProcess.Java:283-286 | 4-connectivity is transitive |
| Masks.ClosedContains | ImageProcess.Java:280-287 | a set of cells that holds every 1-neighbour of its members holds everything connected to them; this is why the fill reaches the whole region |
| Masks.OnesRelabel | ImageProcess.Java:281-282 | tagging a 1-cell lowers the number of 1-cells, the measure by which the fill terminates |
| Scenarios.ErodeDot | ImageProcess.Java:36-46 | eroding a lone black pixel in a 3x3 white image leaves an all-white image |
| Scenarios.DilateDot | ImageProcess.Java:78-88 | dilating that image blackens only the centre's east and south neighbours |
| Scenarios.ThresholdRow | ImageProcess.Java:112-117 | range [100, 200] on the row (150, 0) gives (black, white) |
| Scenarios.CornersApart | ImageProcess.Java:283-286 | two black pixels that touch only diagonally are not connected |
| Scenarios.CornersCountTwo | ImageProcess.Java:258-267 | the two diagonal pixels count as two regions |
| Scenarios.DotCountsOne | ImageProcess.Java:258-267 | a 3x3 white image with a black centre has exactly one region |

## Left out

- `copyBI` and `BufferedImage`, `ColorModel`, `WritableRaster` and
  `ImageIO` (lines 297-303): an image is an immutable value, so copying is
  assignment.
- The red, green and alpha channels: every routine reads only
  `getRGB & 0xff`. An intensity is that byte.
- Choosing the cut in `thresholding(in, percent)` (lines 129-145): it works in
  `double` arithmetic and floating point is not modelled. The cut is a
  parameter of `Thresholding.ThresholdAtCut` and may be any integer. That
  includes -1, which the scan can choose at bucket 0.
- The `System.out.println` at line 268.
- Java's 32-bit `int`: counts, buckets and tags are unbounded integers. The
  Java code would overflow only for images with more than 2^31 pixels.
- `Histogram.CeilDiv4`: computed on integers, where the Java code goes through
  `Math.ceil` on a `double`. The two agree for every count below 2^53.
- `Regions.RegionDetection`: requires at least one column. A zero-width
  image makes `regionDetection` throw at `binaryMask[0]`.
- `Regions.RegionDetection`: returns the final mask as well as the count.
  The mask is needed to state what the count counts.
- The order in which flood fill visits cells, and the stack's size: the
  stack is modelled (top first, the same push order) but no bound on its
  length is proved.
- The white fill of the histogram canvas (lines 187-191) is `Images.Blank`,
  not a loop. The range thresholding loops are functions over the image,
  not loops.
