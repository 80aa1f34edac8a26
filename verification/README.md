# CFAR detector: a Dafny model

This project models the core of a two-dimensional CFAR (constant false-alarm rate) detector over
a row-major matrix of `X * Y` samples. `CfarDetector::validateParams` checks the parameter record:
- matrix size `X`, `Y`;
- an odd big (reference) window `Xb * Yb`;
- an odd small window `Xs * Ys` strictly inside the big one;
- the false-alarm probability `err`.

`CfarDetector::run` then computes the threshold `Th = (1/err)^(1/sq) - 1`, where `sq = Xb*Yb - Xs*Ys`. Here `sq` counts the cells of the big window that are not in the small one; the model calls that region the guard annulus and `sq` the guard area. It visits every interior cell, meaning the centres at which the big window fits, in row-major order. At each cell it adds up both windows by direct double loops. It reports the cell with its sample `V` when `(Sb - Ss) * Th < V`.

Modules:
- `Grid` (grid.dfy): matrix geometry. Cells are counted row by row, and a cell's flat index is the number of cells in the rows above it plus its column. The module also defines rectangular boxes and windows.
- `CfarParams` (params.dfy): the `Params` record, the validator, the interior range, and the two windows around a centre.
- `WindowSums` (window_sums.dfy): row, box and annulus sums. It also holds the double-loop summation method and its facts about uniform matrices with one peak.
- `Scan` (scan.dfy): the `Detection` record and the row-major traversal, generic over the decision rule and the sample reader. It proves that the traversal reports exactly the accepted cells, in order.
- `Detector` (detector.dfy): the decision rule, the threshold, and what the detector returns (`Detections`). It also holds the detector's loops as methods (`Decide`, `ScanCell`, `ScanOneRow`, `ScanInterior`, `ComputeThreshold`, `Run`), each proved equal to the matching part of that function.
- `DetectorProperties` (properties.dfy): what the detector reports on particular inputs:
  - cells near the border;
  - a uniform matrix, including the all-zero one;
  - a uniform matrix with one peak, the case the test-data generator builds.

Samples and sums are exact reals. The power function is a parameter `pow` of the scan, because the model cannot see `std::pow`.

## Model

| member | source | states |
|---|---|---|
| CfarParams.ValidateParams | src/cfardetector.cpp:5-24 | Parameters are accepted exactly when X and Y exceed 40, all four window sizes are positive and odd, the small window is strictly smaller than the big one in each direction, the big window is strictly smaller than the matrix, the guard area Xb*Yb - Xs*Ys is positive, and err is positive. |
| CfarParams.GuardAreaIsProduct | src/cfardetector.cpp:17 | The guard area counted cell by cell is Xb*Yb - Xs*Ys. |
| CfarParams.GuardAreaCheckRedundant | src/cfardetector.cpp:13-18 | Once the sizes are positive and the small window is strictly inside the big one, the guard area is positive, so the sq <= 0 rejection can never trigger. |
| CfarParams.DefaultParams | src/cfardetector.h:16-24 | A default-constructed record is rejected by the validator, because its X is not above 40, while its err is already positive. |
| CfarParams.Odd | src/cfardetector.cpp:10 | The validator's oddness test: the remainder of the size divided by 2 is not zero. |
| CfarParams.OddAsInCpp | src/cfardetector.cpp:10-11 | The oddness test gives the same answer under C++'s truncating `%`, and on positive sizes it means a remainder of one. |
| CfarParams.RadiusIsHalf | src/cfardetector.cpp:42-45 | The window radius, counted two cells at a time, is the size divided by two; an odd size is the radius on each side of the centre plus the centre itself. |
| CfarParams.RadiiOfValid | src/cfardetector.cpp:42-45 | For valid parameters each of the four radii is Xb/2, Yb/2, Xs/2 or Ys/2, and the window spans exactly its size: two radii plus the centre. |
| CfarParams.InteriorNonEmpty | src/cfardetector.cpp:42-51 | With valid parameters, the interior range [Xb/2, X-Xb/2-1] x [Yb/2, Y-Yb/2-1] is non-empty, so the scan visits at least one cell. |
| CfarParams.WindowsFit | src/cfardetector.cpp:48-51 | At an interior centre both windows lie inside the matrix, and the centre's flat index is in range. |
| CfarParams.WindowsInMatrix | src/cfardetector.cpp:55-73 | At an interior centre every read the loops make is in bounds. The small window lies inside the big one, and the windows have exactly Xb*Yb and Xs*Ys cells. |
| Grid.CellsIsProduct | src/cfardetector.cpp:33-34 | Counting w cells per row for h rows gives w*h, the sample count the detector expects. |
| Grid.IdxIsRowMajor | src/cfardetector.cpp:59-61 | The flat index of cell (x, y) is y*w + x, the address the window loops read. |
| Grid.CellIndexInBounds | src/cfardetector.cpp:59-61 | The flat index of a matrix cell lies in [0, X*Y). |
| Grid.IdxInjective | src/cfardetector.cpp:73 | Two matrix cells with the same flat index are the same cell, so a sample belongs to exactly one cell. |
| WindowSums.SumWindow | src/cfardetector.cpp:57-63 | The double loop over a window, with rows top to bottom and each row left to right reading sample yy*X + xx, returns the window's sum. |
| WindowSums.AnnulusIsDifference | src/cfardetector.cpp:57-74 | The big-window sum minus the small-window sum equals the sum over the big window's cells that are not in the small window. |
| WindowSums.RepeatIsProduct | src/cfardetector.cpp:57-71 | Arithmetic helper: n copies of c sum to c * n, the value the window loops add up over equal samples. |
| WindowSums.BoxSumUniformWithPeak | src/generate_cfar_test_data.cpp:45-51 | On a matrix equal to c everywhere except one cell raised by a, a window sums to c per cell, plus a when it covers that cell. |
| WindowSums.SampleUniformWithPeak | src/generate_cfar_test_data.cpp:50 | On such a matrix the sample at (x, y) is c + a at the peak cell and c elsewhere. |
| Scan.ScanRowSound | src/cfardetector.cpp:56-80 | A row's scan reports only cells of that row, in the columns scanned, that the rule accepts, each with its own sample. |
| Scan.ScanRowComplete | src/cfardetector.cpp:56-80 | A row's scan reports every accepted cell of the columns scanned. |
| Scan.ScanRowSorted | src/cfardetector.cpp:56-80 | A row's scan is ordered left to right. |
| Scan.ScanRowsSound | src/cfardetector.cpp:55-81 | The scan of the rows reports only accepted cells of the rectangle of centres, each with its own sample. |
| Scan.ScanRowsComplete | src/cfardetector.cpp:55-81 | The scan of the rows reports every accepted cell of the rectangle of centres. |
| Scan.ScanRowsSorted | src/cfardetector.cpp:55-81 | The scan of the rows is in row-major order. |
| Detector.Sample | src/cfardetector.cpp:73 | The sample V of an interior cell is the matrix entry at its flat index. |
| Detector.SampleIsRowMajorRead | src/cfardetector.cpp:73 | That flat index is y*X + x and lies inside the data, so V is the entry at row-major address y*X + x. |
| Detector.Background | src/cfardetector.cpp:57-74 | The background of an interior cell is the big-window sum Sb minus the small-window sum Ss around it. |
| Detector.Exceeds | src/cfardetector.cpp:77 | The comparison: background times threshold is strictly below the sample. |
| Detector.Fires | src/cfardetector.cpp:73-77 | The decision rule at an interior cell: (Sb - Ss) * Th < V, with V the cell's sample. |
| Detector.Threshold | src/cfardetector.cpp:39-40 | Th = pow(1/err, 1/sq) - 1, with sq the number of cells in the big window and not in the small one. |
| Detector.BackgroundIsGuardSum | src/cfardetector.cpp:57-74 | The background (Sb - Ss) at an interior cell is the sum over its guard annulus. |
| Detector.Detections | src/cfardetector.cpp:26-84 | Invalid parameters, or a sample count other than X*Y (the wrong-size file of src/generate_cfar_test_data.cpp:103-108), give no detections. Otherwise a cell is reported if and only if it is interior and (Sb - Ss) * Th < V, with its own sample. Results are in row-major order, with no cell twice. |
| Detector.Decide | src/cfardetector.cpp:57-77 | One visit of the loop body returns the cell's sample and answers exactly the decision rule at that cell. |
| Detector.ScanCell | src/cfardetector.cpp:56-79 | One pass of the column loop extends the row's detections by exactly that cell's detection, if the rule fires. |
| Detector.ScanOneRow | src/cfardetector.cpp:56-80 | The column loop produces exactly the row's detections, in order. |
| Detector.ScanInterior | src/cfardetector.cpp:55-81 | The row loop produces exactly the scan of every interior row. |
| Detector.ComputeThreshold | src/cfardetector.cpp:39-40 | The threshold computed from sq = Xb*Yb - Xs*Ys is pow(1/err, 1/sq) - 1 over the guard area. |
| Detector.Run | src/cfardetector.cpp:26-84 | The detector's code returns exactly the detections the scan function specifies. Its result is therefore determined by its inputs. |
| DetectorProperties.NearEdgeNeverReported | src/cfardetector.cpp:47-51 | No cell closer to the border than the big window's radius is ever reported, whatever the samples. |
| DetectorProperties.CornersNeverReported | src/generate_cfar_test_data.cpp:63-77 | The corners (0, 0) and (X-1, Y-1) are never reported. The generator's near-edge peak (3, 3) is never reported once the big window is at least 9 cells wide. |
| DetectorProperties.UniformBackground | src/cfardetector.cpp:57-74 | On a uniform matrix of value c, every interior background is c * sq, and every sample is c. |
| DetectorProperties.UniformArith | src/cfardetector.cpp:77 | With sample c and background c * g, the rule fires exactly when c > 0 and g*Th < 1, or when c < 0 and g*Th > 1. |
| DetectorProperties.UniformRule | src/cfardetector.cpp:77 | The same sign rule holds with g = sq. |
| DetectorProperties.RuleOnUniformCell | src/cfardetector.cpp:77 | At a cell whose background is c * sq and whose sample is c, the rule fires exactly under the sign rule for sq*Th. |
| DetectorProperties.UniformCellDecision | src/cfardetector.cpp:55-79 | On a uniform matrix, the rule gives one answer at every interior cell: the sign rule for sq*Th. |
| DetectorProperties.UniformCellReported | src/cfardetector.cpp:55-79 | On a uniform matrix where the sign rule holds, every interior cell is reported with value c. |
| DetectorProperties.UniformNothingReported | src/cfardetector.cpp:55-79 | On a uniform matrix where the sign rule fails, nothing is reported. |
| DetectorProperties.UniformMatrixAllOrNothing | src/cfardetector.cpp:55-79 | A uniform matrix yields no detection if and only if the sign rule fails. When the rule holds, every interior cell is reported. |
| DetectorProperties.AllZeroNoDetections | src/generate_cfar_test_data.cpp:86-91 | An all-zero matrix yields no detections, whatever the parameters and the power function. |
| DetectorProperties.RepeatGuard | src/cfardetector.cpp:57-74 | Arithmetic helper for the background sum: adding c once per cell of the big-minus-small annulus gives c * sq. |
| DetectorProperties.PeakBackground | src/generate_cfar_test_data.cpp:79-84 | On a uniform matrix with one peak, the background at an interior cell is c * sq, plus the peak's excess when the peak lies in the guard annulus. The sample is c + a at the peak and c elsewhere. |
| DetectorProperties.PeakArith | src/cfardetector.cpp:77 | Suppose the uniform rule does not fire (c*k >= c), yet the excess clears it (c*k < c + a), where a >= 0 and Th >= 0. Then the rule fires exactly at the peak cell, whether or not the peak sits in a cell's guard annulus. |
| DetectorProperties.PeakRule | src/cfardetector.cpp:77 | The same holds with k = sq*Th. |
| DetectorProperties.RuleOnPeakCell | src/cfardetector.cpp:77 | The same holds at a detector cell whose background and sample have that shape. |
| DetectorProperties.PeakCellDecision | src/cfardetector.cpp:55-79 | On a uniform matrix with one peak that stands out, the rule fires at an interior cell if and only if it is the peak cell. |
| DetectorProperties.PeakReported | src/generate_cfar_test_data.cpp:79-84 | An interior peak that stands out is reported with value c + a. |
| DetectorProperties.OnlyPeakReported | src/generate_cfar_test_data.cpp:79-84 | Every detection on such a matrix is the peak's detection. |
| DetectorProperties.OnlyElement | src/cfardetector.cpp:78 | A row-major-sorted result whose every element equals e, and which contains e, is exactly [e]. |
| DetectorProperties.SinglePeakReportedAlone | src/generate_cfar_test_data.cpp:79-84 | On a uniform matrix with one interior peak that stands out, the result is exactly the single peak detection (peak x, peak y, c + a). |

## Left out

- Floating point: samples are `float`, and the sums, background and threshold are `double`. The model uses exact reals, so rounding, summation-order effects, NaN and infinity are not modelled. The NaN/Inf input of src/generate_cfar_test_data.cpp:93-101 is therefore outside the model.
- `std::pow`: the threshold's power function is the parameter `pow`. Nothing is assumed about it, so properties that depend on Th's value take Th (or sq*Th) as a hypothesis.
- CfarParams.ValidateParams: the `int` products of `sq` (src/cfardetector.cpp:17 and :39) overflow once Xb*Yb exceeds 2^31-1, for example Xb = Yb = 46341 with X = Y = 46343, Xs = Ys = 1. Signed overflow is undefined behaviour in C++. With the usual wrap-around, `sq` turns negative and the code rejects such a record, while the model, on unbounded integers, accepts it. Because X*Y > Xb*Yb, `run`'s result can differ only on inputs of more than 2^31 samples. The `size_t` index arithmetic is modelled on unbounded integers too.
- `idx`: the flat-index helper's definition is not part of this model. It is modelled as `y * X + x`, the same layout the window loops read (`yy * X + xx`). The model counts it row by row, and `Grid.IdxIsRowMajor` proves the count equal to the product.
- The window-sum algorithm: the detector sums each window by direct double loops (src/cfardetector.cpp:57-71), and the model follows those loops.
- `out.reserve(1024)`: capacity only, with no effect on the result.
- The `Detection` constructor: it is the datatype constructor, which stores its three arguments.
- The `noexcept`, `static` and `const` qualifiers have no counterpart in a pure model.
- The Qt user interface (src/mainwindow.cpp) and its file reading are not part of this model. That file sets `err` to 0.01.
- The test-data generator's noise source and file output are not part of this model. Its inputs appear only as the uniform, one-peak and all-zero matrices the properties speak about.
- DetectorProperties.CornersNeverReported: the generator's noisy matrices are not modelled. The statement therefore covers the border cells at every input, but the inside peak (10, 10) of src/generate_cfar_test_data.cpp:71-77 only through the one-peak lemmas.
- DetectorProperties.PeakReported: states the uniform-background case only. Whether a peak is detected on noise depends on the noise values.
