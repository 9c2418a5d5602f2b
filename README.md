# Roberts-cross edge detection: a verified model

This project models the core of the Opticks "Robert Edge Detection" plug-in, which is
implemented in `Edge/Robert.cpp`. The plug-in reads one band of a raster cube and computes,
for every pixel, a gradient magnitude from the 2x2 block whose top-left corner is that pixel.
The pixel's right, lower and lower-right neighbours are clamped to the raster edge. The
result is a new raster element with the same shape and encoding as the input.

The model has six modules:

- `IntMath` (`int_math.dfy`) defines the integer floor square root. It stands in for the
  double-precision `sqrt` followed by truncation to an integer sample type.
- `Encodings` (`encodings.dfy`) holds the host's encoding tags. It says which tags are
  complex and gives the value range of each integer tag.
- `Raster` (`raster.dfy`) holds a band as a value (`Grid`), the raster element, and the two
  data-accessor cursors. The read cursor seeks to a pixel. The write cursor steps one column
  or one row at a time. A cursor is valid when its position is inside the raster and the
  host can reach the storage there. That availability is an input to the model.
- `EdgeFilter` (`edge_filter.dfy`) holds the pixel routine `edgeDetection<T>`. Its
  arithmetic is modelled as pure functions: the clamped indices, the window of four samples
  and the magnitude. A method, `EdgeDetection`, seeks the read cursor four times and stores
  one cell.
- `Progress` (`progress.dfy`) holds the progress reports and the per-row percentage.
- `Robert` (`robert.dfy`) holds `Robert::execute`. `Execute` does the input checks and
  allocates the result. `ScanRows` is the row loop, with progress, abort and cursor checks.
  `FilterRow` is the column loop. `Execute` then hands off the result. The interleaving of
  outcomes is pinned down by `FirstBlockedRow`, and the visiting order by `RowMajor`.

Three behaviours of the code that a reader might not expect are modelled as written:

- When a source seek leaves the accessor invalid, `VERIFYNRV` returns from the pixel routine
  without writing. The column loop goes on with the next column and the run is not aborted.
- Missing argument lists make `execute` return false without any progress report.
- `prevRow` and `prevCol` are computed and never used. `EdgeDetection` computes them the
  same way, and `EdgeDependsOnlyOnBlock` shows that they play no part in the result.

## Model

| member | source | states |
|---|---|---|
| `IntMath.ISqrt` | Edge/Robert.cpp:61-63 | the result r is the integer square root of n, rounded down: r*r <= n < (r+1)*(r+1) |
| `IntMath.ISqrtUnique` | Edge/Robert.cpp:61-63 | that floor root is the only r with r*r <= n < (r+1)*(r+1), so each magnitude has exactly one stored value |
| `EdgeFilter.PrevIndex` | Edge/Robert.cpp:36-37 | the clamped previous index is max(i-1, 0): it is never negative, equals i-1 for i > 0, and is at most i |
| `EdgeFilter.NextIndex` | Edge/Robert.cpp:38-39 | for 0 <= i < size, min(i+1, size-1) lies in [i, size), equals i exactly on the last index, and equals i+1 on every other index |
| `EdgeFilter.Seeks` | Edge/Robert.cpp:42-54 | the four positions sought are right, down, lower-right and mid, in that order: mid is (row, col), right shares its row, down shares its column, lower-right takes down's row and right's column, and for an in-range pixel each lies in the raster and in the 2x2 block at (row, col) |
| `EdgeFilter.SeeksValid` | Edge/Robert.cpp:43-55 | for an in-range pixel, the four `VERIFYNRV` checks all pass exactly when the read cursor is valid after each seek: every position sought lies inside the raster and the host can reach it, the test `SourceAccessor.IsValid` makes |
| `EdgeFilter.WindowAt` | Edge/Robert.cpp:42-56 | the window always has mid = g[r][c]; for an interior pixel it is (g[r][c+1], g[r+1][c], g[r+1][c+1], g[r][c]); on the last row down = mid, lowerRight = right, and right = g[r][c+1] except in the corner; on the last column right = mid, lowerRight = down, and down = g[r+1][c] except in the corner |
| `EdgeFilter.SquaredMagnitude` | Edge/Robert.cpp:59-61 | gx*gx + gy*gy is never negative, so the root is defined |
| `EdgeFilter.Magnitude` | Edge/Robert.cpp:59-63 | the stored magnitude m satisfies m*m <= (mid-lowerRight)^2 + (right-down)^2 < (m+1)^2, which is the truncated square root |
| `EdgeFilter.Edge` | Edge/Robert.cpp:59-63 | the value stored for pixel (r,c) is the floor square root of (g[r][c] - g[nextRow][nextCol])^2 + (g[r][nextCol] - g[nextRow][c])^2, over the clamped neighbours |
| `EdgeFilter.EdgeDependsOnlyOnBlock` | Edge/Robert.cpp:36-61 | two rasters that agree on (r,c), (r,nextCol), (nextRow,c) and (nextRow,nextCol) give the same value at (r,c); the previous row and column play no part |
| `EdgeFilter.LastRowSquaredMagnitude` | Edge/Robert.cpp:39-61 | on the last row the squared magnitude is 2*(mid - right)^2 |
| `EdgeFilter.LastColumnSquaredMagnitude` | Edge/Robert.cpp:38-61 | on the last column the squared magnitude is 2*(mid - down)^2 |
| `EdgeFilter.CornerIsZero` | Edge/Robert.cpp:38-63 | the bottom-right pixel always gets 0 |
| `EdgeFilter.TwoByTwoScenario` | Edge/Robert.cpp:33-64 | the 2x2 raster [[10,20],[30,40]] filters to [[31,28],[14,0]] |
| `EdgeFilter.EdgeDetection` | Edge/Robert.cpp:33-64 | if all four seeks leave the read cursor valid, the target cell receives the edge value of the window; otherwise the cell keeps its old value; no other cell changes |
| `Raster.DestAccessor.NextColumn` | Edge/Robert.cpp:185 | the write cursor moves one column right within its row |
| `Raster.SourceAccessor.ToPixel` | Edge/Robert.cpp:42-54 | the read cursor moves to the pixel sought; its validity is then decided by the new position |
| `Raster.SourceAccessor.Column` | Edge/Robert.cpp:44-56 | the sample read is the one under the read cursor, and it may only be read while the cursor is valid |
| `Raster.DestAccessor.IsValid` | Edge/Robert.cpp:171 | a valid write cursor points at a cell inside the result, so the pixel routine's store through it is in bounds |
| `Raster.DestAccessor.NextRow` | Edge/Robert.cpp:188 | the write cursor moves to the first column of the next row |
| `Encodings.EncodingType.IsComplex` | Edge/Robert.cpp:125 | the refused encodings are exactly INT4SCOMPLEX and FLT8COMPLEX, and neither is an integer encoding |
| `Progress.ProgressPercent` | Edge/Robert.cpp:159 | the percentage p reported for a row is floor(row*100/rowCount): p*rowCount <= row*100 < (p+1)*rowCount, and it lies in 0..99 |
| `Progress.ProgressNonDecreasing` | Edge/Robert.cpp:155-159 | a later row never reports a smaller percentage |
| `Progress.RowReports` | Edge/Robert.cpp:157-159 | the first k rows produce exactly k "Calculating result" reports |
| `Progress.RowReportsShape` | Edge/Robert.cpp:155-159 | the reports of the first k rows are one normal "Calculating result" report per row, in row order, each below 100 and non-decreasing |
| `Progress.ProgressPercentAsWritten` | Edge/Robert.cpp:155-159 | the percentage as written, with the product wrapped modulo 2^32, agrees with the exact one whenever row*100 < 2^32 |
| `Progress.ProgressAsWrittenDecreases` | Edge/Robert.cpp:159 | with 42949674 rows, the percentage as written drops from 99 to 0 between the last two rows |
| `Robert.RowBlocked` | Edge/Robert.cpp:161-171 | the scan stops at row r when the abort flag polled there is set, or the write cursor at the row's first column is invalid |
| `Robert.RowBlockedAtCursor` | Edge/Robert.cpp:161-171 | with the write cursor at (r, 0), RowBlocked holds exactly when the abort flag is set or the cursor is invalid, the two checks the row loop makes |
| `Robert.StopReport` | Edge/Robert.cpp:161-180 | a stopped scan ends with a report at 0 % that is never normal: of abort severity exactly when abort was requested, of error severity otherwise |
| `Robert.FirstBlockedRow` | Edge/Robert.cpp:161-180 | the row where the scan stops is the first row whose abort flag is set or whose write cursor is invalid; if there is none, it is the row count |
| `Robert.RowMajorLength` | Edge/Robert.cpp:155-189 | visiting k full rows makes k*cols pixel calls |
| `Robert.RowMajorCells` | Edge/Robert.cpp:155-189 | a cell is visited in the first k rows exactly when its row is below k and its column below the column count |
| `Robert.RowMajorOrdered` | Edge/Robert.cpp:155-189 | each visit comes strictly after the previous one in row-major order, so no cell is visited twice |
| `Robert.FilterRow` | Edge/Robert.cpp:181-186 | provided the edge values of this row fit the sample type, the column loop visits (row,0) to (row,cols-1) in order, writes each cell through the write cursor, leaves the cursor past the last column and changes no other row |
| `Robert.ScanRows` | Edge/Robert.cpp:155-189 | provided the edge values of the rows before the stopping row fit the sample type, for each row in order, the row loop reports progress, then polls abort, then checks the write cursor; it stops at FirstBlockedRow with Aborted or AccessFailed, after that row's progress report; every cell of an earlier row holds its edge value, and every cell from the stopping row on is still unwritten |
| `Robert.Execute` | Edge/Robert.cpp:104-222 | the edge values must fit the sample type only when the result raster is created, and only in the rows before the stopping row; the checks run in order: argument lists, then cube present, then complex encoding, then result created; argument lists missing hand back no result and log nothing; each failure after that check hands back no result and logs its message at 0 %; a result raster is requested exactly when the argument lists and the cube are present and the encoding is not complex; on success the result is a fresh raster named cube name + "_Edge_Detection_Result" with the input's shape and encoding, every cell in range, the final report is 100 %, and the input is unchanged |

## Findings

| source | as written | input that shows it | evidently intended | confidence | as-written member | corrected member |
|---|---|---|---|---|---|---|
| Edge/Robert.cpp:159 | `row * 100` is computed in 32-bit unsigned arithmetic, so it wraps modulo 2^32 before the division | a raster of 42949674 rows: row 42949672 reports 99 and row 42949673 reports 0 | the exact floor(row*100/rowCount), which never decreases | not executed; the wrap is certain, but it needs a raster of more than 42,949,673 rows | `Progress.ProgressAsWrittenDecreases` | `Progress.ProgressNonDecreasing` |

The rest of the model uses the exact percentage, `Progress.ProgressPercent`.

## Left out

- Plug-in registration, the descriptor metadata set in the constructor, and the argument-list specifications (lines 29, 67-102) are host glue.
- Window and view creation in interactive mode, and its failure path (lines 191-212), are user interface. The model behaves as in batch mode.
- `StepResource` and the message-log finalisation are left out. Progress is modelled only as the appended list of (message, percent, severity) reports.
- `DataAccessor` and `DataRequest` internals are not part of this model. Cursor validity comes from a given availability: a function of the pixel for the source, and a flag per row for the result.
- `switchOnEncoding` is not modelled as a dispatch. Samples are integers, and the encoding only bounds their range.
- Robert.Execute: the floating-point encodings (4- and 8-byte floats) are not modelled. The method requires a non-complex encoding to be an integer one.
- EdgeFilter.Magnitude: the double-precision `sqrt` is modelled as the exact integer floor root. For 8- and 16-bit samples the two agree. Only 32-bit samples reach larger sums. From about 2^52, `sqrt` itself rounds, and truncating the rounded root can give one more than the floor root. For example, mid = 72000000, lowerRight = 0, right = 12000 and down = 0 give 72000001^2 - 1, which `sqrt` rounds to 72000001.0, while the model stores 72000000. Above 2^53 the products and their sum are rounded as well. None of this is modelled.
- Robert.ScanRows: the progress reports use the exact percentage, not the 32-bit wrapped one at line 159. For rasters of more than 42,949,673 rows the reported percentages differ from the plug-in's (see Findings); `Robert.Execute` inherits this.
- EdgeFilter.EdgeDetection: converting an out-of-range double to an integer type is undefined in C++. The model instead requires the magnitude to fit the sample type for the pixels the scan reaches. `Robert.CastDefined` states this for the rows before the stopping row, and `Robert.Execute` requires it only when the result raster is created.
- Robert.Execute: the model takes the hand-off of the result at line 219 to succeed. The output argument is declared as "Result" at line 100, but line 219 sets "Robert_Edge_Result", so the host may not find the raster under the declared name. Argument lists are host glue and are not modelled.
- The initial content of a newly created raster element is not known here. The model allocates it filled with 0, which is what a cell holds when its source seeks fail.
- The abort flag is set from another thread. The model takes it as one input flag per row, which is the value `isAborted()` returns when that row polls it.
- The `VERIFY(pDesc != NULL)` at line 124 is not modelled: a raster element always has its descriptor here.
- The pixel routine's `int` parameters are not bounded. Row and column counts above 2^31-1 are not modelled.
- Only one band is modelled, the band the accessors read.
- `DataAccessor::nextRow()` is taken to return to the first column, which is how the scan uses it.
