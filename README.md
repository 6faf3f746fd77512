# TempRead core: least-squares fit and piecewise linear interpolation

This project models the numerical core of TempRead. That program reads CPU core
temperatures sampled every 30 time units and does two things with them:

- it fits one global least-squares line `c0 + c1 x` per core;
- it joins each pair of consecutive readings with an interpolating line.

The fit is computed by a small dense linear-algebra engine
(`matrix_multiplication.py`) and a Gaussian-elimination driver
(`least_squares.py`). The interpolation lines come from `interpolation.py`.

Modules:

- `Errors`: the Python exceptions the code can raise (`ValueError` from
  `list.index`, `UnboundLocalError` from a variable a loop never bound,
  `ZeroDivisionError`). They are carried in `Result` (a value or the
  exception) and `Outcome` (done, or the exception of an in-place
  operation).
- `MatrixMultiplication`: the builders, `multiply`, `augment_matrices`, the
  pivot search, and `get_phi_hat`'s coefficient selection.
  - Each in-place operation (`swap_row`, `scale_row`, `eliminate`,
    `back_solve`) is a method of the class `Matrix`, whose field `cols` is
    the shared buffer.
  - Each method is proved to leave exactly the value a specification
    function computes from the old buffer.
  - Lemmas state what those functions do entry by entry.
  - Matrices keep the source's column-major layout: `m[col][row]`.
  - Arithmetic is exact `real`.
- `LeastSquares`: `generate_least_squares`.
  - `GenerateLeastSquares` runs the `for row` loop on one `Matrix` buffer.
  - It is proved equal to the value-level `LeastSquaresFit`: the normal
    equations, then the forward loop `Forward`, then back-substitution, then
    coefficient extraction.
- `TwoUnknowns`: the forward loop and back-substitution on the 2-unknown
  systems the program builds. When column 0 has no zero and the determinant
  is non-zero:
  - the fit raises (with `ValueError`) exactly when both right-hand sides are
    negative;
  - otherwise the coefficients it reads out solve the system.
- `DesignFit`: the design the program builds, n samples at times
  0, 30, 60, ….
  - XᵀX and Xᵀy are given in closed form, and det XᵀX = 75 n² (n − 1)(n + 1).
  - For n ≥ 2 the returned coefficients solve XᵀX c = Xᵀy.
  - Readings lying exactly on a line give that line back.
  - A single sample always raises `UnboundLocalError`.
- `Interpolation`: `create_line` and the segment list `linear_interpolation`
  enumerates, without the file. `LinearInterpolation` is its nested loop,
  proved equal to the pure `Segments`, whose layout, order and continuity
  are proved as lemmas.

The model keeps these behaviours of the code as written:

- The pivot is the largest *signed* value of the *augmented* (last) column,
  with a running maximum that starts at 0. Its index is the first
  occurrence in the whole column (`list.index`), so it can lie before the
  start row.
- An all-negative candidate range has no fallback row: `list.index` raises
  `ValueError` unless a 0 occurs somewhere in the column.
- `eliminate` always takes its multiplier from column 0, not from the pivot
  column.
- `scale_row` with no column to scan runs neither loop, never reads
  `scale`, and leaves the matrix unchanged.
- Failures are the Python exceptions the code raises. Shape mismatches
  would surface as `IndexError` and are preconditions here.
- With a single sample, the run fails in `scale_row` with
  `UnboundLocalError` for every reading y0.
  - When y0 ≥ 0 it fails at the second pass, because row 1 of the normal
    equations is all zeros.
  - When y0 < 0 it already fails at the first pass: the pivot search finds
    the 0 of row 1 and swaps the zero row up.

## Model

| member | source | states |
|---|---|---|
| MatrixMultiplication.CreateMatrix | matrix_multiplication.py:20-27 | X has num_cols columns of num_rows entries; column 0 is all 1, every column j ≥ 1 holds i·30 in row i |
| MatrixMultiplication.CreateTranspose | matrix_multiplication.py:38-45 | Xᵀ has num_rows columns of num_cols entries; entry 0 of each is 1, entry j ≥ 1 of column i is i·30 |
| MatrixMultiplication.TransposeAgreement | matrix_multiplication.py:20-45 | the two builders agree: `XT[i][j] == X[j][i]` for all i < num_rows, j < num_cols |
| MatrixMultiplication.Product | matrix_multiplication.py:58-66 | the product has len(rhs) columns of len(lhs[0]) entries, entry [k][i] being Σ_{j<len(lhs)} lhs[j][i]·rhs[k][j] |
| MatrixMultiplication.Multiply | matrix_multiplication.py:58-66 | the triple loop with `+=` accumulation computes exactly that product, for rectangular lhs and rhs columns of at least len(lhs) entries |
| MatrixMultiplication.MultiplyByIdentity | matrix_multiplication.py:58-66 | multiplying by the identity on the left gives the right operand back |
| MatrixMultiplication.AugmentMatrices | matrix_multiplication.py:78 | the augmented matrix is matrix1's columns followed by matrix2's |
| MatrixMultiplication.Max | matrix_multiplication.py:94 | Python's `max` of two values: at least both, equal to one of them, the second only when it is strictly larger |
| MatrixMultiplication.RunningMax | matrix_multiplication.py:92-94 | the running maximum from 0 is ≥ 0, bounds every candidate, and is 0 or one of the candidates |
| MatrixMultiplication.IndexFrom | matrix_multiplication.py:96 | `list.index`: the first position holding the value, or none when it does not occur |
| MatrixMultiplication.LargestRowByCol | matrix_multiplication.py:92-97 | UnboundLocalError exactly when start ≥ num_rows; ValueError exactly when the maximum max(0, candidates) is not in the column; otherwise the first index in the whole column of that maximum, which no candidate exceeds |
| MatrixMultiplication.FindLargestRowByCol | matrix_multiplication.py:92-97 | the two loops return exactly what LargestRowByCol describes |
| MatrixMultiplication.SwapEntries | matrix_multiplication.py:110-112 | one column: entries a and b exchanged through the temporary, every other entry and the length kept |
| MatrixMultiplication.Swapped | matrix_multiplication.py:109-112 | rows a and b are exchanged in every column; every other entry and every column length is unchanged |
| MatrixMultiplication.SwapTwiceRestores | matrix_multiplication.py:109-112 | swapping the same two rows twice restores the matrix |
| MatrixMultiplication.SwapSameRowIsNoOp | matrix_multiplication.py:109-112 | swapping a row with itself changes nothing |
| MatrixMultiplication.Matrix.SwapRow | matrix_multiplication.py:109-112 | the buffer becomes Swapped of the old buffer |
| MatrixMultiplication.FirstNonZero | matrix_multiplication.py:125-128 | the first column < num_columns whose entry in the row is non-zero, or none when all are zero |
| MatrixMultiplication.DivideEntry | matrix_multiplication.py:131 | one entry becomes its quotient by the scale; the rest of the column is unchanged |
| MatrixMultiplication.Scaled | matrix_multiplication.py:130-131 | the row's entries in columns < num_columns become quotients by the scale; every other entry is unchanged |
| MatrixMultiplication.ScaledRow | matrix_multiplication.py:125-131 | raises UnboundLocalError exactly when num_columns > 0 and the row is zero in all num_columns columns; with num_columns = 0 the matrix is returned unchanged |
| MatrixMultiplication.ScaledRowEffect | matrix_multiplication.py:125-131 | with no column nothing changes; otherwise after a successful scale the lead entry is 1, earlier entries of the row stay 0, each scaled entry times the lead gives the old entry, and other rows and columns are untouched |
| MatrixMultiplication.Matrix.ScaleRow | matrix_multiplication.py:125-131 | on success (including num_columns = 0) the buffer becomes ScaledRow of the old one; on an all-zero row with num_columns > 0 it raises UnboundLocalError with the buffer unchanged |
| MatrixMultiplication.SubtractMultiple | matrix_multiplication.py:152-153 | one column: entry row becomes col[row] − value·col[src], every other entry and the length kept (also the two updates of matrix_multiplication.py:170-171) |
| MatrixMultiplication.EliminateRow | matrix_multiplication.py:150-154 | eliminating one row keeps every column length and the preconditions for the next row |
| MatrixMultiplication.EliminateRowEntries | matrix_multiplication.py:150-154 | in that row, column 0 becomes exactly 0, each column c < num_cols becomes old − old[0]·m[c][src], and every other entry is unchanged |
| MatrixMultiplication.EliminateFrom | matrix_multiplication.py:149-154 | the loop from a given row keeps every column length |
| MatrixMultiplication.EliminateFromEntries | matrix_multiplication.py:149-154 | the loop from a given row rewrites exactly the rows from there on, each as EliminateRowEntries says, from the source row's untouched values |
| MatrixMultiplication.Eliminated | matrix_multiplication.py:146-154 | rows ≤ src are unchanged; every row r > src has m[0][r] = 0 and m[c][r] − m[0][r]·m[c][src] in columns 1 ≤ c < num_cols; columns ≥ num_cols are unchanged |
| MatrixMultiplication.Matrix.Eliminate | matrix_multiplication.py:146-154 | the buffer becomes Eliminated of the old one |
| MatrixMultiplication.Matrix.EliminateOneRow | matrix_multiplication.py:150-154 | the buffer becomes EliminateRow of the old one |
| MatrixMultiplication.BackStep | matrix_multiplication.py:168-171 | one step changes only m[i][j] (to m[i][j] − s·m[i][i]) and m[aug][j] (to m[aug][j] − s·m[aug][i]) |
| MatrixMultiplication.BackSolveColumn | matrix_multiplication.py:167-171 | the inner loop for column i over rows j−1 down to 0 keeps the shape and the preconditions of back_solve |
| MatrixMultiplication.BackSolveFrom | matrix_multiplication.py:166-171 | the outer loop from column i down to 1 keeps the shape and the preconditions of back_solve |
| MatrixMultiplication.BackSolved | matrix_multiplication.py:163-171 | back_solve on the whole matrix keeps every column's length |
| MatrixMultiplication.BackSolveColumnEffect | matrix_multiplication.py:167-171 | with m[i][i] = 1 the inner loop zeroes column i above the diagonal, subtracts m[i][k]·m[aug][i] from each m[aug][k] above it, and changes nothing else |
| MatrixMultiplication.BackSolveFromCoefficients | matrix_multiplication.py:166-171 | with unit diagonals in columns 1..i, the outer loop zeroes every m[c][k] with k < c ≤ i and keeps every other coefficient entry |
| MatrixMultiplication.BackSolveFromAugmented | matrix_multiplication.py:166-171 | the outer loop keeps the augmented entries from row i down and leaves x with b[k] = x[k] + Σ_{k<c≤i} m[c][k]·x[c] |
| MatrixMultiplication.BackSolveClearsAbove | matrix_multiplication.py:163-171 | when m[i][i] = 1 for 1 ≤ i ≤ last, back_solve zeroes every m[i][j] with j < i ≤ last and keeps column 0, the diagonals and the other coefficient entries |
| MatrixMultiplication.BackSolveSolvesUnitUpper | matrix_multiplication.py:163-171 | on a unit upper-triangular coefficient block, the augmented column x it leaves solves M·x = b for the original M and b |
| MatrixMultiplication.Matrix.BackSolve | matrix_multiplication.py:163-171 | the buffer becomes BackSolved of the old one |
| MatrixMultiplication.Matrix.ClearAbove | matrix_multiplication.py:167-171 | the buffer becomes BackSolveColumn of the old one for column i |
| MatrixMultiplication.GetPhiHat | matrix_multiplication.py:184-199 | c0 and c1 come from rows 0 and 1 of the last column; a missing row gives 0; no rows or more than 3 gives (0, 0) |
| MatrixMultiplication.Matrix.constructor | least_squares.py:21 | the buffer holds the augmented matrix |
| MatrixMultiplication.Matrix.SetEntry | least_squares.py:34 | the forced diagonal write changes exactly that entry |
| LeastSquares.Pivot | least_squares.py:29-32 | on the last row nothing happens; otherwise it raises exactly when the search on the augmented column does, else it swaps the found row up, keeping the shape |
| LeastSquares.ScaleAndEliminate | least_squares.py:33-36 | raises exactly when scale_row does; otherwise the diagonal entry is exactly 1 and the shape is kept |
| LeastSquares.ForwardStep | least_squares.py:29-36 | one pass keeps the shape and leaves result[row][row] = 1 |
| LeastSquares.Forward | least_squares.py:28-36 | the loop over the remaining rows keeps the shape; the first exception ends it |
| LeastSquares.NormalEquations | least_squares.py:19-21 | the augmented matrix is XᵀX's columns followed by Xᵀy's |
| LeastSquares.LeastSquaresFit | least_squares.py:9-43 | the fit raises exactly when the forward loop does |
| LeastSquares.GenerateLeastSquares | least_squares.py:9-43 | the driver on one buffer returns exactly LeastSquaresFit |
| LeastSquares.ForwardElimination | least_squares.py:28-36 | the `for row` loop leaves Forward of the starting buffer, or stops with its exception |
| LeastSquares.ForwardPass | least_squares.py:29-36 | one iteration leaves ForwardStep of the old buffer, or stops with its exception, and the rest of the loop then ends as the loop from the old buffer |
| LeastSquares.PivotPass | least_squares.py:29-32 | the buffer becomes Pivot of the old one, or the search's exception is returned |
| LeastSquares.ScaleAndEliminatePass | least_squares.py:33-36 | the buffer becomes ScaleAndEliminate of the old one, or scale_row's exception is returned |
| TwoUnknowns.DotOfTwo | matrix_multiplication.py:63-66 | a row of a two-column product is the sum of its two terms |
| TwoUnknowns.SolvesIsProduct | matrix_multiplication.py:58-66 | (c0, c1) solves the augmented system exactly when the coefficient columns times [c0, c1] give the right-hand side |
| TwoUnknowns.NegativeRightHandSidesRaise | least_squares.py:28-32 | with both right-hand sides negative, the forward loop raises ValueError |
| TwoUnknowns.PivotFound | least_squares.py:30-31 | otherwise the pivot search finds row 0 or 1 |
| TwoUnknowns.SwapKeepsSolutions | least_squares.py:32 | the swap keeps a 2-unknown system, puts m[0][index] in the lead, flips at most the determinant's sign, and the swapped system has exactly the solutions of the original |
| TwoUnknowns.FirstRowScaled | least_squares.py:33 | scale_row on row 0 with a non-zero lead divides row 0 by it and leaves row 1 |
| TwoUnknowns.FirstRowEliminated | least_squares.py:36 | eliminate below row 0 reduces row 1 by its column-0 entry times row 0 and zeroes that entry |
| TwoUnknowns.FirstPass | least_squares.py:33-36 | the first pass gives the quotients and reduced entries of the textbook elimination step |
| TwoUnknowns.SecondPass | least_squares.py:28-36 | the pass on the last row divides row 1 by its pivot and leaves row 0 |
| TwoUnknowns.BackSolveTwo | least_squares.py:39-42 | after back_solve, c1 is the augmented entry of row 1 and c0 that of row 0 less m[1][0]·c1 |
| TwoUnknowns.EliminationAlgebra | least_squares.py:28-42 | the pivot after the first pass is non-zero exactly when the determinant is, and then the back-solved pair solves the system |
| TwoUnknowns.EliminationSolves | least_squares.py:33-42 | both passes succeed and the extracted coefficients solve the system |
| TwoUnknowns.FitOnSystem | least_squares.py:28-42 | the fit raises (ValueError) exactly when both right-hand sides are negative; otherwise c0, c1 solve the system |
| DesignFit.DesignEntries | matrix_multiplication.py:20-45 | for 2 columns, X holds (1, 30 j) in row j and Xᵀ the same in column j |
| DesignFit.GramPartialSums | least_squares.py:19 | the partial sums of XᵀX are the sample count, Σ 30 j and Σ (30 j)² |
| DesignFit.NormalEquationsAsSums | least_squares.py:19-21 | the normal equations can be formed for n ≥ 1 samples and hold the full dot products |
| DesignFit.DesignNormalEquations | least_squares.py:19-21 | XᵀX is [n, Σ 30 j; Σ 30 j, Σ (30 j)²] and the last column is Xᵀy |
| DesignFit.DesignDeterminant | least_squares.py:19 | det XᵀX = 75 n²(n − 1)(n + 1), positive for n ≥ 2 |
| DesignFit.FitSolvesNormalEquations | least_squares.py:9-43 | for n ≥ 2 the fit raises (ValueError) exactly when both entries of Xᵀy are negative; otherwise XᵀX·c = Xᵀy |
| DesignFit.LinePartialSums | least_squares.py:20 | readings on y = c0 + c1 t make each partial sum of Xᵀy the (c0, c1) combination of XᵀX's |
| DesignFit.LineSolvesNormalEquations | least_squares.py:19-21 | readings on y = c0 + c1 t make (c0, c1) a solution of the normal equations |
| DesignFit.PerfectLineRecovered | least_squares.py:9-43 | for n ≥ 2 readings on y = c0 + c1 t, a fit that returns gives exactly (c0, c1) |
| DesignFit.SingleSampleFails | least_squares.py:28-34 | with one sample the fit raises UnboundLocalError, whatever the reading |
| DesignFit.SingleSampleForward | least_squares.py:28-34 | the forward loop on the one-sample normal equations raises UnboundLocalError in scale_row |
| Interpolation.CreateLine | interpolation.py:42-43 | ZeroDivisionError exactly when x1 == x0; otherwise the line passes through (x0, y0) and (x1, y1) |
| Interpolation.CreateLineIsUnique | interpolation.py:42-43 | any line through both points is the one create_line returns, so slope = (y1 − y0)/(x1 − x0) and intercept = y0 − slope·x0 |
| Interpolation.CreateLineExample | interpolation.py:42-43 | (0, 5) and (30, 35) give intercept 5 and slope 1 |
| Interpolation.SegmentAt | interpolation.py:21-22 | segment k spans [30 k, 30 (k + 1)), carries index k, and its line takes readings k and k + 1 at its ends |
| Interpolation.RowSegments | interpolation.py:21-22 | a core whose first n readings are used gives n − 1 segments (none for n = 0), segment k being SegmentAt k |
| Interpolation.HeaderOf | interpolation.py:17 | the header interval is [0, (n − 1)·30), ending at the last sample time |
| Interpolation.SegmentsUpTo | interpolation.py:20-22 | the segments of the first i cores, n − 1 per core: i·(n − 1) of them |
| Interpolation.Segments | interpolation.py:20-22 | the whole list has len(data)·(n − 1) segments, n being the first core's reading count |
| Interpolation.SegmentsUpToLayout | interpolation.py:20-22 | within the first i cores, core c's segment k is at position c·(n − 1) + k |
| Interpolation.SegmentsLayout | interpolation.py:20-22 | the whole list has len(data)·(n − 1) segments, core c's segment k at position c·(n − 1) + k |
| Interpolation.SingleReadingHasNoSegments | interpolation.py:21 | one reading per core gives no segments |
| Interpolation.RowSegmentsOrderedAndContinuous | interpolation.py:21-22 | within a core the segments come in increasing order, and adjacent ones meet at the shared reading |
| Interpolation.SegmentSlope | interpolation.py:22 | each slope is (data[k + 1] − data[k]) / 30 |
| Interpolation.LinearInterpolation | interpolation.py:17-26 | the nested loop produces exactly HeaderOf and Segments |

## Left out

- `print_matrix` (matrix_multiplication.py:205-219): console output only.
- Text rendering of the formulas (`"{:>12.4f} + {:>8.4f}x"`, matrix_multiplication.py:201 and interpolation.py:45) and of the output lines (interpolation.py:17-18, 23-25). The model keeps the numbers, bounds and indices the strings are made from.
- `file.write` and `file.close` in `linear_interpolation` (interpolation.py:19, 26-27): file I/O. `LinearInterpolation` returns the header and segments instead.
- `core_temperatures.py`, which handles arguments, reads the input through `parse_raw_temps` and names the output files. It is not part of this model, and `parse_temps` is not part of this model either. Its only bearing here is that it builds the 2-column design, which `DesignFit` takes as given.
- Floating-point rounding: arithmetic is exact `real`. Facts such as "the scaled lead entry is 1" and the solving theorems hold only in exact arithmetic.
- List aliasing: `matrix1 + matrix2` shares inner lists with xtx and xty, which are never used again, so value semantics are faithful.
- The unused `c_2` of `get_phi_hat` (matrix_multiplication.py:189, 193, 197): it never reaches the result, so `PhiHat` holds only c0 and c1.
- `IndexError` paths are preconditions, since the code checks no shapes: non-rectangular operands of `multiply`, rows or columns out of range in the pivot search, swap, scale and eliminate, and `data[0]` of an empty data set.
- Interpolation.Readable: requires every core to have at least as many readings as the first, which `linear_interpolation` would otherwise answer with an `IndexError`.
- Solver correctness for more than 2 unknowns: `eliminate` takes its multiplier from column 0 and `create_matrix` makes columns ≥ 1 identical, so no general claim holds. The general-n results are the per-operation contracts and BackSolveSolvesUnitUpper.
- DesignFit.PerfectLineRecovered: states the recovered line only when the fit returns, because the code raises ValueError whenever both entries of Xᵀy are negative, even for readings exactly on a line.
- TwoUnknowns.FitOnSystem: requires both column-0 entries to be non-zero. The design systems meet this (XᵀX[0] = (n, 15 n (n − 1)) with n ≥ 2); other systems are not covered.
