# Matrices of the `math` package, modelled in Dafny

The `math` package of hezila works with three kinds of matrix behind one
read-only interface (`MatrixRO`: rows, columns, `Get`, `Arrays`, `Array`,
conversions):

- `DenseMatrix` keeps its cells in a flat row-major slice. A `step` separates
  the starts of consecutive rows, so a window (`GetMatrix`) shares the slice
  of the matrix it was cut from.
- `SparseMatrix` keeps a map from a cell's row-major key to its value. `Set`
  deletes the key of a cell set to 0.
- `PivotMatrix` is a permutation matrix stored as one pivot per column,
  together with the sign of the permutation.

The package also has an LU factorisation with partial pivoting
(`LUInPlace`), a MATLAB-style parser (`ParseMatlab`), a pretty-printer
(`String`), numbered error values and small numeric helpers.

In the model:

- Go's `float64` is `real` and `uint` is `nat`.
- `log.Fatal` and index panics are preconditions.
- A matrix's contents are the value `Matrix.Grid(rows, cols, cells)`. Each
  operation is proved against a specification function on grids: `Filled`,
  `Identity`, `Transposed`, `Block`, `Augmented`, `Stacked`, `Overlay`,
  `OneHot` and the others.
- `DenseMatrix` is a class over an `array<real>` with `step` and a `base`
  offset, so a window shares its parent's array.
- `SparseMatrix` is a class with a `map<nat, real>` field.
- `PivotMatrix` is a class over an `array<nat>` of pivots.
- Methods that mutate state carry `modifies` clauses and state the new
  `View()` of the matrix.

Modules follow the source files:

| module (file) | source file |
|---|---|
| `Matrix` (matrix.dfy) | `math/matrix.go` accessors, and the grid value with its specification functions |
| `Errors` (errors.dfy) | `math/error.go` |
| `Util` (util.dfy) | `math/util.go` |
| `Arithmetic` (arithmetic.dfy) | `math/arithmetic.go` |
| `Dense` (dense.dfy) | `math/dense.go` |
| `DenseBasic` (dense_basic.dfy) | `math/dense_basic.go` |
| `DenseData` (dense_data.dfy) | `math/dense_data.go` |
| `DenseDecomp` (dense_decomp.dfy) | `math/dense_decomp.go` |
| `Sparse` (sparse.dfy) | `math/sparse.go`, plus `DenseMatrix.SparseMatrix` from `math/dense.go` (the two classes would otherwise import each other) |
| `Pivot` (pivot.dfy) | `math/pivot.go` |
| `PivotBasic` (pivot_basic.dfy) | `math/pivot_basic.go` |
| `Parse` (parse.dfy) | `ParseMatlab` in `math/matrix.go` |
| `Format` (format.dfy) | `String` in `math/matrix.go` |
| `RowMajor`, `Wrappers` | index arithmetic and `Option`/`Result` helpers |

Several source lines do not compile as written; the model follows the evident intent:

- `GetRowColIndex`, `GetRowIndex` and `GetColIndex` declare a new `err` inside their guard, and the guard tests `i` before it is set.
- In the sparse `Get`, `Exist`, `Set` and `SubMatrix`, `index`, `v` and `err` are undeclared, or a map lookup's `ok` is treated as an error.
- In sparse `Set`, a brace is missing.
- In sparse `SetValue`, the out-of-range branch declares a new `err` that is never used, which Go rejects; the intent modelled is that the branch returns `ErrorIllegalIndex`.
- `PivotMatrix.Transpose` builds a `[]int` where `[]uint` is expected.
- The sparse `ColVector` and `RowVector` (sparse.go:224, 228) return both results of `SubMatrix` from a function with one result.
- At sparse.go:241, 246, 262, 267, 277, 288 and 365, `i, j := X.GetRowColIndex(index)` takes its three results into two variables.
- In sparse `Exist` (sparse.go:128, 135, 140), `err = log.Fatal(...)` assigns the result of a function that returns nothing.
- `PivotMatrix.Trace` (pivot_basic.go:43) compares the `uint` counter with the `int` `len(P.pivots)`.

The intent modelled is:

- an index outside the matrix is an `ErrorIllegalIndex`;
- a missing key is `ErrorNilElement`;
- the sparse `Set` writes the key `i*step + j + offset`;
- the pivots of a transpose are natural numbers;
- `ColVector` and `RowVector` return the copy together with `SubMatrix`'s error;
- `GetRowColIndex`'s error is dropped where only the row and column are used;
- `log.Fatal` in `Exist` ends the program, so an index inside the matrix is a precondition of `Exist`;
- `Trace` counts the fixed points below `len(P.pivots)`.

Comparisons of `uint` values with 0 (`i < 0`) are always false in Go, so those branches are dead and are not modelled.

## Model

| member | source | states |
|---|---|---|
| Matrix.Accessors | math/matrix.go:71-83 | `NumElements` is rows times cols; `Dimension` is the pair (`Rows`, `Cols`); `Nil` holds exactly for the absent matrix |
| Matrix.TransposeTwice | math/dense_basic.go:124-132 | transposing a matrix twice gives it back |
| Matrix.AugmentedBlocks | math/dense.go:162-171 | the left block of `[M A]` is M and the right block is A |
| Matrix.StackedBlocks | math/dense.go:173-182 | the top block of `[M; A]` is M and the bottom block is A |
| Matrix.AugmentByOverlay | math/dense.go:194-203 | writing M at (0, 0) and then A at column `M.cols` of a matrix the size of `[M A]` gives exactly `[M A]` |
| Matrix.StackByOverlay | math/dense.go:184-192 | writing M at (0, 0) and then A at row `M.rows` of a matrix the size of `[M; A]` gives exactly `[M; A]` |
| Errors.Error | math/error.go:24-40 | codes 0 to 5 give their six fixed messages in declaration order; any other code gives "Unknown error code " followed by the code in decimal |
| Errors.String | math/error.go:42-44 | the same text as `Error`, and the code can be read back from it |
| Errors.ErrorRoundTrip | math/error.go:24-40 | reading the code back from any message, the unknown-code message included, gives the original code |
| Errors.ErrorInjective | math/error.go:24-40 | two error values with the same message are the same value |
| Errors.DecimalRoundTrip | math/error.go:39 | the `%d` rendering of any integer, negative ones included, parses back to that integer |
| Errors.NatDecimalRoundTrip | math/error.go:39 | the decimal digits of any natural number parse back to that number |
| Util.Max | math/util.go:11-16 | the result is one of the two arguments and is at least both |
| Util.MaxInt | math/util.go:18-23 | the result is one of the two arguments and is at least both |
| Util.MaxUInt | math/util.go:25-30 | the result is one of the two arguments and is at least both |
| Util.Min | math/util.go:32-37 | the result is one of the two arguments and is at most both |
| Util.MinInt | math/util.go:39-44 | the result is one of the two arguments and is at most both |
| Util.MinUInt | math/util.go:46-51 | the result is one of the two arguments and is at most both |
| Util.Sum | math/util.go:53-58 | the loop's result is the left-to-right sum of the slice (0 when empty) |
| Util.Product | math/util.go:60-66 | the loop's result is the left-to-right product of the slice (1 when empty) |
| Util.ProductZero | math/util.go:60-66 | a slice holding a 0 has product 0 |
| Util.SumOfOnes | math/util.go:53-58 | a slice of n ones sums to n |
| Util.Fibonacci.Next | math/util.go:3-9 | the n-th call (from 0) returns the n-th Fibonacci number, starting 0, 1, 1 |
| Util.FirstSix | math/util.go:3-9 | the first six calls of the generator give 0, 1, 1, 2, 3, 5 |
| Arithmetic.Equals | math/arithmetic.go:8-21 | differing dimensions give false; otherwise the result is true exactly when every cell agrees |
| Arithmetic.SameEntriesIsEquality | math/arithmetic.go:8-21 | cell-by-cell agreement with equal dimensions is equality of the matrices |
| Arithmetic.EqualsReflexive | math/arithmetic.go:8-21 | every matrix equals itself |
| Arithmetic.EqualsSymmetric | math/arithmetic.go:8-21 | `Equals(A, B)` and `Equals(B, A)` agree |
| Arithmetic.TransposeTwiceEquals | math/dense_basic.go:124-132 | `Equals` reports a matrix equal to its double transpose |
| Dense.DenseMatrix.Set | math/dense.go:89-95 | the cell reads back the new value, no other cell of the matrix changes, and no other position of the shared storage changes |
| Dense.DenseMatrix.RowSlice | math/dense.go:78-80 | the slice is exactly row `row` of the matrix |
| Dense.DenseMatrix.Arrays | math/dense.go:55-62 | one slice per row, each holding that row's cells |
| Dense.DenseMatrix.Array | math/dense.go:64-76 | (corrected) the cells flattened in row-major order, for a window as for a whole matrix |
| Dense.DenseMatrix.SubMatrix | math/dense.go:97-116 | a fresh compact matrix holding exactly the block at (i, j) of size rows by cols |
| Dense.DenseMatrix.ColVector | math/dense.go:141-143 | a fresh rows by 1 copy of column j |
| Dense.DenseMatrix.RowVector | math/dense.go:145-147 | a fresh 1 by cols copy of row i |
| Dense.DenseMatrix.GetReadsStorage | math/dense.go:82-87 | cell (i, j) is the storage entry at `base + i*step + j`, which lies inside the storage; an index outside the matrix is fatal in the source, so it is a precondition |
| Dense.DenseMatrix.GetMatrix | math/dense.go:118-129 | a window sharing the parent's storage and stride whose cell (p, q) is the parent's cell (i+p, j+q) |
| Dense.WindowAgrees | math/dense.go:118-129 | a window's cell (p, q) occupies the same storage slot as the parent's cell (i+p, j+q) |
| Dense.WriteThroughWindow | math/dense.go:118-120 | a write to cell (p, q) of the window at (i, j) shows up at (i+p, j+q) of the original matrix; every other cell of the original and every other storage position is unchanged |
| Dense.WriteToSubMatrix | math/dense.go:97-116 | a write to a `SubMatrix` copy leaves the original unchanged |
| Dense.DenseMatrix.SetMatrix | math/dense.go:131-139 | the result is the old matrix with A written over the block at (i, j); every other cell is unchanged, and so is every storage position outside the matrix's cells |
| Dense.DenseMatrix.Copy | math/dense.go:149-160 | (corrected) a fresh compact matrix with the same cells |
| Dense.DenseMatrix.DenseMatrix | math/dense.go:222-224 | a fresh matrix with the same cells |
| Dense.DenseMatrix.AugmentFill | math/dense.go:194-203 | (corrected) succeeds exactly when M, A and B have equal rows and B has `M.cols + A.cols` columns, and B then becomes `[M A]`; otherwise `ErrorDimensionMismatch` and B is untouched |
| Dense.DenseMatrix.StackFill | math/dense.go:184-192 | succeeds exactly when M, A and B have equal columns and B has `M.rows + A.rows` rows, and B then becomes `[M; A]`; otherwise `ErrorDimensionMismatch` and B is untouched |
| Dense.DenseMatrix.Augment | math/dense.go:162-171 | (corrected, via `AugmentFill`) differing row counts give `ErrorDimensionMismatch` and no matrix; otherwise a fresh `[M A]` |
| Dense.DenseMatrix.Stack | math/dense.go:173-182 | differing column counts give `ErrorDimensionMismatch` and no matrix; otherwise a fresh `[M; A]` |
| Dense.Zeros | math/dense.go:228-235 | a fresh rows by cols matrix of zeros |
| Dense.NewDenseMatrix | math/dense.go:19-31 | a fresh rows by cols matrix of zeros |
| Dense.Ones | math/dense.go:237-247 | a fresh rows by cols matrix of ones |
| Dense.Eye | math/dense.go:249-256 | the fresh size by size identity |
| Dense.Diagonal | math/dense.go:269-277 | the fresh square matrix with d on the diagonal and 0 elsewhere |
| Dense.MakeDenseMatrix | math/dense.go:33-40 | wraps the given storage without copying; cell (i, j) is element `i*cols + j` |
| Dense.MakeDenseMatrixStacked | math/dense.go:42-53 | one row per input slice, with as many columns as the first slice |
| Dense.MakeDenseCopy | math/dense.go:279-288 | a fresh dense matrix with the same cells as the given matrix |
| Dense.AugmentFillAsWritten | math/dense.go:194-203 | (as written) fails exactly when the rows differ or B's width differs from `M.rows + A.rows`, and places A at column `A.cols` |
| Dense.AugmentFillAsWrittenMisplaces | math/dense.go:194-203 | for a 2 by 3 M and a 2 by 1 A, the guard passes but the result is not `[M A]` |
| Dense.AugmentFillAsWrittenRejects | math/dense.go:194-203 | for a 1 by 1 M, a 1 by 2 A and a 1 by 3 B, which fit together, the guard reports a mismatch |
| Dense.ArrayAsWritten | math/dense.go:64-76 | (as written) when the stride differs from the row count, the result is the row-major flattening |
| Dense.ArrayAsWrittenWrongWindow | math/dense.go:64-76 | a 3 by 2 window with stride 3 takes the fast path and returns the wrong cells |
| Dense.CopyAsWrittenFitsIff | math/dense.go:149-160 | (as written) keeping the stride fits the new storage exactly when there is at most one row or the stride equals the column count |
| Dense.CopyAsWrittenPanics | math/dense.go:149-160 | a 2 by 1 window with stride 2 cannot be copied |
| DenseBasic.Symmetric | math/dense_basic.go:8-20 | true exactly when the matrix is square and every cell (i, j) equals cell (j, i) |
| DenseBasic.SymmetricIffTransposeFixed | math/dense_basic.go:8-20 | a matrix is symmetric exactly when it equals its transpose |
| DenseBasic.SwapRows | math/dense_basic.go:22-33 | rows r1 and r2 are exchanged; storage outside the two rows is untouched |
| DenseBasic.RowsSwappedTwice | math/dense_basic.go:22-33 | exchanging the same two rows twice restores the matrix |
| DenseBasic.ScaleRow | math/dense_basic.go:35-42 | row r is multiplied by f; storage outside it is untouched |
| DenseBasic.RowScaledInverse | math/dense_basic.go:35-42 | (exact arithmetic only) scaling a row by f and then by 1/f restores it when f is not 0 |
| DenseBasic.RowScaledByOne | math/dense_basic.go:35-42 | scaling a row by 1 leaves the matrix unchanged, which rounding does not disturb |
| DenseBasic.ScaleAddRow | math/dense_basic.go:44-53 | row rd gains f times row rs; storage outside row rd is untouched |
| DenseBasic.RowAddedInverse | math/dense_basic.go:44-53 | (exact arithmetic only) adding f times row rs and then -f times row rs restores row rd when the rows differ |
| DenseBasic.RowAddedZero | math/dense_basic.go:44-53 | adding 0 times any row leaves the matrix unchanged, which rounding does not disturb on finite cells |
| DenseBasic.Inverse | math/dense_basic.go:55-85 | a non-square matrix gives `ErrorDimensionMismatch`; a square one gives `ExceptionSingular` or an n by n window on the right half of the n by 2n augmented matrix |
| DenseBasic.Transpose | math/dense_basic.go:124-132 | a fresh matrix that is the transpose |
| DenseBasic.TransposeInPlace | math/dense_basic.go:134-147 | a non-square matrix gives the "Can only transpose a square matrix in place" error and keeps its storage; a square one becomes its transpose, and storage outside its cells is unchanged |
| DenseBasic.TransposeInPlaceTwice | math/dense_basic.go:134-147 | transposing a square matrix in place twice restores it |
| DenseData.RowCopy | math/dense_data.go:4-11 | a copy of row i |
| DenseData.ColCopy | math/dense_data.go:14-21 | a copy of column j |
| DenseData.DiagonalCopy | math/dense_data.go:24-35 | the `min(rows, cols)` diagonal cells in order |
| DenseData.BufferRow | math/dense_data.go:37-42 | the buffer's first cols entries become row i; the rest of the buffer is unchanged |
| DenseData.BufferCol | math/dense_data.go:44-49 | the buffer's first rows entries become column j; the rest of the buffer is unchanged |
| DenseData.BufferDiagonal | math/dense_data.go:51-56 | the buffer's first `min(rows, cols)` entries become the diagonal; the rest of the buffer is unchanged |
| DenseData.FillRow | math/dense_data.go:58-63 | row i becomes the buffer's first cols entries; every other row is unchanged, and so is storage outside the matrix's cells |
| DenseData.FillCol | math/dense_data.go:65-70 | column j becomes the buffer's first rows entries; every other column is unchanged, and so is storage outside the matrix's cells |
| DenseData.FillDiagonal | math/dense_data.go:72-77 | each diagonal cell (p, p) becomes `buf[p]`; every off-diagonal cell is unchanged, and so is storage outside the matrix's cells |
| DenseData.FillThenBufferRow | math/dense_data.go:37-63 | filling a row from a buffer and reading it back returns the buffer |
| DenseData.BufferThenFillRow | math/dense_data.go:37-63 | reading a row into a buffer and filling it back leaves the matrix unchanged |
| DenseDecomp.UpdateEntry | math/dense_decomp.go:24-35 | cell (i, j) and `LUcolj[i]` both become the old entry minus the dot product of row i's first `min(i, j)` entries with those of `LUcolj`; nothing else changes |
| DenseDecomp.ComputeColumn | math/dense_decomp.go:22-36 | column j is left in both A and `LUcolj`, each entry being its old value minus the dot product of its row's stored multipliers with the column's updated entries above it (`ColumnDone`); A becomes its old value with column j replaced by `LUcolj`, so other columns are unchanged |
| DenseDecomp.NewColumn | math/dense_decomp.go:22-36 | the new column has one entry per row |
| DenseDecomp.ColumnDoneDetermines | math/dense_decomp.go:22-36 | any column satisfying the recurrence equals `NewColumn`, the column the recurrence defines |
| DenseDecomp.NewColumnDone | math/dense_decomp.go:22-36 | `NewColumn` satisfies the recurrence, so the two characterisations agree |
| DenseDecomp.PivotUpTo | math/dense_decomp.go:38-43 | the pivot row after scanning up to row i is j or a row between j and i |
| DenseDecomp.PivotSearch | math/dense_decomp.go:38-43 | the pivot row is j or a later row, its entry has the largest magnitude at or below row j, it is the first such row, and it is the row `PivotUpTo` gives |
| DenseDecomp.ExchangeRows | math/dense_decomp.go:44-50 | rows p and j of A are exchanged, and so are entries p and j of the pivot array, which stays a permutation |
| DenseDecomp.PivotRow | math/dense_decomp.go:38-50 | the pivot row is the one `PivotUpTo` picks from `LUcolj`; the rows of A are exchanged exactly when the pivots are; no entry below the new diagonal entry is larger in magnitude |
| DenseDecomp.ScaleBelowPivot | math/dense_decomp.go:52-56 | each entry below a nonzero pivot is divided by the pivot and ends at most 1 in magnitude; A becomes `ScaledBelow` of its old value, so nothing else changes |
| DenseDecomp.WithColumnCells | math/dense_decomp.go:33-35 | replacing column j changes column j to the new entries and keeps every other cell |
| DenseDecomp.ScaledBelowCells | math/dense_decomp.go:52-56 | the division below the pivot changes only the entries of column j below row j, each to itself over the pivot |
| DenseDecomp.StepGridCells | math/dense_decomp.go:21-57 | after column step j, cell (r, q) is read from the row r is exchanged with: outside column j the old cell, in column j the recurrence's new entry, divided by the pivot below the diagonal when the pivot is nonzero |
| DenseDecomp.StepsUpToNext | math/dense_decomp.go:21-57 | the matrix after k+1 steps is step k applied to the matrix after k steps |
| DenseDecomp.Step | math/dense_decomp.go:21-57 | one column step leaves A equal to `StepGrid` of its old value (the new column, the exchange with the `PivotUpTo` row, the division below a nonzero pivot) and returns that pivot row; it keeps the pivots a permutation, exchanges pivot entries exactly when it exchanges rows, and bounds the multipliers in columns up to j |
| DenseDecomp.FactorStep | math/dense_decomp.go:21-57 | if A holds what steps 0..j-1 leave of the original matrix, it then holds what steps 0..j leave, with the multipliers bounded, and the pivot row returned is `StepPivot` of step j |
| DenseDecomp.StepPivot | math/dense_decomp.go:38-43 | the pivot row step j picks is j, or a later row when there is one |
| DenseDecomp.Exchanges | math/dense_decomp.go:44-50 | the exchanges steps 0..k-1 make are at most k pairs of distinct rows inside the matrix |
| DenseDecomp.RecordStep | math/dense_decomp.go:44-50 | appending the exchange of rows p and j (when they differ) and negating the sign keeps the pivots equal to the identity with the exchanges applied and the sign equal to their parity |
| DenseDecomp.LUInPlace | math/dense_decomp.go:9-62 | A ends as `StepsUpTo` of its old value over all cols columns, so every cell of the packed L\U is determined; the recorded exchanges are exactly those the steps make on A (`Exchanges`), and the pivots are the identity with them applied in turn, so they form a permutation; the sign is (-1) raised to the number of exchanges; there are at most cols exchanges; every stored multiplier is at most 1 in magnitude |
| DenseDecomp.ParityFlip | math/dense_decomp.go:49 | negating the sign once per exchange tracks the parity of the exchanges |
| Sparse.SparseMatrix.GetRowColIndex | math/sparse.go:71-78 | the (row, column) decoded from an index re-encodes to that index; an index past `rows*cols` is `ErrorIllegalIndex` |
| Sparse.SparseMatrix.GetRowIndex | math/sparse.go:80-86 | the row part and the error of `GetRowColIndex` |
| Sparse.SparseMatrix.GetColIndex | math/sparse.go:88-94 | the column part and the error of `GetRowColIndex` |
| Sparse.SparseMatrix.DecodeKey | math/sparse.go:71-78 | decoding a cell's key gives the cell back, without an error when the cell is inside the matrix |
| Sparse.SparseMatrix.KeyDecodesInside | math/sparse.go:71-78 | every stored key decodes without error to a cell inside the matrix |
| Sparse.SparseMatrix.Exist | math/sparse.go:123-145 | the stored value when the cell's key is present; otherwise `ErrorNilElement`, and the cell reads 0 |
| Sparse.SparseMatrix.Get | math/sparse.go:97-121 | the value stored under the key `i*step + j + offset`, or 0 when that key is absent; an index outside the matrix is fatal in the source, so it is a precondition |
| Sparse.SparseMatrix.GetValue | math/sparse.go:147-151 | the value under a key when present; otherwise `ErrorNilElement` |
| Sparse.SparseMatrix.Set | math/sparse.go:153-176 | 0 deletes the cell's key and any other value stores it; the cell reads back the value, other cells are unchanged, and no key maps to 0 |
| Sparse.SetThenClear | math/sparse.go:153-176 | setting a value and then 0 leaves no key behind, and `Exist` then reports `ErrorNilElement` |
| Sparse.SparseMatrix.SetValue | math/sparse.go:178-187 | 0 deletes the key; a value at an index inside the matrix is stored; a value outside gives `ErrorIllegalIndex` and the map is unchanged |
| Sparse.Canonical | math/sparse.go:153-176 | two sparse matrices without zero values and with the same cells have the same map |
| Sparse.SparseMatrix.SubMatrix | math/sparse.go:204-221 | (corrected, via `ZerosSparse`) empty or out-of-range blocks report `ErrorIllegalIndex`; the copy holds the stored values whose shifted keys exist, and in range it is exactly the block |
| Sparse.SparseMatrix.ColVector | math/sparse.go:223-225 | (corrected, via `SubMatrix` and `ZerosSparse`) `ErrorIllegalIndex` exactly when there are no rows or j is outside the matrix; cell (p, 0) reads whatever is stored under the key of (p, j), which is column j when j is inside |
| Sparse.SparseMatrix.RowVector | math/sparse.go:227-229 | (corrected, via `SubMatrix` and `ZerosSparse`) `ErrorIllegalIndex` exactly when there are no columns or i is outside the matrix; cell (0, q) reads whatever is stored under the key of (i, q), which is row i when i is inside |
| Sparse.SparseMatrix.Augment | math/sparse.go:231-251 | (corrected, via `ZerosSparse`) differing row counts give `ErrorDimensionMismatch`; otherwise a fresh `[A B]` |
| Sparse.SparseMatrix.Stack | math/sparse.go:253-272 | (corrected, via `ZerosSparse`) differing column counts give `ErrorDimensionMismatch`; otherwise a fresh `[A; B]` |
| Sparse.SparseMatrix.L | math/sparse.go:274-283 | (corrected, via `ZerosSparse`) the cells on and below the diagonal, and 0 above it |
| Sparse.SparseMatrix.U | math/sparse.go:285-294 | (corrected, via `ZerosSparse`) the cells on and above the diagonal, and 0 below it |
| Sparse.UpperIsMirroredLower | math/sparse.go:274-294 | the upper part is the transpose of the lower part of the transpose |
| Sparse.TrianglesCover | math/sparse.go:274-294 | the lower and upper parts add up to the matrix plus its diagonal |
| Sparse.SparseMatrix.Copy | math/sparse.go:296-302 | (corrected, via `ZerosSparse`) a fresh matrix with the same dimensions and the same map |
| Sparse.SparseMatrix.SparseMatrix | math/sparse.go:371-373 | (corrected, via `Copy` and `ZerosSparse`) a fresh matrix with the same map and cells |
| Sparse.SparseMatrix.DenseMatrix | math/sparse.go:359-369 | a fresh dense matrix with the same cells |
| Sparse.SparseMatrix.Array | math/sparse.go:63-69 | the row-major flattening of the cells |
| Sparse.SparseMatrix.Arrays | math/sparse.go:48-61 | (corrected) the rows of the matrix |
| Sparse.SparseMatrix.ArraysAsWritten | math/sparse.go:48-61 | (as written) every cell of the result is 0 |
| Sparse.ArraysAsWrittenLosesValues | math/sparse.go:48-61 | the 1 by 1 matrix holding 5 comes out of `Arrays` as written as [[0]], but as intended as [[5]] |
| Sparse.NewSparseMatrix | math/sparse.go:26-35 | a fresh matrix with an empty map, reading as all zeros |
| Sparse.MakeSparseMatrix | math/sparse.go:37-46 | wraps the given map with the given dimensions |
| Sparse.ZerosSparse | math/sparse.go:304-316 | (corrected) a fresh all-zero matrix storing no key |
| Sparse.ZerosSparseElementsAsWritten | math/sparse.go:304-316 | (as written) the map has every key below `rows*cols`, each holding 0 |
| Sparse.ZerosSparseAsWrittenStoresZeros | math/sparse.go:304-316 | whenever the matrix has a cell, the map as written stores a 0 |
| Sparse.OnesSparseElementsAsWritten | math/sparse.go:318-328 | (as written) the map has exactly the keys below `cols*cols` |
| Sparse.OnesSparseAsWrittenMissesCell | math/sparse.go:318-328 | with two rows and one column, cell (1, 0) has no key and reads 0 |
| Sparse.OnesSparse | math/sparse.go:318-328 | (corrected) a fresh rows by cols matrix of ones |
| Sparse.EyeSparse | math/sparse.go:330-337 | (corrected, via `ZerosSparse`) the fresh size by size identity |
| Sparse.Diagonal | math/sparse.go:350-357 | (corrected, via `ZerosSparse`) the fresh square matrix with d on the diagonal |
| Sparse.MakeSparseCopy | math/sparse.go:375-384 | (corrected, via `ZerosSparse`) a fresh sparse matrix with the cells of the given matrix and no stored 0 |
| Sparse.SparseOfDense | math/dense.go:205-220 | (corrected, via `ZerosSparse`) a fresh sparse matrix with the dense matrix's cells and no stored 0 |
| Sparse.DenseSparseRoundTrip | math/dense.go:205-220 | converting dense to sparse and back gives the same cells |
| Pivot.IdentityIsPermutation | math/dense_decomp.go:14-18 | the starting pivots 0, 1, ..., n-1 are a permutation |
| Pivot.SwappedPermutation | math/pivot_basic.go:8-16 | exchanging two pivots keeps a permutation |
| Pivot.InverseOfInverts | math/pivot_basic.go:30-37 | for a permutation, the transposed pivots undo the pivots on both sides |
| Pivot.InverseIsPermutation | math/pivot_basic.go:30-37 | the transposed pivots of a permutation are a permutation |
| Pivot.InverseTwice | math/pivot_basic.go:30-37 | transposing the pivots twice gives them back |
| Pivot.OneHotRows | math/pivot.go:3-11 | a permutation matrix has exactly one 1 in each row |
| Pivot.OneHotTransposed | math/pivot_basic.go:28-37 | the matrix of the transposed pivots is the transpose of the matrix |
| Pivot.PivotMatrix.constructor | math/pivot.go:67-75 | rows and cols are the number of pivots, and the pivots and sign are as given |
| Pivot.PivotMatrix.Get | math/pivot.go:23-36 | indices are taken modulo the dimensions; the cell is 1 exactly when the column's pivot is the row, and 0 otherwise |
| Pivot.PivotMatrix.GetIsOneHot | math/pivot.go:23-36 | inside the matrix, `Get` reads the permutation matrix of the pivots |
| Pivot.PivotMatrix.DenseMatrix | math/pivot.go:38-48 | a fresh dense matrix with a 1 at (pivot of j, j) for each column j and 0 elsewhere |
| Pivot.PivotMatrix.SparseMatrix | math/pivot.go:50-60 | (corrected, via `ZerosSparse`) a fresh sparse matrix with a 1 at (pivot of j, j) for each column j and no other key |
| Pivot.PivotMatrix.Copy | math/pivot.go:62-65 | a fresh pivot matrix that shares the same pivot array and has the same sign |
| Pivot.MakePivotMatrix | math/pivot.go:67-75 | wraps the pivots without copying; the dimensions are the pivot count |
| PivotBasic.SwapRows | math/pivot_basic.go:8-16 | pivots r1 and r2 are exchanged, the sign is negated, and no error is returned |
| PivotBasic.SwapRowsKeepsPermutation | math/pivot_basic.go:8-16 | a swap keeps the pivots a permutation and the sign plus or minus 1 |
| PivotBasic.SwapRowsExchangesColumns | math/pivot_basic.go:8-16 | exchanging pivots r1 and r2 exchanges columns r1 and r2 of the permutation matrix |
| PivotBasic.SwapOnCopy | math/pivot_basic.go:8-16 | a swap on a copy also exchanges the original's pivots, which share the array, while the original's sign is unchanged |
| PivotBasic.Symmetric | math/pivot_basic.go:18-26 | true exactly when applying the pivots twice gives the identity |
| PivotBasic.SymmetricIff | math/pivot_basic.go:18-26 | for a permutation, that test holds exactly when the pivots are their own inverse, and exactly when the permutation matrix is symmetric |
| PivotBasic.Transpose | math/pivot_basic.go:30-37 | fresh pivots holding, for each value, the index where it occurs; the sign is the same |
| PivotBasic.Inverse | math/pivot_basic.go:28 | the same as `Transpose` |
| PivotBasic.InverseTwiceRestores | math/pivot_basic.go:28-37 | inverting a permutation twice restores its pivots and sign |
| PivotBasic.Det | math/pivot_basic.go:39 | the determinant is the stored sign |
| PivotBasic.FixedPointsAll | math/pivot_basic.go:41-49 | the number of fixed pivots equals the count exactly when every pivot is fixed |
| PivotBasic.Trace | math/pivot_basic.go:41-49 | the number of pivots that map to themselves, between 0 and rows |
| PivotBasic.TraceIsDiagonalSum | math/pivot_basic.go:41-49 | that count is the sum of the diagonal of the permutation matrix |
| PivotBasic.OneNorm | math/pivot_basic.go:58 | the number of rows |
| PivotBasic.InfinityNorm | math/pivot_basic.go:60 | 1 |
| PivotBasic.NormsAreSums | math/pivot_basic.go:58-60 | each row of the permutation matrix sums to `InfinityNorm`, and all cells together sum to `OneNorm`; this is the pivot matrix's convention, where the dense `OneNorm` would give 1 and the dense `InfinityNorm` rows for the same grid |
| Parse.Fields | math/matrix.go:91 | non-empty whitespace-free words that spell the text with its white space removed |
| Parse.FieldsOfJoined | math/matrix.go:91 | splitting words joined by single spaces gives the words back |
| Parse.Tokenizer.Tok | math/matrix.go:93-126 | reports the end exactly when no word is left; otherwise it takes the next token off the front word and drops emptied words |
| Parse.NumberPrefix | math/matrix.go:111-113 | the length of the longest prefix without a character that the test marks as not part of a number |
| Parse.TokensSpellFields | math/matrix.go:93-126 | the tokens, put together, spell the words |
| Parse.NumeralStep | math/matrix.go:93-126 | a field that starts with a run of non-punctuation characters followed by punctuation or its end gives that whole run as the next token, and the rest of the field after it |
| Parse.NumeralStaysWhole | math/matrix.go:93-126 | (corrected test) a field made only of number characters is a single token, so a numeral is never split |
| Parse.TokensSeparatePunctuation | math/matrix.go:93-126 | (corrected test) each token is `[`, `]`, `;` or a run of number characters |
| Parse.AsWrittenTokensAreSingleChars | math/matrix.go:100-102 | (test as written) every token is one character |
| Parse.AsWrittenTokensAreChars | math/matrix.go:100-102 | (test as written) the tokens are the characters of the words, one by one |
| Parse.TestsAgree | math/matrix.go:100-102 | on words whose numerals are single digits, the written and corrected tests give the same tokens |
| Parse.AsWrittenSplitsNumerals | math/matrix.go:100-102 | `[12]` parses to [[1, 2]] with the test as written and to [[12]] with the corrected one |
| Parse.Stack | math/matrix.go:128-138 | the row is always appended; `misaligned row` is reported exactly when earlier rows exist and the first has a different length |
| Parse.StackKeepsAligned | math/matrix.go:128-138 | a stack without an error keeps every row as long as the first |
| Parse.RunAligned | math/matrix.go:140-170 | the rows of a successful parse all have the first row's length |
| Parse.MisalignedStops | math/matrix.go:150-161 | at `;` or `]`, a row whose length differs from the first row's ends the parse with `misaligned row` |
| Parse.RunOpen | math/matrix.go:149 | `[` is skipped |
| Parse.RunSemicolon | math/matrix.go:150-155 | `;` stacks the row and starts an empty one |
| Parse.RunClose | math/matrix.go:156-161 | `]` stacks the row and ends the parse |
| Parse.RunNumeral | math/matrix.go:162-168 | any other token is parsed as a number and appended to the row |
| Parse.ParseExample | math/matrix_test.go:9-21 | `[1 2 3; 4 5 6]` parses to the rows [1, 2, 3] and [4, 5, 6] with either test |
| Parse.ReadRows | math/matrix.go:142-170 | (corrected, via `Tokenizer.Tok` with the fixed `isNotNumber` test) the token loop ends with the outcome the token semantics `Run` gives the text's tokens: the first error, or the rows stacked up to the end of the text or the first `]` |
| Parse.ParseMatlab | math/matrix.go:89-174 | (corrected, via `Tokenizer.Tok` with the fixed `isNotNumber` test) a parse error is returned as is; a successful parse gives a fresh matrix whose rows are the parsed rows, all the same length |
| Format.Condense | math/matrix.go:177-187 | the loop's result is `Condensed` of the numeral |
| Format.CondensedShape | math/matrix.go:177-187 | the result is a prefix of the numeral; a numeral without `.` is unchanged; only zeros, or a `.` followed by zeros, are removed; the result ends in neither `.` nor a fractional 0 |
| Format.CondensedIdempotent | math/matrix.go:177-187 | condensing twice is condensing once |
| Format.CondensedFraction | math/matrix.go:177-187 | `w.f` condenses to `w` exactly when f is all zeros, and otherwise keeps more than `w.` |
| Format.WidestCell | math/matrix.go:194-203 | the loop finds the widest condensed cell text |
| Format.RowWidestBounds | math/matrix.go:194-203 | every cell text of the row is at most the row's widest |
| Format.WidestBounds | math/matrix.go:194-203 | every cell text is at most the widest |
| Format.WidestIsATextWidth | math/matrix.go:194-203 | the widest is 0 or the width of some cell text |
| Format.RowWidestIsATextWidth | math/matrix.go:194-203 | a row's widest is 0 or the width of one of its texts |
| Format.Padded | math/matrix.go:211-213 | the padded text is as long as the wider of the text and the width |
| Format.PaddedShape | math/matrix.go:211-213 | the padded text ends with the text itself and holds only spaces before it |
| Format.PadLeft | math/matrix.go:211-213 | the padding loop gives `Padded` |
| Format.CellsAligned | math/matrix.go:205-213 | every padded cell has exactly the widest width |
| Format.WriteCell | math/matrix.go:214-220 | the cell text followed by `,` unless it is the last cell, and a space unless it ends its row |
| Format.WriteRow | math/matrix.go:205-221 | the loop writes the row's padded cells with their separators |
| Format.WriteRows | math/matrix.go:205-225 | the loop writes every row, separating the rows with a newline and a space |
| Format.String | math/matrix.go:176-228 | `{nil}` for the absent matrix; otherwise braces around the rows of padded cells |
| Format.TextLength | math/matrix.go:176-228 | a non-empty rows by cols matrix prints as `rows*(cols*(w+2)+1) - 1` characters, where w is the widest cell text |
| Format.EmptyText | math/matrix.go:176-228 | a matrix without rows prints as `{}` |
| Format.StringExample | math/matrix.go:176-228 | the 2 by 3 matrix 1..6, with `%f` giving `1.000000` and so on, prints as `{1, 2, 3,\n 4, 5, 6}` |

## Left out

- Floating point: `float64` is modelled as exact `real`. Rounding, NaN and infinities are not modelled, and `math.Abs` is the exact absolute value.
- Integer width: `uint` and `int` are unbounded, so the 64-bit wrap-around of `rows*cols` and `uint(len(vs))` is not modelled.
- `fmt.Sprintf("%f", v)` in `String` and `strconv.ParseFloat` in `ParseMatlab` are outside the package. They are parameters, `numeral` and `parseFloat`, assumed to give non-empty text and an optional number.
- Randomness and concurrency: `Normals` and `NormalsSparse` (random values), `SparseMatrix.Indices` (a goroutine feeding a channel), and `countBoxes`/`parFor` in util.go (goroutines and `runtime`) are not modelled.
- Numerical routines beyond the core: `DenseMatrix.Det`, `Trace`, `OneNorm`, `TwoNorm`, `InfinityNorm`, `Solve`, `SolveDense`, `solveLower` and `solveUpper` (dense_basic.go:87-192), and `PivotMatrix.Solve` and `TwoNorm`, are not modelled. They compute with floating point or call code not in this model.
- `PivotMatrix.Arrays` and `PivotMatrix.Array` are stubs that return nil; they have nothing to model.
- The `String` methods of the three matrix types only call `String` (modelled as `Format.String`).
- The `TestString` test expects the literal text `{1, 2, 3 \n 4, 5, 6}` (a raw string with a backslash), which `String` does not produce. `Format.StringExample` states what the code prints.
- `Diagonal` is declared in both dense.go and sparse.go, which Go rejects; the model has both, as `Dense.Diagonal` and `Sparse.Diagonal`.
- Dense.DenseMatrix.Arrays: returns the rows' values. It does not model that the source's row slices alias the storage.
- Dense.DenseMatrix.SetMatrix: requires that A does not share B's storage; copying a window onto its own parent is not modelled.
- Dense.DenseMatrix.GetMatrix: the source checks no bounds and only takes the sub-slice `[i*step+j : i*step+j+(rows-1)*step+cols]`, so it also returns windows that run past the parent's columns or rows while staying inside the slice (a 1 by 3 window at (0, 1) of a compact 2 by 3 matrix); the model requires the window to lie inside the parent, and such windows are not modelled. With zero rows, the slice bound `(rows-1)*step` underflows; the model requires `cols == step` in that case.
- Sparse.SparseMatrix.Get: the warning the source logs when the key is absent (sparse.go:117-119) is not modelled; the cell still reads 0.
- DenseData.BufferRow: like `BufferCol` and `BufferDiagonal`, requires a buffer that is not the matrix's own storage.
- DenseBasic.Inverse: states only the error cases and the shape of the result (a window on the right half of the reduced augmented matrix), not that the product with the input is the identity.
- DenseDecomp.LUInPlace: does not prove that P·L·U equals the original matrix. It characterises the final A exactly, as the column steps composed (`StepsUpTo`), and proves the pivots, the sign and the bounded multipliers, but not the algebraic identity between them.
- DenseDecomp.LUInPlace: like `Step`, `ComputeColumn`, `PivotRow` and `ScaleBelowPivot`, does not state that storage positions outside A's cells are unchanged; the contracts speak of A's cells only.
- Augment, Stack, SubMatrix, ColVector, RowVector, L, U, Copy and SparseMatrix of the sparse matrix, `EyeSparse`, `Diagonal`, `MakeSparseCopy`, `SparseOfDense` and `PivotMatrix.SparseMatrix` start from the corrected `ZerosSparse` (an empty map), so they state the corrected behaviour; as written they would also carry the explicit zeros of `ZerosSparseElementsAsWritten`. Likewise `DenseMatrix.Augment` uses the corrected `AugmentFill`, and `ReadRows` and `ParseMatlab` use the corrected tokenizer.
- DenseBasic.RowScaledInverse, DenseBasic.RowAddedInverse: hold in exact arithmetic only. In float64, scaling 1.0 by 49 and then by 1/49 gives 0.9999999999999999; `RowScaledByOne` and `RowAddedZero` are the identities that survive rounding.
- Util.ProductZero: assumes no partial product overflows. In float64, [1e200, 1e200, 0] gives NaN, since infinity times 0 is NaN.
- Util.SumOfOnes: holds in float64 only while n is at most 2^53, past which adding 1 no longer changes the sum.
- Sparse.MakeSparseMatrix: requires every key to lie below `rows*cols`, while the source wraps any map; a map with keys outside the matrix is not modelled.
- Parse.Tokenizer.Tok: works on characters, while the source's `isNotNumber` tests bytes, so text with non-ASCII characters may be split differently.
- Sparse.SparseMatrix.Set: requires `i < rows` and `j < cols`. The source checks neither upper bound, so an out-of-range write would store a key outside the matrix.
- Sparse.SparseMatrix: only the representation every constructor builds (offset 0, step equal to cols) is modelled.
- Parse.ParseMatlab: when no row is ever stacked, the source's `MakeDenseMatrixStacked` indexes an empty slice and panics; the model returns the `NoRows` error instead.
- Pivot.PivotMatrix.Get: indices are natural numbers, so the source's dead negative-index branches are not modelled, and a matrix with no rows (where `%` would divide by zero) is excluded.

## Findings

| source | as written | input that shows it | evidently intended | confidence | as-written member | corrected member |
|---|---|---|---|---|---|---|
| math/dense.go:194-203 | `AugmentFill` compares `B.cols` with `M.rows + A.rows`, and writes A at column `A.cols` | M 2 by 3 of ones, A 2 by 1 of twos, B 2 by 4: the guard passes and A lands on column 1; M 1 by 1, A 1 by 2, B 1 by 3: rejected | compare with `M.cols + A.cols` and write A at column `M.cols`, giving `[M A]` | high; not executed | Dense.AugmentFillAsWrittenMisplaces | Dense.DenseMatrix.AugmentFill |
| math/dense.go:64-76 | `Array` returns the raw storage prefix whenever `step == rows` | a 3 by 2 window with stride 3 over storage 1..9 returns 1..6 instead of 1, 2, 4, 5, 7, 8 | take the fast path only when `step == cols` | high; not executed | Dense.ArrayAsWrittenWrongWindow | Dense.DenseMatrix.Array |
| math/dense.go:149-160 | `Copy` keeps the source stride over new storage of `rows*cols` cells | a 2 by 1 window with stride 2: row 1 is copied to `[2, 3)` of a 2-cell slice, which panics | give the copy stride `cols` | high; not executed | Dense.CopyAsWrittenPanics | Dense.DenseMatrix.Copy |
| math/sparse.go:48-61 | `Arrays` places a value only when decoding its key reports an error | the 1 by 1 matrix storing 5 gives [[0]] | place the value when decoding succeeds | high; not executed | Sparse.ArraysAsWrittenLosesValues | Sparse.SparseMatrix.Arrays |
| math/sparse.go:304-316 | `ZerosSparse` stores an explicit 0 under every key | any matrix with a cell: key 0 maps to 0, unlike the map `Set` keeps, where 0 means absent | leave the map empty | medium; not executed | Sparse.ZerosSparseAsWrittenStoresZeros | Sparse.ZerosSparse |
| math/sparse.go:318-328 | `OnesSparse` fills the keys below `cols*cols` | 2 rows and 1 column: key 1 (cell (1, 0)) is missing, so the cell reads 0 | fill the keys below `rows*cols` | high; not executed | Sparse.OnesSparseAsWrittenMissesCell | Sparse.OnesSparse |
| math/matrix.go:100-102 | `isNotNumber` is `c != '[' \|\| c != ']' \|\| c == ';'`, which is true for every character | `[12]` parses as the row [1, 2] | `c == '[' \|\| c == ']' \|\| c == ';'` | high; not executed | Parse.AsWrittenSplitsNumerals | Parse.NumeralStaysWhole |
