# Matrix processor, modelled in Dafny

This project models the `Matrix` class of the matrix processor. That class is a small
dense-matrix library. A matrix is created with fixed dimensions and then populated: either
rows are appended one at a time (`add_row`), or the matrix is zero-filled and rows are
assigned (`fill_with_blanks`, `fill_row`). On top of that the class offers:

- trace;
- the shape-guarded triple-loop product;
- four in-place transposes: main diagonal, side diagonal, vertical mirror and horizontal mirror;
- minor;
- the determinant, by recursive first-row expansion with 1×1 and 2×2 base cases;
- the cofactor matrix and the inverse;
- element-wise addition and scalar multiplication.

Modules, following the class's groups of methods:

- `Matrices` (matrices.dfy): the `Matrix` value (`rows`, `columns`, `numbers`) and its `Valid` well-formedness predicate. It also holds the error outcomes and construction: `Blank`, `FillRow`, `AddRow`, `AppendRows`, `FromRows`.
- `Arithmetic` (arithmetic.dfy) covers the following, each with its algebraic laws:
  - trace: the `Trace` loop against the reference `TraceOf`;
  - product: the `Multiply` loops against the reference `Product`;
  - `Add` and `Scale`.
- `Transposes` (transposes.dfy): the four swap loops of the original as methods over a grid value. The functional references they equal are `Transpose`, `MirrorRows`, `MirrorColumns` and `AntiTranspose`, together with the involution and composition laws.
- `Determinants` (determinants.dfy):
  - `Minor` (equal to the index-shifting `Submatrix`);
  - the recursive `Determinant` method, proved equal to the first-row expansion `Det`;
  - laws of `Det`: the 2×2 closed form, a zero row, triangular matrices, the identity, and scaling.
- `Inversion` (inversion.dfy) covers:
  - the cofactor matrix and the adjugate;
  - the corrected `Inverse` and the as-written `InvertedAsWritten`, plus the `Inverted` method that follows the original's steps;
  - inverse laws for 2×2 matrices, 1×1 matrices and the identity, and for the top-left cell in general.
- `Samples` (samples.dfy): the worked values of the repository's unit tests on the 3×3 sample [[13, 25, 39], [3, 12, 0], [12, 22, 11]], plus a few small examples.

Cells are exact `real`s. The original's mixture of `int` and `float` cells is therefore one type
here, and `1/det` has no rounding. The in-place operators of the original become
operations from the old matrix to a new one. Where the original returns a string instead of a
matrix, the model returns `Err`: `DimensionMismatch` for `'ERROR'` from `+`, and `Singular` for the
"doesn't have an inverse" message. Where `inverted` raises `IndexError` on a non-singular 1×1
matrix, the as-written model returns `Err(IndexOutOfRange)` (see Findings). The other inputs on
which the original raises `IndexError` are excluded by preconditions, listed under Left out.

The model follows the code as written, including these behaviours a reader might not expect:

- A product with mismatched shapes returns the left operand unchanged. It is not an error.
- `diagonal_transpose` transposes only the leading square block of a wide matrix.
- `inverted` fails on every non-singular 1×1 matrix (see Findings).

## Model

| member | source | states |
|---|---|---|
| Matrices.Empty | processor.py:7-10 | a new matrix has the given dimensions, 1×1 by default, and no rows yet, so it is well formed only when it has zero rows |
| Samples.DefaultDimensions | processor.py:7-16 | a matrix constructed without arguments reports the dimensions (1, 1) |
| Matrices.Blank | processor.py:12-13 | the zero fill yields a well-formed rows×columns grid whose every cell is 0 |
| Matrices.FillRow | processor.py:18-21 | assigning row `rowNumber` copies the first `columns` cells of the given row into it, keeps the dimensions and leaves every other row unchanged |
| Matrices.AddRow | processor.py:23-24 | appending keeps the dimensions, keeps the existing rows as a prefix, puts the new row last, and keeps every present row at `columns` cells |
| Matrices.AppendRowsPopulates | processor.py:23-24 | appending rows one by one concatenates them onto the grid, and the matrix becomes well formed exactly when the row count reaches `rows` |
| Matrices.FromRows | tests.py:7-11 | a matrix built from `rows` lists of `columns` numbers is well formed and holds exactly those lists |
| Arithmetic.Trace | processor.py:26-32 | the accumulation loop yields the sum of `numbers[i][i]` for i below min(rows, columns), also for non-square matrices |
| Arithmetic.TraceAdd | processor.py:26-32 | the trace of a sum is the sum of the traces |
| Arithmetic.TraceScale | processor.py:26-32 | the trace of k·m is k times the trace of m |
| Transposes.TraceTranspose | processor.py:26-32 | transposing a square matrix leaves its trace unchanged |
| Arithmetic.Multiply | processor.py:34-48 | with `self.columns == other.rows` the triple loop yields the product, a rows×other.columns matrix whose cell (i, j) is Σ_k a[i][k]·b[k][j]; otherwise it yields `self` unchanged |
| Arithmetic.ProductIdentityRight | processor.py:34-48 | m times the identity of size `columns` is m |
| Arithmetic.ProductIdentityLeft | processor.py:34-48 | the identity of size `rows` times m is m |
| Arithmetic.ProductScaleLeft | processor.py:34-48 | (k·a)·b equals k·(a·b) |
| Arithmetic.ProductScaleRight | processor.py:34-48 | a·(k·b) equals k·(a·b) |
| Arithmetic.Add | processor.py:148-158 | the result is Ok exactly when the dimensions agree, with cell (r, c) = a[r][c] + b[r][c] and the same dimensions; otherwise the error is `DimensionMismatch` |
| Arithmetic.AddCommutes | processor.py:148-158 | a + b and b + a give the same outcome, errors included |
| Arithmetic.AddBlank | processor.py:148-158 | adding the zero-filled matrix of the same shape returns m |
| Arithmetic.ScaleAdd | processor.py:148-167 | scaling distributes over addition: k·a + k·b = k·(a + b) |
| Arithmetic.Scale | processor.py:160-167 | multiplying by a number (from either side) multiplies every cell by it and keeps the dimensions |
| Arithmetic.ScaleOne | processor.py:160-167 | multiplying by 1 returns the matrix unchanged |
| Arithmetic.ScaleScale | processor.py:160-167 | scaling by k and then by l is scaling by k·l |
| Transposes.DiagonalTranspose | processor.py:50-55 | the swap loop keeps the dimensions and puts old[c][r] at (r, c) inside the leading square block, leaving other cells alone; on a square matrix that is the transpose |
| Transposes.TransposeInvolution | processor.py:50-55 | transposing a square matrix twice restores it |
| Transposes.SideDiagonalTranspose | processor.py:57-61 | the row mirror, the column mirror, then the diagonal swap, in that order, put old[n-1-c][n-1-r] at (r, c) on a square n×n matrix, which is the reflection about the anti-diagonal |
| Transposes.AntiTransposeInvolution | processor.py:57-61 | reflecting about the anti-diagonal twice restores the matrix |
| Transposes.AntiTransposeIsComposition | processor.py:57-61 | the anti-diagonal reflection equals the transpose of the column mirror of the row mirror |
| Transposes.VerticalTranspose | processor.py:63-68 | the swap loop over the first half of the columns yields the column mirror: new[r][c] = old[r][columns-1-c] with the dimensions kept |
| Transposes.MirrorColumnsInvolution | processor.py:63-68 | mirroring the columns twice restores the matrix |
| Transposes.HorizontalTranspose | processor.py:70-75 | the swap loop over the first half of the rows yields the row mirror: new[r][c] = old[rows-1-r][c] with the dimensions kept |
| Transposes.MirrorRowsInvolution | processor.py:70-75 | mirroring the rows twice restores the matrix |
| Determinants.DropRow | processor.py:82-85 | both slicing branches delete exactly element k, shifting the later ones down by one |
| Determinants.DropCell | processor.py:88-92 | cutting column k deletes cell k when it exists and keeps the row when k is at its end |
| Determinants.Minor | processor.py:77-94 | minor(r, c) has dimensions (rows-1, columns-1), and its cell (i, j) is the original cell at (i < r ? i : i+1, j < c ? j : j+1) |
| Determinants.Determinant | processor.py:96-113 | the recursive method (2×2 closed form, 1×1 cell, otherwise Σ_c (-1)^c·a[0][c]·det(minor(0, c))) equals the first-row expansion `Det` for every square matrix |
| Determinants.ExpandFirstRow | processor.py:108-113 | the loop over the first row accumulates the alternating sum of a[0][c] times the minor determinants |
| Determinants.DetTwoByTwo | processor.py:101-103 | the first-row expansion of a 2×2 matrix is a00·a11 − a10·a01, so the original's shortcut agrees with the recursion |
| Determinants.DetTransposeSmall | processor.py:96-113 | transposing a matrix of size up to 3×3 leaves its determinant unchanged |
| Determinants.DetThreeByThree | processor.py:96-113 | the recursion on a 3×3 matrix gives the six-term cofactor formula over its nine cells |
| Determinants.DetZeroRow | processor.py:96-113 | a matrix with a row of zeros has determinant 0 |
| Determinants.DetLowerTriangular | processor.py:96-113 | the determinant of a lower-triangular matrix is the product of its diagonal |
| Determinants.DetIdentity | processor.py:96-113 | the identity has determinant 1 |
| Determinants.DetScale | processor.py:96-113 | scaling an n×n matrix by k scales its determinant by k^n |
| Inversion.CofactorMatrix | processor.py:131-145 | the loops yield a matrix of the same shape whose cell (r, c) is (-1)^(r+c) times the determinant of minor(r, c) |
| Inversion.IdentityCofactor | processor.py:131-145 | the cofactors of the identity are 1 on the diagonal and 0 elsewhere |
| Inversion.ProductAdjugateCorner | processor.py:131-145 | cell (0, 0) of m times its transposed cofactor matrix is det(m), for every square m |
| Inversion.Inverted | processor.py:115-129 | the original's steps (determinant test, cofactor matrix, diagonal swap, scaling by 1/det) yield exactly `InvertedAsWritten` |
| Inversion.InvertedAsWritten | processor.py:115-145 | the original fails with `Singular` exactly when det = 0, raises `IndexOutOfRange` exactly on a non-singular 1×1 matrix, and otherwise succeeds with the intended inverse: cell (i, j) is cofactor(j, i) / det |
| Inversion.Inverse | processor.py:115-129 | the intended inverse fails exactly when det = 0, and otherwise is the square matrix of the same size whose cell (i, j) is cofactor(j, i) / det |
| Inversion.InvertedAsWrittenAgrees | processor.py:115-145 | from 2×2 upward, the original and the intended inverse give the same outcome |
| Inversion.OneByOneInverse | processor.py:115-145 | for [[a]] with a ≠ 0 the original fails while the intended inverse is [[1/a]], whose product with [[a]] is the identity |
| Inversion.InverseCorner | processor.py:115-129 | whenever the inverse exists, cell (0, 0) of m times its inverse is 1 |
| Inversion.InverseTwoByTwoCells | processor.py:115-129 | a non-singular 2×2 matrix [[a, b], [c, d]] has the inverse [[d, −b], [−c, a]] / (ad − cb) |
| Inversion.InverseTwoByTwo | processor.py:115-129 | for a non-singular 2×2 matrix the inverse is a two-sided inverse: both products are the identity |
| Inversion.InverseIdentity | processor.py:115-129 | the identity of every size n ≥ 1 is its own inverse |
| Samples.SampleDeterminant | tests.py:13-16 | the sample's determinant is −2151 |
| Samples.SampleDeterminantComputed | tests.py:13-16 | the recursive determinant method returns −2151 on the sample |
| Samples.SampleDimensions | tests.py:18-20 | `get_dimensions` of the sample returns (3, 3) |
| Samples.SampleTrace | tests.py:22-24 | the trace loop returns 36 on the sample |
| Samples.SampleMinor | tests.py:26-31 | minor(1, 2) of the sample has the rows [13, 25] and [12, 22] |
| Samples.SmallInverse | processor.py:115-129 | [[1, 2], [3, 4]] has determinant −2 and the inverse [[−2, 1], [1.5, −0.5]] |
| Samples.SmallSingular | processor.py:115-118 | `inverted` on [[1, 2], [2, 4]] stops at the zero determinant with the no-inverse outcome, and the intended inverse agrees |
| Samples.SampleAddMismatch | processor.py:148-158 | adding a 2×3 matrix to the 3×3 sample is a dimension mismatch |
| Samples.SampleMultiplyMismatch | processor.py:47-48 | multiplying the 3×3 sample by a 2×2 matrix returns the sample unchanged |

## Left out

- The interactive `Program` class (menus, `input`/`print`, parsing typed numbers): it is I/O only.
- `__repr__`: it formats floats for display.
- The `int`/`float` distinction: cells are exact reals. The rewriting of zero cofactors to `0.00` is a no-op on reals, and `1/det` is not rounded.
- The copy loop at the end of `inverted`: it assigns every cell to itself.
- Object identity: `+` and `*` mutate `self` and return it, and the four transposes mutate `self` and return `None`. Here every one of them returns a new value, so aliasing between operands is not modelled.
- `__rmul__` is the same function as `__mul__`. Both are `Arithmetic.Scale`.
- `get_dimensions` is the `Dimensions` member of the `Matrix` datatype. Its only contract is the value the test expects, stated by `Samples.SampleDimensions`.
- Matrices.FillRow: takes a non-negative, in-range row index, a fully populated matrix and a row list at least `columns` long. The original needs only the target row to exist, so it also works on a partly populated grid. Python's negative indices, which count from the end, are not modelled: `fill_row(-1, row)` overwrites the last row. Other out-of-range indices and short row lists raise `IndexError`.
- Matrices.AddRow: requires the appended row to have `columns` cells. The original appends rows of any length, and a malformed grid is outside the model.
- Inversion.CofactorMatrix: requires at least two rows. On a 1×1 matrix the original raises `IndexError`; that path is modelled through `Inversion.InvertedAsWritten` (see Findings).
- Determinants.Minor: takes non-negative, in-range row and column indices. Python's negative indices, which count from the end, are not modelled: for rows ≥ 2, `minor(-rows, c)` equals `minor(0, c)`. Indices past the end leave the rows or cells uncut, and the result then disagrees with the dimensions it reports.
- Determinants.Determinant: requires a non-empty square matrix. On a matrix with more rows than columns the original returns 0 without an error. Every first-row minor then recurses down to a grid with no columns (k×0, where k is the number of extra rows), whose expansion loop runs over an empty first row and returns 0. On a matrix with more columns than rows, and on one with no rows, the original raises `IndexError` by reading the first row of an empty grid.
- Inversion.Inverted: requires a square matrix. That excludes matrices with more rows than columns, which the original reports as having no inverse because their determinant comes out 0. Wider matrices raise `IndexError` in the determinant.
- Transposes.DiagonalTranspose: requires at most as many rows as columns. With more rows the original indexes past the end of a row.
- Transposes.SideDiagonalTranspose: the same requirement, since it ends with the diagonal swap.
- Determinants.Det: det(transpose(m)) = det(m) is proved for matrices up to 3×3 only (`Determinants.DetTransposeSmall`). The general case needs expansion along arbitrary rows or columns, which is not part of this model.
- Inversion.Inverse: the property m·m⁻¹ = I is proved for 1×1 and 2×2 matrices, for the identity, and for the top-left cell of every size. It is not proved cell by cell for general n×n: that needs expansion along arbitrary rows and the alternating property of the determinant, and neither is part of this model.

## Findings

| source | as written | input that shows it | evidently intended | confidence | as-written member | corrected member |
|---|---|---|---|---|---|---|
| processor.py:115-145 | `inverted` always builds the cofactor matrix. For a 1×1 matrix that takes `minor(0, 0)`, which is 0×0, and its `determinant` reads `numbers[0]` of an empty list and raises `IndexError`. | [[5]] (any non-zero 1×1 matrix) | the inverse [[1/a]], i.e. [[0.2]], with the empty minor's determinant taken as 1 | high; not executed | Inversion.InvertedAsWritten (witness: Inversion.OneByOneInverse) | Inversion.Inverse |
