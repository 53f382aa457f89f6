/**
 The matrix value of the processor: dimensions fixed when the matrix is
 created, and a row-major grid of numbers that is populated afterwards,
 either by appending rows one at a time or by a zero fill followed by row
 assignment. Cells are exact reals, so integer and floating-point cells of
 the original are one type here.
 */
module Matrices {

  type Grid = seq<seq<real>>

  datatype Matrix = Matrix(rows: nat, columns: nat, numbers: Grid) {

    /** Every row present has exactly `columns` cells (rows may still be missing). */
    predicate RowsFit() {
      forall i :: 0 <= i < |numbers| ==> |numbers[i]| == columns
    }

    /** Fully populated: exactly `rows` rows of exactly `columns` cells. */
    predicate Valid() {
      |numbers| == rows && RowsFit()
    }

    predicate IsSquare() {
      Valid() && rows == columns
    }

    function Dimensions(): (nat, nat) {
      (rows, columns)
    }
  }

  /** Two valid matrices with the same dimensions and the same cells are equal. */
  lemma SameCells(a: Matrix, b: Matrix)
    requires a.Valid() && b.Valid() && a.Dimensions() == b.Dimensions()
    requires forall i, j :: 0 <= i < a.rows && 0 <= j < a.columns ==> a.numbers[i][j] == b.numbers[i][j]
    ensures a == b
  {
    forall i | 0 <= i < a.rows
      ensures a.numbers[i] == b.numbers[i]
    {
    }
  }

  /**
   Failures of the original: `DimensionMismatch` and `Singular` are the
   strings it returns instead of a matrix; `IndexOutOfRange` is the
   exception it raises when it reads a row that is not there.
   */
  datatype MatrixError = DimensionMismatch | Singular | IndexOutOfRange

  datatype Outcome = Ok(value: Matrix) | Err(error: MatrixError)

  function Min(a: nat, b: nat): nat {
    if a < b then a else b
  }

  /**
   A freshly constructed matrix: the dimensions are set (1 by 1 unless given),
   and the grid has no rows yet, so it is fully populated only when it has no
   rows at all.
   */
  function Empty(rows: nat := 1, columns: nat := 1): (m: Matrix)
    ensures m.Dimensions() == (rows, columns) && m.numbers == []
    ensures m.RowsFit()
    ensures m.Valid() <==> rows == 0
  {
    Matrix(rows, columns, [])
  }

  /** The grid of all zeros that `fill_with_blanks` installs. */
  function Blank(rows: nat, columns: nat): (m: Matrix)
    ensures m.Valid() && m.Dimensions() == (rows, columns)
    ensures forall i, j :: 0 <= i < rows && 0 <= j < columns ==> m.numbers[i][j] == 0.0
  {
    Matrix(rows, columns, seq(rows, _ => seq(columns, _ => 0.0)))
  }

  /** The n-by-n identity matrix; not an operation of the processor, used to state properties. */
  function Identity(n: nat): (m: Matrix)
    ensures m.IsSquare() && m.rows == n
    ensures forall i, j :: 0 <= i < n && 0 <= j < n ==> m.numbers[i][j] == if i == j then 1.0 else 0.0
  {
    Matrix(n, n, seq(n, i => seq(n, j => if i == j then 1.0 else 0.0)))
  }

  /**
   `fill_row`: copies the first `columns` values of `row` into row `rowNumber`,
   cell by cell. The original does no bounds checking; the bounds are required here.
   */
  method FillRow(m: Matrix, rowNumber: nat, row: seq<real>) returns (r: Matrix)
    requires m.Valid() && rowNumber < m.rows && |row| >= m.columns
    ensures r.Valid() && r.Dimensions() == m.Dimensions()
    ensures r.numbers[rowNumber] == row[..m.columns]
    ensures forall i :: 0 <= i < m.rows && i != rowNumber ==> r.numbers[i] == m.numbers[i]
  {
    var g := m.numbers;
    for c := 0 to m.columns
      invariant |g| == m.rows
      invariant forall i :: 0 <= i < m.rows && i != rowNumber ==> g[i] == m.numbers[i]
      invariant |g[rowNumber]| == m.columns
      invariant g[rowNumber][..c] == row[..c]
    {
      g := g[rowNumber := g[rowNumber][c := row[c]]];
    }
    assert g[rowNumber] == g[rowNumber][..m.columns];
    r := m.(numbers := g);
  }

  /**
   `add_row`: appends `row` verbatim. The original does not check the row's
   length; the model requires it to match `columns`, which keeps every row
   that is present well-shaped.
   */
  function AddRow(m: Matrix, row: seq<real>): (r: Matrix)
    requires |row| == m.columns
    ensures r.Dimensions() == m.Dimensions()
    ensures |r.numbers| == |m.numbers| + 1 && r.numbers[..|m.numbers|] == m.numbers
    ensures r.numbers[|m.numbers|] == row
    ensures r.RowsFit() <==> m.RowsFit()
  {
    m.(numbers := m.numbers + [row])
  }

  /** Appends the rows of `rs` one after another with `AddRow`. */
  function AppendRows(m: Matrix, rs: Grid): Matrix
    requires forall i :: 0 <= i < |rs| ==> |rs[i]| == m.columns
    decreases |rs|
  {
    if rs == [] then m else AppendRows(AddRow(m, rs[0]), rs[1..])
  }

  /**
   Populating a matrix row by row: appending `rs` to a matrix whose rows fit
   leaves exactly the old rows followed by `rs`, and the result is fully
   populated exactly when the row count reaches `rows`.
   */
  lemma {:induction false} AppendRowsPopulates(m: Matrix, rs: Grid)
    requires m.RowsFit()
    requires forall i :: 0 <= i < |rs| ==> |rs[i]| == m.columns
    ensures AppendRows(m, rs).Dimensions() == m.Dimensions()
    ensures AppendRows(m, rs).numbers == m.numbers + rs
    ensures AppendRows(m, rs).Valid() <==> |m.numbers| + |rs| == m.rows
    decreases |rs|
  {
    if rs != [] {
      var m' := AddRow(m, rs[0]);
      assert m'.numbers == m.numbers + [rs[0]];
      AppendRowsPopulates(m', rs[1..]);
      assert m.numbers + [rs[0]] + rs[1..] == m.numbers + rs;
    }
  }

  /** The usual way a matrix is built: construct it empty, then append its rows. */
  function FromRows(rows: nat, columns: nat, rs: Grid): (m: Matrix)
    requires |rs| == rows && forall i :: 0 <= i < |rs| ==> |rs[i]| == columns
    ensures m.Valid() && m.Dimensions() == (rows, columns) && m.numbers == rs
  {
    AppendRowsPopulates(Empty(rows, columns), rs);
    AppendRows(Empty(rows, columns), rs)
  }
}
