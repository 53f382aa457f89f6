/**
 The four transposes. The original mutates the grid in place by swapping
 cells; each method here runs the same swap loops over a local copy of the
 grid and returns the result. The functions `Transpose`, `MirrorRows`,
 `MirrorColumns` and `AntiTranspose` are the cell-by-cell reference
 definitions the methods are proved against.
 */
module Transposes {
  import opened Matrices
  import Arithmetic

  /** Reflection about the main diagonal. */
  function Transpose(m: Matrix): (r: Matrix)
    requires m.IsSquare()
    ensures r.IsSquare() && r.rows == m.rows
    ensures forall i, j {:trigger r.numbers[i][j]} :: 0 <= i < m.rows && 0 <= j < m.rows ==>
              r.numbers[i][j] == m.numbers[j][i]
  {
    var g := seq(m.rows, i requires 0 <= i < m.rows => Column(m, i));
    assert forall i :: 0 <= i < m.rows ==> g[i] == Column(m, i) && |g[i]| == m.rows;
    Matrix(m.rows, m.columns, g)
  }

  /** Column `c` of a square matrix, top to bottom. */
  function Column(m: Matrix, c: nat): (r: seq<real>)
    requires m.IsSquare() && c < m.columns
    ensures |r| == m.rows
    ensures forall j :: 0 <= j < m.rows ==> r[j] == m.numbers[j][c]
  {
    seq(m.rows, j requires 0 <= j < m.rows => m.numbers[j][c])
  }

  /** Rows in reverse order. */
  function MirrorRows(m: Matrix): (r: Matrix)
    requires m.Valid()
    ensures r.Valid() && r.Dimensions() == m.Dimensions()
  {
    Matrix(m.rows, m.columns,
      seq(m.rows, i requires 0 <= i < m.rows =>
        seq(m.columns, j requires 0 <= j < m.columns => m.numbers[m.rows - 1 - i][j])))
  }

  /** Every row reversed. */
  function MirrorColumns(m: Matrix): (r: Matrix)
    requires m.Valid()
    ensures r.Valid() && r.Dimensions() == m.Dimensions()
  {
    Matrix(m.rows, m.columns,
      seq(m.rows, i requires 0 <= i < m.rows =>
        seq(m.columns, j requires 0 <= j < m.columns => m.numbers[i][m.columns - 1 - j])))
  }

  /** Reflection about the anti-diagonal (top right to bottom left). */
  function AntiTranspose(m: Matrix): (r: Matrix)
    requires m.IsSquare()
    ensures r.IsSquare() && r.rows == m.rows
  {
    var n := m.rows;
    Matrix(n, n,
      seq(n, i requires 0 <= i < n =>
        seq(n, j requires 0 <= j < n => m.numbers[n - 1 - j][n - 1 - i])))
  }

  // ---- The in-place swap loops of the original ----

  /**
   `diagonal_transpose`: for every r > c swaps cells (r, c) and (c, r). The
   loops run over all of rows x columns, so on a matrix with more rows than
   columns the original indexes past the end of a row; with at most as many
   rows as columns every index stays in range and the leading rows x rows
   block is transposed while the remaining columns keep their cells.
   */
  method DiagonalTranspose(m: Matrix) returns (r: Matrix)
    requires m.Valid() && (m.rows <= m.columns || m.columns == 0)
    ensures r.Valid() && r.Dimensions() == m.Dimensions()
    ensures forall i, j {:trigger r.numbers[i][j]} :: 0 <= i < m.rows && 0 <= j < m.columns ==>
              r.numbers[i][j] == if j < m.rows then m.numbers[j][i] else m.numbers[i][j]
    ensures m.IsSquare() ==> r == Transpose(m)
  {
    var g := m.numbers;
    for x := 0 to m.rows
      invariant |g| == m.rows && forall i :: 0 <= i < m.rows ==> |g[i]| == m.columns
      invariant forall i, j {:trigger g[i][j]} :: 0 <= i < m.rows && 0 <= j < m.columns ==>
                  g[i][j] == if Swapped(i, j, x, 0) then m.numbers[j][i] else m.numbers[i][j]
    {
      for y := 0 to m.columns
        invariant |g| == m.rows && forall i :: 0 <= i < m.rows ==> |g[i]| == m.columns
        invariant forall i, j {:trigger g[i][j]} :: 0 <= i < m.rows && 0 <= j < m.columns ==>
                    g[i][j] == if Swapped(i, j, x, y) then m.numbers[j][i] else m.numbers[i][j]
      {
        if x > y {
          var a, b := g[y][x], g[x][y];
          g := g[x := g[x][y := a]];
          g := g[y := g[y][x := b]];
        }
      }
    }
    r := m.(numbers := g);
    if m.IsSquare() {
      SameCells(r, Transpose(m));
    }
  }

  /**
   The cells whose pair has been swapped once the diagonal loops have
   finished the rows before `x` and the columns before `y` of row `x`.
   */
  predicate Swapped(i: nat, j: nat, x: nat, y: nat) {
    (i > j && (i < x || (i == x && j < y))) || (j > i && (j < x || (j == x && i < y)))
  }

  /** `horizontal_transpose`: swaps row r with row rows-1-r, cell by cell, for r in the first half. */
  method HorizontalTranspose(m: Matrix) returns (r: Matrix)
    requires m.Valid()
    ensures r == MirrorRows(m)
  {
    var g := m.numbers;
    var half := m.rows / 2;
    for x := 0 to half
      invariant |g| == m.rows && forall i :: 0 <= i < m.rows ==> |g[i]| == m.columns
      invariant forall i, j {:trigger g[i][j]} :: 0 <= i < m.rows && 0 <= j < m.columns ==>
                  g[i][j] == if i < x || m.rows - 1 - i < x then m.numbers[m.rows - 1 - i][j] else m.numbers[i][j]
    {
      for y := 0 to m.columns
        invariant |g| == m.rows && forall i :: 0 <= i < m.rows ==> |g[i]| == m.columns
        invariant forall i, j {:trigger g[i][j]} :: 0 <= i < m.rows && 0 <= j < m.columns ==>
                    g[i][j] == if i < x || m.rows - 1 - i < x || ((i == x || i == m.rows - 1 - x) && j < y)
                               then m.numbers[m.rows - 1 - i][j] else m.numbers[i][j]
      {
        var a, b := g[m.rows - 1 - x][y], g[x][y];
        g := g[x := g[x][y := a]];
        g := g[m.rows - 1 - x := g[m.rows - 1 - x][y := b]];
      }
    }
    r := m.(numbers := g);
    SameCells(r, MirrorRows(m));
  }

  /** `vertical_transpose`: in every row swaps cell c with cell columns-1-c for c in the first half. */
  method VerticalTranspose(m: Matrix) returns (r: Matrix)
    requires m.Valid()
    ensures r == MirrorColumns(m)
  {
    var g := m.numbers;
    var half := m.columns / 2;
    for x := 0 to m.rows
      invariant |g| == m.rows && forall i :: 0 <= i < m.rows ==> |g[i]| == m.columns
      invariant forall i, j {:trigger g[i][j]} :: 0 <= i < m.rows && 0 <= j < m.columns ==>
                  g[i][j] == if i < x then m.numbers[i][m.columns - 1 - j] else m.numbers[i][j]
    {
      for y := 0 to half
        invariant |g| == m.rows && forall i :: 0 <= i < m.rows ==> |g[i]| == m.columns
        invariant forall i, j {:trigger g[i][j]} :: 0 <= i < m.rows && 0 <= j < m.columns ==>
                    g[i][j] == if i < x || (i == x && (j < y || m.columns - y <= j))
                               then m.numbers[i][m.columns - 1 - j] else m.numbers[i][j]
      {
        var a, b := g[x][m.columns - 1 - y], g[x][y];
        g := g[x := g[x][y := a]];
        g := g[x := g[x][m.columns - 1 - y := b]];
      }
    }
    r := m.(numbers := g);
    SameCells(r, MirrorColumns(m));
  }

  /**
   `side_diagonal_transpose`: the row mirror, then the column mirror, then the
   main-diagonal swap, in that order. On a square matrix that is the
   reflection about the anti-diagonal.
   */
  method SideDiagonalTranspose(m: Matrix) returns (r: Matrix)
    requires m.Valid() && (m.rows <= m.columns || m.columns == 0)
    ensures r.Valid() && r.Dimensions() == m.Dimensions()
    ensures forall i, j {:trigger r.numbers[i][j]} :: 0 <= i < m.rows && 0 <= j < m.columns ==>
              r.numbers[i][j] == if j < m.rows then m.numbers[m.rows - 1 - j][m.columns - 1 - i]
                                 else m.numbers[m.rows - 1 - i][m.columns - 1 - j]
    ensures m.IsSquare() ==> r == AntiTranspose(m)
  {
    var h := HorizontalTranspose(m);
    var v := VerticalTranspose(h);
    r := DiagonalTranspose(v);
    if m.IsSquare() {
      SameCells(r, AntiTranspose(m));
    }
  }

  // ---- Involutions and compositions ----

  /** Transposing twice restores the matrix. */
  lemma TransposeInvolution(m: Matrix)
    requires m.IsSquare()
    ensures Transpose(Transpose(m)) == m
  {
    SameCells(Transpose(Transpose(m)), m);
  }

  /** Mirroring the rows twice restores the matrix. */
  lemma MirrorRowsInvolution(m: Matrix)
    requires m.Valid()
    ensures MirrorRows(MirrorRows(m)) == m
  {
    SameCells(MirrorRows(MirrorRows(m)), m);
  }

  /** Mirroring the columns twice restores the matrix. */
  lemma MirrorColumnsInvolution(m: Matrix)
    requires m.Valid()
    ensures MirrorColumns(MirrorColumns(m)) == m
  {
    SameCells(MirrorColumns(MirrorColumns(m)), m);
  }

  /** The side-diagonal transpose applied twice restores the matrix. */
  lemma AntiTransposeInvolution(m: Matrix)
    requires m.IsSquare()
    ensures AntiTranspose(AntiTranspose(m)) == m
  {
    SameCells(AntiTranspose(AntiTranspose(m)), m);
  }

  /** Mirroring rows, then columns, then transposing is the anti-diagonal reflection. */
  lemma AntiTransposeIsComposition(m: Matrix)
    requires m.IsSquare()
    ensures Transpose(MirrorColumns(MirrorRows(m))) == AntiTranspose(m)
  {
    SameCells(Transpose(MirrorColumns(MirrorRows(m))), AntiTranspose(m));
  }

  lemma {:induction false} DiagonalSumTranspose(m: Matrix, n: nat)
    requires m.IsSquare() && n <= m.rows
    ensures Arithmetic.DiagonalSum(Transpose(m).numbers, n) == Arithmetic.DiagonalSum(m.numbers, n)
  {
    if n > 0 {
      DiagonalSumTranspose(m, n - 1);
    }
  }

  /** Transposing keeps the trace. */
  lemma TraceTranspose(m: Matrix)
    requires m.IsSquare()
    ensures Arithmetic.TraceOf(Transpose(m)) == Arithmetic.TraceOf(m)
  {
    DiagonalSumTranspose(m, m.rows);
  }
}
