/**
 Minor extraction and the determinant: the recursive method of the
 original, with its 1x1 and 2x2 base cases, proved equal to the cofactor
 expansion along the first row.
 */
module Determinants {
  import opened Matrices
  import Arithmetic
  import Transposes

  /**
   Removes s[k] the way `minor` removes a row: the original tests whether
   `k` is before the last index and slices the last index separately.
   Both branches are ordinary deletion.
   */
  function DropRow<T>(s: seq<T>, k: nat): (r: seq<T>)
    requires k < |s|
    ensures r == s[..k] + s[k + 1..]
    ensures |r| == |s| - 1
    ensures forall i :: 0 <= i < |r| ==> r[i] == s[if i < k then i else i + 1]
  {
    if k < |s| - 1 then s[..k] + s[k + 1..] else s[..k]
  }

  /**
   Removes s[k] the way `minor` removes a cell from a row: the original tests
   `k < len(row)` and otherwise keeps the prefix, which for k == |s| is the
   whole row. The original's slice would also accept k > |s| (and keep the
   whole row); `Minor` never passes such a k, so the requires stops at |s|.
   */
  function DropCell<T>(s: seq<T>, k: nat): (r: seq<T>)
    requires k <= |s|
    ensures k < |s| ==> r == s[..k] + s[k + 1..]
    ensures k < |s| ==> |r| == |s| - 1 && forall i :: 0 <= i < |r| ==> r[i] == s[if i < k then i else i + 1]
    ensures k == |s| ==> r == s
  {
    if k < |s| then s[..k] + s[k + 1..] else s[..k]
  }

  /** `s` with element `k` deleted, later elements shifting down by one. */
  function Without<T>(s: seq<T>, k: nat): (r: seq<T>)
    requires k < |s|
    ensures |r| == |s| - 1
    ensures forall j :: 0 <= j < |r| ==> r[j] == s[if j < k then j else j + 1]
  {
    seq(|s| - 1, j requires 0 <= j < |s| - 1 => s[if j < k then j else j + 1])
  }

  /**
   The matrix without row `row` and column `column`, cell by cell: the
   reference definition the slicing in `Minor` is proved against.
   */
  function Submatrix(m: Matrix, row: nat, column: nat): (r: Matrix)
    requires m.Valid() && row < m.rows && column < m.columns
    ensures r.Valid() && r.rows == m.rows - 1 && r.columns == m.columns - 1
    ensures forall i, j {:trigger r.numbers[i][j]} :: 0 <= i < r.rows && 0 <= j < r.columns ==>
              r.numbers[i][j] == m.numbers[if i < row then i else i + 1][if j < column then j else j + 1]
  {
    var g := seq(m.rows - 1, i requires 0 <= i < m.rows - 1 => Without(m.numbers[if i < row then i else i + 1], column));
    assert forall i :: 0 <= i < m.rows - 1 ==>
             g[i] == Without(m.numbers[if i < row then i else i + 1], column) && |g[i]| == m.columns - 1;
    Matrix(m.rows - 1, m.columns - 1, g)
  }

  /**
   `minor`: slices row `row` out of the grid, then slices cell `column` out of
   every remaining row. Cell (i, j) of the result is the original cell whose
   indices are shifted past the deleted row and column.
   */
  method Minor(m: Matrix, row: nat, column: nat) returns (r: Matrix)
    requires m.Valid() && row < m.rows && column < m.columns
    ensures r.Valid() && r.Dimensions() == (m.rows - 1, m.columns - 1)
    ensures forall i, j {:trigger r.numbers[i][j]} :: 0 <= i < r.rows && 0 <= j < r.columns ==>
              r.numbers[i][j] == m.numbers[if i < row then i else i + 1][if j < column then j else j + 1]
    ensures r == Submatrix(m, row, column)
  {
    var kept := DropRow(m.numbers, row);
    for i := 0 to |kept|
      invariant |kept| == m.rows - 1
      invariant forall x :: 0 <= x < i ==> kept[x] == Submatrix(m, row, column).numbers[x]
      invariant forall x :: i <= x < |kept| ==> kept[x] == m.numbers[if x < row then x else x + 1]
    {
      kept := kept[i := DropCell(kept[i], column)];
    }
    r := Matrix(m.rows - 1, m.columns - 1, kept);
  }

  /** The alternating sign (-1)^k. */
  function Sign(k: nat): real {
    if k % 2 == 0 then 1.0 else -1.0
  }

  /**
   Sum over c < k of (-1)^c * dets[c] * row[c]: the first k terms of an
   expansion along a row whose minors have determinants `dets`.
   */
  function AlternatingSum(row: seq<real>, dets: seq<real>, k: nat): real
    requires k <= |row| && k <= |dets|
  {
    if k == 0 then 0.0 else AlternatingSum(row, dets, k - 1) + Sign(k - 1) * dets[k - 1] * row[k - 1]
  }

  /** The determinants of the minors along the first row, minor(0, c) for every column c. */
  function FirstRowMinorDets(m: Matrix): (r: seq<real>)
    requires m.IsSquare() && m.rows >= 2
    decreases m.rows, 0
  {
    seq(m.columns, c requires 0 <= c < m.columns => Det(Submatrix(m, 0, c)))
  }

  /**
   The determinant as a reference definition: the sole cell of a 1x1
   matrix, and otherwise the cofactor (Laplace) expansion along the first
   row. The original computes the same value, with the 2x2 closed form as a
   shortcut (`DetTwoByTwo`). An empty matrix has no determinant: the
   original reads `numbers[0]` before anything else.
   */
  function Det(m: Matrix): real
    requires m.IsSquare() && m.rows >= 1
    decreases m.rows, 1
  {
    if m.rows == 1 then m.numbers[0][0]
    else AlternatingSum(m.numbers[0], FirstRowMinorDets(m), m.columns)
  }

  /**
   `dets` lists the determinants of the first-row minors of `m`. Each entry
   is tied to its minor only where that minor is mentioned, which keeps
   proofs about one minor from unfolding all the others.
   */
  predicate AreMinorDets(m: Matrix, dets: seq<real>)
    requires m.IsSquare() && m.rows >= 2
  {
    |dets| == m.columns &&
    forall c {:trigger Submatrix(m, 0, c)} :: 0 <= c < m.columns ==> dets[c] == Det(Submatrix(m, 0, c))
  }

  lemma DetUnfold(m: Matrix)
    requires m.IsSquare() && m.rows >= 2
    ensures Det(m) == AlternatingSum(m.numbers[0], FirstRowMinorDets(m), m.columns)
  {
  }

  lemma MinorDets(m: Matrix)
    requires m.IsSquare() && m.rows >= 2
    ensures AreMinorDets(m, FirstRowMinorDets(m))
  {
  }

  /**
   `determinant`: the original's recursive method. The 2x2 and 1x1 cases
   are answered directly; every other shape goes to the loop over the first
   row.
   */
  method Determinant(m: Matrix) returns (d: real)
    requires m.IsSquare() && m.rows >= 1
    ensures d == Det(m)
    decreases m.rows, 2
  {
    if |m.numbers| == 2 && |m.numbers[0]| == 2 {
      DetTwoByTwo(m);
      return m.numbers[0][0] * m.numbers[1][1] - m.numbers[1][0] * m.numbers[0][1];
    } else if m.Dimensions() == (1, 1) {
      return m.numbers[0][0];
    }
    MinorDets(m);
    d := ExpandFirstRow(m, FirstRowMinorDets(m));
  }

  /**
   The loop of `determinant`: for every column c of the first row, the
   determinant of minor(0, c) times the sign (-1)^c and the cell,
   accumulated into a running total.
   */
  method ExpandFirstRow(m: Matrix, ghost dets: seq<real>) returns (total: real)
    requires m.IsSquare() && m.rows >= 2 && AreMinorDets(m, dets)
    ensures total == AlternatingSum(m.numbers[0], dets, m.columns)
    decreases m.rows, 1
  {
    total := 0.0;
    for c := 0 to |m.numbers[0]|
      invariant total == AlternatingSum(m.numbers[0], dets, c)
    {
      var sub := MinorDeterminant(m, c, dets);
      var sign := Sign(c);
      AlternatingSumStep(m.numbers[0], dets, c, sign, sub, m.numbers[0][c]);
      total := total + sign * sub * m.numbers[0][c];
    }
  }

  /** One step of the loop: the minor without row 0 and column c, and its determinant by recursion. */
  method MinorDeterminant(m: Matrix, c: nat, ghost dets: seq<real>) returns (d: real)
    requires m.IsSquare() && m.rows >= 2 && c < m.columns && AreMinorDets(m, dets)
    ensures d == dets[c]
    decreases m.rows, 0
  {
    var minor := Minor(m, 0, c);
    d := Determinant(minor);
  }

  // ---- Alternating sums ----

  lemma AlternatingSumStep(row: seq<real>, dets: seq<real>, k: nat, s: real, d: real, x: real)
    requires k < |row| && k < |dets|
    requires s == Sign(k) && d == dets[k] && x == row[k]
    ensures AlternatingSum(row, dets, k + 1) == AlternatingSum(row, dets, k) + s * d * x
  {
  }

  lemma {:induction false} AlternatingSumZero(row: seq<real>, dets: seq<real>, k: nat)
    requires k <= |row| && k <= |dets|
    requires forall c :: 0 <= c < k ==> row[c] == 0.0 || dets[c] == 0.0
    ensures AlternatingSum(row, dets, k) == 0.0
  {
    if k > 0 {
      AlternatingSumZero(row, dets, k - 1);
    }
  }

  lemma {:induction false} AlternatingSumFirstOnly(row: seq<real>, dets: seq<real>, k: nat)
    requires 1 <= k <= |row| && k <= |dets|
    requires forall c :: 1 <= c < k ==> row[c] == 0.0
    ensures AlternatingSum(row, dets, k) == row[0] * dets[0]
  {
    if k > 1 {
      AlternatingSumFirstOnly(row, dets, k - 1);
    }
  }

  lemma {:induction false} AlternatingSumScale(row: seq<real>, dets: seq<real>, row': seq<real>, dets': seq<real>, a: real, b: real, k: nat)
    requires k <= |row| && k <= |dets| && k <= |row'| && k <= |dets'|
    requires forall c :: 0 <= c < k ==> row'[c] == row[c] * a && dets'[c] == dets[c] * b
    ensures AlternatingSum(row', dets', k) == AlternatingSum(row, dets, k) * (a * b)
  {
    if k > 0 {
      AlternatingSumScale(row, dets, row', dets', a, b, k - 1);
      var s, d, x := Sign(k - 1), dets[k - 1], row[k - 1];
      var p := AlternatingSum(row, dets, k - 1);
      ScaledTerm(s, d, x, a, b);
      MulDistributes(p, s * d * x, a * b);
    }
  }

  /**
   The two rearrangements of one step of `AlternatingSumScale`, in isolation:
   asserted inside the induction they leave the solver unable to finish.
   */
  lemma ScaledTerm(s: real, d: real, x: real, a: real, b: real)
    ensures s * (d * b) * (x * a) == (s * d * x) * (a * b)
  {
  }

  lemma MulDistributes(p: real, q: real, c: real)
    ensures (p + q) * c == p * c + q * c
  {
  }

  // ---- Properties of the determinant ----

  /** The closed form the original uses for 2x2 matrices is the expansion's value. */
  lemma DetTwoByTwo(m: Matrix)
    requires m.IsSquare() && m.rows == 2
    ensures Det(m) == m.numbers[0][0] * m.numbers[1][1] - m.numbers[1][0] * m.numbers[0][1]
  {
    var dets := FirstRowMinorDets(m);
    MinorDets(m);
    var m0, m1 := Submatrix(m, 0, 0), Submatrix(m, 0, 1);
    assert dets[0] == m.numbers[1][1];
    assert dets[1] == m.numbers[1][0];
    AlternatingSumStep(m.numbers[0], dets, 0, 1.0, dets[0], m.numbers[0][0]);
    AlternatingSumStep(m.numbers[0], dets, 1, -1.0, dets[1], m.numbers[0][1]);
  }

  /** The expansion of a 3x3 matrix, written out over its nine cells. */
  lemma DetThreeByThree(m: Matrix)
    requires m.IsSquare() && m.rows == 3
    ensures var g := m.numbers;
      Det(m) == g[0][0] * (g[1][1] * g[2][2] - g[2][1] * g[1][2])
              - g[0][1] * (g[1][0] * g[2][2] - g[2][0] * g[1][2])
              + g[0][2] * (g[1][0] * g[2][1] - g[2][0] * g[1][1])
  {
    var g := m.numbers;
    var dets := FirstRowMinorDets(m);
    MinorDets(m);
    DetUnfold(m);
    DetTwoByTwo(Submatrix(m, 0, 0));
    DetTwoByTwo(Submatrix(m, 0, 1));
    DetTwoByTwo(Submatrix(m, 0, 2));
    assert dets[0] == g[1][1] * g[2][2] - g[2][1] * g[1][2];
    assert dets[1] == g[1][0] * g[2][2] - g[2][0] * g[1][2];
    assert dets[2] == g[1][0] * g[2][1] - g[2][0] * g[1][1];
    AlternatingSumStep(g[0], dets, 0, 1.0, dets[0], g[0][0]);
    AlternatingSumStep(g[0], dets, 1, -1.0, dets[1], g[0][1]);
    AlternatingSumStep(g[0], dets, 2, 1.0, dets[2], g[0][2]);
  }

  /**
   Transposing leaves the determinant unchanged, for matrices up to 3x3
   where the expansion can be written out cell by cell.
   */
  lemma DetTransposeSmall(m: Matrix)
    requires m.IsSquare() && 1 <= m.rows <= 3
    ensures Det(Transposes.Transpose(m)) == Det(m)
  {
    if m.rows == 1 {
      assert Transposes.Transpose(m).numbers[0][0] == m.numbers[0][0];
    } else if m.rows == 2 {
      DetTransposeTwoByTwo(m);
    } else {
      DetTransposeThreeByThree(m);
    }
  }

  lemma DetTransposeTwoByTwo(m: Matrix)
    requires m.IsSquare() && m.rows == 2
    ensures Det(Transposes.Transpose(m)) == Det(m)
  {
    var g := m.numbers;
    var a, b, c, d := g[0][0], g[0][1], g[1][0], g[1][1];
    DetTwoByTwoCells(m, a, b, c, d);
    DetTwoByTwoCells(Transposes.Transpose(m), a, c, b, d);
    assert a * d - c * b == a * d - b * c;
  }

  lemma DetTransposeThreeByThree(m: Matrix)
    requires m.IsSquare() && m.rows == 3
    ensures Det(Transposes.Transpose(m)) == Det(m)
  {
    var g := m.numbers;
    var a, b, c, d, e, f, h, k, i := g[0][0], g[0][1], g[0][2], g[1][0], g[1][1], g[1][2], g[2][0], g[2][1], g[2][2];
    DetThreeByThreeCells(m, a, b, c, d, e, f, h, k, i);
    DetThreeByThreeCells(Transposes.Transpose(m), a, d, h, b, e, k, c, f, i);
    ThreeByThreeSymmetric(a, b, c, d, e, f, h, k, i);
  }

  /** `DetTwoByTwo` for a matrix whose cells are given by name. */
  lemma DetTwoByTwoCells(m: Matrix, a: real, b: real, c: real, d: real)
    requires m.IsSquare() && m.rows == 2
    requires m.numbers[0][0] == a && m.numbers[0][1] == b && m.numbers[1][0] == c && m.numbers[1][1] == d
    ensures Det(m) == a * d - c * b
  {
    DetTwoByTwo(m);
  }

  /** `DetThreeByThree` for a matrix whose cells are given by name. */
  lemma DetThreeByThreeCells(m: Matrix, a: real, b: real, c: real, d: real, e: real, f: real, g: real, h: real, i: real)
    requires m.IsSquare() && m.rows == 3
    requires m.numbers[0][0] == a && m.numbers[0][1] == b && m.numbers[0][2] == c
    requires m.numbers[1][0] == d && m.numbers[1][1] == e && m.numbers[1][2] == f
    requires m.numbers[2][0] == g && m.numbers[2][1] == h && m.numbers[2][2] == i
    ensures Det(m) == a * (e * i - h * f) - b * (d * i - g * f) + c * (d * h - g * e)
  {
    DetThreeByThree(m);
  }

  /** The nine-cell expansion takes the same value on the mirrored cells. */
  lemma ThreeByThreeSymmetric(a: real, b: real, c: real, d: real, e: real, f: real, g: real, h: real, i: real)
    ensures a * (e * i - h * f) - b * (d * i - g * f) + c * (d * h - g * e)
         == a * (e * i - f * h) - d * (b * i - c * h) + g * (b * f - c * e)
  {
  }

  /** A matrix with a row of zeros has determinant zero, whichever row it is. */
  lemma {:induction false} DetZeroRow(m: Matrix, z: nat)
    requires m.IsSquare() && m.rows >= 1 && z < m.rows
    requires forall j :: 0 <= j < m.columns ==> m.numbers[z][j] == 0.0
    ensures Det(m) == 0.0
    decreases m.rows
  {
    if m.rows >= 2 {
      var dets := FirstRowMinorDets(m);
      MinorDets(m);
      forall c | 0 <= c < m.columns
        ensures m.numbers[0][c] == 0.0 || dets[c] == 0.0
      {
        if z > 0 {
          var mn, zr := Submatrix(m, 0, c), z - 1;
          assert forall j :: 0 <= j < mn.columns ==> mn.numbers[zr][j] == 0.0;
          DetZeroRow(mn, zr);
        }
      }
      AlternatingSumZero(m.numbers[0], dets, m.columns);
    }
  }

  /** Product of g[i][i] for i < n. */
  function DiagonalProduct(g: Grid, n: nat): real
    requires n <= |g| && forall i :: 0 <= i < n ==> i < |g[i]|
  {
    if n == 0 then 1.0 else DiagonalProduct(g, n - 1) * g[n - 1][n - 1]
  }

  /** Every cell above the main diagonal is zero. */
  predicate LowerTriangular(m: Matrix)
    requires m.IsSquare()
  {
    forall i, j :: 0 <= i < j < m.rows ==> m.numbers[i][j] == 0.0
  }

  lemma {:induction false} DiagonalProductShift(m: Matrix, k: nat)
    requires m.IsSquare() && m.rows >= 1 && k < m.rows
    ensures DiagonalProduct(m.numbers, k + 1) == m.numbers[0][0] * DiagonalProduct(Submatrix(m, 0, 0).numbers, k)
  {
    if k > 0 {
      DiagonalProductShift(m, k - 1);
      var mn := Submatrix(m, 0, 0);
      var p, x := DiagonalProduct(mn.numbers, k - 1), m.numbers[k][k];
      assert mn.numbers[k - 1][k - 1] == x;
      assert DiagonalProduct(mn.numbers, k) == p * x;
      assert DiagonalProduct(m.numbers, k + 1) == (m.numbers[0][0] * p) * x;
      assert (m.numbers[0][0] * p) * x == m.numbers[0][0] * (p * x);
    }
  }

  /** The determinant of a lower-triangular matrix is the product of its diagonal. */
  lemma {:induction false} DetLowerTriangular(m: Matrix)
    requires m.IsSquare() && m.rows >= 1 && LowerTriangular(m)
    ensures Det(m) == DiagonalProduct(m.numbers, m.rows)
    decreases m.rows
  {
    if m.rows == 1 {
      assert DiagonalProduct(m.numbers, 1) == 1.0 * m.numbers[0][0];
    } else {
      var mn := Submatrix(m, 0, 0);
      MinorLowerTriangular(m);
      DetLowerTriangular(mn);
      var dets := FirstRowMinorDets(m);
      MinorDets(m);
      AlternatingSumFirstOnly(m.numbers[0], dets, m.columns);
      DiagonalProductShift(m, m.rows - 1);
    }
  }

  /** Deleting the first row and column of a lower-triangular matrix leaves it lower triangular. */
  lemma MinorLowerTriangular(m: Matrix)
    requires m.IsSquare() && m.rows >= 1 && LowerTriangular(m)
    ensures LowerTriangular(Submatrix(m, 0, 0))
  {
    var mn := Submatrix(m, 0, 0);
    forall i, j | 0 <= i < j < mn.rows
      ensures mn.numbers[i][j] == 0.0
    {
      assert mn.numbers[i][j] == m.numbers[i + 1][j + 1];
    }
  }

  lemma {:induction false} DiagonalProductIdentity(n: nat, k: nat)
    requires k <= n
    ensures DiagonalProduct(Identity(n).numbers, k) == 1.0
  {
    if k > 0 {
      DiagonalProductIdentity(n, k - 1);
    }
  }

  /** The identity matrix has determinant one. */
  lemma DetIdentity(n: nat)
    requires n >= 1
    ensures Det(Identity(n)) == 1.0
  {
    DetLowerTriangular(Identity(n));
    DiagonalProductIdentity(n, n);
  }

  /** k to the power n. */
  function Power(k: real, n: nat): real {
    if n == 0 then 1.0 else k * Power(k, n - 1)
  }

  lemma MinorScale(m: Matrix, k: real, row: nat, column: nat)
    requires m.Valid() && row < m.rows && column < m.columns
    ensures Submatrix(Arithmetic.Scale(m, k), row, column) == Arithmetic.Scale(Submatrix(m, row, column), k)
  {
    SameCells(Submatrix(Arithmetic.Scale(m, k), row, column), Arithmetic.Scale(Submatrix(m, row, column), k));
  }

  /** Scaling by k scales the determinant of first-row minor c by k^(n-1). */
  lemma {:induction false} ScaledMinorDet(m: Matrix, k: real, c: nat, dets: seq<real>, dets': seq<real>, p: real)
    requires m.IsSquare() && m.rows >= 2 && c < m.columns
    requires AreMinorDets(m, dets) && AreMinorDets(Arithmetic.Scale(m, k), dets')
    requires p == Power(k, m.rows - 1)
    ensures dets'[c] == dets[c] * p
    decreases m.rows, 0, 0
  {
    var sub := Submatrix(m, 0, c);
    assert p == Power(k, sub.rows);
    MinorScale(m, k, 0, c);
    assert dets[c] == Det(sub);
    assert dets'[c] == Det(Arithmetic.Scale(sub, k));
    DetScale(sub, k);
  }

  /** The expansion of the scaled matrix is k^n times the expansion of the original. */
  lemma {:induction false} ExpansionScale(m: Matrix, k: real, dets: seq<real>, dets': seq<real>)
    requires m.IsSquare() && m.rows >= 2
    requires AreMinorDets(m, dets) && AreMinorDets(Arithmetic.Scale(m, k), dets')
    ensures AlternatingSum(Arithmetic.Scale(m, k).numbers[0], dets', Arithmetic.Scale(m, k).columns)
         == AlternatingSum(m.numbers[0], dets, m.columns) * Power(k, m.rows)
    decreases m.rows, 1, 0
  {
    var s := Arithmetic.Scale(m, k);
    var p := Power(k, m.rows - 1);
    ScaledMinorDets(m, k, dets, dets', p);
    AlternatingSumScale(m.numbers[0], dets, s.numbers[0], dets', k, p, m.columns);
    assert k * p == Power(k, m.rows);
  }

  lemma {:induction false} ScaledMinorDets(m: Matrix, k: real, dets: seq<real>, dets': seq<real>, p: real)
    requires m.IsSquare() && m.rows >= 2
    requires AreMinorDets(m, dets) && AreMinorDets(Arithmetic.Scale(m, k), dets')
    requires p == Power(k, m.rows - 1)
    ensures forall c :: 0 <= c < m.columns ==>
              Arithmetic.Scale(m, k).numbers[0][c] == m.numbers[0][c] * k && dets'[c] == dets[c] * p
    decreases m.rows, 0, 1
  {
    forall c | 0 <= c < m.columns
      ensures dets'[c] == dets[c] * p
    {
      ScaledMinorDet(m, k, c, dets, dets', p);
    }
  }

  /** Scaling an n x n matrix by k scales its determinant by k^n. */
  lemma {:induction false} DetScale(m: Matrix, k: real)
    requires m.IsSquare() && m.rows >= 1
    ensures Det(Arithmetic.Scale(m, k)) == Det(m) * Power(k, m.rows)
    decreases m.rows, 2, 0
  {
    if m.rows == 1 {
      assert Power(k, 1) == k;
    } else {
      var s := Arithmetic.Scale(m, k);
      MinorDets(m);
      MinorDets(s);
      DetUnfold(m);
      DetUnfold(s);
      ExpansionScale(m, k, FirstRowMinorDets(m), FirstRowMinorDets(s));
    }
  }
}
