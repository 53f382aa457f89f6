/**
 The cofactor matrix and the inverse. A square matrix with nonzero
 determinant d has the inverse adj(m) / d, where the adjugate adj(m) is the
 transposed matrix of cofactors; a zero determinant is reported as
 `Singular`. The original fails on 1x1 matrices (see `InvertedAsWritten`);
 `Inverse` is the corrected definition.
 */
module Inversion {
  import opened Matrices
  import Arithmetic
  import Transposes
  import opened Determinants

  /**
   The determinant of the minor without row r and column c. A 1x1 matrix has
   an empty minor, whose determinant is 1 by the usual convention.
   */
  function MinorDet(m: Matrix, r: nat, c: nat): real
    requires m.IsSquare() && r < m.rows && c < m.columns
  {
    if m.rows == 1 then 1.0 else Det(Submatrix(m, r, c))
  }

  /** The cofactor (-1)^(r+c) * det(minor(r, c)). */
  function Cofactor(m: Matrix, r: nat, c: nat): real
    requires m.IsSquare() && r < m.rows && c < m.columns
  {
    MinorDet(m, r, c) * Sign(r + c)
  }

  function CofactorRow(m: Matrix, r: nat): (row: seq<real>)
    requires m.IsSquare() && r < m.rows
    ensures |row| == m.columns
    ensures forall c :: 0 <= c < m.columns ==> row[c] == Cofactor(m, r, c)
  {
    seq(m.columns, c requires 0 <= c < m.columns => Cofactor(m, r, c))
  }

  /** The matrix of cofactors, the reference for `CofactorMatrix`. */
  function Cofactors(m: Matrix): (r: Matrix)
    requires m.IsSquare()
    ensures r.IsSquare() && r.rows == m.rows
    ensures forall i, j {:trigger r.numbers[i][j]} :: 0 <= i < m.rows && 0 <= j < m.rows ==>
              r.numbers[i][j] == Cofactor(m, i, j)
  {
    var g := seq(m.rows, i requires 0 <= i < m.rows => CofactorRow(m, i));
    assert forall i :: 0 <= i < m.rows ==> g[i] == CofactorRow(m, i) && |g[i]| == m.rows;
    Matrix(m.rows, m.columns, g)
  }

  /** The adjugate: the cofactor matrix reflected about the main diagonal. */
  function Adjugate(m: Matrix): (r: Matrix)
    requires m.IsSquare()
    ensures r.IsSquare() && r.rows == m.rows
    ensures forall i, j {:trigger r.numbers[i][j]} :: 0 <= i < m.rows && 0 <= j < m.rows ==>
              r.numbers[i][j] == Cofactor(m, j, i)
  {
    Transposes.Transpose(Cofactors(m))
  }

  /**
   `cofactor_matrix`: a zero matrix filled cell by cell with the determinant
   of minor(r, c) times (-1)^(r+c). On a 1x1 matrix the original asks the
   empty minor for its determinant and fails, so at least two rows are
   required here; `InvertedAsWritten` records that failure.
   */
  method CofactorMatrix(m: Matrix) returns (cof: Matrix)
    requires m.IsSquare() && m.rows >= 2
    ensures cof == Cofactors(m)
  {
    var g := Blank(m.rows, m.columns).numbers;
    for r := 0 to m.rows
      invariant |g| == m.rows && forall i :: 0 <= i < m.rows ==> |g[i]| == m.columns
      invariant forall i, j {:trigger g[i][j]} :: 0 <= i < r && 0 <= j < m.columns ==> g[i][j] == Cofactor(m, i, j)
    {
      for c := 0 to m.columns
        invariant |g| == m.rows && forall i :: 0 <= i < m.rows ==> |g[i]| == m.columns
        invariant forall i, j {:trigger g[i][j]} :: 0 <= i < r && 0 <= j < m.columns ==> g[i][j] == Cofactor(m, i, j)
        invariant forall j :: 0 <= j < c ==> g[r][j] == Cofactor(m, r, j)
      {
        var sub := Minor(m, r, c);
        var sign := Sign(r + c);
        var d := Determinant(sub);
        g := g[r := g[r][c := d * sign]];
      }
    }
    cof := Matrix(m.rows, m.columns, g);
    SameCells(cof, Cofactors(m));
  }

  /**
   The inverse: `Singular` exactly when the determinant is zero, and
   otherwise the adjugate scaled by the reciprocal of the determinant.
   */
  function Inverse(m: Matrix): (r: Outcome)
    requires m.IsSquare() && m.rows >= 1
    ensures r.Err? <==> Det(m) == 0.0
    ensures r.Err? ==> r.error == Singular
    ensures r.Ok? ==> r.value.IsSquare() && r.value.rows == m.rows
    ensures r.Ok? ==> forall i, j {:trigger r.value.numbers[i][j]} :: 0 <= i < m.rows && 0 <= j < m.rows ==>
              r.value.numbers[i][j] == Cofactor(m, j, i) / Det(m)
  {
    var d := Det(m);
    if d == 0.0 then Err(Singular)
    else
      DivideCells(Adjugate(m), d);
      Ok(Arithmetic.Scale(Adjugate(m), 1.0 / d))
  }

  /** Scaling by the reciprocal of d divides every cell by d. */
  lemma DivideCells(a: Matrix, d: real)
    requires a.Valid() && d != 0.0
    ensures forall i, j {:trigger Arithmetic.Scale(a, 1.0 / d).numbers[i][j]} :: 0 <= i < a.rows && 0 <= j < a.columns ==>
              Arithmetic.Scale(a, 1.0 / d).numbers[i][j] == a.numbers[i][j] / d
  {
    var s := Arithmetic.Scale(a, 1.0 / d);
    forall i, j | 0 <= i < a.rows && 0 <= j < a.columns
      ensures s.numbers[i][j] == a.numbers[i][j] / d
    {
      assert a.numbers[i][j] * (1.0 / d) == a.numbers[i][j] / d;
    }
  }

  /**
   `inverted` as the original computes it. A zero determinant gives the
   "no inverse" message. A 1x1 matrix with nonzero determinant fails with
   an index error: its cofactor is the determinant of the empty minor, and
   `determinant` reads the first row of an empty grid. Every larger
   nonsingular matrix gets the adjugate scaled by 1/det.
   */
  function InvertedAsWritten(m: Matrix): (r: Outcome)
    requires m.IsSquare() && m.rows >= 1
    ensures r == Err(Singular) <==> Det(m) == 0.0
    ensures r == Err(IndexOutOfRange) <==> Det(m) != 0.0 && m.rows == 1
    ensures r.Ok? <==> Det(m) != 0.0 && m.rows >= 2
    ensures r.Ok? ==> r == Inverse(m)
  {
    if Det(m) == 0.0 then Err(Singular)
    else if m.rows == 1 then Err(IndexOutOfRange)
    else Ok(Arithmetic.Scale(Transposes.Transpose(Cofactors(m)), 1.0 / Det(m)))
  }

  /**
   The method of the original: the determinant test, the cofactor matrix,
   its in-place diagonal transpose, then multiplication by 1/det. The
   determinant is computed a second time for the reciprocal, as in the
   original.
   */
  method Inverted(m: Matrix) returns (r: Outcome)
    requires m.IsSquare() && m.rows >= 1
    ensures r == InvertedAsWritten(m)
  {
    var d := Determinant(m);
    if d == 0.0 {
      return Err(Singular);
    }
    if m.rows == 1 {
      // cofactor_matrix asks the empty minor for its determinant
      return Err(IndexOutOfRange);
    }
    var cof := CofactorMatrix(m);
    var t := Transposes.DiagonalTranspose(cof);
    var inverseDet := Determinant(m);
    r := Ok(Arithmetic.Scale(t, 1.0 / inverseDet));
  }

  // ---- The original against the corrected definition ----

  /** From two rows on, the original computes exactly the corrected inverse. */
  lemma InvertedAsWrittenAgrees(m: Matrix)
    requires m.IsSquare() && m.rows >= 2
    ensures InvertedAsWritten(m) == Inverse(m)
  {
  }

  /**
   The 1x1 matrix [[a]] with a != 0 has the inverse [[1/a]], which the
   corrected definition returns; the original fails on it instead.
   */
  lemma OneByOneInverse(a: real)
    requires a != 0.0
    ensures InvertedAsWritten(FromRows(1, 1, [[a]])) == Err(IndexOutOfRange)
    ensures Inverse(FromRows(1, 1, [[a]])) == Ok(FromRows(1, 1, [[1.0 / a]]))
    ensures Arithmetic.Product(FromRows(1, 1, [[a]]), FromRows(1, 1, [[1.0 / a]])) == Identity(1)
  {
    var m, n := FromRows(1, 1, [[a]]), FromRows(1, 1, [[1.0 / a]]);
    assert Det(m) == a;
    assert Cofactor(m, 0, 0) == 1.0;
    SameCells(Inverse(m).value, n);
    assert Arithmetic.Dot(m, n, 0, 0, 1) == a * (1.0 / a);
    SameCells(Arithmetic.Product(m, n), Identity(1));
  }

  // ---- Properties of the inverse ----

  /** Column 0 of the adjugate holds the signed determinants of the first-row minors. */
  lemma AdjugateFirstColumn(m: Matrix, dets: seq<real>, c: nat)
    requires m.IsSquare() && m.rows >= 2 && AreMinorDets(m, dets) && c < m.columns
    ensures Adjugate(m).numbers[c][0] == dets[c] * Sign(c)
  {
    assert Adjugate(m).numbers[c][0] == Cofactor(m, 0, c);
    assert dets[c] == Det(Submatrix(m, 0, c));
  }

  /**
   Row 0 of `a` times column 0 of `b`, over the first k terms, when column 0
   of `b` holds the signed values `dets`: the first k terms of the expansion.
   */
  lemma {:induction false} DotSignedColumn(a: Matrix, b: Matrix, dets: seq<real>, k: nat)
    requires a.Valid() && b.Valid() && a.columns == b.rows && 1 <= a.rows && 1 <= b.columns
    requires k <= a.columns && k <= |dets|
    requires forall c :: 0 <= c < k ==> b.numbers[c][0] == dets[c] * Sign(c)
    ensures Arithmetic.Dot(a, b, 0, 0, k) == AlternatingSum(a.numbers[0], dets, k)
  {
    if k > 0 {
      DotSignedColumn(a, b, dets, k - 1);
      var x, d, s := a.numbers[0][k - 1], dets[k - 1], Sign(k - 1);
      assert x * (d * s) == s * d * x;
    }
  }

  /** The top-left cell of m * adj(m) is the determinant: the expansion along the first row. */
  lemma ProductAdjugateCorner(m: Matrix)
    requires m.IsSquare() && m.rows >= 1
    ensures Arithmetic.Product(m, Adjugate(m)).numbers[0][0] == Det(m)
  {
    if m.rows == 1 {
      OneByOneCorner(m);
    } else {
      MinorDets(m);
      DetUnfold(m);
      CornerExpansion(m, FirstRowMinorDets(m));
    }
  }

  lemma OneByOneCorner(m: Matrix)
    requires m.IsSquare() && m.rows == 1
    ensures Arithmetic.Product(m, Adjugate(m)).numbers[0][0] == m.numbers[0][0]
  {
    var adj := Adjugate(m);
    assert adj.numbers[0][0] == Cofactor(m, 0, 0) == 1.0;
    assert Arithmetic.Dot(m, adj, 0, 0, 1) == 0.0 + m.numbers[0][0] * 1.0;
  }

  lemma CornerExpansion(m: Matrix, dets: seq<real>)
    requires m.IsSquare() && m.rows >= 2 && AreMinorDets(m, dets)
    ensures Arithmetic.Product(m, Adjugate(m)).numbers[0][0] == AlternatingSum(m.numbers[0], dets, m.columns)
  {
    var adj := Adjugate(m);
    forall c | 0 <= c < m.columns
      ensures adj.numbers[c][0] == dets[c] * Sign(c)
    {
      AdjugateFirstColumn(m, dets, c);
    }
    DotSignedColumn(m, adj, dets, m.columns);
  }

  /** The top-left cell of m times its inverse is 1. */
  lemma InverseCorner(m: Matrix)
    requires m.IsSquare() && m.rows >= 1 && Inverse(m).Ok?
    ensures Arithmetic.Product(m, Inverse(m).value).numbers[0][0] == 1.0
  {
    var d := Det(m);
    var adj := Adjugate(m);
    Arithmetic.ProductScaleRight(m, adj, 1.0 / d);
    ProductAdjugateCorner(m);
    assert Arithmetic.Product(m, Inverse(m).value).numbers[0][0] == d * (1.0 / d);
  }

  /** The four cofactors of a 2x2 matrix [[a, b], [c, d]] are d, -c, -b and a. */
  lemma TwoByTwoCofactors(m: Matrix)
    requires m.IsSquare() && m.rows == 2
    ensures Cofactor(m, 0, 0) == m.numbers[1][1] && Cofactor(m, 0, 1) == -m.numbers[1][0]
    ensures Cofactor(m, 1, 0) == -m.numbers[0][1] && Cofactor(m, 1, 1) == m.numbers[0][0]
  {
    assert Submatrix(m, 0, 0).numbers[0][0] == m.numbers[1][1];
    assert Submatrix(m, 0, 1).numbers[0][0] == m.numbers[1][0];
    assert Submatrix(m, 1, 0).numbers[0][0] == m.numbers[0][1];
    assert Submatrix(m, 1, 1).numbers[0][0] == m.numbers[0][0];
  }

  /** The row-by-column sums of [[a, b], [c, d]] times [[d, -b], [-c, a]] / k, for k = ad - cb. */
  lemma TwoByTwoRightSums(a: real, b: real, c: real, d: real, k: real)
    requires k == a * d - c * b && k != 0.0
    ensures a * (d / k) + b * -(c / k) == 1.0 && a * -(b / k) + b * (a / k) == 0.0 &&
      c * (d / k) + d * -(c / k) == 0.0 && c * -(b / k) + d * (a / k) == 1.0
  {
  }

  /** The row-by-column sums of [[d, -b], [-c, a]] / k times [[a, b], [c, d]], for k = ad - cb. */
  lemma TwoByTwoLeftSums(a: real, b: real, c: real, d: real, k: real)
    requires k == a * d - c * b && k != 0.0
    ensures (d / k) * a + -(b / k) * c == 1.0 && (d / k) * b + -(b / k) * d == 0.0 &&
      -(c / k) * a + (a / k) * c == 0.0 && -(c / k) * b + (a / k) * d == 1.0
  {
  }

  /** The product of two 2x2 matrices, cell by cell. */
  lemma ProductTwoByTwo(x: Matrix, y: Matrix)
    requires x.IsSquare() && y.IsSquare() && x.rows == 2 && y.rows == 2
    ensures forall i, j {:trigger Arithmetic.Product(x, y).numbers[i][j]} :: 0 <= i < 2 && 0 <= j < 2 ==>
              Arithmetic.Product(x, y).numbers[i][j] == x.numbers[i][0] * y.numbers[0][j] + x.numbers[i][1] * y.numbers[1][j]
  {
    var p := Arithmetic.Product(x, y);
    forall i, j | 0 <= i < 2 && 0 <= j < 2
      ensures p.numbers[i][j] == x.numbers[i][0] * y.numbers[0][j] + x.numbers[i][1] * y.numbers[1][j]
    {
      assert p.numbers[i][j] == Arithmetic.Dot(x, y, i, j, 2);
      assert Arithmetic.Dot(x, y, i, j, 1) == 0.0 + x.numbers[i][0] * y.numbers[0][j];
    }
  }

  /** The inverse of a 2x2 matrix [[a, b], [c, d]] with nonzero determinant k is [[d/k, -(b/k)], [-(c/k), a/k]]. */
  lemma InverseTwoByTwoCells(m: Matrix)
    requires m.IsSquare() && m.rows == 2 && Det(m) != 0.0
    ensures Inverse(m).Ok?
    ensures var inv, a, b, c, d, k := Inverse(m).value, m.numbers[0][0], m.numbers[0][1], m.numbers[1][0], m.numbers[1][1], Det(m);
      inv.numbers[0][0] == d / k && inv.numbers[0][1] == -(b / k) && inv.numbers[1][0] == -(c / k) && inv.numbers[1][1] == a / k
  {
    TwoByTwoCofactors(m);
    var inv := Inverse(m).value;
    var a, b, c, d, k := m.numbers[0][0], m.numbers[0][1], m.numbers[1][0], m.numbers[1][1], Det(m);
    assert inv.numbers[0][0] == Cofactor(m, 0, 0) / k && inv.numbers[0][1] == Cofactor(m, 1, 0) / k;
    assert inv.numbers[1][0] == Cofactor(m, 0, 1) / k && inv.numbers[1][1] == Cofactor(m, 1, 1) / k;
    Quotients(inv.numbers[0][0], Cofactor(m, 0, 0), d, k);
    NegatedQuotients(inv.numbers[0][1], Cofactor(m, 1, 0), b, k);
    NegatedQuotients(inv.numbers[1][0], Cofactor(m, 0, 1), c, k);
    Quotients(inv.numbers[1][1], Cofactor(m, 1, 1), a, k);
  }

  /**
   Substitution under a quotient, in isolation: asserted inline, these
   equalities send the solver through the nonlinear arithmetic of the cells.
   */
  lemma Quotients(x: real, y: real, z: real, k: real)
    requires k != 0.0 && x == y / k && y == z
    ensures x == z / k
  {
  }

  lemma NegatedQuotients(x: real, y: real, z: real, k: real)
    requires k != 0.0 && x == y / k && y == -z
    ensures x == -(z / k)
  {
  }

  /**
   A 2x2 matrix with nonzero determinant times its inverse is the identity,
   on either side.
   */
  lemma InverseTwoByTwo(m: Matrix)
    requires m.IsSquare() && m.rows == 2 && Det(m) != 0.0
    ensures Arithmetic.Product(m, Inverse(m).value) == Identity(2)
    ensures Arithmetic.Product(Inverse(m).value, m) == Identity(2)
  {
    InverseTwoByTwoCells(m);
    DetTwoByTwo(m);
    TwoByTwoProductRight(m, Inverse(m).value, Det(m));
    TwoByTwoProductLeft(m, Inverse(m).value, Det(m));
  }

  /** [[a, b], [c, d]] times [[d/k, -(b/k)], [-(c/k), a/k]], for k = ad - cb, is the identity. */
  lemma TwoByTwoProductRight(m: Matrix, inv: Matrix, k: real)
    requires m.IsSquare() && inv.IsSquare() && m.rows == 2 && inv.rows == 2
    requires k == m.numbers[0][0] * m.numbers[1][1] - m.numbers[1][0] * m.numbers[0][1] && k != 0.0
    requires inv.numbers[0][0] == m.numbers[1][1] / k && inv.numbers[0][1] == -(m.numbers[0][1] / k)
    requires inv.numbers[1][0] == -(m.numbers[1][0] / k) && inv.numbers[1][1] == m.numbers[0][0] / k
    ensures Arithmetic.Product(m, inv) == Identity(2)
  {
    TwoByTwoRightSums(m.numbers[0][0], m.numbers[0][1], m.numbers[1][0], m.numbers[1][1], k);
    ProductIsIdentity(m, inv);
  }

  /** [[d/k, -(b/k)], [-(c/k), a/k]] times [[a, b], [c, d]], for k = ad - cb, is the identity. */
  lemma TwoByTwoProductLeft(m: Matrix, inv: Matrix, k: real)
    requires m.IsSquare() && inv.IsSquare() && m.rows == 2 && inv.rows == 2
    requires k == m.numbers[0][0] * m.numbers[1][1] - m.numbers[1][0] * m.numbers[0][1] && k != 0.0
    requires inv.numbers[0][0] == m.numbers[1][1] / k && inv.numbers[0][1] == -(m.numbers[0][1] / k)
    requires inv.numbers[1][0] == -(m.numbers[1][0] / k) && inv.numbers[1][1] == m.numbers[0][0] / k
    ensures Arithmetic.Product(inv, m) == Identity(2)
  {
    TwoByTwoLeftSums(m.numbers[0][0], m.numbers[0][1], m.numbers[1][0], m.numbers[1][1], k);
    ProductIsIdentity(inv, m);
  }

  /** Two 2x2 matrices whose row-by-column sums are those of the identity multiply to the identity. */
  lemma ProductIsIdentity(x: Matrix, y: Matrix)
    requires x.IsSquare() && y.IsSquare() && x.rows == 2 && y.rows == 2
    requires x.numbers[0][0] * y.numbers[0][0] + x.numbers[0][1] * y.numbers[1][0] == 1.0
    requires x.numbers[0][0] * y.numbers[0][1] + x.numbers[0][1] * y.numbers[1][1] == 0.0
    requires x.numbers[1][0] * y.numbers[0][0] + x.numbers[1][1] * y.numbers[1][0] == 0.0
    requires x.numbers[1][0] * y.numbers[0][1] + x.numbers[1][1] * y.numbers[1][1] == 1.0
    ensures Arithmetic.Product(x, y) == Identity(2)
  {
    ProductTwoByTwo(x, y);
    SameCells(Arithmetic.Product(x, y), Identity(2));
  }

  /** Deleting row i and column i of the identity leaves the identity one size smaller. */
  lemma SubmatrixIdentity(n: nat, i: nat)
    requires 2 <= n && i < n
    ensures Submatrix(Identity(n), i, i) == Identity(n - 1)
  {
    SameCells(Submatrix(Identity(n), i, i), Identity(n - 1));
  }

  /** Deleting row r and column c != r of the identity leaves a zero row, the rest of row c. */
  lemma OffDiagonalMinorDet(n: nat, r: nat, c: nat)
    requires 2 <= n && r < n && c < n && r != c
    ensures Det(Submatrix(Identity(n), r, c)) == 0.0
  {
    var sub := Submatrix(Identity(n), r, c);
    var z := if c < r then c else c - 1;
    assert forall j :: 0 <= j < sub.columns ==> sub.numbers[z][j] == 0.0;
    DetZeroRow(sub, z);
  }

  /** The cofactors of the identity are the cells of the identity. */
  lemma IdentityCofactor(n: nat, r: nat, c: nat)
    requires 1 <= n && r < n && c < n
    ensures Cofactor(Identity(n), r, c) == if r == c then 1.0 else 0.0
  {
    if n >= 2 {
      if r == c {
        SubmatrixIdentity(n, r);
        DetIdentity(n - 1);
        assert Sign(r + c) == 1.0;
      } else {
        OffDiagonalMinorDet(n, r, c);
      }
    }
  }

  /** The identity is its own inverse. */
  lemma InverseIdentity(n: nat)
    requires n >= 1
    ensures Inverse(Identity(n)) == Ok(Identity(n))
  {
    DetIdentity(n);
    var inv := Inverse(Identity(n)).value;
    forall i, j | 0 <= i < n && 0 <= j < n
      ensures inv.numbers[i][j] == Identity(n).numbers[i][j]
    {
      IdentityCofactor(n, j, i);
    }
    SameCells(inv, Identity(n));
  }
}
