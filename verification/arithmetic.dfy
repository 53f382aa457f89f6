/**
 Trace, the matrix-by-matrix product, cell-wise addition and scalar
 multiplication of the processor's matrices.
 */
module Arithmetic {
  import opened Matrices

  /** Sum of g[i][i] for i < n: the reference definition of the trace. */
  function DiagonalSum(g: Grid, n: nat): real
    requires n <= |g| && forall i :: 0 <= i < n ==> i < |g[i]|
  {
    if n == 0 then 0.0 else DiagonalSum(g, n - 1) + g[n - 1][n - 1]
  }

  /** The trace runs along the shorter dimension, so it exists for every rectangular matrix. */
  function TraceOf(m: Matrix): real
    requires m.Valid()
  {
    DiagonalSum(m.numbers, Min(m.rows, m.columns))
  }

  /** `trace`: accumulates the diagonal cells in one loop. */
  method Trace(m: Matrix) returns (t: real)
    requires m.Valid()
    ensures t == TraceOf(m)
  {
    t := 0.0;
    for i := 0 to Min(m.rows, m.columns)
      invariant t == DiagonalSum(m.numbers, i)
    {
      t := t + m.numbers[i][i];
    }
  }

  /** Sum of a[i][k] * b[k][j] for k < n, accumulated in increasing k. */
  function Dot(a: Matrix, b: Matrix, i: nat, j: nat, n: nat): real
    requires a.Valid() && b.Valid() && i < a.rows && j < b.columns
    requires n <= a.columns && n <= b.rows
  {
    if n == 0 then 0.0 else Dot(a, b, i, j, n - 1) + a.numbers[i][n - 1] * b.numbers[n - 1][j]
  }

  /** The product of two matrices whose shapes chain. */
  function Product(a: Matrix, b: Matrix): (r: Matrix)
    requires a.Valid() && b.Valid() && a.columns == b.rows
    ensures r.Valid() && r.Dimensions() == (a.rows, b.columns)
    ensures forall i, j :: 0 <= i < a.rows && 0 <= j < b.columns ==> r.numbers[i][j] == Dot(a, b, i, j, a.columns)
  {
    Matrix(a.rows, b.columns,
      seq(a.rows, i requires 0 <= i < a.rows =>
        seq(b.columns, j requires 0 <= j < b.columns => Dot(a, b, i, j, a.columns))))
  }

  /**
   `multiply`: when `a.columns == b.rows` a fresh zero matrix is filled by the
   triple loop; otherwise `a` itself comes back unchanged (no error is raised).
   */
  method Multiply(a: Matrix, b: Matrix) returns (r: Matrix)
    requires a.Valid() && b.Valid()
    ensures a.columns == b.rows ==> r == Product(a, b)
    ensures a.columns != b.rows ==> r == a
  {
    if a.columns != b.rows {
      return a;
    }
    var g := Blank(a.rows, b.columns).numbers;
    for i := 0 to a.rows
      invariant |g| == a.rows && forall x :: 0 <= x < a.rows ==> |g[x]| == b.columns
      invariant forall x, y :: 0 <= x < i && 0 <= y < b.columns ==> g[x][y] == Dot(a, b, x, y, b.rows)
      invariant forall x, y :: i <= x < a.rows && 0 <= y < b.columns ==> g[x][y] == 0.0
    {
      for j := 0 to b.columns
        invariant |g| == a.rows && forall x :: 0 <= x < a.rows ==> |g[x]| == b.columns
        invariant forall x, y :: 0 <= x < i && 0 <= y < b.columns ==> g[x][y] == Dot(a, b, x, y, b.rows)
        invariant forall y :: 0 <= y < j ==> g[i][y] == Dot(a, b, i, y, b.rows)
        invariant forall x, y :: i <= x < a.rows && 0 <= y < b.columns && (x > i || y >= j) ==> g[x][y] == 0.0
      {
        for k := 0 to b.rows
          invariant |g| == a.rows && forall x :: 0 <= x < a.rows ==> |g[x]| == b.columns
          invariant forall x, y :: 0 <= x < i && 0 <= y < b.columns ==> g[x][y] == Dot(a, b, x, y, b.rows)
          invariant forall y :: 0 <= y < j ==> g[i][y] == Dot(a, b, i, y, b.rows)
          invariant g[i][j] == Dot(a, b, i, j, k)
          invariant forall x, y :: i <= x < a.rows && 0 <= y < b.columns && (x > i || y > j) ==> g[x][y] == 0.0
        {
          g := g[i := g[i][j := g[i][j] + a.numbers[i][k] * b.numbers[k][j]]];
        }
      }
    }
    r := Matrix(a.rows, b.columns, g);
    assert forall x :: 0 <= x < a.rows ==> r.numbers[x] == Product(a, b).numbers[x];
  }

  /**
   `__add__`: cell-wise sum when the dimensions agree; the original returns the
   string 'ERROR' otherwise, modelled as a `DimensionMismatch` failure.
   */
  function Add(a: Matrix, b: Matrix): (r: Outcome)
    requires a.Valid() && b.Valid()
    ensures r.Ok? <==> a.Dimensions() == b.Dimensions()
    ensures r.Err? ==> r.error == DimensionMismatch
    ensures r.Ok? ==> r.value.Valid() && r.value.Dimensions() == a.Dimensions()
    ensures r.Ok? ==> forall i, j :: 0 <= i < a.rows && 0 <= j < a.columns ==>
                        r.value.numbers[i][j] == a.numbers[i][j] + b.numbers[i][j]
  {
    if a.Dimensions() != b.Dimensions() then Err(DimensionMismatch)
    else Ok(Matrix(a.rows, a.columns,
              seq(a.rows, i requires 0 <= i < a.rows =>
                seq(a.columns, j requires 0 <= j < a.columns => a.numbers[i][j] + b.numbers[i][j]))))
  }

  /**
   `__mul__` and `__rmul__` (the same function in the original): every cell
   times the factor.
   */
  function Scale(m: Matrix, k: real): (r: Matrix)
    requires m.Valid()
    ensures r.Valid() && r.rows == m.rows && r.columns == m.columns
    ensures forall i, j {:trigger r.numbers[i][j]} :: 0 <= i < m.rows && 0 <= j < m.columns ==>
              r.numbers[i][j] == m.numbers[i][j] * k
  {
    var g := seq(m.rows, i requires 0 <= i < m.rows => ScaleRow(m.numbers[i], k));
    assert forall i :: 0 <= i < m.rows ==> g[i] == ScaleRow(m.numbers[i], k) && |g[i]| == m.columns;
    Matrix(m.rows, m.columns, g)
  }

  /** Every cell of one row times the factor. */
  function ScaleRow(row: seq<real>, k: real): (r: seq<real>)
    ensures |r| == |row|
    ensures forall j :: 0 <= j < |row| ==> r[j] == row[j] * k
  {
    seq(|row|, j requires 0 <= j < |row| => row[j] * k)
  }

  // ---- Addition and scaling ----

  /** Addition is commutative, including which shape pairs it rejects. */
  lemma AddCommutes(a: Matrix, b: Matrix)
    requires a.Valid() && b.Valid()
    ensures Add(a, b) == Add(b, a)
  {
    if a.Dimensions() == b.Dimensions() {
      SameCells(Add(a, b).value, Add(b, a).value);
    }
  }

  /** The zero-filled matrix of the same shape is a neutral element of addition. */
  lemma AddBlank(m: Matrix)
    requires m.Valid()
    ensures Add(m, Blank(m.rows, m.columns)) == Ok(m)
  {
    SameCells(Add(m, Blank(m.rows, m.columns)).value, m);
  }

  /** Scaling by one changes nothing. */
  lemma ScaleOne(m: Matrix)
    requires m.Valid()
    ensures Scale(m, 1.0) == m
  {
    SameCells(Scale(m, 1.0), m);
  }

  /** Scaling twice is scaling once by the product of the factors. */
  lemma ScaleScale(m: Matrix, k: real, l: real)
    requires m.Valid()
    ensures Scale(Scale(m, k), l) == Scale(m, k * l)
  {
    forall i, j | 0 <= i < m.rows && 0 <= j < m.columns
      ensures Scale(Scale(m, k), l).numbers[i][j] == Scale(m, k * l).numbers[i][j]
    {
      calc {
        Scale(Scale(m, k), l).numbers[i][j];
        (m.numbers[i][j] * k) * l;
        m.numbers[i][j] * (k * l);
      }
    }
    SameCells(Scale(Scale(m, k), l), Scale(m, k * l));
  }

  /** Scaling distributes over addition. */
  lemma ScaleAdd(a: Matrix, b: Matrix, k: real)
    requires a.Valid() && b.Valid() && a.Dimensions() == b.Dimensions()
    ensures Add(Scale(a, k), Scale(b, k)) == Ok(Scale(Add(a, b).value, k))
  {
    var s := Add(Scale(a, k), Scale(b, k)).value;
    var t := Scale(Add(a, b).value, k);
    forall i, j | 0 <= i < a.rows && 0 <= j < a.columns
      ensures s.numbers[i][j] == t.numbers[i][j]
    {
      calc {
        s.numbers[i][j];
        a.numbers[i][j] * k + b.numbers[i][j] * k;
        (a.numbers[i][j] + b.numbers[i][j]) * k;
        t.numbers[i][j];
      }
    }
    SameCells(s, t);
  }

  // ---- Trace ----

  lemma {:induction false} DiagonalSumAdd(a: Matrix, b: Matrix, s: Matrix, n: nat)
    requires a.Valid() && b.Valid() && s.Valid()
    requires a.Dimensions() == b.Dimensions() == s.Dimensions()
    requires n <= a.rows && n <= a.columns
    requires forall i, j :: 0 <= i < a.rows && 0 <= j < a.columns ==> s.numbers[i][j] == a.numbers[i][j] + b.numbers[i][j]
    ensures DiagonalSum(s.numbers, n) == DiagonalSum(a.numbers, n) + DiagonalSum(b.numbers, n)
  {
    if n > 0 {
      DiagonalSumAdd(a, b, s, n - 1);
    }
  }

  /** The trace of a sum is the sum of the traces. */
  lemma TraceAdd(a: Matrix, b: Matrix)
    requires a.Valid() && b.Valid() && a.Dimensions() == b.Dimensions()
    ensures TraceOf(Add(a, b).value) == TraceOf(a) + TraceOf(b)
  {
    DiagonalSumAdd(a, b, Add(a, b).value, Min(a.rows, a.columns));
  }

  lemma {:induction false} DiagonalSumScale(m: Matrix, k: real, n: nat)
    requires m.Valid() && n <= m.rows && n <= m.columns
    ensures DiagonalSum(Scale(m, k).numbers, n) == DiagonalSum(m.numbers, n) * k
  {
    if n > 0 {
      DiagonalSumScale(m, k, n - 1);
    }
  }

  /** Scaling a matrix scales its trace by the same factor. */
  lemma TraceScale(m: Matrix, k: real)
    requires m.Valid()
    ensures TraceOf(Scale(m, k)) == TraceOf(m) * k
  {
    DiagonalSumScale(m, k, Min(m.rows, m.columns));
  }

  // ---- Product ----

  lemma {:induction false} DotIdentityRight(a: Matrix, i: nat, j: nat, n: nat)
    requires a.Valid() && i < a.rows && j < a.columns && n <= a.columns
    ensures Dot(a, Identity(a.columns), i, j, n) == if j < n then a.numbers[i][j] else 0.0
  {
    if n > 0 {
      DotIdentityRight(a, i, j, n - 1);
    }
  }

  lemma {:induction false} DotIdentityLeft(b: Matrix, i: nat, j: nat, n: nat)
    requires b.Valid() && i < b.rows && j < b.columns && n <= b.rows
    ensures Dot(Identity(b.rows), b, i, j, n) == if i < n then b.numbers[i][j] else 0.0
  {
    if n > 0 {
      DotIdentityLeft(b, i, j, n - 1);
    }
  }

  /** The identity of matching size is a right unit of the product. */
  lemma ProductIdentityRight(m: Matrix)
    requires m.Valid()
    ensures Product(m, Identity(m.columns)) == m
  {
    forall i, j | 0 <= i < m.rows && 0 <= j < m.columns
      ensures Product(m, Identity(m.columns)).numbers[i][j] == m.numbers[i][j]
    {
      DotIdentityRight(m, i, j, m.columns);
    }
    SameCells(Product(m, Identity(m.columns)), m);
  }

  /** The identity of matching size is a left unit of the product. */
  lemma ProductIdentityLeft(m: Matrix)
    requires m.Valid()
    ensures Product(Identity(m.rows), m) == m
  {
    forall i, j | 0 <= i < m.rows && 0 <= j < m.columns
      ensures Product(Identity(m.rows), m).numbers[i][j] == m.numbers[i][j]
    {
      DotIdentityLeft(m, i, j, m.rows);
    }
    SameCells(Product(Identity(m.rows), m), m);
  }

  lemma {:induction false} DotScaleLeft(a: Matrix, b: Matrix, k: real, i: nat, j: nat, n: nat)
    requires a.Valid() && b.Valid() && a.columns == b.rows
    requires i < a.rows && j < b.columns && n <= a.columns
    ensures Dot(Scale(a, k), b, i, j, n) == Dot(a, b, i, j, n) * k
  {
    if n > 0 {
      DotScaleLeft(a, b, k, i, j, n - 1);
      var x, y := a.numbers[i][n - 1], b.numbers[n - 1][j];
      assert (x * k) * y == (x * y) * k;
    }
  }

  /** A scalar factor on the left operand can be pulled out of the product. */
  lemma ProductScaleLeft(a: Matrix, b: Matrix, k: real)
    requires a.Valid() && b.Valid() && a.columns == b.rows
    ensures Product(Scale(a, k), b) == Scale(Product(a, b), k)
  {
    forall i, j | 0 <= i < a.rows && 0 <= j < b.columns
      ensures Product(Scale(a, k), b).numbers[i][j] == Scale(Product(a, b), k).numbers[i][j]
    {
      DotScaleLeft(a, b, k, i, j, a.columns);
    }
    SameCells(Product(Scale(a, k), b), Scale(Product(a, b), k));
  }

  lemma {:induction false} DotScaleRight(a: Matrix, b: Matrix, k: real, i: nat, j: nat, n: nat)
    requires a.Valid() && b.Valid() && a.columns == b.rows
    requires i < a.rows && j < b.columns && n <= a.columns
    ensures Dot(a, Scale(b, k), i, j, n) == Dot(a, b, i, j, n) * k
  {
    if n > 0 {
      DotScaleRight(a, b, k, i, j, n - 1);
      var x, y := a.numbers[i][n - 1], b.numbers[n - 1][j];
      assert x * (y * k) == (x * y) * k;
    }
  }

  /** A scalar factor on the right operand can be pulled out of the product. */
  lemma ProductScaleRight(a: Matrix, b: Matrix, k: real)
    requires a.Valid() && b.Valid() && a.columns == b.rows
    ensures Product(a, Scale(b, k)) == Scale(Product(a, b), k)
  {
    forall i, j | 0 <= i < a.rows && 0 <= j < b.columns
      ensures Product(a, Scale(b, k)).numbers[i][j] == Scale(Product(a, b), k).numbers[i][j]
    {
      DotScaleRight(a, b, k, i, j, a.columns);
    }
    SameCells(Product(a, Scale(b, k)), Scale(Product(a, b), k));
  }
}
