/**
 The worked examples of the repository's unit tests, and a few more for the
 operations those tests do not reach. The sample is the 3x3 matrix built
 row by row from [13, 25, 39], [3, 12, 0] and [12, 22, 11].
 */
module Samples {
  import opened Matrices
  import Arithmetic
  import opened Determinants
  import Inversion

  function Sample(): (m: Matrix)
    ensures m.IsSquare() && m.rows == 3
  {
    FromRows(3, 3, [[13.0, 25.0, 39.0], [3.0, 12.0, 0.0], [12.0, 22.0, 11.0]])
  }

  /** The 2x2 determinant of a matrix given by its rows. */
  lemma TwoByTwoValue(a: real, b: real, c: real, d: real)
    ensures Det(FromRows(2, 2, [[a, b], [c, d]])) == a * d - c * b
  {
    DetTwoByTwo(FromRows(2, 2, [[a, b], [c, d]]));
  }

  lemma SampleMinorsOfFirstRow()
    ensures Submatrix(Sample(), 0, 0) == FromRows(2, 2, [[12.0, 0.0], [22.0, 11.0]])
    ensures Submatrix(Sample(), 0, 1) == FromRows(2, 2, [[3.0, 0.0], [12.0, 11.0]])
    ensures Submatrix(Sample(), 0, 2) == FromRows(2, 2, [[3.0, 12.0], [12.0, 22.0]])
  {
    SameCells(Submatrix(Sample(), 0, 0), FromRows(2, 2, [[12.0, 0.0], [22.0, 11.0]]));
    SameCells(Submatrix(Sample(), 0, 1), FromRows(2, 2, [[3.0, 0.0], [12.0, 11.0]]));
    SameCells(Submatrix(Sample(), 0, 2), FromRows(2, 2, [[3.0, 12.0], [12.0, 22.0]]));
  }

  /** The determinants of the three first-row minors of the sample are 132, 33 and -78. */
  lemma SampleMinorDets(dets: seq<real>)
    requires AreMinorDets(Sample(), dets)
    ensures dets == [132.0, 33.0, -78.0]
  {
    SampleMinorsOfFirstRow();
    TwoByTwoValue(12.0, 0.0, 22.0, 11.0);
    TwoByTwoValue(3.0, 0.0, 12.0, 11.0);
    TwoByTwoValue(3.0, 12.0, 12.0, 22.0);
    assert dets[0] == Det(Submatrix(Sample(), 0, 0));
    assert dets[1] == Det(Submatrix(Sample(), 0, 1));
    assert dets[2] == Det(Submatrix(Sample(), 0, 2));
  }

  /** The determinant of the sample is -2151. */
  lemma SampleDeterminant()
    ensures Det(Sample()) == -2151.0
  {
    var s := Sample();
    var dets := FirstRowMinorDets(s);
    MinorDets(s);
    DetUnfold(s);
    SampleMinorDets(dets);
    assert AlternatingSum(s.numbers[0], dets, 3) == 13.0 * 132.0 - 25.0 * 33.0 + 39.0 * -78.0;
  }

  /** `determinant` of the sample, as the test asserts. */
  method SampleDeterminantComputed() returns (d: real)
    ensures d == -2151.0
  {
    d := Determinant(Sample());
    SampleDeterminant();
  }

  /** A matrix constructed without arguments reports the dimensions (1, 1). */
  method DefaultDimensions() returns (d: (nat, nat))
    ensures d == (1, 1)
  {
    var m := Empty();
    d := m.Dimensions();
  }

  /** `get_dimensions` of the sample, as the test asserts. */
  method SampleDimensions() returns (d: (nat, nat))
    ensures d == (3, 3)
  {
    d := Sample().Dimensions();
  }

  /** `trace` of the sample is 13 + 12 + 11, as the test asserts. */
  method SampleTrace() returns (t: real)
    ensures t == 36.0
  {
    t := Arithmetic.Trace(Sample());
    assert Arithmetic.DiagonalSum(Sample().numbers, 1) == 0.0 + 13.0;
  }

  /** `minor(1, 2)` of the sample keeps rows 0 and 2 and columns 0 and 1, as the test asserts. */
  method SampleMinor() returns (r: Matrix)
    ensures r == FromRows(2, 2, [[13.0, 25.0], [12.0, 22.0]])
    ensures r.numbers == [[13.0, 25.0], [12.0, 22.0]]
  {
    r := Minor(Sample(), 1, 2);
    SameCells(r, FromRows(2, 2, [[13.0, 25.0], [12.0, 22.0]]));
  }

  /** [[1, 2], [3, 4]] has determinant -2 and the inverse [[-2, 1], [1.5, -0.5]]. */
  lemma SmallInverse()
    ensures Det(FromRows(2, 2, [[1.0, 2.0], [3.0, 4.0]])) == -2.0
    ensures Inversion.Inverse(FromRows(2, 2, [[1.0, 2.0], [3.0, 4.0]])) == Ok(FromRows(2, 2, [[-2.0, 1.0], [1.5, -0.5]]))
  {
    var m := FromRows(2, 2, [[1.0, 2.0], [3.0, 4.0]]);
    TwoByTwoValue(1.0, 2.0, 3.0, 4.0);
    Inversion.InverseTwoByTwoCells(m);
    var inv := Inversion.Inverse(m).value;
    assert inv.numbers[0][0] == -2.0 && inv.numbers[0][1] == 1.0;
    assert inv.numbers[1][0] == 1.5 && inv.numbers[1][1] == -0.5;
    SameCells(inv, FromRows(2, 2, [[-2.0, 1.0], [1.5, -0.5]]));
  }

  /** `inverted` on [[1, 2], [2, 4]] reports that there is no inverse, and so does the corrected version. */
  method SmallSingular() returns (r: Outcome)
    ensures r == Err(Singular)
    ensures Inversion.Inverse(FromRows(2, 2, [[1.0, 2.0], [2.0, 4.0]])) == r
  {
    TwoByTwoValue(1.0, 2.0, 2.0, 4.0);
    r := Inversion.Inverted(FromRows(2, 2, [[1.0, 2.0], [2.0, 4.0]]));
  }

  /** Adding a 2x3 matrix to the 3x3 sample is a dimension mismatch. */
  method SampleAddMismatch() returns (r: Outcome)
    ensures r == Err(DimensionMismatch)
  {
    r := Arithmetic.Add(Sample(), Blank(2, 3));
  }

  /** Multiplying the 3x3 sample by a 2x2 matrix gives the sample back unchanged. */
  method SampleMultiplyMismatch() returns (r: Matrix)
    ensures r == Sample()
  {
    r := Arithmetic.Multiply(Sample(), Identity(2));
  }
}
