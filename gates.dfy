/** The fixed single-qubit gates of `Gate` (src/matrix/mod.rs), each a
    2 x 2 matrix built with `Matrix::new`. */
module Gates {
  import opened Outcomes
  import opened ComplexNumbers
  import opened Matrices

  /** The f32 value both `0.707106781f32` and `SQRT_2 / 2f32` round to. */
  const HALF_SQRT_TWO: real := 0.707106769084930419921875

  /** The imaginary unit and the negated units. */
  const Imag: Complex := Complex(0.0, 1.0)
  const NegImag: Complex := Complex(0.0, -1.0)
  const NegOne: Complex := Complex(-1.0, 0.0)

  /** A 2 x 2 matrix from its four cells, as `Matrix::new` builds it. */
  function Square(a: Complex, b: Complex, c: Complex, d: Complex): (m: Mat)
    ensures Valid(m) && m.rows == 2 && m.cols == 2
    ensures New([[a, b], [c, d]]) == Ok(m)
  {
    Mat([[a, b], [c, d]], 2, 2)
  }

  function I(): Mat { Square(One, Zero, Zero, One) }
  function X(): Mat { Square(Zero, One, One, Zero) }
  function Y(): Mat { Square(Zero, NegImag, Imag, Zero) }
  function Z(): Mat { Square(One, Zero, Zero, NegOne) }
  function S(): Mat { Square(One, Zero, Zero, Imag) }

  /** H with its entries rounded to f32. */
  function H(): Mat
  {
    var h := Complex(HALF_SQRT_TWO, 0.0);
    Square(h, h, h, Complex(-HALF_SQRT_TWO, 0.0))
  }

  /** T with its phase e^{iπ/4} rounded to f32. */
  function T(): Mat
  {
    Square(One, Zero, Zero, Complex(HALF_SQRT_TWO, HALF_SQRT_TWO))
  }

  /** The product of two 2 x 2 matrices, cell by cell. */
  lemma ProductOfSquares(a: Complex, b: Complex, c: Complex, d: Complex,
                         e: Complex, f: Complex, g: Complex, h: Complex)
    ensures Product(Square(a, b, c, d), Square(e, f, g, h))
         == Square(Plus(Times(a, e), Times(b, g)), Plus(Times(a, f), Times(b, h)),
                   Plus(Times(c, e), Times(d, g)), Plus(Times(c, f), Times(d, h)))
  {
    var m, n := Square(a, b, c, d), Square(e, f, g, h);
    var p := Product(m, n);
    assert p.value[0][0] == Dot(m, n, 0, 0, 2);
    assert p.value[0][1] == Dot(m, n, 0, 1, 2);
    assert p.value[1][0] == Dot(m, n, 1, 0, 2);
    assert p.value[1][1] == Dot(m, n, 1, 1, 2);
    assert p.value[0] == [Plus(Times(a, e), Times(b, g)), Plus(Times(a, f), Times(b, h))];
    assert p.value[1] == [Plus(Times(c, e), Times(d, g)), Plus(Times(c, f), Times(d, h))];
  }

  /** The transpose of a 2 x 2 matrix swaps its off-diagonal cells. */
  lemma TransposeOfSquare(a: Complex, b: Complex, c: Complex, d: Complex)
    ensures Transposed(Square(a, b, c, d)) == Square(a, c, b, d)
  {
    var t := Transposed(Square(a, b, c, d));
    assert t.value[0] == [a, c];
    assert t.value[1] == [b, d];
  }

  /** The adjoint of a 2 x 2 matrix. */
  lemma AdjointOfSquare(a: Complex, b: Complex, c: Complex, d: Complex)
    ensures Adjoint(Square(a, b, c, d)) == Square(Conj(a), Conj(c), Conj(b), Conj(d))
  {
    var t := Adjoint(Square(a, b, c, d));
    assert t.value[0] == [Conj(a), Conj(c)];
    assert t.value[1] == [Conj(b), Conj(d)];
  }

  /** `Gate::I` is `Matrix::IDENTITY`. */
  lemma IIsIdentity()
    ensures I() == Identity()
  {
  }

  /** X is its own inverse. */
  lemma XInvolution()
    ensures Product(X(), X()) == I()
  {
    ProductOfSquares(Zero, One, One, Zero, Zero, One, One, Zero);
  }

  /** Y is its own inverse. */
  lemma YInvolution()
    ensures Product(Y(), Y()) == I()
  {
    ProductOfSquares(Zero, NegImag, Imag, Zero, Zero, NegImag, Imag, Zero);
  }

  /** Z is its own inverse. */
  lemma ZInvolution()
    ensures Product(Z(), Z()) == I()
  {
    ProductOfSquares(One, Zero, Zero, NegOne, One, Zero, Zero, NegOne);
  }

  /** X·Y = i·Z. */
  lemma PauliProduct()
    ensures Product(X(), Y()) == ScalarMap(Z(), MulScalar, Imag)
  {
    XTimesY();
    ScaledSquare(One, Zero, Zero, NegOne, Imag);
  }

  /** The cells of X·Y. */
  lemma XTimesY()
    ensures Product(X(), Y()) == Square(Imag, Zero, Zero, NegImag)
  {
    ProductOfSquares(Zero, One, One, Zero, Zero, NegImag, Imag, Zero);
  }

  /** Scaling a 2 x 2 matrix scales each of its cells. */
  lemma ScaledSquare(a: Complex, b: Complex, c: Complex, d: Complex, k: Complex)
    ensures ScalarMap(Square(a, b, c, d), MulScalar, k)
         == Square(Times(a, k), Times(b, k), Times(c, k), Times(d, k))
  {
    var s := ScalarMap(Square(a, b, c, d), MulScalar, k);
    assert s.value[0] == [Times(a, k), Times(b, k)];
    assert s.value[1] == [Times(c, k), Times(d, k)];
  }

  /** S is the square root of Z. */
  lemma SSquaredIsZ()
    ensures Product(S(), S()) == Z()
  {
    ProductOfSquares(One, Zero, Zero, Imag, One, Zero, Zero, Imag);
  }

  /** H is symmetric. */
  lemma HSymmetric()
    ensures Transposed(H()) == H()
  {
    var h := Complex(HALF_SQRT_TWO, 0.0);
    TransposeOfSquare(h, h, h, Complex(-HALF_SQRT_TWO, 0.0));
  }

  /** `unitary` as written multiplies by the transpose, since the
      conjugation inside `adjunct` is discarded; for the real gate X that
      is the adjoint, and X is accepted. */
  lemma XUnitaryAccepted()
    ensures UnitaryAsWritten(X()) == Ok(true) && Unitary(X())
  {
    TransposeOfSquare(Zero, One, One, Zero);
    AdjointOfSquare(Zero, One, One, Zero);
    XInvolution();
  }

  /** The real gate Z is accepted by the written test. */
  lemma ZUnitaryAccepted()
    ensures UnitaryAsWritten(Z()) == Ok(true) && Unitary(Z())
  {
    TransposeOfSquare(One, Zero, Zero, NegOne);
    AdjointOfSquare(One, Zero, Zero, NegOne);
    ZInvolution();
  }

  /** Y · Yᵀ has -1 in its top-left cell, so the written test rejects Y. */
  lemma YRejected()
    ensures UnitaryAsWritten(Y()) == Ok(false)
  {
    YTimesTransposed();
    NegatedIdentity();
  }

  /** -I differs from the identity. */
  lemma NegatedIdentity()
    ensures Square(NegOne, Zero, Zero, NegOne) != Identity()
  {
    assert Square(NegOne, Zero, Zero, NegOne).value[0][0] == NegOne;
  }

  /** Y · Yᵀ = -I. */
  lemma YTimesTransposed()
    ensures Product(Y(), Transposed(Y())) == Square(NegOne, Zero, Zero, NegOne)
  {
    YTransposed();
    ProductOfSquares(Zero, NegImag, Imag, Zero, Zero, Imag, NegImag, Zero);
  }

  /** Transposing Y negates it. */
  lemma YTransposed()
    ensures Transposed(Y()) == Square(Zero, Imag, NegImag, Zero)
  {
    TransposeOfSquare(Zero, NegImag, Imag, Zero);
  }

  /** Y is unitary: its adjoint is itself and it is an involution. */
  lemma YUnitary()
    ensures Unitary(Y())
  {
    AdjointOfSquare(Zero, NegImag, Imag, Zero);
    assert Adjoint(Y()) == Y();
    YInvolution();
  }

  /** Y is unitary, yet the written test rejects it. */
  lemma YUnitaryMisjudged()
    ensures UnitaryAsWritten(Y()) == Ok(false) && Unitary(Y())
  {
    YRejected();
    YUnitary();
  }

  /** S is symmetric, so S · Sᵀ = S² = Z and the written test rejects S. */
  lemma SRejected()
    ensures UnitaryAsWritten(S()) == Ok(false)
  {
    SSymmetric();
    SSquaredIsZ();
    ZNotIdentity();
  }

  /** S is symmetric. */
  lemma SSymmetric()
    ensures Transposed(S()) == S()
  {
    TransposeOfSquare(One, Zero, Zero, Imag);
  }

  /** Z differs from the identity in its bottom-right cell. */
  lemma ZNotIdentity()
    ensures Z() != Identity()
  {
    assert Z().value[1][1] == NegOne;
  }

  /** S · S† = I. */
  lemma SUnitary()
    ensures Unitary(S())
  {
    SAdjoint();
    ProductOfSquares(One, Zero, Zero, Imag, One, Zero, Zero, NegImag);
  }

  /** The adjoint of S conjugates its phase. */
  lemma SAdjoint()
    ensures Adjoint(S()) == Square(One, Zero, Zero, NegImag)
  {
    AdjointOfSquare(One, Zero, Zero, Imag);
  }

  /** S is unitary, yet the written test rejects it. */
  lemma SUnitaryMisjudged()
    ensures UnitaryAsWritten(S()) == Ok(false) && Unitary(S())
  {
    SRejected();
    SUnitary();
  }
}
