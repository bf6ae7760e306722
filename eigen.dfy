/** The two eigen helpers of `Matrix` (src/matrix/mod.rs):
    `eigenvalue_from_eigenvector` and `eigenvector_from_eigenvalue`, each
    as written and as evidently intended. */
module Eigen {
  import opened Outcomes
  import opened ComplexNumbers
  import opened Matrices
  import opened MatrixInPlace

  // ---------------------------------------------------------------------
  // Column 0 of the vector and its nonzero entries.

  /** Column 0 of a matrix: the entries the eigen helpers read. */
  function Column0(v: Mat): (col: seq<Complex>)
    requires Valid(v) && v.cols >= 1
    ensures |col| == v.rows && forall r :: 0 <= r < v.rows ==> col[r] == v.value[r][0]
  {
    seq(v.rows, r requires 0 <= r < v.rows => v.value[r][0])
  }

  /** The number of nonzero entries, counted from the front as the loop
      meets them. */
  function NonzeroCount(col: seq<Complex>): nat
  {
    if |col| == 0 then 0
    else NonzeroCount(col[..|col| - 1]) + (if col[|col| - 1] != Zero then 1 else 0)
  }

  /** Counting stops growing once the prefix is the whole column. */
  lemma {:induction false} NonzeroCountPrefix(col: seq<Complex>, i: nat)
    requires i <= |col|
    ensures NonzeroCount(col[..i]) <= NonzeroCount(col)
  {
    if i < |col| {
      NonzeroCountPrefix(col[..|col| - 1], i);
      assert col[..|col| - 1][..i] == col[..i];
    } else {
      assert col[..i] == col;
    }
  }

  /** No nonzero entry is counted exactly when every entry is zero. */
  lemma {:induction false} NonzeroCountZero(col: seq<Complex>)
    ensures NonzeroCount(col) == 0 <==> forall k :: 0 <= k < |col| ==> col[k] == Zero
  {
    if |col| > 0 {
      var init := col[..|col| - 1];
      NonzeroCountZero(init);
      assert forall k :: 0 <= k < |init| ==> init[k] == col[k];
    }
  }

  /** The position of the first nonzero entry, or |col| if there is none. */
  function FirstNonzero(col: seq<Complex>): (r: nat)
    ensures r <= |col|
    ensures forall k :: 0 <= k < r ==> col[k] == Zero
    ensures r < |col| ==> col[r] != Zero
  {
    if |col| == 0 then 0
    else if col[0] != Zero then 0
    else 1 + FirstNonzero(col[1..])
  }

  /** Column 0 of v, scaled by λ, is what m does to it: v's first column
      is an eigenvector of m for the eigenvalue λ. */
  predicate Eigenpair(m: Mat, v: Mat, lambda: Complex)
    requires Valid(m) && Valid(v)
  {
    && m.rows == m.cols && m.cols == v.rows && v.cols >= 1
    && forall r :: 0 <= r < v.rows ==> Product(m, v).value[r][0] == Times(lambda, v.value[r][0])
  }

  // ---------------------------------------------------------------------
  // eigenvalue_from_eigenvector, lines 430-447.

  /** `eigenvalue_from_eigenvector` as written. The shape check panics
      first; row 0 has no column 0 when the vector has no columns; every
      nonzero entry divides (m·v)[0][0] by v[0][0], whichever row it is in,
      so a zero v[0][0] leaves no quotient; a second nonzero entry gives
      None, and so does an all-zero column. */
  function EigenvalueAsWritten(m: Mat, v: Mat): (r: Result<Option<Complex>>)
    requires Valid(m) && Valid(v)
    ensures r.Err? <==> || !(m.rows == m.cols && m.cols == v.rows) || v.cols == 0
                         || (v.value[0][0] == Zero && NonzeroCount(Column0(v)) >= 1)
    ensures r.Ok? && r.value.Some? ==> NonzeroCount(Column0(v)) == 1 && v.value[0][0] != Zero
  {
    if !(m.rows == m.cols && m.cols == v.rows) then Err(DimensionMismatch)
    else if v.cols == 0 then Err(IndexOutOfBounds)
    else
      var count := NonzeroCount(Column0(v));
      if count == 0 then Ok(None)
      else if v.value[0][0] == Zero then Err(DivisionByZero)
      else if count >= 2 then Ok(None)
      else Ok(Some(Over(Product(m, v).value[0][0], v.value[0][0])))
  }

  /** The loop of `eigenvalue_from_eigenvector`, over the rows of the
      vector; the product is taken first, as `self.clone() * eigenvector`. */
  method EigenvalueFromEigenvector(m: Mat, v: Mat) returns (out: Result<Option<Complex>>)
    requires Valid(m) && Valid(v)
    ensures out == EigenvalueAsWritten(m, v)
  {
    if m.rows != m.cols || m.cols != v.rows {
      return Err(DimensionMismatch);
    }
    var product := MatrixProduct(m, v);
    var result := product.value;
    var ret: Option<Complex> := None;
    for r := 0 to |v.value|
      invariant r > 0 ==> v.cols >= 1
      invariant r > 0 ==> var count := NonzeroCount(Column0(v)[..r]);
                           && count <= 1
                           && (count == 0 <==> ret.None?)
                           && (count == 1 ==> v.value[0][0] != Zero
                                              && ret == Some(Over(result.value[0][0], v.value[0][0])))
      invariant r == 0 ==> ret.None?
    {
      if |v.value[r]| == 0 {
        return Err(IndexOutOfBounds);
      }
      ghost var col := Column0(v);
      assert col[..r + 1][..r] == col[..r];
      if v.value[r][0] != Zero {
        if v.value[0][0] == Zero {
          NonzeroCountPrefix(col, r + 1);
          return Err(DivisionByZero);
        }
        var eigenvalue := Over(result.value[0][0], v.value[0][0]);
        match ret
        case Some(_) =>
          NonzeroCountPrefix(col, r + 1);
          return Ok(None);
        case None =>
          ret := Some(eigenvalue);
      }
    }
    if v.cols >= 1 {
      assert Column0(v)[..|v.value|] == Column0(v);
    }
    return Ok(ret);
  }

  /** `eigenvalue_from_eigenvector` as evidently intended: the quotient is
      taken in the row that holds the single nonzero entry. */
  function EigenvalueIntended(m: Mat, v: Mat): (r: Result<Option<Complex>>)
    requires Valid(m) && Valid(v)
    ensures r.Err? <==> !(m.rows == m.cols && m.cols == v.rows) || v.cols == 0
    ensures r.Ok? ==> (r.value.Some? <==> NonzeroCount(Column0(v)) == 1)
  {
    if !(m.rows == m.cols && m.cols == v.rows) then Err(DimensionMismatch)
    else if v.cols == 0 then Err(IndexOutOfBounds)
    else
      var col := Column0(v);
      if NonzeroCount(col) != 1 then Ok(None)
      else
        NonzeroCountZero(col);
        var k := FirstNonzero(col);
        Ok(Some(Over(Product(m, v).value[k][0], col[k])))
  }

  /** A quotient of λ·x by x is λ. */
  lemma QuotientOfScaled(lambda: Complex, x: Complex)
    requires x != Zero
    ensures Over(Times(lambda, x), x) == lambda
  {
    OverUndoesTimes(lambda, x);
  }

  /** The intended helper recovers the eigenvalue of any eigenvector with
      a single nonzero entry, wherever that entry is. */
  lemma EigenvalueIntendedRecovers(m: Mat, v: Mat, lambda: Complex)
    requires Valid(m) && Valid(v) && Eigenpair(m, v, lambda) && NonzeroCount(Column0(v)) == 1
    ensures EigenvalueIntended(m, v) == Ok(Some(lambda))
  {
    var col := Column0(v);
    NonzeroCountZero(col);
    QuotientOfScaled(lambda, col[FirstNonzero(col)]);
  }

  /** As written, the helper recovers the eigenvalue only when the single
      nonzero entry is in row 0. */
  lemma EigenvalueAsWrittenRecovers(m: Mat, v: Mat, lambda: Complex)
    requires Valid(m) && Valid(v) && Eigenpair(m, v, lambda)
    requires NonzeroCount(Column0(v)) == 1 && v.value[0][0] != Zero
    ensures EigenvalueAsWritten(m, v) == Ok(Some(lambda))
  {
    QuotientOfScaled(lambda, v.value[0][0]);
  }

  /** Both forms agree wherever the written one yields an eigenvalue. */
  lemma EigenvalueFormsAgree(m: Mat, v: Mat)
    requires Valid(m) && Valid(v) && EigenvalueAsWritten(m, v).Ok?
    ensures EigenvalueIntended(m, v) == EigenvalueAsWritten(m, v)
  {
    if m.rows == m.cols && m.cols == v.rows && v.cols >= 1 && NonzeroCount(Column0(v)) == 1 {
      assert FirstNonzero(Column0(v)) == 0;
    }
  }

  /** diag(1, 2) with the eigenvector (0, 1) of eigenvalue 2: the written
      helper divides by the zero in row 0, the intended one returns 2. */
  lemma EigenvalueWrongRow()
    ensures var m, v := Mat([[One, Zero], [Zero, Complex(2.0, 0.0)]], 2, 2), Mat([[Zero], [One]], 2, 1);
            && Valid(m) && Valid(v) && Eigenpair(m, v, Complex(2.0, 0.0))
            && EigenvalueAsWritten(m, v) == Err(DivisionByZero)
            && EigenvalueIntended(m, v) == Ok(Some(Complex(2.0, 0.0)))
  {
    var m, v := Mat([[One, Zero], [Zero, Complex(2.0, 0.0)]], 2, 2), Mat([[Zero], [One]], 2, 1);
    var col := Column0(v);
    assert col == [Zero, One];
    assert col[..1] == [Zero];
    assert |col[..1][..0]| == 0;
    assert NonzeroCount(col[..1]) == 0;
    assert NonzeroCount(col) == 1;
    assert Product(m, v).value[0][0] == Dot(m, v, 0, 0, 2) == Zero;
    assert Product(m, v).value[1][0] == Dot(m, v, 1, 0, 2) == Complex(2.0, 0.0);
    EigenvalueIntendedRecovers(m, v, Complex(2.0, 0.0));
  }

  // ---------------------------------------------------------------------
  // eigenvector_from_eigenvalue, lines 448-482.

  /** λ is a root of the characteristic polynomial of the 2 x 2 matrix
      [[a, b], [c, d]]: (a − λ)(d − λ) = b·c. */
  predicate CharacteristicRoot(m: Mat, lambda: Complex)
    requires Valid(m) && m.rows == 2 && m.cols == 2
  {
    Times(Minus(m.value[0][0], lambda), Minus(m.value[1][1], lambda)) == Times(m.value[0][1], m.value[1][0])
  }

  /** `eigenvector_from_eigenvalue` as written. It reads a, b, c, d from
      the top-left 2 x 2 corner, so a smaller matrix panics. With c = 0 it
      returns (0, 1) when a − λ ≠ 0 and (1, 0) otherwise (its innermost
      `else`, the only use of d, repeats the test c = 0 and is never
      reached); otherwise it returns (1, (λ − a)/b), which has no value for
      b = 0. */
  function EigenvectorAsWritten(m: Mat, lambda: Complex): (r: Result<Mat>)
    requires Valid(m)
    ensures r.Ok? <==> m.rows >= 2 && m.cols >= 2 && (m.value[1][0] == Zero || m.value[0][1] != Zero)
    ensures r.Ok? ==> r.value.rows == 2 && r.value.cols == 1 && Valid(r.value)
  {
    if m.rows < 2 || m.cols < 2 then Err(IndexOutOfBounds)
    else
      var a, b, c := m.value[0][0], m.value[0][1], m.value[1][0];
      if c == Zero then
        if Minus(a, lambda) != Zero then Ok(Column(Zero, One))
        else Ok(Column(One, Zero))
      else if b == Zero then Err(DivisionByZero)
      else Ok(Column(One, Over(Minus(lambda, a), b)))
  }

  /** `eigenvector_from_eigenvalue` as evidently intended: with c = 0 and
      a ≠ λ the eigenvector is (b/(λ − a), 1); with c ≠ 0 it is
      ((λ − d)/c, 1), which never divides by zero. */
  function EigenvectorIntended(m: Mat, lambda: Complex): (r: Result<Mat>)
    requires Valid(m)
    ensures r.Ok? <==> m.rows >= 2 && m.cols >= 2
    ensures r.Ok? ==> r.value.rows == 2 && r.value.cols == 1 && Valid(r.value)
    ensures r.Ok? ==> r.value.value[0][0] != Zero || r.value.value[1][0] != Zero
  {
    if m.rows < 2 || m.cols < 2 then Err(IndexOutOfBounds)
    else
      var a, b, c, d := m.value[0][0], m.value[0][1], m.value[1][0], m.value[1][1];
      if c == Zero then
        if Minus(lambda, a) != Zero then Ok(Column(Over(b, Minus(lambda, a)), One))
        else Ok(Column(One, Zero))
      else Ok(Column(Over(Minus(lambda, d), c), One))
  }

  /** The product of a 2 x 2 matrix with a 2 x 1 column, row by row. */
  lemma ProductTwo(m: Mat, x: Mat)
    requires Valid(m) && m.rows == 2 && m.cols == 2 && Valid(x) && x.rows == 2 && x.cols == 1
    ensures Product(m, x).value[0][0] == Plus(Times(m.value[0][0], x.value[0][0]), Times(m.value[0][1], x.value[1][0]))
    ensures Product(m, x).value[1][0] == Plus(Times(m.value[1][0], x.value[0][0]), Times(m.value[1][1], x.value[1][0]))
  {
    assert Product(m, x).value[0][0] == Dot(m, x, 0, 0, 2);
    assert Product(m, x).value[1][0] == Dot(m, x, 1, 0, 2);
  }

  /** For a 2 x 2 matrix, being an eigenpair is the two row equations. */
  lemma EigenpairTwo(m: Mat, x: Mat, lambda: Complex)
    requires Valid(m) && m.rows == 2 && m.cols == 2 && Valid(x) && x.rows == 2 && x.cols == 1
    requires Plus(Times(m.value[0][0], x.value[0][0]), Times(m.value[0][1], x.value[1][0])) == Times(lambda, x.value[0][0])
    requires Plus(Times(m.value[1][0], x.value[0][0]), Times(m.value[1][1], x.value[1][0])) == Times(lambda, x.value[1][0])
    ensures Eigenpair(m, x, lambda)
  {
    ProductTwo(m, x);
  }

  /** A product of complex numbers is zero only if a factor is. */
  lemma NoZeroDivisors(p: Complex, q: Complex)
    requires Times(p, q) == Zero && p != Zero
    ensures q == Zero
  {
    TimesZero(p);
    TimesCommutes(p, q);
    TimesCommutes(p, Zero);
    TimesCancels(q, Zero, p);
  }

  /** The c ≠ 0 case: x = (λ − d)/c solves both rows with y = 1. */
  lemma RowsWhenCNonzero(a: Complex, b: Complex, c: Complex, d: Complex, lambda: Complex)
    requires c != Zero && Times(Minus(a, lambda), Minus(d, lambda)) == Times(b, c)
    ensures var x := Over(Minus(lambda, d), c);
            && Plus(Times(a, x), Times(b, One)) == Times(lambda, x)
            && Plus(Times(c, x), Times(d, One)) == Times(lambda, One)
  {
    var x := Over(Minus(lambda, d), c);
    assert Times(x, c) == Minus(lambda, d);
    TimesOne(b);
    TimesOne(d);
    TimesOne(lambda);
    TimesCommutes(c, x);
    var lhs, rhs := Plus(Times(a, x), b), Times(lambda, x);
    assert Times(lhs, c) == Times(rhs, c) by {
      TimesDistributes(c, Times(a, x), b);
      TimesAssociates(a, x, c);
      TimesAssociates(lambda, x, c);
      RootIdentity(a, b, c, d, lambda);
    }
    TimesCancels(lhs, rhs, c);
  }

  /** a(λ − d) + b·c = λ(λ − d) when (a − λ)(d − λ) = b·c. */
  lemma RootIdentity(a: Complex, b: Complex, c: Complex, d: Complex, lambda: Complex)
    requires Times(Minus(a, lambda), Minus(d, lambda)) == Times(b, c)
    ensures Plus(Times(a, Minus(lambda, d)), Times(b, c)) == Times(lambda, Minus(lambda, d))
  {
    var u := Minus(lambda, d);
    NegatedFactors(a, lambda, d);
    assert Times(b, c) == Times(Minus(lambda, a), u);
    TimesDistributes(u, a, Minus(lambda, a));
    assert Plus(a, Minus(lambda, a)) == lambda;
  }

  /** (x − y)(z − w) = (y − x)(w − z). */
  lemma NegatedFactors(x: Complex, y: Complex, z: Complex)
    ensures Times(Minus(x, y), Minus(z, y)) == Times(Minus(y, x), Minus(y, z))
  {
  }

  /** The c = 0, a ≠ λ case: d = λ, and x = b/(λ − a) solves both rows
      with y = 1. */
  lemma RowsWhenCZero(a: Complex, b: Complex, d: Complex, lambda: Complex)
    requires Minus(lambda, a) != Zero && Times(Minus(a, lambda), Minus(d, lambda)) == Times(b, Zero)
    ensures var x := Over(b, Minus(lambda, a));
            && Plus(Times(a, x), Times(b, One)) == Times(lambda, x)
            && Plus(Times(Zero, x), Times(d, One)) == Times(lambda, One)
  {
    var x := Over(b, Minus(lambda, a));
    TimesZero(b);
    NoZeroDivisors(Minus(a, lambda), Minus(d, lambda));
    TimesOne(b);
    TimesOne(d);
    TimesOne(lambda);
    TimesZero(x);
    var lhs, rhs := Plus(Times(a, x), b), Times(lambda, x);
    var u := Minus(lambda, a);
    assert Times(lhs, u) == Times(rhs, u) by {
      TimesDistributes(u, Times(a, x), b);
      TimesAssociates(a, x, u);
      TimesAssociates(lambda, x, u);
    }
    TimesCancels(lhs, rhs, u);
  }

  /** The intended helper returns an eigenvector for every root of the
      characteristic polynomial of a 2 x 2 matrix. */
  lemma EigenvectorIntendedCorrect(m: Mat, lambda: Complex)
    requires Valid(m) && m.rows == 2 && m.cols == 2 && CharacteristicRoot(m, lambda)
    ensures EigenvectorIntended(m, lambda).Ok?
    ensures Eigenpair(m, EigenvectorIntended(m, lambda).value, lambda)
  {
    var a, b, c, d := m.value[0][0], m.value[0][1], m.value[1][0], m.value[1][1];
    var x := EigenvectorIntended(m, lambda).value;
    if c == Zero {
      if Minus(lambda, a) != Zero {
        RowsWhenCZero(a, b, d, lambda);
      } else {
        TimesOne(a);
        TimesZero(b);
        PlusZero(a);
        TimesOne(lambda);
        TimesZero(lambda);
        TimesZero(d);
        TimesOne(Zero);
        PlusZero(Zero);
        assert Plus(Minus(lambda, a), a) == lambda;
        PlusZero(a);
      }
    } else {
      RowsWhenCNonzero(a, b, c, d, lambda);
    }
    EigenpairTwo(m, x, lambda);
  }

  /** Where the written helper takes the c ≠ 0 branch and b ≠ 0, it
      returns an eigenvector. */
  lemma EigenvectorAsWrittenCorrect(m: Mat, lambda: Complex)
    requires Valid(m) && m.rows == 2 && m.cols == 2 && CharacteristicRoot(m, lambda)
    requires m.value[1][0] != Zero && m.value[0][1] != Zero
    ensures EigenvectorAsWritten(m, lambda).Ok?
    ensures Eigenpair(m, EigenvectorAsWritten(m, lambda).value, lambda)
  {
    var a, b, c, d := m.value[0][0], m.value[0][1], m.value[1][0], m.value[1][1];
    var x := EigenvectorAsWritten(m, lambda).value;
    var y := Over(Minus(lambda, a), b);
    assert Times(y, b) == Minus(lambda, a);
    TimesOne(a);
    TimesOne(c);
    TimesOne(lambda);
    TimesCommutes(b, y);
    assert Plus(Minus(lambda, a), a) == lambda;
    PlusCommutes(a, Minus(lambda, a));
    var lhs, rhs := Plus(c, Times(d, y)), Times(lambda, y);
    assert Times(lhs, b) == Times(rhs, b) by {
      TimesDistributes(b, c, Times(d, y));
      TimesAssociates(d, y, b);
      TimesAssociates(lambda, y, b);
      TimesCommutes(c, b);
      RootIdentity(d, c, b, a, lambda);
      TimesCommutes(Minus(a, lambda), Minus(d, lambda));
    }
    TimesCancels(lhs, rhs, b);
    EigenpairTwo(m, x, lambda);
  }

  /** With c = 0, a ≠ λ and b ≠ 0 the written helper returns (0, 1),
      which m sends to (b, d), not λ·(0, 1); the intended one returns an
      eigenvector. */
  lemma EigenvectorWrongCase(m: Mat, lambda: Complex)
    requires Valid(m) && m.rows == 2 && m.cols == 2 && CharacteristicRoot(m, lambda)
    requires m.value[1][0] == Zero && Minus(m.value[0][0], lambda) != Zero && m.value[0][1] != Zero
    ensures EigenvectorAsWritten(m, lambda) == Ok(Column(Zero, One))
    ensures !Eigenpair(m, Column(Zero, One), lambda)
    ensures EigenvectorIntended(m, lambda).Ok? && Eigenpair(m, EigenvectorIntended(m, lambda).value, lambda)
  {
    SecondUnitNotEigen(m, lambda);
    EigenvectorIntendedCorrect(m, lambda);
  }

  /** m sends (0, 1) to its second column (b, d), whose first entry is not
      λ·0 when b ≠ 0. */
  lemma SecondUnitNotEigen(m: Mat, lambda: Complex)
    requires Valid(m) && m.rows == 2 && m.cols == 2 && m.value[0][1] != Zero
    ensures !Eigenpair(m, Column(Zero, One), lambda)
  {
    var x := Column(Zero, One);
    ProductTwo(m, x);
    TimesZero(m.value[0][0]);
    TimesOne(m.value[0][1]);
    PlusZero(m.value[0][1]);
    TimesZero(lambda);
    assert Product(m, x).value[0][0] != Times(lambda, x.value[0][0]);
  }

  /** [[1, 1], [0, 2]] with λ = 2 meets the conditions of the wrong case:
      2 is an eigenvalue, with eigenvector (1, 1). */
  lemma EigenvectorWrongCaseWitness()
    ensures var m, two := Mat([[One, One], [Zero, Complex(2.0, 0.0)]], 2, 2), Complex(2.0, 0.0);
            && Valid(m) && CharacteristicRoot(m, two)
            && m.value[1][0] == Zero && Minus(m.value[0][0], two) != Zero && m.value[0][1] != Zero
  {
  }

  /** [[1, 0], [1, 2]] has the eigenvalue 2 with eigenvector (0, 1). With
      b = 0 and c ≠ 0 the written helper has nothing to divide by; the
      intended one returns (0, 1). */
  lemma EigenvectorZeroB()
    ensures var m, two := Mat([[One, Zero], [One, Complex(2.0, 0.0)]], 2, 2), Complex(2.0, 0.0);
            && Valid(m) && CharacteristicRoot(m, two)
            && EigenvectorAsWritten(m, two) == Err(DivisionByZero)
            && EigenvectorIntended(m, two).Ok? && Eigenpair(m, EigenvectorIntended(m, two).value, two)
  {
    var m, two := Mat([[One, Zero], [One, Complex(2.0, 0.0)]], 2, 2), Complex(2.0, 0.0);
    EigenvectorIntendedCorrect(m, two);
  }
}
