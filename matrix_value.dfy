/** The value side of src/matrix/mod.rs: a Matrix is a row-major sequence
    of rows together with the cached `rows` and `cols` counts. Everything
    here is a specification function or a lemma about one; the loops that
    compute these values live in MatrixOperators and MatrixInPlace. */
module Matrices {
  import opened Outcomes
  import opened ComplexNumbers

  /** A Matrix value (the struct derives Clone and PartialEq, so it is
      compared and copied as a value). */
  datatype Mat = Mat(value: seq<seq<Complex>>, rows: nat, cols: nat)

  /** Every row has the given width. */
  predicate Rectangular(value: seq<seq<Complex>>, width: nat)
  {
    forall i :: 0 <= i < |value| ==> |value[i]| == width
  }

  /** What `new` establishes: at least one row, all rows as long as the
      first, and the cached counts agree with the rows. */
  predicate Valid(m: Mat)
  {
    m.rows >= 1 && |m.value| == m.rows && Rectangular(m.value, m.cols)
  }

  /** `new`: the emptiness of the row list is only discovered when row 0
      is read for `cols`, after the rectangularity test has passed
      vacuously. */
  function New(value: seq<seq<Complex>>): (r: Result<Mat>)
    ensures r.Ok? <==> |value| >= 1 && Rectangular(value, |value[0]|)
    ensures r.Ok? ==> Valid(r.value) && r.value.value == value
    ensures |value| == 0 ==> r == Err(IndexOutOfBounds)
  {
    if |value| == 0 then Err(IndexOutOfBounds)
    else if !Rectangular(value, |value[0]|) then Err(NotRectangular)
    else Ok(Mat(value, |value|, |value[0]|))
  }

  /** `new` accepts every valid matrix's rows and rebuilds that matrix. */
  lemma NewOfValid(m: Mat)
    requires Valid(m)
    ensures New(m.value) == Ok(m)
  {
    assert |m.value[0]| == m.cols;
  }

  /** The rows x cols all-zero matrix that `from_dimensions` builds. */
  function Zeros(rows: nat, cols: nat): (z: Mat)
    ensures z.rows == rows && z.cols == cols && |z.value| == rows
    ensures Rectangular(z.value, cols)
    ensures forall i, j :: 0 <= i < rows && 0 <= j < cols ==> z.value[i][j] == Zero
  {
    Mat(seq(rows, _ => seq(cols, _ => Zero)), rows, cols)
  }

  /** `from_dimensions` as a value: zero rows make `new` read a missing
      row 0. */
  function FromDimensions(rows: nat, cols: nat): (r: Result<Mat>)
    ensures r.Ok? <==> rows >= 1
    ensures r.Ok? ==> Valid(r.value) && r.value == Zeros(rows, cols)
  {
    if rows == 0 then Err(IndexOutOfBounds) else Ok(Zeros(rows, cols))
  }

  /** `IDENTITY()`: always 2 x 2, whatever it is multiplied with. */
  function Identity(): (m: Mat)
    ensures Valid(m) && m.rows == 2 && m.cols == 2
  {
    Mat([[One, Zero], [Zero, One]], 2, 2)
  }

  /** The 2 x 1 column (x, y): a qubit state, or an eigenvector of a
      2 x 2 matrix. */
  function Column(x: Complex, y: Complex): (v: Mat)
    ensures Valid(v) && v.rows == 2 && v.cols == 1
    ensures v.value[0][0] == x && v.value[1][0] == y
  {
    Mat([[x], [y]], 2, 1)
  }

  // ---------------------------------------------------------------------
  // Cell-by-cell operators, lines 54-178 and 266-289.

  /** The four ComplexNumber operators a scalar is applied with. */
  datatype ScalarOp = AddScalar | SubScalar | MulScalar | DivScalar

  /** One cell's new value under `cell op k`. Division needs a nonzero
      divisor, which the source does not check. */
  function ApplyScalar(op: ScalarOp, x: Complex, k: Complex): Complex
    requires op == DivScalar ==> k != Zero
  {
    match op
    case AddScalar => Plus(x, k)
    case SubScalar => Minus(x, k)
    case MulScalar => Times(x, k)
    case DivScalar => Over(x, k)
  }

  /** Each scalar operator is undone by its inverse. */
  lemma ApplyScalarInverse(x: Complex, k: Complex)
    ensures ApplyScalar(SubScalar, ApplyScalar(AddScalar, x, k), k) == x
    ensures Plus(ApplyScalar(SubScalar, x, k), k) == x
    ensures k != Zero ==> ApplyScalar(DivScalar, ApplyScalar(MulScalar, x, k), k) == x
    ensures k != Zero ==> Times(ApplyScalar(DivScalar, x, k), k) == x
  {
    MinusUndoesPlus(x, k);
    if k != Zero {
      OverUndoesTimes(x, k);
    }
  }

  /** The matrix `m op k` returns: the same shape and counts, with the
      scalar applied to every cell the loops visit (every cell of every
      row, whatever its length). */
  function ScalarMap(m: Mat, op: ScalarOp, k: Complex): (r: Mat)
    requires op == DivScalar ==> k != Zero
    ensures r.rows == m.rows && r.cols == m.cols && |r.value| == |m.value|
    ensures forall i :: 0 <= i < |m.value| ==> |r.value[i]| == |m.value[i]|
    ensures forall i, j :: 0 <= i < |m.value| && 0 <= j < |m.value[i]| ==>
              r.value[i][j] == ApplyScalar(op, m.value[i][j], k)
  {
    Mat(seq(|m.value|, i requires 0 <= i < |m.value| =>
          seq(|m.value[i]|, j requires 0 <= j < |m.value[i]| => ApplyScalar(op, m.value[i][j], k))),
        m.rows, m.cols)
  }

  /** A scalar operator keeps a matrix valid. */
  lemma ScalarMapValid(m: Mat, op: ScalarOp, k: Complex)
    requires Valid(m) && (op == DivScalar ==> k != Zero)
    ensures Valid(ScalarMap(m, op, k))
  {
  }

  /** `(m + k) - k == m` and, for k != 0, `(m * k) / k == m`. */
  lemma ScalarMapInverse(m: Mat, k: Complex)
    ensures ScalarMap(ScalarMap(m, AddScalar, k), SubScalar, k) == m
    ensures k != Zero ==> ScalarMap(ScalarMap(m, MulScalar, k), DivScalar, k) == m
  {
    var added := ScalarMap(m, AddScalar, k);
    var back := ScalarMap(added, SubScalar, k);
    forall i, j | 0 <= i < |m.value| && 0 <= j < |m.value[i]|
      ensures back.value[i][j] == m.value[i][j]
    {
      ApplyScalarInverse(m.value[i][j], k);
    }
    assert forall i | 0 <= i < |m.value| :: back.value[i] == m.value[i];
    if k != Zero {
      var scaled := ScalarMap(m, MulScalar, k);
      var unscaled := ScalarMap(scaled, DivScalar, k);
      forall i, j | 0 <= i < |m.value| && 0 <= j < |m.value[i]|
        ensures unscaled.value[i][j] == m.value[i][j]
      {
        ApplyScalarInverse(m.value[i][j], k);
      }
      assert forall i | 0 <= i < |m.value| :: unscaled.value[i] == m.value[i];
    }
  }

  /** The two Matrix-with-Matrix cell operators. */
  datatype ZipOp = AddCells | SubCells

  function ApplyZip(op: ZipOp, x: Complex, y: Complex): Complex
  {
    match op
    case AddCells => Plus(x, y)
    case SubCells => Minus(x, y)
  }

  /** The two matrices have the same cached counts, the test `+` and `-`
      make before touching a cell. */
  predicate SameSize(m: Mat, n: Mat)
  {
    m.rows == n.rows && m.cols == n.cols
  }

  /** The matrix `m op n` returns for two valid matrices of one size. */
  function ZipCells(m: Mat, n: Mat, op: ZipOp): (r: Mat)
    requires Valid(m) && Valid(n) && SameSize(m, n)
    ensures Valid(r) && SameSize(r, m)
    ensures forall i, j :: 0 <= i < m.rows && 0 <= j < m.cols ==>
              r.value[i][j] == ApplyZip(op, m.value[i][j], n.value[i][j])
  {
    Mat(seq(m.rows, i requires 0 <= i < m.rows =>
          seq(m.cols, j requires 0 <= j < m.cols => ApplyZip(op, m.value[i][j], n.value[i][j]))),
        m.rows, m.cols)
  }

  /** `m + n` and `m - n`: a size mismatch panics. */
  function Zip(m: Mat, n: Mat, op: ZipOp): (r: Result<Mat>)
    requires Valid(m) && Valid(n)
    ensures r.Ok? <==> SameSize(m, n)
    ensures r.Ok? ==> r.value == ZipCells(m, n, op)
  {
    if !SameSize(m, n) then Err(DimensionMismatch) else Ok(ZipCells(m, n, op))
  }

  /** Matrix addition commutes, and subtraction undoes it. */
  lemma ZipCellsLaws(m: Mat, n: Mat)
    requires Valid(m) && Valid(n) && SameSize(m, n)
    ensures ZipCells(m, n, AddCells) == ZipCells(n, m, AddCells)
    ensures ZipCells(ZipCells(m, n, AddCells), n, SubCells) == m
  {
    var s := ZipCells(m, n, AddCells);
    var t := ZipCells(n, m, AddCells);
    var back := ZipCells(s, n, SubCells);
    forall i, j | 0 <= i < m.rows && 0 <= j < m.cols
      ensures s.value[i][j] == t.value[i][j] && back.value[i][j] == m.value[i][j]
    {
      PlusCommutes(m.value[i][j], n.value[i][j]);
      MinusUndoesPlus(m.value[i][j], n.value[i][j]);
    }
    assert forall i | 0 <= i < m.rows :: s.value[i] == t.value[i];
    assert forall i | 0 <= i < m.rows :: back.value[i] == m.value[i];
  }

  // ---------------------------------------------------------------------
  // The product, lines 179-265.

  /** The two matrices can be multiplied and every index the product
      reads exists. */
  predicate Conformable(m: Mat, n: Mat)
  {
    Valid(m) && Valid(n) && m.cols == n.rows
  }

  /** The `reduce` over the first k products of row r of m with column c
      of n, folding from the left and starting at the first product. */
  function Dot(m: Mat, n: Mat, r: nat, c: nat, k: nat): Complex
    requires Conformable(m, n) && r < m.rows && c < n.cols && 1 <= k <= m.cols
  {
    var p := Times(m.value[r][k - 1], n.value[k - 1][c]);
    if k == 1 then p else Plus(Dot(m, n, r, c, k - 1), p)
  }

  /** `m * n` for conformable matrices: m.rows x n.cols, each cell the
      full dot product. */
  function Product(m: Mat, n: Mat): (p: Mat)
    requires Conformable(m, n)
    ensures Valid(p) && p.rows == m.rows && p.cols == n.cols
    ensures forall r, c :: 0 <= r < m.rows && 0 <= c < n.cols ==>
              p.value[r][c] == Dot(m, n, r, c, m.cols)
  {
    Mat(seq(m.rows, r requires 0 <= r < m.rows =>
          seq(n.cols, c requires 0 <= c < n.cols => Dot(m, n, r, c, m.cols))),
        m.rows, n.cols)
  }

  /** `m * n`: a mismatch between m.cols and n.rows panics. */
  function Multiply(m: Mat, n: Mat): (r: Result<Mat>)
    requires Valid(m) && Valid(n)
    ensures r.Ok? <==> m.cols == n.rows
    ensures r.Ok? ==> r.value == Product(m, n)
  {
    if m.cols != n.rows then Err(DimensionMismatch) else Ok(Product(m, n))
  }

  /** IDENTITY() * n == n for every valid n with two rows. */
  lemma IdentityLeft(n: Mat)
    requires Valid(n) && n.rows == 2
    ensures Product(Identity(), n) == n
  {
    var p := Product(Identity(), n);
    forall r, c | 0 <= r < 2 && 0 <= c < n.cols
      ensures p.value[r][c] == n.value[r][c]
    {
      TimesOne(n.value[r][c]);
      TimesZero(n.value[1 - r][c]);
      PlusZero(n.value[r][c]);
      var id := Identity();
      assert p.value[r][c] == Dot(id, n, r, c, 2);
      assert Dot(id, n, r, c, 1) == Times(id.value[r][0], n.value[0][c]);
    }
    assert p.value[0] == n.value[0] && p.value[1] == n.value[1];
    assert p.value == n.value;
  }

  /** m * IDENTITY() == m for every valid m with two columns. */
  lemma IdentityRight(m: Mat)
    requires Valid(m) && m.cols == 2
    ensures Product(m, Identity()) == m
  {
    var p := Product(m, Identity());
    forall r, c | 0 <= r < m.rows && 0 <= c < 2
      ensures p.value[r][c] == m.value[r][c]
    {
      TimesOne(m.value[r][c]);
      TimesZero(m.value[r][1 - c]);
      PlusZero(m.value[r][c]);
      var id := Identity();
      assert p.value[r][c] == Dot(m, id, r, c, 2);
      assert Dot(m, id, r, c, 1) == Times(m.value[r][0], id.value[0][c]);
    }
    assert forall r | 0 <= r < m.rows :: p.value[r] == m.value[r];
  }

  // ---------------------------------------------------------------------
  // transpose, conjugate, adjunct, unitary (lines 358-384).

  /** The cols x rows matrix `transpose` leaves, out[c][r] == in[r][c]. */
  function Transposed(m: Mat): (t: Mat)
    requires Valid(m) && m.cols >= 1
    ensures Valid(t) && t.rows == m.cols && t.cols == m.rows
    ensures forall c, r :: 0 <= c < m.cols && 0 <= r < m.rows ==> t.value[c][r] == m.value[r][c]
  {
    Mat(seq(m.cols, c requires 0 <= c < m.cols =>
          seq(m.rows, r requires 0 <= r < m.rows => m.value[r][c])),
        m.cols, m.rows)
  }

  /** `transpose` starts from `from_dimensions(cols, rows)`, which panics
      for a matrix without columns. */
  function Transpose(m: Mat): (r: Result<Mat>)
    requires Valid(m)
    ensures r.Ok? <==> m.cols >= 1
    ensures r.Ok? ==> r.value == Transposed(m)
  {
    if m.cols == 0 then Err(IndexOutOfBounds) else Ok(Transposed(m))
  }

  /** Transposing twice gives back the original matrix. */
  lemma TransposeTwice(m: Mat)
    requires Valid(m) && m.cols >= 1
    ensures Transposed(Transposed(m)) == m
  {
    var t := Transposed(Transposed(m));
    assert forall r | 0 <= r < m.rows :: t.value[r] == m.value[r];
  }

  /** The conjugate transpose, which `adjunct` is evidently meant to
      compute. */
  function Adjoint(m: Mat): (t: Mat)
    requires Valid(m) && m.cols >= 1
    ensures Valid(t) && t.rows == m.cols && t.cols == m.rows
    ensures forall c, r :: 0 <= c < m.cols && 0 <= r < m.rows ==> t.value[c][r] == Conj(m.value[r][c])
  {
    Mat(seq(m.cols, c requires 0 <= c < m.cols =>
          seq(m.rows, r requires 0 <= r < m.rows => Conj(m.value[r][c]))),
        m.cols, m.rows)
  }

  /** The adjoint of the adjoint is the original matrix. */
  lemma AdjointTwice(m: Mat)
    requires Valid(m) && m.cols >= 1
    ensures Adjoint(Adjoint(m)) == m
  {
    var t := Adjoint(Adjoint(m));
    forall r, c | 0 <= r < m.rows && 0 <= c < m.cols
      ensures t.value[r][c] == m.value[r][c]
    {
      ConjInvolutive(m.value[r][c]);
    }
    assert forall r | 0 <= r < m.rows :: t.value[r] == m.value[r];
  }

  /** `unitary` as written: `adjunct` is a plain transpose (its conjugate
      step changes nothing), so this compares m · mᵀ with IDENTITY(). A
      matrix without columns makes `transpose` panic. */
  function UnitaryAsWritten(m: Mat): (r: Result<bool>)
    requires Valid(m)
    ensures r.Ok? <==> m.cols >= 1
    ensures r.Ok? ==> (r.value <==> Product(m, Transposed(m)) == Identity())
  {
    if m.cols == 0 then Err(IndexOutOfBounds) else Ok(Product(m, Transposed(m)) == Identity())
  }

  /** `unitary` as intended: m · m† == IDENTITY(). */
  predicate Unitary(m: Mat)
    requires Valid(m) && m.cols >= 1
  {
    Product(m, Adjoint(m)) == Identity()
  }

  /** For a real matrix the transpose is the adjoint, so the written and
      the intended test agree there. */
  lemma RealMatricesAgree(m: Mat)
    requires Valid(m) && m.cols >= 1
    requires forall r, c :: 0 <= r < m.rows && 0 <= c < m.cols ==> m.value[r][c].b == 0.0
    ensures UnitaryAsWritten(m) == Ok(Unitary(m))
  {
    var t, h := Transposed(m), Adjoint(m);
    forall c, r | 0 <= c < m.cols && 0 <= r < m.rows
      ensures t.value[c][r] == h.value[c][r]
    {
    }
    assert forall c | 0 <= c < m.cols :: t.value[c] == h.value[c];
    assert t == h;
  }

  // ---------------------------------------------------------------------
  // inner_product and outer_product (lines 387-400).

  /** Both arguments are single columns of one length: the shape
      `inner_product` accepts. */
  predicate SameColumns(m: Mat, n: Mat)
  {
    Valid(m) && Valid(n) && m.cols == 1 && n.cols == 1 && m.rows == n.rows
  }

  /** Σ m[i][0]·n[i][0] over the first k rows, folded from the left. */
  function ColumnDot(m: Mat, n: Mat, k: nat): Complex
    requires SameColumns(m, n) && 1 <= k <= m.rows
  {
    var p := Times(m.value[k - 1][0], n.value[k - 1][0]);
    if k == 1 then p else Plus(ColumnDot(m, n, k - 1), p)
  }

  /** The (0, 0) cell of mᵀ · n is the column dot product. */
  lemma {:induction false} TransposedDot(m: Mat, n: Mat, k: nat)
    requires SameColumns(m, n) && 1 <= k <= m.rows
    ensures Dot(Transposed(m), n, 0, 0, k) == ColumnDot(m, n, k)
  {
    if k > 1 {
      TransposedDot(m, n, k - 1);
    }
  }

  /** Without the lost conjugation the inner product is symmetric. */
  lemma {:induction false} ColumnDotSymmetric(m: Mat, n: Mat, k: nat)
    requires SameColumns(m, n) && 1 <= k <= m.rows
    ensures ColumnDot(m, n, k) == ColumnDot(n, m, k)
  {
    TimesCommutes(m.value[k - 1][0], n.value[k - 1][0]);
    if k > 1 {
      ColumnDotSymmetric(m, n, k - 1);
    }
  }

  /** `inner_product`: both arguments must be single columns (else a
      panic), and the 1 x m.rows by n.rows x 1 product needs equal
      lengths. The result is the (0, 0) cell of that product. */
  function InnerProduct(m: Mat, n: Mat): (r: Result<Complex>)
    requires Valid(m) && Valid(n)
    ensures r.Ok? <==> SameColumns(m, n)
    ensures r.Ok? ==> r.value == ColumnDot(m, n, m.rows)
  {
    if m.cols != 1 || n.cols != 1 || m.rows != n.rows then Err(DimensionMismatch)
    else
      TransposedDot(m, n, m.rows);
      Ok(Product(Transposed(m), n).value[0][0])
  }

  /** The inner product does not depend on the order of its arguments. */
  lemma InnerProductSymmetric(m: Mat, n: Mat)
    requires Valid(m) && Valid(n)
    ensures InnerProduct(m, n) == InnerProduct(n, m)
  {
    if SameColumns(m, n) {
      ColumnDotSymmetric(m, n, m.rows);
    }
  }

  /** The m.rows x n.rows matrix m · nᵀ of two single columns. */
  function Outer(m: Mat, n: Mat): (p: Mat)
    requires Valid(m) && Valid(n) && m.cols == 1 && n.cols == 1
    ensures Valid(p) && p.rows == m.rows && p.cols == n.rows
    ensures forall i, j :: 0 <= i < m.rows && 0 <= j < n.rows ==>
              p.value[i][j] == Times(m.value[i][0], n.value[j][0])
  {
    var t := Transposed(n);
    var p := Product(m, t);
    assert forall i, j :: 0 <= i < m.rows && 0 <= j < n.rows ==>
      p.value[i][j] == Dot(m, t, i, j, 1);
    p
  }

  /** `outer_product`: both arguments must be single columns. */
  function OuterProduct(m: Mat, n: Mat): (r: Result<Mat>)
    requires Valid(m) && Valid(n)
    ensures r.Ok? <==> m.cols == 1 && n.cols == 1
    ensures r.Ok? ==> r.value == Outer(m, n)
  {
    if m.cols != 1 || n.cols != 1 then Err(DimensionMismatch) else Ok(Outer(m, n))
  }

  /** Swapping the arguments transposes the outer product. */
  lemma OuterTransposes(m: Mat, n: Mat)
    requires Valid(m) && Valid(n) && m.cols == 1 && n.cols == 1
    ensures Outer(n, m) == Transposed(Outer(m, n))
  {
    var a := Outer(n, m);
    var b := Transposed(Outer(m, n));
    forall j, i | 0 <= j < n.rows && 0 <= i < m.rows
      ensures a.value[j][i] == b.value[j][i]
    {
      TimesCommutes(m.value[i][0], n.value[j][0]);
    }
    assert forall j | 0 <= j < n.rows :: a.value[j] == b.value[j];
  }

  // ---------------------------------------------------------------------
  // determinant and invert (lines 332-357).

  predicate IsTwoByTwo(m: Mat)
  {
    Valid(m) && m.rows == 2 && m.cols == 2
  }

  /** ad - bc of a 2 x 2 matrix. */
  function Det2(m: Mat): Complex
    requires IsTwoByTwo(m)
  {
    Minus(Times(m.value[0][0], m.value[1][1]), Times(m.value[0][1], m.value[1][0]))
  }

  /** `determinant`: anything but a 2 x 2 matrix reaches `todo!()`. */
  function Determinant(m: Mat): (r: Result<Complex>)
    requires Valid(m)
    ensures r.Ok? <==> IsTwoByTwo(m)
    ensures r.Ok? ==> r.value == Det2(m)
  {
    if m.rows == 2 && m.cols == 2 then Ok(Det2(m)) else Err(Unimplemented)
  }

  /** [[d, -b], [-c, a]] / det, the cells `invert` writes. */
  function Inverse2(m: Mat): (r: Mat)
    requires IsTwoByTwo(m) && Det2(m) != Zero
    ensures IsTwoByTwo(r)
  {
    var det := Det2(m);
    var a, b, c, d := m.value[0][0], m.value[0][1], m.value[1][0], m.value[1][1];
    var minusOne := Complex(-1.0, 0.0);
    Mat([[Over(d, det), Over(Times(b, minusOne), det)],
         [Over(Times(c, minusOne), det), Over(a, det)]], 2, 2)
  }

  /** `invert` as a value: non-2 x 2 input reaches `todo!()`, and a zero
      determinant leaves nothing to divide by. */
  function Invert(m: Mat): (r: Result<Mat>)
    requires Valid(m)
    ensures r.Ok? <==> IsTwoByTwo(m) && Det2(m) != Zero
    ensures r.Ok? ==> r.value == Inverse2(m)
    ensures !IsTwoByTwo(m) ==> r == Err(Unimplemented)
  {
    if !(m.rows == 2 && m.cols == 2) then Err(Unimplemented)
    else if Det2(m) == Zero then Err(DivisionByZero)
    else Ok(Inverse2(m))
  }

  /** Two quotients by one divisor combine into the quotient of the sum. */
  lemma CombineOver(x: Complex, y: Complex, u: Complex, v: Complex, z: Complex)
    requires z != Zero
    ensures Plus(Times(x, Over(u, z)), Times(y, Over(v, z))) == Over(Plus(Times(x, u), Times(y, v)), z)
  {
    var l := Plus(Times(x, Over(u, z)), Times(y, Over(v, z)));
    TimesDistributes(z, Times(x, Over(u, z)), Times(y, Over(v, z)));
    TimesAssociates(x, Over(u, z), z);
    TimesAssociates(y, Over(v, z), z);
    TimesCancels(l, Over(Plus(Times(x, u), Times(y, v)), z), z);
  }

  /** Multiplying a factor by -1 negates the product. */
  lemma NegatedFactor(x: Complex, y: Complex)
    ensures Times(x, Times(y, Complex(-1.0, 0.0))) == Minus(Zero, Times(x, y))
  {
  }

  /** A row-by-column sum of quotients whose numerators add up to the
      divisor is One; one whose numerators cancel is Zero. */
  lemma QuotientCell(x: Complex, y: Complex, u: Complex, v: Complex, z: Complex)
    requires z != Zero
    ensures Plus(Times(x, u), Times(y, v)) == z ==> Plus(Times(x, Over(u, z)), Times(y, Over(v, z))) == One
    ensures Plus(Times(x, u), Times(y, v)) == Zero ==> Plus(Times(x, Over(u, z)), Times(y, Over(v, z))) == Zero
  {
    CombineOver(x, y, u, v, z);
    TimesOne(z);
    TimesZero(z);
    if Plus(Times(x, u), Times(y, v)) == z {
      TimesCancels(Over(z, z), One, z);
    }
    if Plus(Times(x, u), Times(y, v)) == Zero {
      TimesCancels(Over(Zero, z), Zero, z);
    }
  }

  /** For a nonzero determinant, `invert` computes a right inverse:
      m · invert(m) == IDENTITY(). */
  lemma InverseIsRightInverse(m: Mat)
    requires IsTwoByTwo(m) && Det2(m) != Zero
    ensures Product(m, Inverse2(m)) == Identity()
  {
    var inv := Inverse2(m);
    var det := Det2(m);
    var a, b, c, d := m.value[0][0], m.value[0][1], m.value[1][0], m.value[1][1];
    var nb, nc := Times(b, Complex(-1.0, 0.0)), Times(c, Complex(-1.0, 0.0));
    var p := Product(m, inv);
    assert Plus(Times(a, d), Times(b, nc)) == det by {
      NegatedFactor(b, c);
    }
    assert Plus(Times(a, nb), Times(b, a)) == Zero by {
      NegatedFactor(a, b);
      TimesCommutes(a, b);
    }
    assert Plus(Times(c, d), Times(d, nc)) == Zero by {
      NegatedFactor(d, c);
      TimesCommutes(c, d);
    }
    assert Plus(Times(c, nb), Times(d, a)) == det by {
      NegatedFactor(c, b);
      TimesCommutes(c, b);
      TimesCommutes(a, d);
    }
    QuotientCell(a, b, d, nc, det);
    QuotientCell(a, b, nb, a, det);
    QuotientCell(c, d, d, nc, det);
    QuotientCell(c, d, nb, a, det);
    assert p.value[0][0] == Dot(m, inv, 0, 0, 2) == One;
    assert p.value[0][1] == Dot(m, inv, 0, 1, 2) == Zero;
    assert p.value[1][0] == Dot(m, inv, 1, 0, 2) == Zero;
    assert p.value[1][1] == Dot(m, inv, 1, 1, 2) == One;
    assert p.value[0] == Identity().value[0];
    assert p.value[1] == Identity().value[1];
  }
}
