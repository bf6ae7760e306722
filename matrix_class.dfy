/** The `&mut self` side of src/matrix/mod.rs: a Matrix object whose
    methods overwrite its cells, or replace the whole value, in place. The
    by-value operators clone the matrix and run the same loops on the
    clone, as the source does. */
module MatrixInPlace {
  import opened Outcomes
  import opened ComplexNumbers
  import opened Matrices

  /** `from_dimensions`: one zero row of width `cols`, pushed `rows` times,
      then handed to `new`, which needs a row 0. */
  method BuildFromDimensions(rows: nat, cols: nat) returns (r: Result<Mat>)
    ensures r == FromDimensions(rows, cols)
  {
    var row := seq(cols, _ => Zero);
    var ret: seq<seq<Complex>> := [];
    for i := 0 to rows
      invariant ret == seq(i, _ => row)
    {
      ret := ret + [row];
    }
    if |ret| == 0 {
      return Err(IndexOutOfBounds);
    }
    assert Rectangular(ret, |ret[0]|);
    r := Ok(Mat(ret, |ret|, |ret[0]|));
  }

  /** The reduce in `mul`: the products of row r of m with column c of n,
      summed from the left starting with the first product. */
  method DotProduct(m: Mat, n: Mat, r: nat, c: nat) returns (d: Complex)
    requires Conformable(m, n) && r < m.rows && c < n.cols
    ensures d == Dot(m, n, r, c, m.cols)
  {
    d := Times(m.value[r][0], n.value[0][c]);
    for k := 1 to m.cols
      invariant d == Dot(m, n, r, c, k)
    {
      d := Plus(d, Times(m.value[r][k], n.value[k][c]));
    }
  }

  /** `Matrix * Matrix`: a dimension check, then a zero-filled
      m.rows x n.cols matrix whose cells are overwritten one by one. */
  method MatrixProduct(m: Mat, n: Mat) returns (r: Result<Mat>)
    requires Valid(m) && Valid(n)
    ensures r == Multiply(m, n)
  {
    if m.cols != n.rows {
      return Err(DimensionMismatch);
    }
    var z := BuildFromDimensions(m.rows, n.cols);
    var result := z.value.value;
    ghost var p := Product(m, n);
    for row := 0 to |result|
      invariant |result| == m.rows && Rectangular(result, n.cols)
      invariant forall i :: 0 <= i < row ==> result[i] == p.value[i]
    {
      for col := 0 to |result[row]|
        invariant |result| == m.rows && Rectangular(result, n.cols)
        invariant forall i :: 0 <= i < row ==> result[i] == p.value[i]
        invariant forall j :: 0 <= j < col ==> result[row][j] == p.value[row][j]
      {
        var d := DotProduct(m, n, row, col);
        result := result[row := result[row][col := d]];
      }
      assert result[row] == p.value[row];
    }
    assert result == p.value;
    r := Ok(Mat(result, m.rows, n.cols));
  }

  /** A Matrix object. The `&Self` that several methods return for
      chaining is not modelled. */
  class Matrix {
    var value: seq<seq<Complex>>
    var rows: nat
    var cols: nat

    /** The object's current value, as `clone()` would copy it. */
    function Snapshot(): Mat
      reads this
    {
      Mat(value, rows, cols)
    }

    constructor (m: Mat)
      ensures Snapshot() == m
    {
      value, rows, cols := m.value, m.rows, m.cols;
    }

    /** `+= k`, `-= k`, `*= k`, `/= k` with a ComplexNumber k: every cell
        of every row is combined with k in place. */
    method ApplyScalarInPlace(op: ScalarOp, k: Complex)
      requires op == DivScalar ==> k != Zero
      modifies this
      ensures Snapshot() == ScalarMap(old(Snapshot()), op, k)
    {
      ghost var m := Snapshot();
      ghost var target := ScalarMap(m, op, k);
      for row := 0 to |value|
        invariant rows == m.rows && cols == m.cols && |value| == |m.value|
        invariant forall i :: 0 <= i < row ==> value[i] == target.value[i]
        invariant forall i :: row <= i < |value| ==> value[i] == m.value[i]
      {
        ghost var before := value;
        for col := 0 to |value[row]|
          invariant rows == m.rows && cols == m.cols && |value| == |m.value|
          invariant forall i :: 0 <= i < |value| && i != row ==> value[i] == before[i]
          invariant |value[row]| == |m.value[row]|
          invariant forall j :: 0 <= j < col ==> value[row][j] == target.value[row][j]
          invariant forall j :: col <= j < |value[row]| ==> value[row][j] == m.value[row][j]
        {
          value := value[row := value[row][col := ApplyScalar(op, value[row][col], k)]];
        }
        assert value[row] == target.value[row];
      }
      assert value == target.value;
    }

    /** `+= n` and `-= n` with a Matrix n: a size mismatch panics before
        any cell is written; otherwise each cell is combined with n's cell
        at the same place. */
    method ApplyMatrixInPlace(n: Mat, op: ZipOp) returns (s: Status)
      requires Valid(Snapshot()) && Valid(n)
      modifies this
      ensures s == Completed <==> SameSize(old(Snapshot()), n)
      ensures s == Completed ==> Snapshot() == ZipCells(old(Snapshot()), n, op)
      ensures s != Completed ==> s == Panicked(DimensionMismatch) && Snapshot() == old(Snapshot())
    {
      if rows != n.rows || cols != n.cols {
        return Panicked(DimensionMismatch);
      }
      ghost var m := Snapshot();
      ghost var target := ZipCells(m, n, op);
      for row := 0 to |value|
        invariant rows == m.rows && cols == m.cols && |value| == |m.value|
        invariant forall i :: 0 <= i < row ==> value[i] == target.value[i]
        invariant forall i :: row <= i < |value| ==> value[i] == m.value[i]
      {
        ghost var before := value;
        for col := 0 to |value[row]|
          invariant rows == m.rows && cols == m.cols && |value| == |m.value|
          invariant forall i :: 0 <= i < |value| && i != row ==> value[i] == before[i]
          invariant |value[row]| == m.cols
          invariant forall j :: 0 <= j < col ==> value[row][j] == target.value[row][j]
          invariant forall j :: col <= j < |value[row]| ==> value[row][j] == m.value[row][j]
        {
          value := value[row := value[row][col := ApplyZip(op, value[row][col], n.value[row][col])]];
        }
        assert value[row] == target.value[row];
      }
      assert value == target.value;
      s := Completed;
    }

    /** `*= n`: the product is built as by `*`, then replaces self. */
    method MultiplyInPlace(n: Mat) returns (s: Status)
      requires Valid(Snapshot()) && Valid(n)
      modifies this
      ensures s == Completed <==> old(cols) == n.rows
      ensures s == Completed ==> Snapshot() == Product(old(Snapshot()), n)
      ensures s != Completed ==> s == Panicked(DimensionMismatch) && Snapshot() == old(Snapshot())
    {
      var p := MatrixProduct(Snapshot(), n);
      if p.Err? {
        return Panicked(p.fault);
      }
      value, rows, cols := p.value.value, p.value.rows, p.value.cols;
      s := Completed;
    }

    /** `invert`: `determinant` first (so anything but 2 x 2 reaches its
        `todo!()`), then the four cells are overwritten with
        [[d, -b], [-c, a]] / det, read from copies taken beforehand. A
        zero determinant stops the first quotient. */
    method Invert() returns (s: Status)
      requires Valid(Snapshot())
      modifies this
      ensures s == Completed <==> Matrices.Invert(old(Snapshot())).Ok?
      ensures s == Completed ==> Snapshot() == Inverse2(old(Snapshot()))
      ensures s != Completed ==> s == Panicked(Matrices.Invert(old(Snapshot())).fault)
      ensures s != Completed ==> Snapshot() == old(Snapshot())
    {
      var determinant := Determinant(Snapshot());
      if determinant.Err? {
        return Panicked(determinant.fault);
      }
      var det := determinant.value;
      if det == Zero {
        return Panicked(DivisionByZero);
      }
      ghost var target := Inverse2(Snapshot());
      var a, b, c, d := value[0][0], value[0][1], value[1][0], value[1][1];
      var minusOne := Complex(-1.0, 0.0);
      value := value[0 := value[0][0 := Over(d, det)]];
      value := value[0 := value[0][1 := Over(Times(b, minusOne), det)]];
      value := value[1 := value[1][0 := Over(Times(c, minusOne), det)]];
      value := value[1 := value[1][1 := Over(a, det)]];
      assert value[0] == target.value[0] && value[1] == target.value[1];
      assert value == target.value;
      s := Completed;
    }

    /** `transpose`: a zero-filled cols x rows matrix (which
        `from_dimensions` refuses when cols is 0) receives cell (r, c) at
        (c, r) and then replaces self. */
    method Transpose() returns (s: Status)
      requires Valid(Snapshot())
      modifies this
      ensures s == Completed <==> old(cols) >= 1
      ensures s == Completed ==> Snapshot() == Transposed(old(Snapshot()))
      ensures s != Completed ==> s == Panicked(IndexOutOfBounds) && Snapshot() == old(Snapshot())
    {
      var ret := BuildFromDimensions(cols, rows);
      if ret.Err? {
        return Panicked(ret.fault);
      }
      ghost var m := Snapshot();
      var out := ret.value.value;
      for r := 0 to rows
        invariant |out| == cols && Rectangular(out, rows)
        invariant forall c, r' :: 0 <= c < cols && 0 <= r' < r ==> out[c][r'] == value[r'][c]
      {
        for c := 0 to cols
          invariant |out| == cols && Rectangular(out, rows)
          invariant forall c', r' :: 0 <= c' < cols && 0 <= r' < r ==> out[c'][r'] == value[r'][c']
          invariant forall c' :: 0 <= c' < c ==> out[c'][r] == value[r][c']
        {
          out := out[c := out[c][r := value[r][c]]];
        }
      }
      ghost var t := Transposed(m);
      assert forall c :: 0 <= c < cols ==> out[c] == t.value[c];
      value, rows, cols := out, cols, rows;
      s := Completed;
    }

    /** `conjugate` as written: the conjugate of every cell is computed by
        the `&self` method and dropped, so nothing changes. */
    method Conjugate()
      requires Valid(Snapshot())
      modifies this
      ensures Snapshot() == old(Snapshot())
    {
      for r := 0 to rows {
        for c := 0 to cols {
          var dropped := Conj(value[r][c]);
        }
      }
    }

    /** `adjunct`: `transpose` followed by the no-op `conjugate`, so self
        ends up transposed but not conjugated. */
    method Adjunct() returns (s: Status)
      requires Valid(Snapshot())
      modifies this
      ensures s == Completed <==> old(cols) >= 1
      ensures s == Completed ==> Snapshot() == Transposed(old(Snapshot()))
      ensures s != Completed ==> s == Panicked(IndexOutOfBounds) && Snapshot() == old(Snapshot())
    {
      s := Transpose();
      if s == Completed {
        Conjugate();
      }
    }
  }

  /** `Matrix op ComplexNumber` by value: a clone is updated in place and
      returned, leaving the operand as it was. */
  method ScalarOperator(m: Mat, op: ScalarOp, k: Complex) returns (r: Mat)
    requires op == DivScalar ==> k != Zero
    ensures r == ScalarMap(m, op, k)
  {
    var ret := new Matrix(m);
    ret.ApplyScalarInPlace(op, k);
    r := ret.Snapshot();
  }

  /** `Matrix + Matrix` and `Matrix - Matrix` by value. */
  method CellwiseOperator(m: Mat, n: Mat, op: ZipOp) returns (r: Result<Mat>)
    requires Valid(m) && Valid(n)
    ensures r == Zip(m, n, op)
  {
    var ret := new Matrix(m);
    var s := ret.ApplyMatrixInPlace(n, op);
    if s.Panicked? {
      return Err(s.fault);
    }
    r := Ok(ret.Snapshot());
  }
}
