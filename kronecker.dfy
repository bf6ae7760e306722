/** `tensor_product` (src/matrix/mod.rs) and the Kronecker product it
    computes: block (r, c) of the result is lhs[r][c] times the whole of
    rhs, laid out with the row index `r * rows2 + rn` and the column index
    `c * cols2 + cn`. */
module Kronecker {
  import opened Outcomes
  import opened ComplexNumbers
  import opened Matrices
  import opened MatrixInPlace
  import opened IndexArith

  /** A product of two positive counts is positive. */
  lemma PositiveProduct(x: nat, y: nat)
    requires x >= 1 && y >= 1
    ensures x * y >= 1
  {
    MulMonotone(1, x, y);
  }

  /** Cell (i, j) of the Kronecker product of m and n. */
  function KronCell(m: Mat, n: Mat, i: nat, j: nat): Complex
    requires Valid(m) && Valid(n) && i < m.rows * n.rows && j < m.cols * n.cols
  {
    DivBelow(i, n.rows, m.rows);
    DivBelow(j, n.cols, m.cols);
    Times(m.value[i / n.rows][j / n.cols], n.value[i % n.rows][j % n.cols])
  }

  /** The Kronecker product of m and n: (m.rows·n.rows) x (m.cols·n.cols). */
  function Kron(m: Mat, n: Mat): (k: Mat)
    requires Valid(m) && Valid(n)
    ensures Valid(k) && k.rows == m.rows * n.rows && k.cols == m.cols * n.cols
    ensures forall i, j :: 0 <= i < k.rows && 0 <= j < k.cols ==> k.value[i][j] == KronCell(m, n, i, j)
  {
    PositiveProduct(m.rows, n.rows);
    Mat(seq(m.rows * n.rows, i requires 0 <= i < m.rows * n.rows =>
          seq(m.cols * n.cols, j requires 0 <= j < m.cols * n.cols => KronCell(m, n, i, j))),
        m.rows * n.rows, m.cols * n.cols)
  }

  /** The cell at (r·rows2 + rn, c·cols2 + cn) is m[r][c] · n[rn][cn]. */
  lemma KronBlock(m: Mat, n: Mat, r: nat, c: nat, rn: nat, cn: nat)
    requires Valid(m) && Valid(n)
    requires r < m.rows && c < m.cols && rn < n.rows && cn < n.cols
    ensures r * n.rows + rn < m.rows * n.rows && c * n.cols + cn < m.cols * n.cols
    ensures Kron(m, n).value[r * n.rows + rn][c * n.cols + cn] == Times(m.value[r][c], n.value[rn][cn])
  {
    BlockBound(r, rn, n.rows, m.rows);
    BlockBound(c, cn, n.cols, m.cols);
    BlockIndex(r, n.rows, rn);
    BlockIndex(c, n.cols, cn);
  }

  /** `tensor_product` as written: the column stride is read from
      `to_mul.value[c].len()`, so a column index c of the left operand
      past the right operand's rows panics as soon as a cell is written. */
  function Tensor(m: Mat, n: Mat): (r: Result<Mat>)
    requires Valid(m) && Valid(n)
    ensures r.Ok? <==> n.cols == 0 || m.cols <= n.rows
    ensures r.Ok? ==> r.value == Kron(m, n)
  {
    if n.cols >= 1 && m.cols > n.rows then Err(IndexOutOfBounds) else Ok(Kron(m, n))
  }

  /** The stride defect: a 1 x 2 row tensored with a 1 x 1 matrix panics,
      although the Kronecker product is the 1 x 2 row itself. */
  lemma TensorStridePanics()
    ensures var row := Mat([[One, One]], 1, 2);
      var unit := Mat([[One]], 1, 1);
      && Valid(row) && Valid(unit)
      && Tensor(row, unit) == Err(IndexOutOfBounds)
      && Kron(row, unit) == row
  {
    var row := Mat([[One, One]], 1, 2);
    var unit := Mat([[One]], 1, 1);
    var k := Kron(row, unit);
    assert k.value[0][0] == Times(One, One) && k.value[0][1] == Times(One, One);
    TimesOne(One);
    assert k.value[0] == row.value[0];
  }

  // ---------------------------------------------------------------------
  // The four nested loops of `tensor_product`.

  /** Block (bi, bj), offset (x, y) comes before the loop position
      (r, c, rn, cn) in the order the four loops visit cells. */
  predicate Before(bi: int, bj: int, x: int, y: int, r: int, c: int, rn: int, cn: int)
  {
    bi < r || (bi == r && (bj < c || (bj == c && (x < rn || (x == rn && y < cn)))))
  }

  /** Row (or column) `q * d + x` of the result: offset x in block q. */
  function Idx(q: nat, x: nat, d: nat): nat
  {
    q * d + x
  }

  /** Cell (x, y) of block (bi, bj) of the buffer exists and holds its
      Kronecker value when `done`, zero otherwise. */
  predicate CellAt(ret: seq<seq<Complex>>, m: Mat, n: Mat, bi: nat, bj: nat, x: nat, y: nat, done: bool)
    requires Valid(m) && Valid(n) && bi < m.rows && bj < m.cols && x < n.rows && y < n.cols
  {
    && Idx(bi, x, n.rows) < |ret| && Idx(bj, y, n.cols) < |ret[Idx(bi, x, n.rows)]|
    && ret[Idx(bi, x, n.rows)][Idx(bj, y, n.cols)] == if done then Times(m.value[bi][bj], n.value[x][y]) else Zero
  }

  /** The zero-filled result buffer with every cell visited before
      (r, c, rn, cn) holding its Kronecker value, and every other cell
      still zero. */
  predicate FilledUpTo(ret: seq<seq<Complex>>, m: Mat, n: Mat, r: int, c: int, rn: int, cn: int)
    requires Valid(m) && Valid(n)
  {
    && |ret| == m.rows * n.rows && Rectangular(ret, m.cols * n.cols)
    && forall bi: nat, bj: nat, x: nat, y: nat ::
         bi < m.rows && bj < m.cols && x < n.rows && y < n.cols ==>
         CellAt(ret, m, n, bi, bj, x, y, Before(bi, bj, x, y, r, c, rn, cn))
  }

  /** Distinct block coordinates name distinct rows. */
  lemma IdxInjective(q: nat, x: nat, q': nat, x': nat, d: nat)
    requires x < d && x' < d && Idx(q, x, d) == Idx(q', x', d)
    ensures q == q' && x == x'
  {
    BlockIndex(q, d, x);
    BlockIndex(q', d, x');
  }

  /** Every cell of a q·d-long range has block coordinates. */
  lemma IdxCovers(i: nat, d: nat, n: nat)
    requires i < n * d
    ensures d > 0 && i / d < n && i % d < d && Idx(i / d, i % d, d) == i
  {
    DivBelow(i, d, n);
  }

  /** The zero-filled buffer has visited nothing. */
  lemma FillStart(m: Mat, n: Mat)
    requires Valid(m) && Valid(n)
    ensures FilledUpTo(Zeros(m.rows * n.rows, m.cols * n.cols).value, m, n, 0, 0, 0, 0)
  {
    var z := Zeros(m.rows * n.rows, m.cols * n.cols).value;
    forall bi: nat, bj: nat, x: nat, y: nat |
      bi < m.rows && bj < m.cols && x < n.rows && y < n.cols
      ensures CellAt(z, m, n, bi, bj, x, y, Before(bi, bj, x, y, 0, 0, 0, 0))
    {
      BlockBound(bi, x, n.rows, m.rows);
      BlockBound(bj, y, n.cols, m.cols);
    }
  }

  /** Writing the cell at the loop position moves the position one step. */
  lemma FillStep(ret: seq<seq<Complex>>, m: Mat, n: Mat, r: nat, c: nat, rn: nat, cn: nat)
    requires Valid(m) && Valid(n) && FilledUpTo(ret, m, n, r, c, rn, cn)
    requires r < m.rows && c < m.cols && rn < n.rows && cn < n.cols
    ensures Idx(r, rn, n.rows) < |ret| && Idx(c, cn, n.cols) < |ret[Idx(r, rn, n.rows)]|
    ensures FilledUpTo(ret[Idx(r, rn, n.rows) := ret[Idx(r, rn, n.rows)][Idx(c, cn, n.cols) := Times(m.value[r][c], n.value[rn][cn])]],
                       m, n, r, c, rn, cn + 1)
  {
    var i0, j0 := Idx(r, rn, n.rows), Idx(c, cn, n.cols);
    assert CellAt(ret, m, n, r, c, rn, cn, Before(r, c, rn, cn, r, c, rn, cn));
    var ret' := ret[i0 := ret[i0][j0 := Times(m.value[r][c], n.value[rn][cn])]];
    var cn' := cn + 1;
    forall bi: nat, bj: nat, x: nat, y: nat |
      bi < m.rows && bj < m.cols && x < n.rows && y < n.cols
      ensures CellAt(ret', m, n, bi, bj, x, y, Before(bi, bj, x, y, r, c, rn, cn'))
    {
      var i, j := Idx(bi, x, n.rows), Idx(bj, y, n.cols);
      assert CellAt(ret, m, n, bi, bj, x, y, Before(bi, bj, x, y, r, c, rn, cn));
      if i == i0 && j == j0 {
        IdxInjective(bi, x, r, rn, n.rows);
        IdxInjective(bj, y, c, cn, n.cols);
      } else {
        assert !(bi == r && bj == c && x == rn && y == cn);
      }
    }
  }

  /** Finishing the innermost loop moves to the next offset row. */
  lemma NextOffsetRow(ret: seq<seq<Complex>>, m: Mat, n: Mat, r: nat, c: nat, rn: nat)
    requires Valid(m) && Valid(n) && FilledUpTo(ret, m, n, r, c, rn, n.cols)
    ensures FilledUpTo(ret, m, n, r, c, rn + 1, 0)
  {
    var rn' := rn + 1;
    forall bi: nat, bj: nat, x: nat, y: nat | bi < m.rows && bj < m.cols && x < n.rows && y < n.cols
      ensures CellAt(ret, m, n, bi, bj, x, y, Before(bi, bj, x, y, r, c, rn', 0))
    {
      assert CellAt(ret, m, n, bi, bj, x, y, Before(bi, bj, x, y, r, c, rn, n.cols));
      assert Before(bi, bj, x, y, r, c, rn, n.cols) == Before(bi, bj, x, y, r, c, rn', 0);
    }
  }

  /** Finishing a block moves to the next block column. */
  lemma NextBlockColumn(ret: seq<seq<Complex>>, m: Mat, n: Mat, r: nat, c: nat)
    requires Valid(m) && Valid(n) && FilledUpTo(ret, m, n, r, c, n.rows, 0)
    ensures FilledUpTo(ret, m, n, r, c + 1, 0, 0)
  {
    var c' := c + 1;
    forall bi: nat, bj: nat, x: nat, y: nat | bi < m.rows && bj < m.cols && x < n.rows && y < n.cols
      ensures CellAt(ret, m, n, bi, bj, x, y, Before(bi, bj, x, y, r, c', 0, 0))
    {
      assert CellAt(ret, m, n, bi, bj, x, y, Before(bi, bj, x, y, r, c, n.rows, 0));
      assert Before(bi, bj, x, y, r, c, n.rows, 0) == Before(bi, bj, x, y, r, c', 0, 0);
    }
  }

  /** Finishing a block row moves to the next block row. */
  lemma NextBlockRow(ret: seq<seq<Complex>>, m: Mat, n: Mat, r: nat)
    requires Valid(m) && Valid(n) && FilledUpTo(ret, m, n, r, m.cols, 0, 0)
    ensures FilledUpTo(ret, m, n, r + 1, 0, 0, 0)
  {
    var r' := r + 1;
    forall bi: nat, bj: nat, x: nat, y: nat | bi < m.rows && bj < m.cols && x < n.rows && y < n.cols
      ensures CellAt(ret, m, n, bi, bj, x, y, Before(bi, bj, x, y, r', 0, 0, 0))
    {
      assert CellAt(ret, m, n, bi, bj, x, y, Before(bi, bj, x, y, r, m.cols, 0, 0));
      assert Before(bi, bj, x, y, r, m.cols, 0, 0) == Before(bi, bj, x, y, r', 0, 0, 0);
    }
  }

  /** Once every block row is done, each cell holds its Kronecker value. */
  lemma FilledCell(ret: seq<seq<Complex>>, m: Mat, n: Mat, i: nat, j: nat)
    requires Valid(m) && Valid(n) && FilledUpTo(ret, m, n, m.rows, 0, 0, 0)
    requires i < m.rows * n.rows && j < m.cols * n.cols
    ensures i < |ret| && j < |ret[i]| && ret[i][j] == KronCell(m, n, i, j)
  {
    IdxCovers(i, n.rows, m.rows);
    IdxCovers(j, n.cols, m.cols);
    var bi, x, bj, y := i / n.rows, i % n.rows, j / n.cols, j % n.cols;
    assert Before(bi, bj, x, y, m.rows, 0, 0, 0);
    assert CellAt(ret, m, n, bi, bj, x, y, Before(bi, bj, x, y, m.rows, 0, 0, 0));
  }

  /** Once every block row is done the buffer is the Kronecker product. */
  lemma FillComplete(ret: seq<seq<Complex>>, m: Mat, n: Mat)
    requires Valid(m) && Valid(n) && FilledUpTo(ret, m, n, m.rows, 0, 0, 0)
    ensures ret == Kron(m, n).value
  {
    var k := Kron(m, n);
    forall i | 0 <= i < m.rows * n.rows
      ensures ret[i] == k.value[i]
    {
      forall j | 0 <= j < m.cols * n.cols
        ensures ret[i][j] == k.value[i][j]
      {
        FilledCell(ret, m, n, i, j);
      }
    }
  }

  /** The two inner loops of `tensor_product`: block (r, c) is written
      cell by cell. The column index reads the stride from row c of the
      right operand, which panics (false) when that row does not exist. */
  method WriteBlock(ret: seq<seq<Complex>>, m: Mat, n: Mat, r: nat, c: nat) returns (ret': seq<seq<Complex>>, ok: bool)
    requires Valid(m) && Valid(n) && FilledUpTo(ret, m, n, r, c, 0, 0)
    requires r < m.rows && c < m.cols
    ensures ok <==> n.cols == 0 || c < n.rows
    ensures ok ==> FilledUpTo(ret', m, n, r, c + 1, 0, 0)
  {
    ret' := ret;
    for rn := 0 to |n.value|
      invariant FilledUpTo(ret', m, n, r, c, rn, 0)
      invariant rn >= 1 && n.cols >= 1 ==> c < n.rows
    {
      for cn := 0 to |n.value[rn]|
        invariant FilledUpTo(ret', m, n, r, c, rn, cn)
        invariant cn >= 1 ==> c < n.rows
      {
        if c >= |n.value| {
          return ret', false;
        }
        var stride := |n.value[c]|;
        FillStep(ret', m, n, r, c, rn, cn);
        assert Idx(r, rn, n.rows) == r * |n.value| + rn && Idx(c, cn, n.cols) == c * stride + cn;
        ret' := ret'[r * |n.value| + rn := ret'[r * |n.value| + rn][c * stride + cn := Times(m.value[r][c], n.value[rn][cn])]];
      }
      NextOffsetRow(ret', m, n, r, c, rn);
    }
    NextBlockColumn(ret', m, n, r, c);
    ok := true;
  }

  /** `tensor_product`: a zero-filled (r1·r2) x (c1·c2) buffer whose cells
      are written block by block. */
  method TensorProduct(m: Mat, n: Mat) returns (result: Result<Mat>)
    requires Valid(m) && Valid(n)
    ensures result == Tensor(m, n)
  {
    PositiveProduct(m.rows, n.rows);
    var z := BuildFromDimensions(m.rows * n.rows, m.cols * n.cols);
    var ret := z.value.value;
    FillStart(m, n);
    for r := 0 to |m.value|
      invariant FilledUpTo(ret, m, n, r, 0, 0, 0)
      invariant r >= 1 && n.cols >= 1 ==> m.cols <= n.rows
    {
      for c := 0 to |m.value[r]|
        invariant FilledUpTo(ret, m, n, r, c, 0, 0)
        invariant n.cols >= 1 ==> c <= n.rows
      {
        var ok;
        ret, ok := WriteBlock(ret, m, n, r, c);
        if !ok {
          return Err(IndexOutOfBounds);
        }
      }
      NextBlockRow(ret, m, n, r);
    }
    FillComplete(ret, m, n);
    result := Ok(Mat(ret, m.rows * n.rows, m.cols * n.cols));
  }
}
