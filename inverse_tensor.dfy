/** `inverse_tensor_product` (src/matrix/mod.rs): given a Kronecker
    product and its left factor (the "base"), recover the right factor by
    dividing every cell by the base entry of its block. */
module InverseKronecker {
  import opened Outcomes
  import opened ComplexNumbers
  import opened Matrices
  import opened MatrixInPlace
  import opened IndexArith
  import opened Kronecker

  /** The inner `fold`: a row summed from the left, starting at zero. */
  function RowSum(row: seq<Complex>): Complex
  {
    if |row| == 0 then Zero else Plus(RowSum(row[..|row| - 1]), row[|row| - 1])
  }

  /** The outer `fold`: the row sums added from the left, starting at zero. */
  function GridSum(value: seq<seq<Complex>>): Complex
  {
    if |value| == 0 then Zero else Plus(GridSum(value[..|value| - 1]), RowSum(value[|value| - 1]))
  }

  /** Some entry of the grid is not zero. */
  predicate HasNonzero(value: seq<seq<Complex>>)
  {
    exists i, j :: 0 <= i < |value| && 0 <= j < |value[i]| && value[i][j] != Zero
  }

  /** A row of zeros sums to zero. */
  lemma {:induction false} RowSumOfZeros(row: seq<Complex>)
    requires forall j :: 0 <= j < |row| ==> row[j] == Zero
    ensures RowSum(row) == Zero
  {
    if |row| > 0 {
      RowSumOfZeros(row[..|row| - 1]);
    }
  }

  /** A nonzero sum needs a nonzero entry: the sum test is at least as
      strict as the test the panic message asks for. */
  lemma {:induction false} NonzeroSumHasNonzero(value: seq<seq<Complex>>)
    requires GridSum(value) != Zero
    ensures HasNonzero(value)
  {
    var last := |value| - 1;
    if GridSum(value[..last]) != Zero {
      NonzeroSumHasNonzero(value[..last]);
      var i, j :| 0 <= i < last && 0 <= j < |value[..last][i]| && value[..last][i][j] != Zero;
      assert value[i][j] != Zero;
    } else if forall j :: 0 <= j < |value[last]| ==> value[last][j] == Zero {
      RowSumOfZeros(value[last]);
      assert false;
    }
  }

  // ---------------------------------------------------------------------
  // The sweep: the two loops of `inverse_tensor_product`, as a fold over
  // the cells in row-major order.

  /** Cell (i, j) of the product maps to block (i / mr, j / mc) of the base
      and to cell (i % mr, j % mc) of the result. */
  predicate InBase(base: Mat, mr: nat, mc: nat, i: nat, j: nat)
  {
    mr >= 1 && mc >= 1 && i / mr < |base.value| && j / mc < |base.value[i / mr]|
  }

  /** The result buffer has the shape `from_dimensions(mr, mc)` gave it. */
  predicate Buffer(acc: seq<seq<Complex>>, mr: nat, mc: nat)
  {
    |acc| == mr && Rectangular(acc, mc)
  }

  /** One cell: skipped when its base entry is zero, otherwise the quotient
      overwrites the result cell it maps to. */
  function SweepCell(acc: seq<seq<Complex>>, s: Mat, base: Mat, mr: nat, mc: nat, i: nat, j: nat): (r: seq<seq<Complex>>)
    requires Valid(s) && i < s.rows && j < s.cols && InBase(base, mr, mc, i, j) && Buffer(acc, mr, mc)
    ensures Buffer(r, mr, mc)
  {
    var b := base.value[i / mr][j / mc];
    if b == Zero then acc
    else acc[i % mr := acc[i % mr][j % mc := Over(s.value[i][j], b)]]
  }

  /** Cells (i, 0) .. (i, j - 1). */
  function SweepRow(acc: seq<seq<Complex>>, s: Mat, base: Mat, mr: nat, mc: nat, i: nat, j: nat): (r: seq<seq<Complex>>)
    requires Valid(s) && i < s.rows && j <= s.cols && Buffer(acc, mr, mc)
    requires forall j' :: 0 <= j' < j ==> InBase(base, mr, mc, i, j')
    ensures Buffer(r, mr, mc)
  {
    if j == 0 then acc
    else SweepCell(SweepRow(acc, s, base, mr, mc, i, j - 1), s, base, mr, mc, i, j - 1)
  }

  /** Rows 0 .. i - 1. */
  function Sweep(acc: seq<seq<Complex>>, s: Mat, base: Mat, mr: nat, mc: nat, i: nat): (r: seq<seq<Complex>>)
    requires Valid(s) && i <= s.rows && Buffer(acc, mr, mc)
    requires forall i', j' :: 0 <= i' < i && 0 <= j' < s.cols ==> InBase(base, mr, mc, i', j')
    ensures Buffer(r, mr, mc)
  {
    if i == 0 then acc
    else SweepRow(Sweep(acc, s, base, mr, mc, i - 1), s, base, mr, mc, i - 1, s.cols)
  }

  /** Every cell of s maps into the base: the last row and column do. */
  lemma AllInBase(s: Mat, base: Mat, mr: nat, mc: nat)
    requires Valid(s) && Valid(base) && mr >= 1 && mc >= 1
    requires (s.rows - 1) / mr < base.rows && (s.cols == 0 || (s.cols - 1) / mc < base.cols)
    ensures forall i, j :: 0 <= i < s.rows && 0 <= j < s.cols ==> InBase(base, mr, mc, i, j)
  {
    forall i, j | 0 <= i < s.rows && 0 <= j < s.cols
      ensures InBase(base, mr, mc, i, j)
    {
      DivMonotone(i, s.rows - 1, mr);
      DivMonotone(j, s.cols - 1, mc);
    }
  }

  /** What `inverse_tensor_product` does once the base has passed its
      sum test: `mult_cols - 1` underflows for a base wider than the
      product, a base entry indexed past the base panics, and otherwise
      the sweep fills the zero buffer. */
  function AfterGuard(s: Mat, base: Mat): (r: Result<Mat>)
    requires Valid(s) && Valid(base) && base.cols >= 1 && s.rows >= base.rows
  {
    var mr, mc := s.rows / base.rows, s.cols / base.cols;
    DivMonotone(base.rows, s.rows, base.rows);
    BlockIndex(1, base.rows, 0);
    if s.cols == 0 then Ok(Zeros(mr, 0))
    else if mc == 0 then Err(ArithmeticOverflow)
    else if (s.rows - 1) / mr >= base.rows || (s.cols - 1) / mc >= base.cols then Err(IndexOutOfBounds)
    else
      AllInBase(s, base, mr, mc);
      Ok(Mat(Sweep(Zeros(mr, mc).value, s, base, mr, mc, s.rows), mr, mc))
  }

  /** `inverse_tensor_product` as written: the base's column count divides
      first, `from_dimensions` refuses zero result rows, then the base
      must not sum to zero. It succeeds exactly when the product's shape is
      a whole multiple of the base's (or has no columns at all). */
  function InverseTensor(s: Mat, base: Mat): (r: Result<Mat>)
    requires Valid(s) && Valid(base)
    ensures r.Ok? <==> && base.cols >= 1 && s.rows >= base.rows && GridSum(base.value) != Zero
                       && (s.cols == 0 || (s.cols >= base.cols && s.rows % base.rows == 0 && s.cols % base.cols == 0))
    ensures r.Ok? ==> Valid(r.value) && r.value.rows == s.rows / base.rows && r.value.cols == s.cols / base.cols
  {
    if base.cols == 0 then Err(DivisionByZero)
    else if s.rows / base.rows == 0 then Err(IndexOutOfBounds)
    else if GridSum(base.value) == Zero then Err(ZeroSumBase)
    else
      AfterGuardShape(s, base);
      AfterGuard(s, base)
  }

  /** When the guarded sweep succeeds, and the shape it succeeds on. */
  lemma AfterGuardShape(s: Mat, base: Mat)
    requires Valid(s) && Valid(base) && base.cols >= 1 && s.rows >= base.rows
    ensures AfterGuard(s, base).Ok? <==>
              s.cols == 0 || (s.cols >= base.cols && s.rows % base.rows == 0 && s.cols % base.cols == 0)
    ensures AfterGuard(s, base).Ok? ==> var m := AfterGuard(s, base).value;
              Valid(m) && m.rows == s.rows / base.rows && m.cols == s.cols / base.cols
  {
    var mr, mc := s.rows / base.rows, s.cols / base.cols;
    LastIndexBlock(s.rows, base.rows);
    if s.cols >= base.cols {
      LastIndexBlock(s.cols, base.cols);
    } else if s.cols >= 1 {
      assert mc == 0;
    }
  }

  /** The same operation with the sum test replaced by the test its panic
      message describes: the base needs at least one nonzero entry. */
  function InverseTensorIntended(s: Mat, base: Mat): (r: Result<Mat>)
    requires Valid(s) && Valid(base)
    ensures r.Ok? <==> && base.cols >= 1 && s.rows >= base.rows && HasNonzero(base.value)
                       && (s.cols == 0 || (s.cols >= base.cols && s.rows % base.rows == 0 && s.cols % base.cols == 0))
  {
    if base.cols == 0 then Err(DivisionByZero)
    else if s.rows / base.rows == 0 then Err(IndexOutOfBounds)
    else if !HasNonzero(base.value) then Err(ZeroSumBase)
    else
      AfterGuardShape(s, base);
      AfterGuard(s, base)
  }

  /** Wherever the written sum test passes, the intended test passes too
      and both compute the same result. */
  lemma IntendedAgrees(s: Mat, base: Mat)
    requires Valid(s) && Valid(base) && GridSum(base.value) != Zero
    ensures InverseTensorIntended(s, base) == InverseTensor(s, base)
  {
    NonzeroSumHasNonzero(base.value);
  }

  // ---------------------------------------------------------------------
  // The loops themselves.

  /** The source's wrapped index: an index past the last one is reduced,
      any other is kept, so it is always the remainder. */
  lemma WrappedIndex(i: nat, d: nat)
    requires d >= 1
    ensures (if i > d - 1 then i % d else i) == i % d
  {
  }

  /** The inner loop of `inverse_tensor_product`: row i of the product is
      swept into the buffer, or the first cell that panics stops it. */
  method SweepRowLoop(acc: seq<seq<Complex>>, s: Mat, base: Mat, mr: nat, mc: nat, i: nat)
    returns (out: Result<seq<seq<Complex>>>)
    requires Valid(s) && Valid(base) && mr >= 1 && i < s.rows && Buffer(acc, mr, mc)
    ensures out.Ok? <==> s.cols == 0 || (mc >= 1 && i / mr < base.rows && (s.cols - 1) / mc < base.cols)
    ensures out.Err? ==> out.fault == (if mc == 0 then ArithmeticOverflow else IndexOutOfBounds)
    ensures out.Ok? ==> && (forall j :: 0 <= j < s.cols ==> InBase(base, mr, mc, i, j))
                        && out.value == SweepRow(acc, s, base, mr, mc, i, s.cols)
  {
    var res := acc;
    for j := 0 to |s.value[i]|
      invariant j >= 1 ==> mc >= 1 && i / mr < base.rows && (j - 1) / mc < base.cols
      invariant forall j' :: 0 <= j' < j ==> InBase(base, mr, mc, i, j')
      invariant res == SweepRow(acc, s, base, mr, mc, i, j)
    {
      if mc == 0 {
        return Err(ArithmeticOverflow);
      }
      var resultRow := if i > mr - 1 then i % mr else i;
      var resultCol := if j > mc - 1 then j % mc else j;
      WrappedIndex(i, mr);
      WrappedIndex(j, mc);
      var baseRow := i / mr;
      var baseCol := j / mc;
      if baseRow >= |base.value| || baseCol >= |base.value[baseRow]| {
        assert i / mr >= base.rows || (s.cols - 1) / mc >= base.cols by {
          DivMonotone(j, s.cols - 1, mc);
        }
        return Err(IndexOutOfBounds);
      }
      assert InBase(base, mr, mc, i, j);
      if base.value[baseRow][baseCol] != Zero {
        res := res[resultRow := res[resultRow][resultCol := Over(s.value[i][j], base.value[baseRow][baseCol])]];
      }
    }
    return Ok(res);
  }

  /** `inverse_tensor_product`: the guards, then every cell of self is
      divided by its base entry and stored at (i % mr, j % mc), later
      cells overwriting earlier ones. */
  method InverseTensorProduct(s: Mat, base: Mat) returns (result: Result<Mat>)
    requires Valid(s) && Valid(base)
    ensures result == InverseTensor(s, base)
  {
    if base.cols == 0 {
      return Err(DivisionByZero);
    }
    var mr := s.rows / base.rows;
    var mc := s.cols / base.cols;
    var z := BuildFromDimensions(mr, mc);
    if z.Err? {
      return Err(z.fault);
    }
    if GridSum(base.value) == Zero {
      return Err(ZeroSumBase);
    }
    AfterGuardShape(s, base);
    var res := z.value.value;
    ghost var start := res;
    for i := 0 to |s.value|
      invariant i >= 1 && s.cols >= 1 ==> mc >= 1 && (i - 1) / mr < base.rows && (s.cols - 1) / mc < base.cols
      invariant forall i', j' :: 0 <= i' < i && 0 <= j' < s.cols ==> InBase(base, mr, mc, i', j')
      invariant res == Sweep(start, s, base, mr, mc, i)
    {
      var row := SweepRowLoop(res, s, base, mr, mc, i);
      if row.Err? {
        assert mc == 0 || (s.rows - 1) / mr >= base.rows || (s.cols - 1) / mc >= base.cols by {
          DivMonotone(i, s.rows - 1, mr);
        }
        return Err(row.fault);
      }
      res := row.value;
    }
    if s.cols == 0 {
      assert res == Zeros(mr, 0).value;
    }
    result := Ok(Mat(res, mr, mc));
  }

  // ---------------------------------------------------------------------
  // Round trip: the sweep recovers the right factor of a Kronecker product
  // from the left one.

  /** Cell (i, j) comes before position (r, c) in row-major order. */
  predicate Swept(i: int, j: int, r: int, c: int)
  {
    i < r || (i == r && j < c)
  }

  /** Offset (x, y) of the buffer holds b's entry once block (bi, bj) of
      a, if it is nonzero, has been swept over it. */
  predicate Recovered(acc: seq<seq<Complex>>, a: Mat, b: Mat, bi: nat, bj: nat, x: nat, y: nat, done: bool)
    requires Valid(a) && Valid(b) && Buffer(acc, b.rows, b.cols)
    requires bi < a.rows && bj < a.cols && x < b.rows && y < b.cols
  {
    done && a.value[bi][bj] != Zero ==> acc[x][y] == b.value[x][y]
  }

  /** Every nonzero block of a swept before (r, c) has put b in place. */
  predicate RecoveredUpTo(acc: seq<seq<Complex>>, a: Mat, b: Mat, r: int, c: int)
    requires Valid(a) && Valid(b)
  {
    && Buffer(acc, b.rows, b.cols)
    && forall bi: nat, bj: nat, x: nat, y: nat :: bi < a.rows && bj < a.cols && x < b.rows && y < b.cols ==>
         Recovered(acc, a, b, bi, bj, x, y, Swept(Idx(bi, x, b.rows), Idx(bj, y, b.cols), r, c))
  }

  /** Nothing is recovered before the first cell. */
  lemma RecoverStart(a: Mat, b: Mat)
    requires Valid(a) && Valid(b)
    ensures RecoveredUpTo(Zeros(b.rows, b.cols).value, a, b, 0, 0)
  {
    var z := Zeros(b.rows, b.cols).value;
    forall bi: nat, bj: nat, x: nat, y: nat | bi < a.rows && bj < a.cols && x < b.rows && y < b.cols
      ensures Recovered(z, a, b, bi, bj, x, y, Swept(Idx(bi, x, b.rows), Idx(bj, y, b.cols), 0, 0))
    {
    }
  }

  /** A factor divides back out of its product. */
  lemma OverLeftFactor(f: Complex, v: Complex)
    requires f != Zero
    ensures Over(Times(f, v), f) == v
  {
    TimesCommutes(f, v);
    OverUndoesTimes(v, f);
  }

  /** acc' is acc with b's entry written at (i % mr, j % mc) if the base
      entry of (i, j) is nonzero. */
  predicate WritesFactor(acc: seq<seq<Complex>>, acc': seq<seq<Complex>>, a: Mat, b: Mat, i: nat, j: nat)
    requires Valid(a) && Valid(b) && Buffer(acc, b.rows, b.cols) && Buffer(acc', b.rows, b.cols)
    requires InBase(a, b.rows, b.cols, i, j)
  {
    forall x, y :: 0 <= x < b.rows && 0 <= y < b.cols ==>
      acc'[x][y] == if x == i % b.rows && y == j % b.cols && a.value[i / b.rows][j / b.cols] != Zero
                    then b.value[x][y] else acc[x][y]
  }

  /** Sweeping cell (i, j) of a ⊗ b writes b's entry at (i % mr, j % mc)
      when the base entry is nonzero and changes nothing else. */
  lemma SweepKronCell(acc: seq<seq<Complex>>, a: Mat, b: Mat, i: nat, j: nat)
    requires Valid(a) && Valid(b) && i < a.rows * b.rows && j < a.cols * b.cols
    requires InBase(a, b.rows, b.cols, i, j) && Buffer(acc, b.rows, b.cols)
    ensures WritesFactor(acc, SweepCell(acc, Kron(a, b), a, b.rows, b.cols, i, j), a, b, i, j)
  {
    var f := a.value[i / b.rows][j / b.cols];
    var v := b.value[i % b.rows][j % b.cols];
    assert Kron(a, b).value[i][j] == Times(f, v);
    if f != Zero {
      OverLeftFactor(f, v);
    }
  }

  /** One offset of the buffer across the sweep of cell (i, j). */
  lemma RecoverCell(acc: seq<seq<Complex>>, acc': seq<seq<Complex>>, a: Mat, b: Mat, i: nat, j: nat,
                    bi: nat, bj: nat, x: nat, y: nat)
    requires Valid(a) && Valid(b) && Buffer(acc, b.rows, b.cols) && Buffer(acc', b.rows, b.cols)
    requires i < a.rows * b.rows && j < a.cols * b.cols && InBase(a, b.rows, b.cols, i, j)
    requires bi < a.rows && bj < a.cols && x < b.rows && y < b.cols
    requires acc'[x][y] == if x == i % b.rows && y == j % b.cols && a.value[i / b.rows][j / b.cols] != Zero
                           then b.value[x][y] else acc[x][y]
    requires Recovered(acc, a, b, bi, bj, x, y, Swept(Idx(bi, x, b.rows), Idx(bj, y, b.cols), i, j))
    ensures Recovered(acc', a, b, bi, bj, x, y, Swept(Idx(bi, x, b.rows), Idx(bj, y, b.cols), i, j + 1))
  {
    if Idx(bi, x, b.rows) == i && Idx(bj, y, b.cols) == j {
      BlockIndex(bi, b.rows, x);
      BlockIndex(bj, b.cols, y);
    }
  }

  /** Sweeping one cell of the product: a nonzero base entry divides its
      own factor back out, so the cell it writes holds b's entry. */
  lemma RecoverStep(acc: seq<seq<Complex>>, a: Mat, b: Mat, i: nat, j: nat)
    requires Valid(a) && Valid(b) && i < a.rows * b.rows && j < a.cols * b.cols
    requires InBase(a, b.rows, b.cols, i, j) && RecoveredUpTo(acc, a, b, i, j)
    ensures RecoveredUpTo(SweepCell(acc, Kron(a, b), a, b.rows, b.cols, i, j), a, b, i, j + 1)
  {
    var acc' := SweepCell(acc, Kron(a, b), a, b.rows, b.cols, i, j);
    SweepKronCell(acc, a, b, i, j);
    forall bi: nat, bj: nat, x: nat, y: nat | bi < a.rows && bj < a.cols && x < b.rows && y < b.cols
      ensures Recovered(acc', a, b, bi, bj, x, y, Swept(Idx(bi, x, b.rows), Idx(bj, y, b.cols), i, j + 1))
    {
      assert Recovered(acc, a, b, bi, bj, x, y, Swept(Idx(bi, x, b.rows), Idx(bj, y, b.cols), i, j));
      RecoverCell(acc, acc', a, b, i, j, bi, bj, x, y);
    }
  }

  /** At the end of a row every column offset has been swept. */
  lemma RecoverRowDone(acc: seq<seq<Complex>>, a: Mat, b: Mat, i: nat)
    requires Valid(a) && Valid(b) && RecoveredUpTo(acc, a, b, i, a.cols * b.cols)
    ensures RecoveredUpTo(acc, a, b, i + 1, 0)
  {
    forall bi: nat, bj: nat, x: nat, y: nat | bi < a.rows && bj < a.cols && x < b.rows && y < b.cols
      ensures Recovered(acc, a, b, bi, bj, x, y, Swept(Idx(bi, x, b.rows), Idx(bj, y, b.cols), i + 1, 0))
    {
      assert Recovered(acc, a, b, bi, bj, x, y, Swept(Idx(bi, x, b.rows), Idx(bj, y, b.cols), i, a.cols * b.cols));
      BlockBound(bj, y, b.cols, a.cols);
    }
  }

  /** Row i swept up to column j. */
  lemma {:induction false} RecoverRow(acc: seq<seq<Complex>>, a: Mat, b: Mat, i: nat, j: nat)
    requires Valid(a) && Valid(b) && i < a.rows * b.rows && j <= a.cols * b.cols
    requires forall j' :: 0 <= j' < j ==> InBase(a, b.rows, b.cols, i, j')
    requires RecoveredUpTo(acc, a, b, i, 0)
    ensures RecoveredUpTo(SweepRow(acc, Kron(a, b), a, b.rows, b.cols, i, j), a, b, i, j)
  {
    if j > 0 {
      RecoverRow(acc, a, b, i, j - 1);
      RecoverStep(SweepRow(acc, Kron(a, b), a, b.rows, b.cols, i, j - 1), a, b, i, j - 1);
    }
  }

  /** Rows 0 .. i - 1 swept. */
  lemma {:induction false} RecoverRows(acc: seq<seq<Complex>>, a: Mat, b: Mat, i: nat)
    requires Valid(a) && Valid(b) && i <= a.rows * b.rows
    requires forall i', j' :: 0 <= i' < i && 0 <= j' < a.cols * b.cols ==> InBase(a, b.rows, b.cols, i', j')
    requires RecoveredUpTo(acc, a, b, 0, 0)
    ensures RecoveredUpTo(Sweep(acc, Kron(a, b), a, b.rows, b.cols, i), a, b, i, 0)
  {
    if i > 0 {
      RecoverRows(acc, a, b, i - 1);
      var prev := Sweep(acc, Kron(a, b), a, b.rows, b.cols, i - 1);
      RecoverRow(prev, a, b, i - 1, a.cols * b.cols);
      RecoverRowDone(SweepRow(prev, Kron(a, b), a, b.rows, b.cols, i - 1, a.cols * b.cols), a, b, i - 1);
    }
  }

  /** Once every block row has been swept, a nonzero block of a has put
      all of b in place. */
  lemma RecoverFinish(acc: seq<seq<Complex>>, a: Mat, b: Mat)
    requires Valid(a) && Valid(b) && HasNonzero(a.value) && RecoveredUpTo(acc, a, b, a.rows * b.rows, 0)
    ensures acc == b.value
  {
    var bi, bj :| 0 <= bi < |a.value| && 0 <= bj < |a.value[bi]| && a.value[bi][bj] != Zero;
    forall x, y | 0 <= x < b.rows && 0 <= y < b.cols
      ensures acc[x][y] == b.value[x][y]
    {
      assert Recovered(acc, a, b, bi, bj, x, y, Swept(Idx(bi, x, b.rows), Idx(bj, y, b.cols), a.rows * b.rows, 0));
      BlockBound(bi, x, b.rows, a.rows);
    }
    forall x | 0 <= x < b.rows
      ensures acc[x] == b.value[x]
    {
    }
  }

  /** The quotient shape of a ⊗ b by a is b's, and its last row and
      column fall in a's last block. */
  lemma QuotientShape(a: Mat, b: Mat)
    requires Valid(a) && Valid(b) && a.cols >= 1
    ensures a.rows * b.rows >= a.rows && (a.rows * b.rows) / a.rows == b.rows
    ensures (a.rows * b.rows - 1) / b.rows == a.rows - 1
    ensures b.cols >= 1 ==> (a.cols * b.cols) / a.cols == b.cols && (a.cols * b.cols - 1) / b.cols == a.cols - 1
  {
    MulMonotone(1, b.rows, a.rows);
    BlockIndex(b.rows, a.rows, 0);
    BlockIndex(a.rows - 1, b.rows, b.rows - 1);
    assert a.rows * b.rows - 1 == (a.rows - 1) * b.rows + (b.rows - 1);
    if b.cols >= 1 {
      BlockIndex(b.cols, a.cols, 0);
      BlockIndex(a.cols - 1, b.cols, b.cols - 1);
      assert a.cols * b.cols - 1 == (a.cols - 1) * b.cols + (b.cols - 1);
    }
  }

  /** The full sweep over a ⊗ b with base a leaves exactly b in the
      buffer. */
  lemma SweepRecovers(a: Mat, b: Mat)
    requires Valid(a) && Valid(b) && HasNonzero(a.value)
    requires forall i, j :: 0 <= i < a.rows * b.rows && 0 <= j < a.cols * b.cols ==> InBase(a, b.rows, b.cols, i, j)
    ensures Sweep(Zeros(b.rows, b.cols).value, Kron(a, b), a, b.rows, b.cols, a.rows * b.rows) == b.value
  {
    RecoverStart(a, b);
    RecoverRows(Zeros(b.rows, b.cols).value, a, b, a.rows * b.rows);
    RecoverFinish(Sweep(Zeros(b.rows, b.cols).value, Kron(a, b), a, b.rows, b.cols, a.rows * b.rows), a, b);
  }

  /** The sweep over a ⊗ b with base a yields b, whenever a has a nonzero
      entry for it to divide by. */
  lemma AfterGuardRecovers(a: Mat, b: Mat)
    requires Valid(a) && Valid(b) && HasNonzero(a.value)
    ensures a.cols >= 1 && Kron(a, b).rows >= a.rows
    ensures AfterGuard(Kron(a, b), a) == Ok(b)
  {
    QuotientShape(a, b);
    if b.cols == 0 {
      assert b.value == Zeros(b.rows, 0).value;
    } else {
      AllInBase(Kron(a, b), a, b.rows, b.cols);
      SweepRecovers(a, b);
    }
  }

  /** `inverse_tensor_product` undoes `tensor_product`: given a ⊗ b and a
      base a whose entries do not sum to zero, it returns b. */
  lemma InverseTensorUndoesKron(a: Mat, b: Mat)
    requires Valid(a) && Valid(b) && GridSum(a.value) != Zero
    ensures InverseTensor(Kron(a, b), a) == Ok(b)
  {
    NonzeroSumHasNonzero(a.value);
    AfterGuardRecovers(a, b);
  }

  /** With the intended test, any base with a nonzero entry will do. */
  lemma IntendedUndoesKron(a: Mat, b: Mat)
    requires Valid(a) && Valid(b) && HasNonzero(a.value)
    ensures InverseTensorIntended(Kron(a, b), a) == Ok(b)
  {
    AfterGuardRecovers(a, b);
  }

  /** [1, -1] sums to zero. */
  lemma CancellingRowSum()
    ensures GridSum([[One, Complex(-1.0, 0.0)]]) == Zero
  {
    var row: seq<Complex> := [One, Complex(-1.0, 0.0)];
    var grid: seq<seq<Complex>> := [row];
    assert |row[..1][..0]| == 0;
    assert RowSum(row[..1]) == One;
    assert RowSum(row) == Zero;
    assert |grid[..0]| == 0;
  }

  /** The sum test turns away a base whose entries cancel: [1, -1] has a
      nonzero entry, yet [1, -1] ⊗ [1] is refused, while the intended test
      recovers [1]. */
  lemma ZeroSumBaseRejected()
    ensures var a, b := Mat([[One, Complex(-1.0, 0.0)]], 1, 2), Mat([[One]], 1, 1);
            && Valid(a) && Valid(b)
            && InverseTensor(Kron(a, b), a) == Err(ZeroSumBase)
            && InverseTensorIntended(Kron(a, b), a) == Ok(b)
  {
    var a, b := Mat([[One, Complex(-1.0, 0.0)]], 1, 2), Mat([[One]], 1, 1);
    CancellingRowSum();
    assert a.value[0][0] != Zero;
    IntendedUndoesKron(a, b);
  }
}
