/** The earlier prototype in src/main.rs. Its `conjugate`, `divide`,
    `ComplexPolarNumber::multiply`, `Matrice::new` and
    `Matrice::from_dimensions` are the same code as the library's and are
    modelled once, in ComplexNumbers, Matrices and MatrixInPlace. What
    differs is `add`: it computes the sum into two locals and drops them. */
module Prototype {
  import opened Outcomes
  import opened ComplexNumbers
  import opened Matrices

  /** The prototype's ComplexNumber, with its no-op `add`. */
  class Number {
    var a: real
    var b: real

    function Value(): Complex
      reads this
    {
      Complex(a, b)
    }

    constructor (v: Complex)
      ensures Value() == v
    {
      a, b := v.a, v.b;
    }

    /** add: the sum is computed and never stored, so self keeps its
        value whatever is added. */
    method Add(to_add: Complex)
      modifies this
      ensures Value() == old(Value())
    {
      var re := a + to_add.a;
      var im := b + to_add.b;
    }
  }

  /** 1 + 1 through the prototype's `add` leaves 1, where the library's
      `add` leaves 2. */
  method OnePlusOne() returns (prototype: Complex, library: Complex)
    ensures prototype == One
    ensures library == Complex(2.0, 0.0) && library == Plus(One, One)
  {
    var x := new Number(One);
    x.Add(One);
    prototype := x.Value();
    var y := new ComplexNumber(One);
    y.Add(One);
    library := y.Value();
  }

  /** The prototype's Matrice, whose `add` runs the no-op cell `add`
      over every cell. */
  class Matrice {
    var value: seq<seq<Complex>>
    var rows: nat
    var cols: nat

    function Snapshot(): Mat
      reads this
    {
      Mat(value, rows, cols)
    }

    constructor (m: Mat)
      ensures Snapshot() == m
    {
      value, rows, cols := m.value, m.rows, m.cols;
    }

    /** add: a size mismatch panics; otherwise every cell goes through the
        prototype's `add`, which stores nothing, so the matrix is left
        exactly as it was. */
    method Add(to_add: Mat) returns (s: Status)
      requires Valid(Snapshot()) && Valid(to_add)
      modifies this
      ensures s == Completed <==> rows == to_add.rows && cols == to_add.cols
      ensures s != Completed ==> s == Panicked(DimensionMismatch)
      ensures Snapshot() == old(Snapshot())
    {
      if rows != to_add.rows || cols != to_add.cols {
        return Panicked(DimensionMismatch);
      }
      for row := 0 to |value|
        invariant Snapshot() == old(Snapshot())
      {
        for col := 0 to |value[row]|
          invariant Snapshot() == old(Snapshot())
        {
          var cell := new Number(value[row][col]);
          cell.Add(to_add.value[row][col]);
          assert value[row][col := cell.Value()] == value[row];
          value := value[row := value[row][col := cell.Value()]];
        }
      }
      return Completed;
    }
  }
}
