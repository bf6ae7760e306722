/** A single qubit of src/qubit/mod.rs: a 2 x 1 column of complex
    amplitudes, created in |0⟩. Nothing in the source updates a qubit's
    state after it is built, so it is a value. */
module Qubits {
  import opened Outcomes
  import opened ComplexNumbers
  import opened Matrices
  import Gates

  /** `Qubit { state }`. */
  datatype Qubit = Qubit(state: Mat)

  /** A well-formed qubit state: a valid 2 x 1 matrix. */
  predicate WellFormed(q: Qubit)
  {
    Valid(q.state) && q.state.rows == 2 && q.state.cols == 1
  }

  /** `Matrix::new` accepts the two one-cell rows and builds the column. */
  lemma NewBuildsColumn(x: Complex, y: Complex)
    ensures New([[x], [y]]) == Ok(Column(x, y))
  {
  }

  /** `Qubit::new`: the column (1, 0), built with `Matrix::new`. */
  function NewQubit(): (q: Qubit)
    ensures WellFormed(q)
    ensures q.state.value[0][0] == One && q.state.value[1][0] == Zero
  {
    Qubit(Column(One, Zero))
  }

  /** `Qubit::ket`: every basis-state arm sits inside a block comment, so
      only the wildcard arm is left and every id panics. */
  function Ket(id: string): (r: Result<Qubit>)
    ensures r.Err? && r.fault == UnknownKet
  {
    Err(UnknownKet)
  }

  /** The weight a² + b² the qubit's dump computes for one row: the
      probability of measuring that basis state. */
  function Probability(q: Qubit, row: nat): (p: real)
    requires WellFormed(q) && row < 2
    ensures p >= 0.0
    ensures p == 0.0 <==> q.state.value[row][0] == Zero
  {
    NormSquared(q.state.value[row][0])
  }

  /** A fresh qubit is |0⟩: it is measured as 0 with certainty. */
  lemma NewQubitIsZeroState()
    ensures Probability(NewQubit(), 0) == 1.0 && Probability(NewQubit(), 1) == 0.0
  {
  }

  /** The two probabilities of a fresh qubit add up to one. */
  lemma NewQubitNormalised()
    ensures Probability(NewQubit(), 0) + Probability(NewQubit(), 1) == 1.0
  {
    ZeroStateNormalised(NewQubit());
  }

  /** A state that is |0⟩ up to a phase (first amplitude of modulus one,
      second zero) is normalised: its probabilities add up to one. */
  lemma ZeroStateNormalised(q: Qubit)
    requires WellFormed(q) && NormSquared(q.state.value[0][0]) == 1.0 && q.state.value[1][0] == Zero
    ensures Probability(q, 0) + Probability(q, 1) == 1.0
  {
  }

  /** Multiplying the state by a global phase (a scalar of modulus one,
      with the scalar `*` of src/matrix/mod.rs) keeps every probability. */
  lemma GlobalPhaseKeepsProbabilities(q: Qubit, k: Complex, row: nat)
    requires WellFormed(q) && row < 2 && NormSquared(k) == 1.0
    ensures WellFormed(Qubit(ScalarMap(q.state, MulScalar, k)))
    ensures Probability(Qubit(ScalarMap(q.state, MulScalar, k)), row) == Probability(q, row)
  {
    ScalarMapValid(q.state, MulScalar, k);
    NormMultiplicative(q.state.value[row][0], k);
  }

  /** A 2 x 2 matrix applied to a column (x, y). */
  lemma ApplyToColumn(a: Complex, b: Complex, c: Complex, d: Complex, x: Complex, y: Complex)
    ensures Product(Gates.Square(a, b, c, d), Column(x, y))
         == Column(Plus(Times(a, x), Times(b, y)), Plus(Times(c, x), Times(d, y)))
  {
    var m, v := Gates.Square(a, b, c, d), Column(x, y);
    var p := Product(m, v);
    assert p.value[0][0] == Dot(m, v, 0, 0, 2);
    assert p.value[1][0] == Dot(m, v, 1, 0, 2);
    assert p.value[0] == [Plus(Times(a, x), Times(b, y))];
    assert p.value[1] == [Plus(Times(c, x), Times(d, y))];
  }

  /** Every well-formed state is the column of its two amplitudes. */
  lemma StateIsColumn(q: Qubit)
    requires WellFormed(q)
    ensures q.state == Column(q.state.value[0][0], q.state.value[1][0])
  {
    assert q.state.value[0] == [q.state.value[0][0]];
    assert q.state.value[1] == [q.state.value[1][0]];
  }

  /** The X gate applied to any qubit swaps its two amplitudes, and with
      them the probabilities of measuring 0 and 1. */
  lemma XSwapsAmplitudes(q: Qubit)
    requires WellFormed(q)
    ensures var x, y := q.state.value[0][0], q.state.value[1][0];
            Product(Gates.X(), q.state) == Column(y, x)
    ensures var flipped := Qubit(Product(Gates.X(), q.state));
            && WellFormed(flipped)
            && Probability(flipped, 0) == Probability(q, 1)
            && Probability(flipped, 1) == Probability(q, 0)
  {
    var x, y := q.state.value[0][0], q.state.value[1][0];
    StateIsColumn(q);
    ApplyToColumn(Zero, One, One, Zero, x, y);
    TimesZero(x);
    TimesZero(y);
    TimesOne(x);
    TimesOne(y);
    PlusZero(x);
    PlusZero(y);
  }

  /** The Z gate applied to any qubit negates the second amplitude and
      keeps both probabilities. */
  lemma ZKeepsProbabilities(q: Qubit)
    requires WellFormed(q)
    ensures var x, y := q.state.value[0][0], q.state.value[1][0];
            Product(Gates.Z(), q.state) == Column(x, Times(Gates.NegOne, y))
    ensures var z := Qubit(Product(Gates.Z(), q.state));
            && WellFormed(z)
            && Probability(z, 0) == Probability(q, 0)
            && Probability(z, 1) == Probability(q, 1)
  {
    var x, y := q.state.value[0][0], q.state.value[1][0];
    StateIsColumn(q);
    ApplyToColumn(One, Zero, Zero, Gates.NegOne, x, y);
    TimesZero(x);
    TimesZero(y);
    TimesOne(x);
    PlusZero(x);
    PlusZero(Times(Gates.NegOne, y));
    NormMultiplicative(Gates.NegOne, y);
  }

  /** The basis state |1⟩, the image of a fresh qubit under X. */
  function OneState(): (q: Qubit)
    ensures WellFormed(q)
  {
    Qubit(Column(Zero, One))
  }

  /** The X gate turns a fresh qubit into |1⟩. */
  lemma XFlipsNewQubit()
    ensures Product(Gates.X(), NewQubit().state) == OneState().state
  {
    XSwapsAmplitudes(NewQubit());
  }
}
