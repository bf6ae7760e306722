/** Complex arithmetic of src/complex/mod.rs, with the two f32 components of
    a ComplexNumber modelled as exact reals. */
module ComplexNumbers {
  import opened Outcomes

  /** The value `a + b·i` of a ComplexNumber. */
  datatype Complex = Complex(a: real, b: real)

  const Zero: Complex := Complex(0.0, 0.0)
  const One: Complex := Complex(1.0, 0.0)

  /** |x|², the quantity a² + b² the source computes for probabilities
      and as the divisor of `divide`. */
  function NormSquared(x: Complex): (n: real)
    ensures n >= 0.0
    ensures n == 0.0 <==> x == Zero
  {
    SquareSign(x.a);
    SquareSign(x.b);
    Mul(x.a, x.a) + Mul(x.b, x.b)
  }

  /** Real multiplication behind a name, so that the sign facts about a
      square are proved once, here, and used as facts about `Mul(u, u)`. */
  function Mul(x: real, y: real): real
  {
    x * y
  }

  lemma MulPositive(x: real, y: real)
    requires x > 0.0 && y > 0.0
    ensures Mul(x, y) > 0.0
  {
  }

  /** A square is never negative, and it is zero only at zero. */
  lemma SquareSign(u: real)
    ensures Mul(u, u) >= 0.0
    ensures u != 0.0 ==> Mul(u, u) > 0.0
  {
    if u > 0.0 {
      MulPositive(u, u);
    } else if u < 0.0 {
      MulPositive(-u, -u);
      assert Mul(-u, -u) == Mul(u, u);
    }
  }

  // ---------------------------------------------------------------------
  // Value arithmetic: the results the in-place methods leave in `self`,
  // and the operators (+, -, *, /, * f32) that the matrix module applies
  // to ComplexNumber.

  function Plus(x: Complex, y: Complex): Complex
  {
    Complex(x.a + y.a, x.b + y.b)
  }

  /** Subtraction, the inverse of `Plus`. */
  function Minus(x: Complex, y: Complex): (r: Complex)
    ensures Plus(r, y) == x
  {
    Complex(x.a - y.a, x.b - y.b)
  }

  /** `scalar_mult`: multiplying by a real is multiplying by `k + 0i`. */
  function Scale(x: Complex, k: real): (r: Complex)
    ensures r == Times(x, Complex(k, 0.0))
  {
    Complex(x.a * k, x.b * k)
  }

  /** Complex product. */
  function Times(x: Complex, y: Complex): Complex
  {
    Complex(x.a * y.a - x.b * y.b, x.b * y.a + x.a * y.b)
  }

  /** The conjugate `conjugate` returns. */
  function Conj(x: Complex): Complex
  {
    Complex(x.a, -x.b)
  }

  /** The modulus is multiplicative. */
  lemma NormMultiplicative(x: Complex, y: Complex)
    ensures NormSquared(Times(x, y)) == NormSquared(x) * NormSquared(y)
  {
  }

  /** x · conj(x) is the real number |x|². */
  lemma TimesConj(x: Complex)
    ensures Times(x, Conj(x)) == Complex(NormSquared(x), 0.0)
    ensures NormSquared(Conj(x)) == NormSquared(x)
  {
  }

  /** The exact quotient, for a nonzero divisor: the formula `divide`
      writes, ((ac+bd)/(c²+d²), (bc−ad)/(c²+d²)), which is the one value
      whose product with the divisor gives back the dividend. */
  function Over(x: Complex, y: Complex): (q: Complex)
    requires y != Zero
    ensures Times(q, y) == x
  {
    var n := NormSquared(y);
    var q := Complex((x.a * y.a + x.b * y.b) / n, (x.b * y.a - x.a * y.b) / n);
    QuotientTimesDivisor(x, y, n, q);
    q
  }

  lemma QuotientTimesDivisor(x: Complex, y: Complex, n: real, q: Complex)
    requires n == NormSquared(y) && n != 0.0
    requires q == Complex((x.a * y.a + x.b * y.b) / n, (x.b * y.a - x.a * y.b) / n)
    ensures Times(q, y) == x
  {
    var u, v := x.a * y.a + x.b * y.b, x.b * y.a - x.a * y.b;
    assert q.a * n == u && q.b * n == v;
    calc {
      (q.a * y.a - q.b * y.b) * n;
      (q.a * n) * y.a - (q.b * n) * y.b;
      u * y.a - v * y.b;
      x.a * n;
    }
    calc {
      (q.b * y.a + q.a * y.b) * n;
      (q.b * n) * y.a + (q.a * n) * y.b;
      v * y.a + u * y.b;
      x.b * n;
    }
  }

  lemma TimesOne(x: Complex)
    ensures Times(x, One) == x && Times(One, x) == x
  {
  }

  lemma TimesZero(x: Complex)
    ensures Times(x, Zero) == Zero && Times(Zero, x) == Zero
  {
  }

  lemma PlusZero(x: Complex)
    ensures Plus(x, Zero) == x && Plus(Zero, x) == x
  {
  }

  lemma PlusCommutes(x: Complex, y: Complex)
    ensures Plus(x, y) == Plus(y, x)
  {
  }

  /** Subtracting what was added gives back the original. */
  lemma MinusUndoesPlus(x: Complex, y: Complex)
    ensures Minus(Plus(x, y), y) == x
  {
  }

  lemma TimesCommutes(x: Complex, y: Complex)
    ensures Times(x, y) == Times(y, x)
  {
  }

  lemma TimesAssociates(x: Complex, y: Complex, z: Complex)
    ensures Times(Times(x, y), z) == Times(x, Times(y, z))
  {
  }

  lemma TimesDistributes(x: Complex, y: Complex, z: Complex)
    ensures Times(x, Plus(y, z)) == Plus(Times(x, y), Times(x, z))
    ensures Times(Plus(y, z), x) == Plus(Times(y, x), Times(z, x))
  {
  }

  /** Multiplying by y and then dividing by y gives back x. */
  lemma {:induction false} OverUndoesTimes(x: Complex, y: Complex)
    requires y != Zero
    ensures Over(Times(x, y), y) == x
  {
    var q := Over(Times(x, y), y);
    assert Times(q, y) == Times(x, y);
    TimesCancels(q, x, y);
  }

  /** A nonzero factor cancels. */
  lemma TimesCancels(p: Complex, q: Complex, y: Complex)
    requires y != Zero && Times(p, y) == Times(q, y)
    ensures p == q
  {
    var n := NormSquared(y);
    TimesConj(y);
    TimesAssociates(p, y, Conj(y));
    TimesAssociates(q, y, Conj(y));
    assert Scale(p, n) == Scale(q, n);
  }

  /** Conjugating twice gives back the original. */
  lemma ConjInvolutive(x: Complex)
    ensures Conj(Conj(x)) == x
  {
  }

  /** Conjugation distributes over products and sums. */
  lemma ConjHomomorphism(x: Complex, y: Complex)
    ensures Conj(Times(x, y)) == Times(Conj(x), Conj(y))
    ensures Conj(Plus(x, y)) == Plus(Conj(x), Conj(y))
  {
  }

  // ---------------------------------------------------------------------
  // `divide` guards the division with `self.a == 0 && to_divide.b == 0`.

  /** The condition under which `divide` returns None. */
  predicate DivideRefuses(dividend: Complex, divisor: Complex)
  {
    dividend.a == 0.0 && divisor.b == 0.0
  }

  /** The guard is not a zero-divisor test: it refuses i / 2 and lets
      1 / 0 through to the division. */
  lemma DivideGuardMisjudges()
    ensures DivideRefuses(Complex(0.0, 1.0), Complex(2.0, 0.0))
    ensures Complex(2.0, 0.0) != Zero && Over(Complex(0.0, 1.0), Complex(2.0, 0.0)) == Complex(0.0, 0.5)
    ensures !DivideRefuses(One, Zero)
  {
    OverUndoesTimes(Complex(0.0, 0.5), Complex(2.0, 0.0));
  }

  /** Division guarded by a zero-divisor test: None exactly for a zero
      divisor, otherwise the quotient. */
  function CheckedDivide(dividend: Complex, divisor: Complex): (r: Option<Complex>)
    ensures r.None? <==> divisor == Zero
    ensures r.Some? ==> Times(r.value, divisor) == dividend
  {
    if divisor == Zero then None else Some(Over(dividend, divisor))
  }

  // ---------------------------------------------------------------------
  // The in-place API of ComplexNumber.

  /** A ComplexNumber whose `&mut self` methods overwrite its two fields.
      The `&Self` each method returns for chaining is not modelled. */
  class ComplexNumber {
    var a: real
    var b: real

    function Value(): Complex
      reads this
    {
      Complex(a, b)
    }

    constructor (v: Complex)
      ensures Value() == v
    {
      a, b := v.a, v.b;
    }

    /** add: self becomes self + to_add. */
    method Add(to_add: Complex)
      modifies this
      ensures Value() == Plus(old(Value()), to_add)
    {
      a := a + to_add.a;
      b := b + to_add.b;
    }

    /** scalar_mult: both components are multiplied by the real factor. */
    method ScalarMult(to_mult: real)
      modifies this
      ensures Value() == Scale(old(Value()), to_mult)
    {
      a := a * to_mult;
      b := b * to_mult;
    }

    /** mult: self becomes self · to_mult, read from the old components. */
    method Mult(to_mult: Complex)
      modifies this
      ensures Value() == Times(old(Value()), to_mult)
    {
      var a0, b0 := a, b;
      var c, d := to_mult.a, to_mult.b;
      a := a0 * c - b0 * d;
      b := b0 * c + a0 * d;
    }

    /** conjugate: returns the conjugate and leaves self as it is. */
    method Conjugate() returns (r: Complex)
      ensures r == Conj(Value())
      ensures Value() == Conj(r)
    {
      r := Complex(a, b * -1.0);
    }

    /** divide: None, with self untouched, exactly when self.a == 0 and
        to_divide.b == 0; otherwise self becomes the quotient. When the
        divisor is zero and the guard lets it through, f32 produces NaN or
        an infinity, which exact reals do not carry: the components are
        then left unspecified. */
    method Divide(to_divide: Complex) returns (ok: bool)
      modifies this
      ensures ok <==> !DivideRefuses(old(Value()), to_divide)
      ensures !ok ==> Value() == old(Value())
      ensures ok && to_divide != Zero ==> Value() == Over(old(Value()), to_divide)
    {
      if a == 0.0 && to_divide.b == 0.0 {
        return false;
      }
      var a0, b0 := a, b;
      var c, d := to_divide.a, to_divide.b;
      if c * c + d * d == 0.0 {
        a := *;
        b := *;
      } else {
        a := (a0 * c + b0 * d) / (c * c + d * d);
        b := (b0 * c - a0 * d) / (c * c + d * d);
      }
      return true;
    }
  }

  // ---------------------------------------------------------------------
  // Polar form. PI is std::f32::consts::PI exactly; std::f32::consts::TAU
  // is exactly twice it.

  const PI: real := 3.1415927410125732421875
  const TAU: real := 2.0 * PI

  /** A ComplexPolarNumber value: radius and angle in radians. */
  datatype Polar = Polar(r: real, theta: real)

  /** `d` is a whole number of turns (an integer multiple of TAU). */
  predicate WholeTurns(d: real)
  {
    (d / TAU).Floor as real == d / TAU
  }

  lemma WholeTurnsAdd(x: real, y: real)
    requires WholeTurns(x) && WholeTurns(y)
    ensures WholeTurns(x + y)
  {
    var k := (x / TAU).Floor + (y / TAU).Floor;
    assert (x + y) / TAU == k as real;
  }

  /** Adding k whole turns moves the turn count by exactly k. */
  lemma TurnFloor(x: real, k: int)
    ensures ((x + k as real * TAU) / TAU).Floor == (x / TAU).Floor + k
  {
    assert (x + k as real * TAU) / TAU == x / TAU + k as real;
  }

  /** The first loop of `mult`: subtract TAU while the angle exceeds PI. */
  function WrapDown(theta: real): (t: real)
    ensures t <= PI
    ensures theta <= PI ==> t == theta
    decreases TurnsAbove(theta)
  {
    if theta > PI then WrapDown(theta - TAU) else theta
  }

  /** WrapDown moves an angle by whole turns only. */
  lemma {:induction false} WrapDownTurns(theta: real)
    ensures WholeTurns(theta - WrapDown(theta))
    decreases TurnsAbove(theta)
  {
    if theta > PI {
      WrapDownTurns(theta - TAU);
      assert WholeTurns(TAU);
      WholeTurnsAdd(theta - TAU - WrapDown(theta), TAU);
    } else {
      assert WholeTurns(0.0);
    }
  }

  /** The number of whole turns by which an angle lies above −PI. */
  function TurnsAbove(theta: real): int
  {
    ((theta + PI) / TAU).Floor
  }

  /** The number of whole turns by which an angle lies below PI. */
  function TurnsBelow(theta: real): int
  {
    ((PI - theta) / TAU).Floor
  }

  /** One pass of the first loop: the wrapped angle and the turn count. */
  lemma WrapDownStep(theta: real)
    requires theta > PI
    ensures WrapDown(theta - TAU) == WrapDown(theta)
    ensures 0 <= TurnsAbove(theta - TAU) < TurnsAbove(theta)
  {
    TurnFloor(theta + PI, -1);
    assert theta - TAU + PI == theta + PI + (-1) as real * TAU;
  }

  /** The second loop of `mult`: add TAU while the angle is below −PI;
      an angle that starts at most PI stays at most PI. */
  function WrapUp(theta: real): (t: real)
    ensures t >= -PI
    ensures theta >= -PI ==> t == theta
    ensures theta <= PI ==> t <= PI
    decreases TurnsBelow(theta)
  {
    if theta < -PI then WrapUp(theta + TAU) else theta
  }

  /** WrapUp moves an angle by whole turns only. */
  lemma {:induction false} WrapUpTurns(theta: real)
    ensures WholeTurns(theta - WrapUp(theta))
    decreases TurnsBelow(theta)
  {
    if theta < -PI {
      WrapUpTurns(theta + TAU);
      assert WholeTurns(-TAU);
      WholeTurnsAdd(theta + TAU - WrapUp(theta), -TAU);
    } else {
      assert WholeTurns(0.0);
    }
  }

  /** One pass of the second loop. */
  lemma WrapUpStep(theta: real)
    requires theta < -PI
    ensures WrapUp(theta + TAU) == WrapUp(theta)
    ensures 0 <= TurnsBelow(theta + TAU) < TurnsBelow(theta)
  {
    TurnFloor(PI - theta, -1);
    assert PI - (theta + TAU) == PI - theta + (-1) as real * TAU;
  }

  /** The state `mult` leaves: the radius |r1·r2| and the angle θ1 + θ2
      (plus PI when the raw product is negative), brought into [−PI, PI]
      by whole turns. */
  function PolarProduct(p: Polar, q: Polar): Polar
  {
    var raw := p.r * q.r;
    var angle := if raw < 0.0 then p.theta + q.theta + PI else p.theta + q.theta;
    Polar(if raw < 0.0 then -raw else raw, WrapUp(WrapDown(angle)))
  }

  /** The product has a non-negative radius equal to |r1·r2|, and an angle
      in [−PI, PI] that differs from θ1 + θ2 (or θ1 + θ2 + PI when the raw
      radius is negative) by whole turns only. */
  lemma PolarProductNormalised(p: Polar, q: Polar)
    ensures var r := PolarProduct(p, q);
      && r.r >= 0.0
      && (r.r == p.r * q.r || r.r == -(p.r * q.r))
      && -PI <= r.theta <= PI
      && (p.r * q.r >= 0.0 ==> WholeTurns(p.theta + q.theta - r.theta))
      && (p.r * q.r < 0.0 ==> WholeTurns(p.theta + q.theta + PI - r.theta))
  {
    var raw := p.r * q.r;
    var angle := if raw < 0.0 then p.theta + q.theta + PI else p.theta + q.theta;
    var down := WrapDown(angle);
    var up := WrapUp(down);
    WrapDownTurns(angle);
    WrapUpTurns(down);
    WholeTurnsAdd(angle - down, down - up);
  }

  /** Multiplying by 1∠0 leaves a normalised polar number unchanged. */
  lemma PolarProductByOne(p: Polar)
    requires p.r >= 0.0 && -PI <= p.theta <= PI
    ensures PolarProduct(p, Polar(1.0, 0.0)) == p
  {
  }

  /** The source's ComplexPolarNumber, updated in place by `mult`. */
  class ComplexPolarNumber {
    var r: real
    var theta: real

    function Value(): Polar
      reads this
    {
      Polar(r, theta)
    }

    constructor (v: Polar)
      ensures Value() == v
    {
      r, theta := v.r, v.theta;
    }

    /** mult: the two while-loops renormalise the angle. */
    method Mult(to_mult: Polar)
      modifies this
      ensures Value() == PolarProduct(old(Value()), to_mult)
    {
      ghost var p := Value();
      var r' := r * to_mult.r;
      var theta' := theta + to_mult.theta;
      ghost var angle := if r' < 0.0 then theta' + PI else theta';
      if r' < 0.0 {
        r' := r' * -1.0;
        theta' := theta' + PI;
      }
      ghost var start := theta';
      while theta' > PI
        invariant WrapDown(theta') == WrapDown(start)
        decreases TurnsAbove(theta')
      {
        WrapDownStep(theta');
        theta' := theta' - TAU;
      }
      ghost var middle := theta';
      while theta' < -PI
        invariant WrapUp(theta') == WrapUp(middle)
        decreases TurnsBelow(theta')
      {
        WrapUpStep(theta');
        theta' := theta' + TAU;
      }
      assert Polar(r', theta') == PolarProduct(p, to_mult);
      r := r';
      theta := theta';
    }
  }
}
