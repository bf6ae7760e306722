/** Facts about the row-major block indexing `q * d + x` that the Kronecker
    product and its inverse use (`r * rows2 + rn`, `i / d`, `i % d`). */
module IndexArith {

  lemma MulMonotone(a: int, b: int, d: nat)
    requires a <= b
    ensures a * d <= b * d
  {
  }

  /** `q * d + x` splits back into its block `q` and offset `x`. */
  lemma BlockIndex(q: nat, d: nat, x: nat)
    requires x < d
    ensures (q * d + x) / d == q
    ensures (q * d + x) % d == x
  {
    var i := q * d + x;
    var q', x' := i / d, i % d;
    assert i == q' * d + x';
    if q' < q {
      MulMonotone(q' + 1, q, d);
      assert false;
    } else if q' > q {
      MulMonotone(q + 1, q', d);
      assert false;
    }
  }

  /** A block index and offset stay inside `n` blocks of size `d`. */
  lemma BlockBound(q: nat, x: nat, d: nat, n: nat)
    requires q < n && x < d
    ensures q * d + x < n * d
  {
    MulMonotone(q + 1, n, d);
  }

  /** An index below `n * d` lies in one of the `n` blocks. */
  lemma DivBelow(i: nat, d: nat, n: nat)
    requires i < n * d
    ensures d > 0
    ensures i / d < n
  {
    if d > 0 && i / d >= n {
      MulMonotone(n, i / d, d);
    }
  }

  /** Integer division by a positive divisor is monotone. */
  lemma DivMonotone(i: nat, j: nat, d: nat)
    requires i <= j && d > 0
    ensures i / d <= j / d
  {
    if i / d > j / d {
      MulMonotone(j / d + 1, i / d, d);
    }
  }

  /** With `q = n / d` blocks, the last index `n - 1` falls past the `d`-th
      block exactly when `d` does not divide `n`. */
  lemma LastIndexBlock(n: nat, d: nat)
    requires 1 <= d <= n
    ensures n / d >= 1
    ensures (n - 1) / (n / d) >= d <==> n % d != 0
  {
    var q := n / d;
    assert n == q * d + n % d;
    DivMonotone(d, n, d);
    BlockIndex(1, d, 0);
    if n % d == 0 {
      assert n - 1 == (d - 1) * q + (q - 1);
      BlockIndex(d - 1, q, q - 1);
    } else {
      assert n - 1 >= d * q;
      DivMonotone(d * q, n - 1, q);
      BlockIndex(d, q, 0);
    }
  }
}
