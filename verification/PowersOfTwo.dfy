/** Powers of two, and the few non-linear facts the arithmetic proofs rest on. */
module PowersOfTwo {
  function Pow2(n: nat): (p: nat)
    ensures p > 0
  {
    if n == 0 then 1 else 2 * Pow2(n - 1)
  }

  lemma Pow2Zero()
    ensures Pow2(0) == 1
  {
  }

  lemma Pow2Next(n: nat)
    ensures Pow2(n + 1) == 2 * Pow2(n)
  {
  }

  lemma {:induction false} Pow2Add(a: nat, b: nat)
    ensures Pow2(a + b) == Pow2(a) * Pow2(b)
  {
    if a == 0 {
    } else {
      Pow2Add(a - 1, b);
      MulAssoc(2, Pow2(a - 1), Pow2(b));
    }
  }

  lemma {:induction false} Pow2Monotonic(a: nat, b: nat)
    requires a <= b
    ensures Pow2(a) <= Pow2(b)
  {
    if a == b {
    } else {
      Pow2Monotonic(a, b - 1);
    }
  }

  lemma MulAssoc(x: int, y: int, z: int)
    ensures (x * y) * z == x * (y * z)
  {
  }

  lemma Distribute(x: int, y: int, p: int)
    ensures (x + y) * p == x * p + y * p
  {
  }

  lemma MulOrder(x: int, y: int, p: int)
    requires p > 0
    ensures x < y <==> x * p < y * p
    ensures x <= y <==> x * p <= y * p
    ensures x == y <==> x * p == y * p
  {
    if x < y {
      MulStrict(x, y, p);
    } else if y < x {
      MulStrict(y, x, p);
    }
  }

  lemma MulStrict(x: int, y: int, p: int)
    requires x < y && p > 0
    ensures x * p < y * p
  {
    assert (y - x) * p > 0;
    assert y * p - x * p == (y - x) * p;
  }

  /** A product that lies strictly between two neighbouring multiples is not a multiple. */
  lemma NoMultipleBetween(x: int, m: int, p: int)
    requires p > 0
    ensures !(m * p < x * p < (m + 1) * p)
  {
    MulOrder(m, x, p);
    MulOrder(x, m + 1, p);
  }
}
