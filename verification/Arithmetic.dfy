/** Powers of two and quotients: the nonlinear facts the other modules share. */
module Arithmetic {

  function Pow2(n: nat): (p: nat)
    ensures p >= 1
  {
    if n == 0 then 1 else 2 * Pow2(n - 1)
  }

  lemma {:induction false} Pow2Monotone(a: nat, b: nat)
    requires a <= b
    ensures Pow2(a) <= Pow2(b)
  {
    if a < b {
      Pow2Monotone(a, b - 1);
    }
  }

  lemma {:induction false} MulBelow(a: nat, b: nat, m: nat)
    requires a < b
    ensures a * m + m <= b * m
    decreases b
  {
    if a + 1 < b {
      MulBelow(a, b - 1, m);
    }
    assert (b - 1) * m + m == b * m;
  }

  /** Quotient and remainder are unique. */
  lemma SameQuotient(a: nat, r: nat, b: nat, s: nat, m: nat)
    requires r < m && s < m && a * m + r == b * m + s
    ensures a == b && r == s
  {
    if a < b {
      MulBelow(a, b, m);
    } else if b < a {
      MulBelow(b, a, m);
    }
  }

  lemma Remainder(m: nat, a: nat, lap: nat)
    requires a < m
    ensures (lap * m + a) % m == a && (lap * m + a) / m == lap
  {
    var x := lap * m + a;
    assert x == (x / m) * m + x % m;
    SameQuotient(lap, a, x / m, x % m, m);
  }
}
