/** Facts about Euclidean division on naturals that the duration decomposition
    relies on: a quotient is determined by its remainder bound, and dividing in
    two steps is dividing once by the product of the divisors. */
module DivArith {

  /** A positive multiple of `d` is at least `d`. */
  lemma MulAtLeast(d: nat, k: nat)
    requires 1 <= k
    ensures d <= d * k
  {
    assert d * k == d * (k - 1) + d;
  }

  /** Quotient and remainder are the only pair that reassembles `a` with the
      remainder below the divisor. */
  lemma DivModUnique(a: nat, d: nat, q: nat, r: nat)
    requires 0 < d && r < d
    requires a == d * q + r
    ensures a / d == q && a % d == r
  {
    var q0, r0 := a / d, a % d;
    assert a == d * q0 + r0;
    if q0 > q {
      MulAtLeast(d, q0 - q);
      assert false;
    } else if q0 < q {
      MulAtLeast(d, q - q0);
      assert false;
    }
  }

  /** Dividing by `b` and then by `c` truncates exactly as dividing once by `b * c`. */
  lemma DivDiv(a: nat, b: nat, c: nat)
    requires 0 < b && 0 < c
    ensures (a / b) / c == a / (b * c)
  {
    var q, r := a / b, a % b;
    var q2, r2 := q / c, q % c;
    assert a == b * q + r;
    assert q == c * q2 + r2;
    assert a == (b * c) * q2 + (b * r2 + r) by {
      assert b * q == b * (c * q2) + b * r2;
      assert b * (c * q2) == (b * c) * q2;
    }
    assert b * r2 + r < b * c by {
      MulAtLeast(b, c - r2);
      assert b * c == b * r2 + b * (c - r2);
    }
    DivModUnique(a, b * c, q2, b * r2 + r);
  }
}
