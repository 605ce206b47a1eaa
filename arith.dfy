/** Integer facts shared by the rasterizer proofs. */
module Arith {

  /** Euclidean division is determined by its quotient and remainder. */
  lemma DivModUnique(n: int, d: int, q: int, r: int)
    requires 0 < d && 0 <= r < d && n == q * d + r
    ensures n / d == q && n % d == r
  {
    var q', r' := n / d, n % d;
    assert n == q' * d + r';
    if q < q' {
      MulAtLeast(q' - q, d);
    } else if q' < q {
      MulAtLeast(q - q', d);
    }
  }

  /** Euclidean division of a non-negative n: the quotient is non-negative
      and q*d is the largest multiple of d not above n. */
  lemma QuotientBounds(n: int, d: int)
    requires 0 <= n && 0 < d
    ensures 0 <= n / d && (n / d) * d <= n < (n / d) * d + d
  {
    var q := n / d;
    assert n == q * d + n % d;
    if q < 0 {
      MulAtLeast(-q, d);
      NegMul(q, d);
    }
  }

  lemma NegMul(q: int, d: int)
    ensures -q * d == -(q * d)
  {
  }

  lemma MulAtLeast(k: int, d: int)
    requires 1 <= k && 0 < d
    ensures k * d >= d
  {
  }

  lemma MulLeq(a: int, b: int, c: int)
    requires 0 <= a <= b && 0 <= c
    ensures 0 <= a * c <= b * c
  {
  }

  /** A value below m whole multiples of z has a quotient below m. */
  lemma DivBelow(v: int, z: int, m: int)
    requires 0 < z && 0 <= v < m * z
    ensures 0 <= v / z < m
  {
    if v / z >= m {
      MulLeq(m, v / z, z);
    }
  }

  /** v lies in the k-th stripe of width z exactly when its quotient is k. */
  lemma Stripe(v: int, z: int, k: int)
    requires 0 < z && 0 <= k
    ensures k * z <= v < k * z + z <==> 0 <= v && v / z == k
  {
    if k * z <= v < k * z + z {
      MulLeq(0, k, z);
      DivModUnique(v, z, k, v - k * z);
    }
    if 0 <= v && v / z == k {
      assert v == (v / z) * z + v % z;
    }
  }

  /** For a non-negative v, the quotient is below m exactly when v is below
      m whole multiples of z. */
  lemma DivLess(v: int, z: int, m: int)
    requires 0 < z && 0 <= v && 0 <= m
    ensures v / z < m <==> v < m * z
  {
    if v < m * z {
      DivBelow(v, z, m);
    } else {
      var q := v / z;
      assert v == q * z + v % z;
      if q < m {
        MulLeq(q + 1, m, z);
      }
    }
  }
}
