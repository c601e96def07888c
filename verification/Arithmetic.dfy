/** Machine word bounds and floor division: the few non-linear facts the other modules lean on. */
module Arithmetic {

  const U32_MAX: nat := 0xFFFF_FFFF
  const U64_MAX: nat := 0xFFFF_FFFF_FFFF_FFFF

  function Min(a: int, b: int): int {
    if a < b then a else b
  }

  lemma MulMono(a: int, b: int, c: int)
    requires a <= b && 0 <= c
    ensures a * c <= b * c
    ensures c * a <= c * b
  {
  }

  /** The quotient is the only integer whose multiple of `d` lies within `d` below `a`. */
  lemma QuotientUnique(a: int, d: int, q: int)
    requires 0 < d && d * q <= a < d * q + d
    ensures a / d == q
  {
    var k := a / d;
    assert a == d * k + a % d;
    if k < q {
      MulMono(k + 1, q, d);
    } else if q < k {
      MulMono(q + 1, k, d);
    }
  }

  lemma DivMono(a: int, b: int, d: int)
    requires a <= b && 0 < d
    ensures a / d <= b / d
  {
    assert a == d * (a / d) + a % d;
    assert b == d * (b / d) + b % d;
    if b / d < a / d {
      MulMono(b / d + 1, a / d, d);
    }
  }

  /** Floors telescope: what two stretches earn separately, their union earns at least. */
  lemma DivSuperadditive(a: int, b: int, d: int)
    requires 0 < d
    ensures a / d + b / d <= (a + b) / d
  {
    var q, r := a / d + b / d, a % d + b % d;
    assert a == d * (a / d) + a % d;
    assert b == d * (b / d) + b % d;
    assert a + b == d * q + r;
    if r < d {
      QuotientUnique(a + b, d, q);
    } else {
      QuotientUnique(a + b, d, q + 1);
    }
  }

  lemma DivAddMultiple(a: int, k: int, d: int)
    requires 0 < d
    ensures (a + k * d) / d == a / d + k
  {
    assert a == d * (a / d) + a % d;
    assert d * (a / d + k) == d * (a / d) + k * d;
    QuotientUnique(a + k * d, d, a / d + k);
  }

  lemma DivAtLeast(a: int, q: int, d: int)
    requires 0 < d && q * d <= a
    ensures q <= a / d
  {
    DivMono(q * d, a, d);
    DivAddMultiple(0, q, d);
  }

  /** Dividing by a product is dividing twice, and its remainder splits accordingly. */
  lemma DivByProduct(a: int, n: int, d: int)
    requires 0 < n && 0 < d
    ensures 0 < n * d
    ensures (a / d) % n == (a % (n * d)) / d
    ensures (a / d) / n == a / (n * d)
  {
    MulMono(1, n, d);
    var q, k, r := a / d, a / d / n, (a / d) % n;
    assert a == d * q + a % d;
    assert q == n * k + r;
    MulMono(r, n - 1, d);
    calc {
      d * q;
      d * (n * k + r);
      (n * d) * k + d * r;
    }
    QuotientUnique(a, n * d, k);
    assert a % (n * d) == d * r + a % d;
    QuotientUnique(a % (n * d), d, r);
  }
}
