/** Integer facts shared by the page and byte counting proofs. */
module Arith {

  /** Every element is smaller than every later one. */
  predicate Increasing(s: seq<int>) {
    forall a, b :: 0 <= a < b < |s| ==> s[a] < s[b]
  }

  /** `m // d` in terms of a quotient and remainder pair. */
  lemma DivUnique(m: int, d: int, q: int, r: int)
    requires d > 0 && 0 <= r < d && m == q * d + r
    ensures m / d == q && m % d == r
  {
    var q', r' := m / d, m % d;
    assert (q' - q) * d == r - r';
    if q' > q {
      MulMonotone(q' - q, 1, d);
    } else if q' < q {
      MulMonotone(q - q', 1, d);
    }
  }

  /** Multiplying by a positive number keeps the order. */
  lemma MulMonotone(a: int, b: int, d: int)
    requires a >= b && d > 0
    ensures a * d >= b * d
  {
  }

  /** A number below `k * q` has a quotient below `k`. */
  lemma DivBelow(x: int, q: int, k: int)
    requires q > 0 && 0 <= x < k * q
    ensures x / q < k
  {
    var c := x / q;
    assert c * q <= x;
    if c >= k {
      MulMonotone(c, k, q);
    }
  }
}
