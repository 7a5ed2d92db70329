/** Division with remainder. */
module Arithmetic {

  lemma Multiple(m: int, d: int)
    requires d > 0
    ensures (m >= 1 ==> m * d >= d) && (m <= -1 ==> m * d <= -d)
  {
    if m >= 1 {
      assert m * d == (m - 1) * d + d;
    } else if m <= -1 {
      assert m * d == (m + 1) * d - d;
    }
  }

  lemma QuotientUnique(x: int, d: int, q: int)
    requires d > 0 && q * d <= x < q * d + d
    ensures x / d == q && x % d == x - q * d
  {
    assert x == x / d * d + x % d;
    assert (x / d - q) * d == x - q * d - x % d;
    Multiple(x / d - q, d);
  }
}
