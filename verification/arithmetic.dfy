/** Facts about products and quotients of integers that the solver does not find by itself. */
module Arithmetic {
  /** One more than the largest 64-bit `size_t`. */
  const SIZE_MAX_PLUS_ONE: nat := 0x1_0000_0000_0000_0000

  lemma MulMono(a: int, c: int, b: int, d: int)
    requires 0 <= a <= c && 0 <= b <= d
    ensures 0 <= a * b <= c * d
  {
    assert c * d - a * b == (c - a) * d + a * (d - b);
  }

  lemma MulSign(k: int, d: int)
    requires 0 < d
    ensures k >= 1 ==> k * d >= d
    ensures k <= -1 ==> k * d <= -d
  {
    if k >= 1 {
      MulMono(1, k, d, d);
    } else if k <= -1 {
      MulMono(1, -k, d, d);
      assert (-k) * d == -(k * d);
    }
  }

  lemma Quotient(x: int, d: int, q: int, r: int)
    requires x == q * d + r && 0 <= r < d
    ensures q == x / d && r == x % d
  {
    var k := x / d - q;
    assert k * d == r - x % d;
    MulSign(k, d);
  }

  lemma QuotientMonotone(a: int, b: int, c: int)
    requires a <= b && c > 0
    ensures a / c <= b / c
  {
    MulSign(a / c - b / c, c);
    assert (a / c - b / c) * c == a - a % c - (b - b % c);
  }

  lemma QuotientOfProduct(a: int, c: int)
    requires c > 0
    ensures a * c / c == a
  {
    Quotient(a * c, c, a, 0);
  }
}
