/** Powers of two modulo a word (mapreduce/pi/pidigits.h, inverse, montgomeryMult, montgomeryModPow2, modPow2). */
module Montgomery {
  import opened Arithmetic
  import opened Limbs
  import opened Wide
  import opened NewtonDivision

  function Pow2(n: nat): (r: nat)
    ensures r >= 1
  {
    if n == 0 then 1 else 2 * Pow2(n - 1)
  }

  lemma Pow2Step(s: nat)
    ensures if s == 0 then Pow2(s) == 1 else Pow2(s) == 2 * Pow2(s - 1)
  {
  }

  lemma {:induction false} Pow2Add(a: nat, b: nat)
    ensures Pow2(a + b) == Pow2(a) * Pow2(b)
  {
    if a > 0 {
      Pow2Add(a - 1, b);
      assert Pow2(a + b) == 2 * Pow2(a - 1 + b);
    }
  }

  // ---- congruences ----

  predicate Cong(a: int, b: int, m: int)
    requires m > 0
  {
    a % m == b % m
  }

  lemma CongByMultiple(a: int, b: int, k: int, m: int)
    requires m > 0 && a == b + k * m
    ensures Cong(a, b, m)
  {
    assert a == (b / m + k) * m + b % m;
    Quotient(a, m, b / m + k, b % m);
  }

  lemma CongMul(a: int, b: int, c: int, m: int)
    requires m > 0 && Cong(a, b, m)
    ensures Cong(a * c, b * c, m)
  {
    var k := a / m - b / m;
    assert a == b + k * m;
    assert a * c == b * c + (k * c) * m;
    CongByMultiple(a * c, b * c, k * c, m);
  }

  lemma CongMul2(a: int, b: int, c: int, d: int, m: int)
    requires m > 0 && Cong(a, b, m) && Cong(c, d, m)
    ensures Cong(a * c, b * d, m)
  {
    CongMul(a, b, c, m);
    CongMul(c, d, b, m);
    assert c * b == b * c && d * b == b * d;
  }

  lemma HalfStep(x: int, y: int, p: int)
    requires x % 2 == 1 && p > 0 && x * y % (2 * p) == 0
    ensures y % 2 == 0 && x * (y / 2) % p == 0
  {
    var c := x * y / (2 * p);
    assert x * y == 2 * (c * p);
    EvenFactor(x, y, c * p);
    assert x * y == 2 * (x * (y / 2));
    Quotient(x * (y / 2), p, c, 0);
  }

  lemma DoubleStep(y: int, p: int)
    requires p > 0 && y % 2 == 0 && y / 2 % p == 0
    ensures y % (2 * p) == 0
  {
    var k := y / 2 / p;
    assert y == k * (2 * p);
    Quotient(y, 2 * p, k, 0);
  }

  /** An odd factor does not help to reach a power of two. */
  lemma {:induction false} OddCancels(x: int, y: int, s: nat)
    requires x % 2 == 1 && x * y % Pow2(s) == 0
    ensures y % Pow2(s) == 0
    decreases s
  {
    hide Pow2;
    Pow2Step(s);
    if s == 0 {
      assert y % 1 == 0;
    } else {
      HalfStep(x, y, Pow2(s - 1));
      OddCancels(x, y / 2, s - 1);
      DoubleStep(y, Pow2(s - 1));
    }
  }

  lemma EvenFactor(x: int, y: int, z: int)
    requires x % 2 == 1 && x * y == 2 * z
    ensures y % 2 == 0
  {
    var a, b, r := x / 2, y / 2, y % 2;
    assert x * y == 2 * (2 * a * b + b + a * r) + r;
  }

  // ---- bits ----

  /** The position behind the highest set bit. */
  function BitLength(x: nat): nat {
    if x == 0 then 0 else 1 + BitLength(x / 2)
  }

  lemma {:induction false} BitLengthIs(x: nat, n: nat)
    requires x > 0 ==> n >= 1 && Pow2(n - 1) <= x < Pow2(n)
    requires x == 0 ==> n == 0
    ensures BitLength(x) == n
  {
    if x > 0 {
      if n == 1 {
      } else {
        assert Pow2(n) == 2 * Pow2(n - 1) && Pow2(n - 1) == 2 * Pow2(n - 2);
        BitLengthIs(x / 2, n - 1);
      }
    }
  }

  lemma {:induction false} BitLengthBounds(x: nat)
    requires x > 0
    ensures BitLength(x) >= 1 && Pow2(BitLength(x) - 1) <= x < Pow2(BitLength(x))
  {
    if x > 1 {
      BitLengthBounds(x / 2);
    }
  }

  lemma Pow2Order(a: nat, b: nat)
    ensures a <= b ==> Pow2(a) <= Pow2(b)
  {
    if a <= b {
      Pow2Mono(a, b);
    }
  }

  lemma BitLengthAtMost(x: nat, n: nat)
    requires 0 < x < Pow2(n)
    ensures BitLength(x) <= n
  {
    hide Pow2;
    BitLengthBounds(x);
    Pow2Order(n, BitLength(x) - 1);
  }

  lemma BitLengthAbove(x: nat, n: nat)
    requires Pow2(n) <= x
    ensures BitLength(x) > n
  {
    hide Pow2;
    BitLengthBounds(x);
    Pow2Order(BitLength(x), n);
  }

  lemma {:induction false} Pow2Mono(a: nat, b: nat)
    requires a <= b
    ensures Pow2(a) <= Pow2(b)
  {
    if a < b {
      Pow2Mono(a, b - 1);
    }
  }

  lemma Pow2Values()
    ensures Pow2(3) == 8 && Pow2(62) == 0x4000_0000_0000_0000 && Pow2(63) == 0x8000_0000_0000_0000
    ensures Pow2(64) == 0x1_0000_0000_0000_0000
  {
    assert Pow2(8) == 256;
    Pow2Add(8, 8);
    Pow2Add(16, 16);
    Pow2Add(32, 16);
    Pow2Add(48, 8);
    Pow2Add(56, 6);
    assert Pow2(6) == 64;
  }

  /** Dropping the low bits of a window keeps it around the original number. */
  lemma NarrowBounds(a: int, b: int, x: int, original: int)
    requires 0 < a && 0 < b && 0 <= x && a * x <= original < a * (x + 1)
    ensures a * b * (x / b) <= original < a * b * (x / b + 1)
  {
    var y, r := x / b, x % b;
    assert a * x == a * b * y + a * r;
    assert a * b * (y + 1) == a * (x + 1) + a * (b - r - 1);
    MulMono(0, a, 0, r);
    MulMono(0, a, 0, b - r - 1);
  }

  lemma QuotientBelow(x: int, b: int)
    requires 0 < b && 0 <= x < b * b
    ensures 0 <= x / b < b
  {
    if x / b >= b {
      MulMono(b, x / b, b, b);
    }
  }

  /** One step of the portable `countLeadingZeros64`: halve the window if its upper part is not zero. */
  method NarrowWindow(x: U64, shift: nat, n: nat, ghost original: U64) returns (x': U64, n': nat)
    requires shift <= n <= 64 && x < Pow2(2 * shift)
    requires Pow2(64 - n) * x <= original < Pow2(64 - n) * (x + 1)
    requires original > 0 ==> x > 0
    ensures n - shift <= n' <= n && x' < Pow2(shift) && (original > 0 ==> x' > 0) && (original == 0 ==> n' == n)
    ensures Pow2(64 - n') * x' <= original < Pow2(64 - n') * (x' + 1)
  {
    hide Pow2;
    Pow2Add(shift, shift);
    Pow2Add(64 - n, shift);
    NarrowBounds(Pow2(64 - n), Pow2(shift), x, original);
    QuotientBelow(x, Pow2(shift));
    var y := x / Pow2(shift);
    MulMono(1, Pow2(64 - n), x, x);
    if y != 0 {
      x', n' := y, n - shift;
    } else {
      x', n' := x, n;
      assert x < Pow2(shift) by { if x >= Pow2(shift) { Quotient(x, Pow2(shift), 0, x); } }
    }
  }

  /** The portable `countLeadingZeros64`. */
  method CountLeadingZeros64(x: U64) returns (n: nat)
    ensures n == 64 - BitLength(x)
  {
    Pow2Values();
    var w, k := x, 64;
    w, k := NarrowWindow(w, 32, k, x);
    w, k := NarrowWindow(w, 16, k, x);
    w, k := NarrowWindow(w, 8, k, x);
    w, k := NarrowWindow(w, 4, k, x);
    w, k := NarrowWindow(w, 2, k, x);
    n := LastBits(w, k, x);
  }

  method LastBits(w: U64, k: nat, ghost original: U64) returns (n: nat)
    requires 2 <= k <= 64 && w < Pow2(2) && (original > 0 ==> w > 0) && (original == 0 ==> k == 64)
    requires Pow2(64 - k) * w <= original < Pow2(64 - k) * (w + 1)
    ensures n == 64 - BitLength(original)
  {
    assert Pow2(66 - k) == 4 * Pow2(64 - k) && Pow2(65 - k) == 2 * Pow2(64 - k);
    var y := w / 2;
    if y != 0 {
      BitLengthIs(original, 66 - k);
      return k - 2;
    }
    BitLengthIs(original, if w == 0 then 0 else 65 - k);
    return k - w;
  }

  lemma HighestBit(x: U64)
    requires x > 0
    ensures 1 <= BitLength(x) <= 64
    ensures var bit := Pow2(BitLength(x) - 1); bit <= x < 2 * bit && bit < 0x1_0000_0000_0000_0000
  {
    BitLengthBounds(x);
    Pow2Step(BitLength(x));
    hide BitLength, Pow2;
    Pow2Values();
    BitLengthAtMost(x, 64);
  }

  /** `highestSetBit64`. */
  method HighestSetBit64(x: U64) returns (bit: U64)
    requires x > 0
    ensures bit == Pow2(BitLength(x) - 1) && bit <= x < 2 * bit
  {
    hide Pow2, BitLength;
    HighestBit(x);
    var n := CountLeadingZeros64(x);
    bit := Pow2(63 - n);
  }

  // ---- the inverse ----

  /** `m x + 1` has at least `k` zero bits at the bottom: `x` is minus the inverse of `m` to `k` bits. */
  predicate InverseBits(m: int, x: int, k: nat) {
    (m * x + 1) % Pow2(k) == 0
  }

  /** The step of `inverse`: m x (2 + m x) + 1 = (m x + 1)^2, so the number of right bits doubles. */
  lemma BitsDouble(m: int, x: int, x1: int, k: nat, s: nat, r: int)
    requires InverseBits(m, x, k) && k <= s && x * (2 + m * x) == x1 + r * Pow2(s)
    ensures InverseBits(m, x1, if 2 * k < s then 2 * k else s)
  {
    hide Pow2;
    var j := if 2 * k < s then 2 * k else s;
    var c := (m * x + 1) / Pow2(k);
    Pow2Add(k, k);
    Pow2Add(j, 2 * k - j);
    Pow2Add(j, s - j);
    SquareStep(m, x, x1, r * Pow2(s));
    SquareMultiple(m * x + 1, c, Pow2(k), Pow2(j), Pow2(2 * k - j));
    DroppedMultiple(m, r, Pow2(s), Pow2(j), Pow2(s - j));
    DifferenceMultiple(m * x1 + 1, c * c * Pow2(2 * k - j), m * r * Pow2(s - j), Pow2(j));
  }

  lemma SquareMultiple(a: int, c: int, pk: int, pj: int, e: int)
    requires a == c * pk && pk * pk == pj * e
    ensures a * a == c * c * e * pj
  {
    assert a * a == c * c * (pk * pk);
  }

  lemma DroppedMultiple(m: int, r: int, ps: int, pj: int, f: int)
    requires ps == pj * f
    ensures m * (r * ps) == m * r * f * pj
  {
  }

  lemma DifferenceMultiple(a: int, k1: int, k2: int, p: int)
    requires p > 0 && a == k1 * p - k2 * p
    ensures a % p == 0
  {
    Quotient(a, p, k1 - k2, 0);
  }

  lemma SquareStep(m: int, x: int, x1: int, dropped: int)
    requires x * (2 + m * x) == x1 + dropped
    ensures m * x1 + 1 == (m * x + 1) * (m * x + 1) - m * dropped
  {
    assert m * (x * (2 + m * x)) == (m * x + 1) * (m * x + 1) - 1;
  }

  /** A product modulo 2^64 and then modulo a smaller power of two. */
  function MaskedProduct(a: int, b: int, r: int): int
    requires r > 0
  {
    a * b % 0x1_0000_0000_0000_0000 % r
  }

  lemma MaskedProductIs(a: int, b: int, s: nat)
    requires s <= 64
    ensures var x := MaskedProduct(a, b, Pow2(s)); 0 <= x < Pow2(s) && a * b == x + (a * b - x) / Pow2(s) * Pow2(s)
    ensures MaskedProduct(a, b, Pow2(s)) == a * b % Pow2(s)
  {
    Pow2Values();
    Pow2Add(s, 64 - s);
    hide Pow2;
    var p, q, r := a * b, a * b / 0x1_0000_0000_0000_0000, a * b % 0x1_0000_0000_0000_0000;
    var x := r % Pow2(s);
    var k := q * Pow2(64 - s) + r / Pow2(s);
    TwoRemainders(p, q, r, Pow2(s), Pow2(64 - s), x);
    Quotient(p, Pow2(s), k, x);
    Quotient(p - x, Pow2(s), k, 0);
  }

  lemma TwoRemainders(p: int, q: int, r: int, a: int, b: int, x: int)
    requires 0 < a && 0 < b && p == q * (a * b) + r && x == r % a
    ensures p == (q * b + r / a) * a + x
  {
    assert q * (a * b) == q * b * a;
  }

  lemma SeedInverse(m: nat)
    requires m % 2 == 1
    ensures var x := 8 - m % 8; 1 <= x <= 7 && x % 2 == 1 && (m * x + 1) % 8 == 0
  {
    var q, r := m / 8, m % 8;
    assert m * (8 - r) + 1 == 8 * (q * (8 - r)) + (r * (8 - r) + 1);
    assert r == 1 || r == 3 || r == 5 || r == 7;
  }

  /** Fewer right bits follow from more. */
  lemma FewerBits(m: int, x: int, k: nat, j: nat)
    requires InverseBits(m, x, k) && j <= k
    ensures InverseBits(m, x, j)
  {
    hide Pow2;
    Pow2Add(j, k - j);
    var c := (m * x + 1) / Pow2(k);
    assert m * x + 1 == c * Pow2(k - j) * Pow2(j);
    Quotient(m * x + 1, Pow2(j), c * Pow2(k - j), 0);
  }

  lemma StaysOdd(m: int, x: int, x1: int, s: nat, r: int)
    requires m % 2 == 1 && x % 2 == 1 && 1 <= s && x * (2 + m * x) == x1 + r * Pow2(s)
    ensures x1 % 2 == 1
  {
    var a, b := m / 2, x / 2;
    var y := 2 * (2 * a * b + a + b) + 1;
    assert m * x == y;
    assert x * (2 + y) == 2 * (b * (2 + y)) + (2 + y);
    assert r * Pow2(s) == 2 * (r * Pow2(s - 1));
  }

  /** When all bits are right the step only reduces modulo R. */
  lemma FixedPoint(m: int, x: int, s: nat)
    requires InverseBits(m, x, s)
    ensures x * (2 + m * x) % Pow2(s) == x % Pow2(s)
  {
    hide Pow2;
    var c := (m * x + 1) / Pow2(s);
    assert x * (2 + m * x) == x + x * (m * x + 1);
    assert x * (c * Pow2(s)) == x * c * Pow2(s);
    CongByMultiple(x * (2 + m * x), x, x * c, Pow2(s));
  }

  /** A fixed point of the step is an inverse: the odd factor cancels. */
  lemma FixedPointIsInverse(m: int, x: int, s: nat, r: int)
    requires x % 2 == 1 && x * (2 + m * x) == x + r * Pow2(s)
    ensures InverseBits(m, x, s)
  {
    hide Pow2;
    assert x * (m * x + 1) == r * Pow2(s);
    Quotient(x * (m * x + 1), Pow2(s), r, 0);
    OddCancels(x, m * x + 1, s);
  }

  predicate IsMinusInverse(m: int, x: int, r: int)
    requires r > 0
  {
    (m * x + 1) % r == 0
  }

  /** `inverse`: minus the inverse of an odd `m` modulo R = 2^s. */
  method Inverse(m: U64, R: nat, ghost s: nat) returns (x: U64)
    requires m % 2 == 1 && 1 <= s <= 63 && R == Pow2(s)
    ensures x < R && IsMinusInverse(m, x, R)
  {
    SeedInverse(m);
    Pow2Values();
    x := 8 - m % 8;
    ghost var k := if s < 3 then s else 3;
    FewerBits(m, x, 3, k);
    hide Pow2, InverseBits, MaskedProduct;
    while true
      invariant x % 2 == 1 && InverseBits(m, x, k) && (k == s || 3 <= k < s)
      decreases 2 * (s - k) + if x >= R then 1 else 0
    {
      MaskedProductIs(x, 2 + m * x, s);
      Pow2Mono(s, 63);
      var x1: U64 := MaskedProduct(x, 2 + m * x, R);
      ghost var r := (x * (2 + m * x) - x1) / R;
      if x1 == x {
        FixedPointIsInverse(m, x, s, r);
        InverseBitsIs(m, x, s);
        return;
      }
      StaysOdd(m, x, x1, s, r);
      BitsDouble(m, x, x1, k, s, r);
      if k == s {
        FixedPoint(m, x, s);
        BelowMask(x, R);
      }
      k := if 2 * k < s then 2 * k else s;
      x := x1;
    }
  }

  lemma InverseBitsIs(m: int, x: int, s: nat)
    ensures InverseBits(m, x, s) <==> IsMinusInverse(m, x, Pow2(s))
  {
  }

  lemma BelowMask(x: int, r: int)
    requires 0 <= x && 0 < r
    ensures x < r ==> x % r == x
  {
    if x < r {
      Quotient(x, r, 0, x);
    }
  }

  // ---- Montgomery reduction ----

  lemma ModIsCong(x: int, r: int)
    requires r > 0
    ensures Cong(x % r, x, r)
  {
    CongByMultiple(x, x % r, x / r, r);
  }

  /** A remainder modulo a multiple of `r` is congruent modulo `r`. */
  lemma CoarserModulus(x: int, q: int, low: int, r: int, b: int)
    requires r > 0 && x == q * (r * b) + low
    ensures Cong(low, x, r)
  {
    assert q * (r * b) == q * b * r;
    CongByMultiple(x, low, q * b, r);
  }

  lemma LowWordCong(x: int, s: nat)
    requires s <= 64
    ensures Cong(x % 0x1_0000_0000_0000_0000, x, Pow2(s))
  {
    Pow2Values();
    Pow2Add(s, 64 - s);
    hide Pow2, Cong;
    CoarserModulus(x, x / 0x1_0000_0000_0000_0000, x % 0x1_0000_0000_0000_0000, Pow2(s), Pow2(64 - s));
  }

  /** The multiple of `m` that is added makes the sum divisible by R. */
  lemma SumDivisible(x: int, m: int, minv: int, s: nat)
    requires s <= 64 && IsMinusInverse(m, minv, Pow2(s))
    ensures (MaskedProduct(minv, x % 0x1_0000_0000_0000_0000, Pow2(s)) * m + x) % Pow2(s) == 0
  {
    hide Pow2, MaskedProduct, Cong;
    var low, r := x % 0x1_0000_0000_0000_0000, Pow2(s);
    var xnp := MaskedProduct(minv, low, r);
    MaskedProductIs(minv, low, s);
    LowWordCong(x, s);
    ModIsCong(minv * low, r);
    CongMul(low, x, minv, r);
    assert low * minv == minv * low && x * minv == minv * x;
    CongTrans(xnp, minv * low, minv * x, r);
    CongMul(xnp, minv * x, m, r);
    Cancelled(xnp * m, x, m, minv, r);
  }

  lemma CongTrans(a: int, b: int, c: int, m: int)
    requires m > 0 && Cong(a, b, m) && Cong(b, c, m)
    ensures Cong(a, c, m)
  {
  }

  lemma Cancelled(a: int, x: int, m: int, minv: int, r: int)
    requires r > 0 && Cong(a, minv * x * m, r) && IsMinusInverse(m, minv, r)
    ensures (a + x) % r == 0
  {
    var k, c := a / r - minv * x * m / r, (m * minv + 1) / r;
    assert a == minv * x * m + k * r;
    assert minv * x * m + x == x * (m * minv + 1) == x * (c * r) == x * c * r;
    Quotient(a + x, r, k + x * c, 0);
  }

  lemma OneLess(a: int, b: int, c: int)
    requires 0 <= a < b && 0 <= c
    ensures 0 <= a * c <= b * c - c
  {
    MulMono(a, b - 1, c, c);
    assert (b - 1) * c == b * c - c;
  }

  lemma SumBelow(x: int, xnp: int, m: int, r: int)
    requires 0 < m < r && 0 <= xnp < r && 0 <= x <= (m - 1) * m
    ensures 0 <= xnp * m + x < 2 * m * r
  {
    var p := r * m;
    assert 0 <= xnp * m <= p - m by { OneLess(xnp, r, m); }
    assert x <= p by { MulMono(m - 1, r, m, m); }
    assert 2 * m * r == 2 * p;
  }

  lemma FactorBound(t: int, r: int, k: int)
    requires 0 < r && 0 <= t * r < k * r
    ensures 0 <= t < k
  {
    MulSign(t, r);
    MulSign(t - k + 1, r);
    assert (t - k + 1) * r == t * r - k * r + r;
  }

  lemma QuotientCong(x: int, xnp: int, m: int, r: int, t: int)
    requires 0 < m && t * r == xnp * m + x
    ensures Cong(t * r, x, m) && Cong((t - m) * r, x, m)
  {
    CongByMultiple(t * r, x, xnp, m);
    assert (t - m) * r == t * r - r * m;
    assert (xnp - r) * m == xnp * m - r * m;
    CongByMultiple((t - m) * r, x, xnp - r, m);
  }

  /** The exact quotient is below 2 m and stands for x / R modulo m. */
  lemma Reduced(x: int, xnp: int, m: int, r: int, t: int)
    requires 0 < m < r && 0 <= xnp < r && 0 <= x <= (m - 1) * m && t * r == xnp * m + x
    ensures 0 <= t < 2 * m && Cong(t * r, x, m) && Cong((t - m) * r, x, m)
  {
    hide Cong;
    SumBelow(x, xnp, m, r);
    FactorBound(t, r, 2 * m);
    QuotientCong(x, xnp, m, r, t);
  }

  /** `((xnp * m) + x) >> s` in 128 bits. */
  function MontgomeryQuotient(xnp: int, m: int, x: int, r: int): int
    requires r > 0
  {
    (xnp * m + x) % N / r
  }

  /** `montgomeryMult`: the product divided by R modulo m. */
  method MontgomeryMult(factor1: U64, factor2: U64, m: U64, minv: U64, R: nat, ghost s: nat) returns (result: U64)
    requires 1 <= s <= 63 && R == Pow2(s) && 0 < m < R && minv < R && IsMinusInverse(m, minv, R)
    requires factor1 < m && factor2 <= m
    ensures result < m && Cong(result * R, factor1 * factor2, m)
  {
    hide Pow2, MaskedProduct, Cong, IsMinusInverse, MontgomeryQuotient;
    QuotientRight(factor1, factor2, m, minv, s);
    var x := factor1 * factor2;
    var xnp := MaskedProduct(minv, x % 0x1_0000_0000_0000_0000, R);
    var tmp := MontgomeryQuotient(xnp, m, x, R);
    result := tmp % 0x1_0000_0000_0000_0000;
    if result >= m {
      result := result - m;
    }
  }

  lemma QuotientRight(factor1: U64, factor2: U64, m: U64, minv: U64, s: nat)
    requires 1 <= s <= 63 && 0 < m < Pow2(s) && IsMinusInverse(m, minv, Pow2(s)) && factor1 < m && factor2 <= m
    ensures var r, x := Pow2(s), factor1 * factor2;
            var tmp := MontgomeryQuotient(MaskedProduct(minv, x % 0x1_0000_0000_0000_0000, r), m, x, r);
            && 0 <= tmp < 2 * m <= 0x1_0000_0000_0000_0000 && Cong(tmp * r, x, m) && Cong((tmp - m) * r, x, m)
  {
    Pow2Values();
    Pow2Mono(s, 63);
    hide Pow2, MaskedProduct, Cong, MontgomeryQuotient;
    var r, x := Pow2(s), factor1 * factor2;
    MulMono(factor1, m - 1, factor2, m);
    var xnp := MaskedProduct(minv, x % 0x1_0000_0000_0000_0000, r);
    MaskedProductIs(minv, x % 0x1_0000_0000_0000_0000, s);
    SumDivisible(x, m, minv, s);
    SumFits(xnp, m, x, r);
    Reduced(x, xnp, m, r, MontgomeryQuotient(xnp, m, x, r));
  }

  lemma SumFits(xnp: int, m: int, x: int, r: int)
    requires 0 <= xnp < r && 0 < m < r <= 0x8000_0000_0000_0000 && 0 <= x <= (m - 1) * m && (xnp * m + x) % r == 0
    ensures MontgomeryQuotient(xnp, m, x, r) * r == xnp * m + x
  {
    MulMono(xnp, 0x7FFF_FFFF_FFFF_FFFF, m, 0x7FFF_FFFF_FFFF_FFFF);
    MulMono(m - 1, 0x7FFF_FFFF_FFFF_FFFF, m, 0x7FFF_FFFF_FFFF_FFFF);
    var t := xnp * m + x;
    assert t % N == t;
    assert t / r * r == t;
  }

  // ---- powers of two ----

  /** R has an inverse modulo m, so it cancels. */
  lemma CancelR(a: int, b: int, r: int, m: int, minv: int)
    requires 0 < m && 0 < r && IsMinusInverse(m, minv, r) && Cong(a * r, b * r, m)
    ensures Cong(a, b, m)
  {
    var c := (m * minv + 1) / r;
    assert r * c == m * minv + 1;
    CongMul(a * r, b * r, c, m);
    UndoR(a, r, c, m, minv);
    UndoR(b, r, c, m, minv);
  }

  lemma UndoR(a: int, r: int, c: int, m: int, minv: int)
    requires 0 < m && r * c == m * minv + 1
    ensures Cong(a * r * c, a, m)
  {
    assert a * r * c == a * (r * c) == a + a * minv * m;
    CongByMultiple(a * r * c, a, a * minv, m);
  }

  /** The product of two residues x R and y R, reduced, is the residue x y R. */
  lemma ResidueProduct(a: int, b: int, x: int, y: int, result: int, r: int, m: int, minv: int)
    requires 0 < m && 0 < r && IsMinusInverse(m, minv, r)
    requires Cong(a, x * r, m) && Cong(b, y * r, m) && Cong(result * r, a * b, m)
    ensures Cong(result, x * y * r, m)
  {
    hide Cong;
    CongMul2(a, x * r, b, y * r, m);
    assert (x * r) * (y * r) == x * y * r * r;
    CongTrans(result * r, a * b, x * y * r * r, m);
    CancelR(result, x * y * r, r, m, minv);
  }

  lemma CongZero(result: int, r: int, m: int, minv: int)
    requires 0 < m && 0 < r && IsMinusInverse(m, minv, r) && 0 <= result < m && Cong(result * r, 0, m)
    ensures result == 0
  {
    CancelR(result, 0, r, m, minv);
    Quotient(result, m, 0, result);
  }

  lemma HalfPrefix(p: nat, i: nat)
    requires i > 0
    ensures p / Pow2(i) == p / Pow2(i - 1) / 2
  {
    var a := Pow2(i - 1);
    var q, r := p / a, p % a;
    assert p == q / 2 * (2 * a) + (q % 2 * a + r);
    MulMono(0, q % 2, a, a);
    assert q % 2 * a + r < 2 * a;
    Quotient(p, 2 * a, q / 2, q % 2 * a + r);
  }

  lemma {:induction false} Pow2NotDivisible(p: nat, m: nat)
    requires m % 2 == 1 && m > 1
    ensures Pow2(p) % m != 0
  {
    if p == 0 {
      Quotient(1, m, 0, 1);
    } else {
      Pow2NotDivisible(p - 1, m);
      if Pow2(p) % m == 0 {
        var c := Pow2(p) / m;
        assert m * c == 2 * Pow2(p - 1);
        EvenFactor(m, c, Pow2(p - 1));
        assert Pow2(p - 1) == c / 2 * m;
        Quotient(Pow2(p - 1), m, c / 2, 0);
      }
    }
  }

  /** Squaring, and doubling if a bit is set, moves the exponent one bit on. */
  lemma NextExponent(pre: nat, bit: nat)
    requires bit <= 1
    ensures Pow2(pre) * Pow2(pre) * (if bit == 1 then 2 else 1) == Pow2(2 * pre + bit)
  {
    Pow2Add(pre, pre);
  }

  /** One bit of the exponent: square, and multiply by the residue of 2 if the bit is set. */
  method PowerStep(total: U64, factor: U64, odd: bool, m: U64, minv: U64, R: nat, ghost s: nat,
                   ghost pre: nat) returns (result: U64)
    requires 1 <= s <= 63 && R == Pow2(s) && 0 < m < R && minv < R && IsMinusInverse(m, minv, R)
    requires total < m && factor < m
    requires m < 0x4000_0000_0000_0000 ==> Cong(total, Pow2(pre) * R, m) && Cong(factor, 2 * R, m)
    requires m >= 0x4000_0000_0000_0000 ==> factor == 0 && (pre > 0 ==> total == 0)
    ensures result < m
    ensures m < 0x4000_0000_0000_0000 ==> Cong(result, Pow2(2 * pre + if odd then 1 else 0) * R, m)
    ensures m >= 0x4000_0000_0000_0000 && (pre > 0 || odd) ==> result == 0
  {
    hide Cong, Pow2;
    result := MontgomeryMult(total, total, m, minv, R, s);
    NextExponent(pre, 0);
    NextExponent(pre, 1);
    if m < 0x4000_0000_0000_0000 {
      ResidueProduct(total, total, Pow2(pre), Pow2(pre), result, R, m, minv);
    } else if pre > 0 {
      CongZero(result, R, m, minv);
    }
    if odd {
      var square := result;
      result := MontgomeryMult(square, factor, m, minv, R, s);
      if m < 0x4000_0000_0000_0000 {
        ResidueProduct(square, factor, Pow2(2 * pre), 2, result, R, m, minv);
        assert Pow2(2 * pre) * 2 * R == Pow2(2 * pre + 1) * R;
      } else {
        CongZero(result, R, m, minv);
      }
    }
  }

  /** The part of the exponent above bit `i`. */
  function Prefix(p: nat, i: nat): nat {
    if i == 0 then p else Prefix(p, i - 1) / 2
  }

  lemma {:induction false} PrefixIs(p: nat, i: nat)
    ensures Prefix(p, i) == p / Pow2(i)
  {
    if i > 0 {
      PrefixIs(p, i - 1);
      HalfPrefix(p, i);
    }
  }

  predicate BitSet(p: nat, bit: nat)
    requires bit > 0
  {
    p / bit % 2 == 1
  }

  /** The shift of 2 by `s`, which may leave the word, modulo m. */
  function ShiftedTwo(r: nat, m: U64): (f: U64)
    requires m > 0
    ensures f < m
  {
    2 * r % 0x1_0000_0000_0000_0000 % m
  }

  function Residue(r: nat, m: U64): (f: U64)
    requires m > 0
    ensures f < m
  {
    r % m
  }

  /** What the shift of 2 by `s` gives: the residue of 2 R, or nothing once 2 R leaves the word. */
  lemma FactorIs(m: U64, s: nat)
    requires m % 2 == 1 && s == BitLength(m) && m < 0x8000_0000_0000_0000
    ensures 1 <= s <= 63 && m < Pow2(s)
    ensures var factor := ShiftedTwo(Pow2(s), m);
            && 0 <= factor < m
            && (m < 0x4000_0000_0000_0000 ==> Cong(factor, 2 * Pow2(s), m))
            && (m >= 0x4000_0000_0000_0000 ==> factor == 0)
  {
    hide Pow2, Cong;
    BitLengthBounds(m);
    Pow2Values();
    BitLengthAtMost(m, 63);
    if m < 0x4000_0000_0000_0000 {
      BitLengthAtMost(m, 62);
      Pow2Mono(s, 62);
      Quotient(2 * Pow2(s), 0x1_0000_0000_0000_0000, 0, 2 * Pow2(s));
      ModIsCong(2 * Pow2(s), m);
    } else {
      BitLengthAbove(m, 62);
      Quotient(2 * Pow2(s), 0x1_0000_0000_0000_0000, 1, 0);
      Quotient(0, m, 0, 0);
    }
  }

  /**
    `montgomeryModPow2`: right exactly for odd moduli below 2^62; above that the residue of 2 is lost and the result
    is 0.
   */
  method MontgomeryModPow2(p: U64, m: U64) returns (r: U64)
    requires p > 0 && m % 2 == 1 && m < 0x8000_0000_0000_0000
    ensures r == Residue(Pow2(p), m) <==> m < 0x4000_0000_0000_0000
    ensures m >= 0x4000_0000_0000_0000 ==> r == 0
  {
    hide Pow2, Cong, Prefix, BitSet, ShiftedTwo, Residue, IsMinusInverse, BitLength;
    var leading := CountLeadingZeros64(m);
    var s := 64 - leading;
    FactorIs(m, s);
    var R := Pow2(s);
    var minv := Inverse(m, R, s);
    var factor := ShiftedTwo(R, m);
    var total: U64 := Residue(R, m);
    var bit: U64 := HighestSetBit64(p);
    ghost var i := BitLength(p);
    BitLengthBounds(p);
    NoPrefix(p, i, R, m);
    while bit > 0
      invariant bit == if i == 0 then 0 else Pow2(i - 1)
      invariant total < m
      invariant m < 0x4000_0000_0000_0000 ==> Cong(total, Pow2(Prefix(p, i)) * R, m)
      invariant m >= 0x4000_0000_0000_0000 && Prefix(p, i) > 0 ==> total == 0
      decreases i
    {
      PrefixStep(p, i);
      total := PowerStep(total, factor, BitSet(p, bit), m, minv, R, s, Prefix(p, i));
      i := i - 1;
      bit := bit / 2;
    }
    var residue := total;
    total := MontgomeryMult(total, 1, m, minv, R, s);
    FinalReduction(p, m, minv, R, residue, total);
    return total;
  }

  lemma NoPrefix(p: nat, i: nat, r: nat, m: U64)
    requires p < Pow2(i) && 0 < m
    ensures Prefix(p, i) == 0 && Cong(Residue(r, m), Pow2(Prefix(p, i)) * r, m)
  {
    PrefixIs(p, i);
    Quotient(p, Pow2(i), 0, p);
    ModIsCong(r, m);
  }

  lemma PrefixStep(p: nat, i: nat)
    requires i > 0
    ensures Prefix(p, i - 1) == 2 * Prefix(p, i) + if BitSet(p, Pow2(i - 1)) then 1 else 0
    ensures Pow2(i - 1) / 2 == if i == 1 then 0 else Pow2(i - 2)
  {
    PrefixIs(p, i - 1);
  }

  lemma FinalReduction(p: nat, m: U64, minv: U64, r: nat, residue: U64, result: U64)
    requires p > 0 && m % 2 == 1 && 0 < r && IsMinusInverse(m, minv, r) && result < m
    requires Cong(result * r, residue * 1, m)
    requires m < 0x4000_0000_0000_0000 ==> Cong(residue, Pow2(Prefix(p, 0)) * r, m)
    requires m >= 0x4000_0000_0000_0000 && Prefix(p, 0) > 0 ==> residue == 0
    ensures result == Residue(Pow2(p), m) <==> m < 0x4000_0000_0000_0000
    ensures m >= 0x4000_0000_0000_0000 ==> result == 0
  {
    assert Prefix(p, 0) == p;
    if m < 0x4000_0000_0000_0000 {
      CongTrans(result * r, residue, Pow2(p) * r, m);
      CancelR(result, Pow2(p), r, m, minv);
      Quotient(result, m, 0, result);
    } else {
      CongZero(result, r, m, minv);
      Pow2NotDivisible(p, m);
    }
  }
}
