/** Division by Newton's reciprocal (mapreduce/pi/pidigits.h, recipNewton, divide, divMod, fraction). */
module NewtonDivision {
  import opened Arithmetic
  import opened Limbs
  import opened Wide

  const SEED_ERROR: int := 0x1000_0000_0000_0000_0000_0000_0000

  /** What the floating-point seed guarantees: an underestimate that is off by at most 2^108 after scaling. */
  predicate GoodSeed(d: U64, x: int) {
    0 < x && d * x <= N && N - d * x <= SEED_ERROR
  }

  /** One Newton step with the truncation of the high product. */
  function Step(d: U64, x: int): int {
    x + x * (N - d * x) / N
  }

  /**
    The error of a step: e becomes (e^2 + d r) / N for some r < N, so it stays non-negative and is quickly at most
    about d.
   */
  lemma StepError(d: U64, x: int)
    requires 0 < d && 0 < x && d * x <= N
    ensures 0 < Step(d, x) && d * Step(d, x) <= N
    ensures var e, e' := N - d * x, N - d * Step(d, x); e' * N <= e * e + d * (N - 1)
  {
    var e := N - d * x;
    var q, r := x * e / N, x * e % N;
    assert x * e >= 0 by { MulMono(0, x, 0, e); }
    var e' := N - d * Step(d, x);
    assert e' == e - d * q by { assert d * (x + q) == d * x + d * q; }
    assert d * (x * e) == d * (q * N + r);
    assert d * (q * N + r) == d * q * N + d * r;
    assert d * (x * e) == (N - e) * e by { assert d * (x * e) == (d * x) * e; }
    assert e' * N == e * N - d * q * N;
    assert (N - e) * e == N * e - e * e;
    assert e' * N == e * e + d * r;
    MulMono(d, d, r, N - 1);
    assert e * e >= 0;
    assert d * r >= 0;
    assert e' >= 0;
  }

  lemma NewtonBound(d: U64, e: int, e': int, b: int, c: int)
    requires 0 < d && 0 <= e <= b && b * b <= c * N && e' * N <= e * e + d * (N - 1)
    ensures e' < d + c
  {
    MulMono(e, b, e, b);
    assert e' * N < (c + d) * N by { assert (c + d) * N == c * N + d * N; assert d * (N - 1) == d * N - d; }
  }

  /** Three steps from a good seed leave an error of at most d + 1. */
  lemma ThreeSteps(d: U64, x: int)
    requires 2 <= d && GoodSeed(d, x)
    ensures var x1 := Step(d, x); var x2 := Step(d, x1); var x3 := Step(d, x2);
            && 0 < x1 && d * x1 <= N && 0 < x2 && d * x2 <= N && 0 < x3 && d * x3 <= N
            && N - d * x2 < d + 0x2_0000_0000_0000 && N - d * x3 <= d + 1
  {
    var x1 := Step(d, x);
    var x2 := Step(d, x1);
    StepError(d, x);
    NewtonBound(d, N - d * x, N - d * x1, SEED_ERROR, 0x100_0000_0000_0000_0000_0000);
    StepError(d, x1);
    NewtonBound(d, N - d * x1, N - d * x2,
                0x100_0000_0000_0000_0000_0000 + 0x1_0000_0000_0000_0000, 0x2_0000_0000_0000);
    StepError(d, x2);
    NewtonBound(d, N - d * x2, N - d * Step(d, x2), 0x1_0000_0000_0000_0000 + 0x2_0000_0000_0000, 2);
  }

  /** For the largest divisor the check below would miss an error of 2^64, but the last step never leaves one. */
  lemma LargestDivisor(x: int)
    requires 0 < x && 0xFFFF_FFFF_FFFF_FFFF * x <= N
    requires N - 0xFFFF_FFFF_FFFF_FFFF * x < 0xFFFF_FFFF_FFFF_FFFF + 0x2_0000_0000_0000
    ensures N - 0xFFFF_FFFF_FFFF_FFFF * Step(0xFFFF_FFFF_FFFF_FFFF, x) == 1
  {
    assert x == 0x1_0000_0000_0000_0000 || x == 0x1_0000_0000_0000_0001;
  }

  /** The final check of `recipNewton` corrects an error of d or d + 1. */
  lemma FinalCheck(d: U64, x: int)
    requires 2 <= d && 0 < x && d * x <= N && N - d * x <= d + 1
    requires d == 0xFFFF_FFFF_FFFF_FFFF ==> N - d * x == 1
    ensures (if Low64(N - d * x) >= d then x + 1 else x) == N / d
  {
    var e := N - d * x;
    if e >= d {
      assert d * (x + 1) == d * x + d;
      Quotient(N, d, x + 1, e - d);
    } else {
      Quotient(N, d, x, e);
    }
  }

  method NewtonStep(inva: Int128, x: Int128, ghost d: U64) returns (r: Int128)
    requires 2 <= d && inva.Value() == N - d && 0 < x.Value() && d * x.Value() <= N
    requires 0 < Step(d, x.Value()) && d * Step(d, x.Value()) <= N
    ensures r.Value() == Step(d, x.Value())
  {
    hide Int128.Value, ModN;
    NegativeProduct(d, x.Value());
    BelowN(d, Step(d, x.Value()));
    var error := Mult128Lo(inva, x);
    var correction := Mult128Hi(x, error);
    r := Add(x, correction);
  }

  lemma BelowN(d: U64, x: int)
    requires 2 <= d && 0 < x && d * x <= N
    ensures x < N && ModN(x) == x
  {
    MulMono(2, d, x, x);
  }

  lemma NegativeProduct(d: U64, x: int)
    requires 0 < d && 0 < x && d * x <= N
    ensures ModN((N - d) * x) == N - d * x
  {
    assert (N - d) * x == (x - 1) * N + (N - d * x);
    MulMono(1, d, 1, x);
    Quotient((N - d) * x, N, x - 1, N - d * x);
  }

  /** The low 64 bits of a number. */
  function Low64(x: int): U64 { x % 0x1_0000_0000_0000_0000 }

  /** The negation of an unsigned word. */
  function Negate64(x: U64): (r: U64)
    ensures x > 0 ==> r == 0x1_0000_0000_0000_0000 - x
  {
    (0 - x as int) % 0x1_0000_0000_0000_0000
  }

  lemma LowWord(a: Int128)
    ensures a.Part0() == Low64(a.Value())
  {
    hide Int128.Part0, Int128.Part1;
    Quotient(a.Value(), 0x1_0000_0000_0000_0000, a.Part1(), a.Part0());
  }

  lemma Complement(d: U64)
    requires 0 < d
    ensures FromParts(0xFFFF_FFFF_FFFF_FFFF, Negate64(d)).Value() == N - d
  {
    hide Negate64, FromParts, Int128.Value;
  }

  /** The low word of 2^128 - d x. */
  method ErrorWord(d: U64, x: Int128) returns (check: U64)
    requires 0 < x.Value() && 0 < d && d * x.Value() <= N
    ensures check == Low64(N - d * x.Value())
  {
    hide Int128.Value, Int128.Part0, Int128.Part1, ModN, Low64, FromParts;
    assert x.Value() * d == d * x.Value();
    var product := MultSmall(x, d);
    var difference := Sub(FromParts(0, 0), product);
    check := difference.Part0();
    LowWord(difference);
    WrappedError(d * x.Value());
  }

  lemma WrappedError(p: int)
    requires 0 < p <= N
    ensures ModN(0 - ModN(p)) == N - p
  {
  }

  /** `recipNewton`: the reciprocal is exact for every divisor of at least 2. */
  method RecipNewton(divisor: U64, seed: Int128) returns (x: Int128)
    requires 2 <= divisor && GoodSeed(divisor, seed.Value())
    ensures x.Value() == N / divisor
  {
    hide Step, Int128.Value, ModN, Low64, FromParts;
    Complement(divisor);
    var inva := FromParts(0xFFFF_FFFF_FFFF_FFFF, Negate64(divisor));
    ThreeSteps(divisor, seed.Value());
    x := NewtonStep(inva, seed, divisor);
    x := NewtonStep(inva, x, divisor);
    if divisor == 0xFFFF_FFFF_FFFF_FFFF {
      LargestDivisor(x.Value());
    }
    x := NewtonStep(inva, x, divisor);
    FinalCheck(divisor, x.Value());
    BelowN(divisor, x.Value());
    var check := ErrorWord(divisor, x);
    if check >= divisor {
      IncrementFits(divisor, x.Value());
      x := AddSmall(x, 1);
    }
  }

  lemma IncrementFits(d: U64, x: int)
    requires 2 <= d && 0 < x && d * x <= N
    ensures ModN(x + 1) == x + 1
  {
    MulMono(2, d, x, x);
  }

  /**
    When `divide` is right: the estimated quotient was not short by one, or the correction can still see that it was.
   */
  predicate DividesExactly(n: int, d: int)
    requires d > 0
  {
    d + n % d < 0x1_0000_0000_0000_0000 || n % d * N >= n * (N % d)
  }

  /**
    The estimate of the quotient is right or one short, and it is right exactly when the remainder of `n` outweighs
    that of 2^128.
   */
  lemma Estimate(n: int, d: U64)
    requires 2 <= d && 0 <= n < N
    ensures GoodEstimate(n, d, N / d * n / N) && Left(n, d, N / d * n / N) >= 0
  {
    var r, rho, q, s := N / d, N % d, n / d, n % d;
    var estimate := r * n / N;
    var rest := r * n % N;
    assert N == d * r + rho && n == d * q + s;
    EstimateTerms(n, d, r, rho, q, s, estimate, rest, N);
  }

  /** N t = rho n + d rest, the two ways an estimate falls short. */
  lemma ShortfallIdentity(n: int, d: int, r: int, rho: int, estimate: int, rest: int, m: int)
    requires m == d * r + rho && r * n == estimate * m + rest
    ensures m * (n - d * estimate) == rho * n + d * rest
  {
    calc {
      m * (n - d * estimate);
      m * n - d * (estimate * m);
      m * n - d * (r * n - rest);
      m * n - d * (r * n) + d * rest;
      { assert d * (r * n) == (d * r) * n; }
      m * n - (m - rho) * n + d * rest;
      rho * n + d * rest;
    }
  }

  lemma ShortfallBound(t: int, a: int, b: int, d: int, m: int)
    requires m * t == a + b && 0 <= a <= (d - 1) * m && 0 <= b < d * m && 0 < m
    ensures 0 <= t < 2 * d
  {
    MulSign(t, m);
    MulSign(t - 2 * d + 1, m);
    assert (t - 2 * d + 1) * m == m * t - 2 * (d * m) + m;
    assert (d - 1) * m == d * m - m;
  }

  lemma EstimateTerms(n: int, d: int, r: int, rho: int, q: int, s: int, estimate: int, rest: int, m: int)
    requires 2 <= d && 0 <= n < m && m == d * r + rho && 0 <= rho < d && n == d * q + s && 0 <= s < d
    requires r * n == estimate * m + rest && 0 <= rest < m
    ensures var t := n - d * estimate; (t == s || t == s + d) && (t == s <==> s * m >= n * rho)
  {
    var t := n - d * estimate;
    ShortBy(n, d, q, s, estimate);
    ShortfallIdentity(n, d, r, rho, estimate, rest, m);
    TermBounds(n, d, rho, rest, m);
    ShortfallBound(t, rho * n, d * rest, d, m);
    Between(d, q - estimate, s, t);
    RightEstimate(n, d, rho, s, rest, m, t);
  }

  lemma ShortBy(n: int, d: int, q: int, s: int, estimate: int)
    requires n == d * q + s
    ensures n - d * estimate == s + d * (q - estimate)
  {
  }

  lemma TermBounds(n: int, d: int, rho: int, rest: int, m: int)
    requires 0 <= n < m && 0 <= rho < d && 0 <= rest < m
    ensures 0 <= rho * n <= (d - 1) * m && 0 <= d * rest < d * m
  {
    MulMono(rho, d - 1, n, m);
    MulMono(d, d, rest, m - 1);
  }

  lemma RightEstimate(n: int, d: int, rho: int, s: int, rest: int, m: int, t: int)
    requires 0 < d && 0 <= rest < m && m * t == rho * n + d * rest && (t == s || t == s + d)
    ensures t == s <==> s * m >= n * rho
  {
    assert n * rho == rho * n && s * m == m * s;
    MulMono(0, d, 0, rest);
    if t == s + d {
      assert m * (s + d) == m * s + d * m;
      assert d * rest < d * m;
    }
  }

  lemma Between(d: int, k: int, s: int, t: int)
    requires 0 < d && 0 <= s < d && t == s + d * k && 0 <= t < 2 * d
    ensures k == 0 || k == 1
  {
    MulSign(k, d);
    MulSign(k - 1, d);
    assert (k - 1) * d == d * k - d;
  }

  /** What an estimated quotient leaves of `n`. */
  function Left(n: int, d: int, q: int): int { n - d * q }

  /** An estimate that is right or one short, and right exactly when the remainder of `n` outweighs that of 2^128. */
  predicate GoodEstimate(n: int, d: int, q: int)
    requires d > 0
  {
    var t := Left(n, d, q);
    && (t == n % d || t == n % d + d)
    && (t == n % d <==> n % d * N >= n * (N % d))
  }

  predicate DividedRight(n: int, d: int, q: int, r: int)
    requires d > 0
  {
    q == n / d && r == n % d
  }

  /** The remainder an estimate leaves, before the final correction. */
  method Remainder(n: Int128, q: Int128, d: U64) returns (modulo: U64)
    requires Left(n.Value(), d, q.Value()) >= 0
    ensures modulo == Low64(Left(n.Value(), d, q.Value()))
  {
    hide Int128.Value, Int128.Part0, Int128.Part1, ModN, Low64;
    var product := MultSmall(q, d);
    var difference := Sub(n, product);
    modulo := difference.Part0();
    LowWord(difference);
    ProductFits(n.Value(), q.Value() * d);
    assert q.Value() * d == d * q.Value();
  }

  lemma ProductFits(n: int, p: int)
    requires 0 <= p <= n < N
    ensures ModN(p) == p && ModN(n - p) == n - p
  {
  }

  /** What `divide` gives: the right answer, or a quotient one short and what is then left, wrapped to a word. */
  predicate Divided(n: int, d: int, q: int, r: int)
    requires d > 0
  {
    if DividesExactly(n, d) then DividedRight(n, d, q, r)
    else q == n / d - 1 && r == n % d + d - 0x1_0000_0000_0000_0000
  }

  /**
    The correction after an estimate that is right or one short sees a short one exactly if `DividesExactly` says so.
   */
  lemma Correction(n: int, d: U64, q: int, modulo: U64)
    requires 2 <= d && 0 <= n < N && modulo == Low64(Left(n, d, q)) && GoodEstimate(n, d, q)
    ensures if modulo >= d then Divided(n, d, q + 1, modulo - d) else Divided(n, d, q, modulo)
  {
    CorrectionCases(n, d, n % d, n / d, q, modulo, n % d * N >= n * (N % d));
  }

  lemma DividedMeans(n: int, d: U64, q: int, r: int)
    requires d > 0 && 0 <= n < N && Divided(n, d, q, r)
    ensures DividedRight(n, d, q, r) <==> DividesExactly(n, d)
    ensures GoodDivisor(d) ==> DividedRight(n, d, q, r)
  {
    hide DividesExactly, GoodDivisor;
    if GoodDivisor(d) {
      GoodDivisorDivides(n, d);
    }
  }

  lemma CorrectionCases(n: int, d: U64, s: int, full: int, q: int, modulo: U64, outweighs: bool)
    requires 2 <= d && n == d * full + s && 0 <= s < d && modulo == Low64(Left(n, d, q))
    requires Left(n, d, q) == s || Left(n, d, q) == s + d
    requires Left(n, d, q) == s <==> outweighs
    ensures (if modulo >= d then q + 1 == full && modulo - d == s else q == full && modulo == s)
            <==> d + s < 0x1_0000_0000_0000_0000 || outweighs
    ensures !(d + s < 0x1_0000_0000_0000_0000 || outweighs) ==>
            modulo < d && q == full - 1 && modulo == s + d - 0x1_0000_0000_0000_0000
  {
    var k := full - q;
    assert Left(n, d, q) == s + d * k;
    MulSign(k, d);
    MulSign(k - 1, d);
    MulSign(1 - k, d);
    assert (k - 1) * d == d * k - d && (1 - k) * d == d - d * k && k * d == d * k;
  }

  /**
    `divide`: quotient and remainder are right exactly when `DividesExactly` holds; otherwise the quotient is one
    short.
   */
  method Divide(n: Int128, divisor: U64, seed: Int128) returns (quotient: Int128, modulo: U64)
    requires 2 <= divisor && GoodSeed(divisor, seed.Value())
    ensures Divided(n.Value(), divisor, quotient.Value(), modulo)
    ensures DividedRight(n.Value(), divisor, quotient.Value(), modulo) <==> DividesExactly(n.Value(), divisor)
    ensures GoodDivisor(divisor) ==> DividedRight(n.Value(), divisor, quotient.Value(), modulo)
  {
    hide GoodDivisor, Int128.Value, Int128.Part0, Int128.Part1, DividesExactly, Low64, ModN, Left, GoodEstimate;
    hide DividedRight, GoodSeed;
    hide Divided;
    var recip := RecipNewton(divisor, seed);
    quotient := Mult128Hi(recip, n);
    Estimate(n.Value(), divisor);
    var q := quotient;
    modulo := Remainder(n, quotient, divisor);
    Correction(n.Value(), divisor, q.Value(), modulo);
    if modulo >= divisor {
      modulo := modulo - divisor;
      NextFits(n.Value(), divisor, q.Value());
      quotient := AddSmall(quotient, 1);
    }
    DividedMeans(n.Value(), divisor, quotient.Value(), modulo);
  }

  lemma NextFits(n: int, d: U64, q: int)
    requires 2 <= d && 0 <= q && 0 <= Left(n, d, q) && n < N
    ensures ModN(q + 1) == q + 1
  {
    MulMono(2, d, q, q);
  }

  /**
    The divisors that divide everything: those that leave a remainder of 2^128 no larger than their distance from
    2^64.
   */
  predicate GoodDivisor(d: int)
    requires d > 0
  {
    d + N % d <= 0x1_0000_0000_0000_0000
  }

  lemma GoodDivisorDivides(n: int, d: U64)
    requires 0 < d && GoodDivisor(d) && 0 <= n < N
    ensures DividesExactly(n, d)
  {
    if d + n % d >= 0x1_0000_0000_0000_0000 {
      MulMono(N % d, n % d, n, N);
    }
  }

  /** A dividend on which another divisor fails: its remainder is the distance of the divisor from 2^64. */
  function Witness(d: U64): int
    requires d > 0
  {
    d * (N / d) + (0x1_0000_0000_0000_0000 - d)
  }

  lemma BadDivisorFails(d: U64)
    requires 0 < d && !GoodDivisor(d)
    ensures 0 <= Witness(d) < N && !DividesExactly(Witness(d), d)
  {
    var r, rho, s := N / d, N % d, 0x1_0000_0000_0000_0000 - d;
    var n := Witness(d);
    assert N == d * r + rho && 0 < s < rho < d;
    MulMono(0, d, 0, r);
    assert n == r * d + s by { assert d * r == r * d; }
    Quotient(n, d, r, s);
    Outweighed(s, rho, N);
    assert n == N - rho + s;
  }

  lemma Outweighed(s: int, rho: int, m: int)
    requires 0 < s < rho < m
    ensures s * m < (m - rho + s) * rho
  {
    assert (m - rho + s) * rho - s * m == (rho - s) * (m - rho);
    MulSign(rho - s, m - rho);
  }

  /** A divisor divides every 128-bit number exactly if it leaves a small enough remainder of 2^128. */
  lemma DivisorsThatDivideExactly(d: U64)
    requires 0 < d
    ensures GoodDivisor(d) <==> forall n :: 0 <= n < N ==> DividesExactly(n, d)
  {
    hide DividesExactly, GoodDivisor;
    if GoodDivisor(d) {
      forall n | 0 <= n < N
        ensures DividesExactly(n, d)
      {
        GoodDivisorDivides(n, d);
      }
    } else {
      BadDivisorFails(d);
    }
  }

  /** All divisors up to 2^63 are good. */
  lemma SmallDivisorsDivideExactly(d: U64)
    requires 0 < d <= 0x8000_0000_0000_0000
    ensures GoodDivisor(d)
  {
  }

  /** Above 2^63 there are divisors for which `divide` is wrong. */
  lemma LargeDivisorsCanFail()
    ensures var d := 0xFFFF_FFFF_FFFF_0000; var n := d * 0x8000_0000_0000_0000 + 0x1_0000;
            n < N && !DividesExactly(n, d)
  {
  }

  /** `divMod`, with its conventions for the divisors 0 and 1. */
  method DivMod(n: Int128, divisor: U64, seed: Int128) returns (quotient: Int128, modulo: U64)
    requires 2 <= divisor ==> GoodSeed(divisor, seed.Value())
    ensures divisor == 0 ==> quotient.Value() == N - 1 && modulo == 0xFFFF_FFFF_FFFF_FFFF
    ensures divisor > 0 ==> Divided(n.Value(), divisor, quotient.Value(), modulo)
    ensures divisor > 0 && GoodDivisor(divisor) ==> DividedRight(n.Value(), divisor, quotient.Value(), modulo)
  {
    if divisor == 0 {
      return FromParts(0xFFFF_FFFF_FFFF_FFFF, 0xFFFF_FFFF_FFFF_FFFF), 0xFFFF_FFFF_FFFF_FFFF;
    }
    if divisor == 1 {
      return n, 0;
    }
    quotient, modulo := Divide(n, divisor, seed);
  }

  /** The first 64 bits of the fractional part of numerator / divisor. */
  function FractionOf(numerator: int, divisor: int): int
    requires divisor > 0
  {
    numerator * 0x1_0000_0000_0000_0000 / divisor % 0x1_0000_0000_0000_0000
  }

  /** `fraction`, in its portable form: right exactly when the division is. */
  method Fraction(numerator: U64, divisor: U64, seed: Int128) returns (r: U64)
    requires 0 < divisor && (2 <= divisor ==> GoodSeed(divisor, seed.Value()))
    ensures r == FractionOf(numerator, divisor) <==> DividesExactly(numerator * 0x1_0000_0000_0000_0000, divisor)
    ensures GoodDivisor(divisor) ==> r == FractionOf(numerator, divisor)
  {
    hide Int128.Value, Int128.Part0, Int128.Part1, DividesExactly, GoodDivisor;
    var wide := FromParts(numerator, 0);
    var quotient, modulo := DivMod(wide, divisor, seed);
    LowWord(quotient);
    r := quotient.Part0();
  }
}
