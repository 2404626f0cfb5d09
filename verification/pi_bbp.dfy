/**
  What the series of pi_series.dfy add up to: the quotients of the Bailey-Borwein-Plouffe formula as BBP.py states it,
  and how far they are from its partial sums.
 */
module BbpFormula {
  import opened Arithmetic
  import opened NewtonDivision
  import opened Montgomery
  import opened PiSeries

  // ---- one series ----

  /** The quotients of 2^(64 + s - 4 k) by o + 8 k, for all k below `n`. */
  function Quotients(s: nat, o: nat, n: nat): int
    requires o > 0 && (n > 0 ==> 4 * (n - 1) <= 64 + s)
  {
    if n == 0 then 0 else Quotients(s, o, n - 1) + Pow2(64 + s - 4 * (n - 1)) / (o + 8 * (n - 1))
  }

  /** A term, made of a modular power, is a quotient of the whole power modulo 2^64. */
  lemma TermIsQuotient(p: nat, base: nat)
    requires base > 0
    ensures Term(p, base) == Pow2(64 + p) / base % W
  {
    hide Pow2;
    var x := Pow2(p);
    var q, r := x / base, x % base;
    var t, u := r * W / base, r * W % base;
    Pow2Add(64, p);
    Pow2Values();
    assert Pow2(64 + p) == (q * W + t) * base + u by {
      assert x == q * base + r && r * W == t * base + u;
      assert W * (q * base + r) == q * W * base + r * W;
    }
    Quotient(Pow2(64 + p), base, q * W + t, u);
    SameWord(q * W + t, t, q);
  }

  lemma {:induction false} TermsAreQuotients(s: nat, o: nat, n: nat)
    requires o > 0 && (n > 0 ==> 4 * (n - 1) <= s)
    ensures SumTerms(s, o, 0, n) % W == Quotients(s, o, n) % W
  {
    hide Term, Pow2;
    if n == 0 {
    } else {
      TermsAreQuotients(s, o, n - 1);
      TermIsQuotient(s - 4 * (n - 1), o + 8 * (n - 1));
      SameSum(SumTerms(s, o, 0, n - 1), Quotients(s, o, n - 1), Pow2(64 + s - 4 * (n - 1)) / (o + 8 * (n - 1)));
    }
  }

  lemma SameSum(a: int, b: int, q: int)
    requires a % W == b % W
    ensures (a + q % W) % W == (b + q) % W
  {
    var k := WordsDropped(a, b);
    SameWord(a + q % W, b + q, k - q / W);
  }

  /** How many of the quotients have a numerator. */
  function Count(s: nat): nat { (64 + s) / 4 + 1 }

  lemma NextNumerator(e: nat)
    ensures Pow2(e) / 16 == if e < 4 then 0 else Pow2(e - 4)
  {
    if e < 4 {
      assert Pow2(0) == 1 && Pow2(1) == 2 && Pow2(2) == 4 && Pow2(3) == 8;
    } else {
      Pow2Add(e - 4, 4);
      assert Pow2(4) == 16;
    }
  }

  /** The loop of the tail adds up the quotients that are left. */
  lemma {:induction false} TailIsQuotients(s: nat, o: nat, k: nat)
    requires o > 0 && k < Count(s)
    ensures TailSum(Pow2(64 + s - 4 * k), o + 8 * k) == Quotients(s, o, Count(s)) - Quotients(s, o, k)
    decreases Count(s) - k
  {
    hide Pow2;
    var e := 64 + s - 4 * k;
    NextNumerator(e);
    if k + 1 < Count(s) {
      TailIsQuotients(s, o, k + 1);
    }
    if Pow2(e) < o + 8 * k {
      Quotient(Pow2(e), o + 8 * k, 0, Pow2(e));
    }
  }

  /** One series is the sum of all its quotients, modulo 2^64. */
  lemma SeriesIsQuotients(s: nat, o: nat)
    requires o > 0
    ensures SeriesSum(s, o) == Quotients(s, o, (64 + s) / 4 + 1) % W
  {
    hide Term, Pow2, TailSum, Quotients;
    var n := Iterations(s);
    TermsAreQuotients(s, o, n);
    TailIsQuotients(s, o, n);
    SumMod(SumTerms(s, o, 0, n), TailSum(TailStart(s), o + 8 * n));
    SumMod(Quotients(s, o, n), TailSum(TailStart(s), o + 8 * n));
  }

  // ---- the formula ----

  /** The four fractions of the formula for one k, scaled by 2^64 16^(digit - k) and truncated one by one. */
  function BbpTerm(digit: nat, k: nat): int
    requires k <= digit + 16
  {
    var p := Pow2(64 + 4 * digit - 4 * k);
    4 * p / (8 * k + 1) - 2 * p / (8 * k + 4) - p / (8 * k + 5) - p / (8 * k + 6)
  }

  function BbpSum(digit: nat, n: nat): int
    requires n <= digit + 17
  {
    if n == 0 then 0 else BbpSum(digit, n - 1) + BbpTerm(digit, n - 1)
  }

  lemma {:induction false} FourSeries(digit: nat, n: nat)
    requires n <= digit + 17
    ensures BbpSum(digit, n) == Quotients(4 * digit + 2, 1, n) - Quotients(4 * digit + 1, 4, n)
                                - Quotients(4 * digit, 5, n) - Quotients(4 * digit, 6, n)
  {
    hide Pow2;
    if n == 0 {
    } else {
      FourSeries(digit, n - 1);
      var e := 64 + 4 * digit - 4 * (n - 1);
      Pow2Step(e + 2);
      Pow2Step(e + 1);
    }
  }

  /** The reference, and with it the result of map and reduce: the truncated formula less the digit, modulo 2^64. */
  lemma PlouffeIsBbp(digit: nat)
    ensures PlouffeSum(digit) == (BbpSum(digit, digit + 17) - digit) % W
  {
    hide SeriesSum, Quotients;
    FourSeries(digit, digit + 17);
    SeriesIsQuotients(4 * digit + 2, 1);
    SeriesIsQuotients(4 * digit + 1, 4);
    SeriesIsQuotients(4 * digit, 5);
    SeriesIsQuotients(4 * digit, 6);
    FourWords(Quotients(4 * digit + 2, 1, digit + 17), Quotients(4 * digit + 1, 4, digit + 17),
              Quotients(4 * digit, 5, digit + 17), Quotients(4 * digit, 6, digit + 17), digit);
  }

  lemma FourWords(a: int, b: int, c: int, d: int, e: int)
    ensures (a % W - b % W - c % W - d % W - e) % W == (a - b - c - d - e) % W
  {
    var ka := WordsDropped(a % W, a);
    var kb := WordsDropped(b % W, b);
    var kc := WordsDropped(c % W, c);
    var kd := WordsDropped(d % W, d);
    SameWord(a % W - b % W - c % W - d % W - e, a - b - c - d - e, ka - kb - kc - kd);
  }

  // ---- how far the truncated sum is from the formula ----

  /** 16^-k. */
  function Inv16(k: nat): (r: real)
    ensures 0.0 < r <= 1.0
  {
    if k == 0 then 1.0 else Inv16(k - 1) / 16.0
  }

  lemma Ordered(s: real, x: real, y: real)
    requires s > 0.0
    ensures x < y <==> s * x < s * y
    ensures x == y <==> s * x == s * y
  {
    assert s * y - s * x == s * (y - x);
  }

  lemma Inverses(a: real, b: real)
    requires 0.0 < a <= b
    ensures 0.0 < 1.0 / b <= 1.0 / a
    ensures 4.0 / a == 4.0 * (1.0 / a) && 2.0 / b == 2.0 * (1.0 / b)
  {
    var x, y := 1.0 / a, 1.0 / b;
    assert a * x == 1.0 && b * y == 1.0;
    Ordered(b, 0.0, y);
    Ordered(a, 0.0, x);
    Ordered(x, a, b);
    Ordered(b, x, y);
  }

  /** What the formula adds for one k, without the power of 16. */
  function Bracket(k: nat): (r: real)
    ensures 0.0 <= r <= 4.0
  {
    var a, b, c, d := (8 * k + 1) as real, (8 * k + 4) as real, (8 * k + 5) as real, (8 * k + 6) as real;
    Inverses(a, b);
    Inverses(b, c);
    Inverses(b, d);
    Inverses(1.0, a);
    4.0 / a - 2.0 / b - 1.0 / c - 1.0 / d
  }

  /** The first `n` summands of the formula for pi. */
  function PiPartial(n: nat): real {
    if n == 0 then 0.0 else PiPartial(n - 1) + Inv16(n - 1) * Bracket(n - 1)
  }

  /** The rest of the series is at most 5 * 16^-n. */
  lemma {:induction false} RestIsSmall(n: nat, m: nat)
    requires n <= m
    ensures 0.0 <= PiPartial(m) - PiPartial(n) <= 5.0 * (Inv16(n) - Inv16(m))
    decreases m
  {
    hide Bracket;
    if n < m {
      RestIsSmall(n, m - 1);
      assert Inv16(m) == Inv16(m - 1) / 16.0;
      OneMore(Inv16(m - 1), Bracket(m - 1), PiPartial(m - 1) - PiPartial(n), Inv16(n));
    }
  }

  lemma OneMore(i: real, b: real, p: real, first: real)
    requires i > 0.0 && 0.0 <= b <= 4.0 && 0.0 <= p <= 5.0 * (first - i)
    ensures 0.0 <= p + i * b <= 5.0 * (first - i / 16.0)
  {
    Ordered(i, 0.0, b);
    Ordered(i, b, 4.0);
    assert i * b <= i * 4.0;
    assert p + i * b <= 5.0 * first - i;
  }

  /** 2^(64 + 4 digit), the scale of the result. */
  function Scale(digit: nat): real { Pow2(64 + 4 * digit) as real }

  lemma {:induction false} ScaledPower(digit: nat, k: nat)
    requires k <= digit + 16
    ensures Scale(digit) * Inv16(k) == Pow2(64 + 4 * digit - 4 * k) as real
  {
    hide Pow2;
    if k == 0 {
    } else {
      ScaledPower(digit, k - 1);
      var e := 64 + 4 * digit - 4 * k;
      Pow2Add(e, 4);
      assert Pow2(4) == 16 by {
        Pow2Four();
      }
      assert Scale(digit) * (Inv16(k - 1) / 16.0) == Scale(digit) * Inv16(k - 1) / 16.0;
    }
  }

  lemma Pow2Four()
    ensures Pow2(4) == 16
  {
  }

  /** Truncating a quotient loses less than one. */
  lemma Truncated(x: nat, b: nat)
    requires b > 0
    ensures 0.0 <= x as real / b as real - (x / b) as real < 1.0
  {
    var q, r := x / b, x % b;
    var br := b as real;
    assert x as real == q as real * br + r as real;
    assert x as real / br == q as real + r as real / br;
    var f := r as real / br;
    assert br * f == r as real;
    Ordered(br, f, 0.0);
    Ordered(br, f, 1.0);
  }

  lemma ScaledBracket(digit: nat, k: nat)
    requires k <= digit + 16
    ensures var p := Pow2(64 + 4 * digit - 4 * k);
            Scale(digit) * (Inv16(k) * Bracket(k)) ==
            (4 * p) as real / (8 * k + 1) as real - (2 * p) as real / (8 * k + 4) as real
            - p as real / (8 * k + 5) as real - p as real / (8 * k + 6) as real
  {
    hide Pow2, Inv16, Scale;
    var p := Pow2(64 + 4 * digit - 4 * k);
    ScaledPower(digit, k);
    assert Scale(digit) * Inv16(k) == p as real;
    Distributed(Scale(digit), Inv16(k), Bracket(k), p as real, (8 * k + 1) as real, (8 * k + 4) as real,
                (8 * k + 5) as real, (8 * k + 6) as real);
    assert (4 * p) as real == 4.0 * p as real && (2 * p) as real == 2.0 * p as real;
  }

  lemma Distributed(s: real, i: real, f: real, p: real, a: real, b: real, c: real, d: real)
    requires a > 0.0 && b > 0.0 && c > 0.0 && d > 0.0
    requires s * i == p && f == 4.0 / a - 2.0 / b - 1.0 / c - 1.0 / d
    ensures s * (i * f) == 4.0 * p / a - 2.0 * p / b - p / c - p / d
  {
    assert s * (i * f) == s * i * f;
    assert p * (4.0 / a - 2.0 / b - 1.0 / c - 1.0 / d) == 4.0 * p / a - 2.0 * p / b - p / c - p / d;
  }

  lemma TermIsClose(digit: nat, k: nat)
    requires k <= digit + 16
    ensures -1.0 < BbpTerm(digit, k) as real - Scale(digit) * (Inv16(k) * Bracket(k)) < 3.0
  {
    hide Pow2, Inv16, Scale, Bracket;
    var p := Pow2(64 + 4 * digit - 4 * k);
    ScaledBracket(digit, k);
    Truncated(4 * p, 8 * k + 1);
    Truncated(2 * p, 8 * k + 4);
    Truncated(p, 8 * k + 5);
    Truncated(p, 8 * k + 6);
  }

  lemma {:induction false} SumIsClose(digit: nat, n: nat)
    requires n <= digit + 17
    ensures n == 0 ==> BbpSum(digit, n) == 0
    ensures -(n as real) <= BbpSum(digit, n) as real - Scale(digit) * PiPartial(n) <= 3.0 * n as real
  {
    hide BbpTerm, Inv16, Bracket, Scale;
    if n == 0 {
    } else {
      SumIsClose(digit, n - 1);
      TermIsClose(digit, n - 1);
      var s, a, b := Scale(digit), PiPartial(n - 1), Inv16(n - 1) * Bracket(n - 1);
      assert s * (a + b) == s * a + s * b;
    }
  }

  /** Scaled, the summands from digit + 17 on add less than one. */
  lemma RestScaled(digit: nat, n: nat)
    requires n >= digit + 17
    ensures 0.0 <= Scale(digit) * PiPartial(n) - Scale(digit) * PiPartial(digit + 17) < 1.0
  {
    hide PiPartial, Inv16, Scale;
    RestIsSmall(digit + 17, n);
    LastPower(digit);
    var s, i, a, b := Scale(digit), Inv16(digit + 17), PiPartial(digit + 17), PiPartial(n);
    NotNegative(s, b - a);
    NotNegative(s, 5.0 * i - (b - a));
    Minus(s, b, a);
    Minus(s, 5.0 * i, b - a);
    FiveTimes(s, i);
  }

  lemma NotNegative(s: real, d: real)
    requires s > 0.0 && d >= 0.0
    ensures s * d >= 0.0
  {
  }

  lemma Minus(s: real, x: real, y: real)
    ensures s * (x - y) == s * x - s * y
  {
  }

  lemma FiveTimes(s: real, x: real)
    ensures s * (5.0 * x) == 5.0 * (s * x)
  {
  }

  lemma LastPower(digit: nat)
    ensures Scale(digit) > 0.0 && Scale(digit) * Inv16(digit + 17) == 1.0 / 16.0
  {
    ScaledPower(digit, digit + 16);
    assert Pow2(0) == 1;
    assert Scale(digit) * (Inv16(digit + 16) / 16.0) == Scale(digit) * Inv16(digit + 16) / 16.0;
  }

  /**
    Before it is reduced modulo 2^64 the result lies within 2 digit + 51 of 2^64 16^digit times any partial sum of the
    formula from digit + 17 summands on, and so of that multiple of the number they approach.
   */
  lemma ResultIsClose(digit: nat, n: nat)
    requires n >= digit + 17
    ensures PlouffeSum(digit) == (BbpSum(digit, digit + 17) - digit) % W
    ensures var error := (BbpSum(digit, digit + 17) - digit) as real - Scale(digit) * PiPartial(n);
            -((2 * digit + 18) as real) < error <= (2 * digit + 51) as real
  {
    hide PlouffeSum, PiPartial, Inv16, Scale, BbpSum;
    PlouffeIsBbp(digit);
    SumIsClose(digit, digit + 17);
    RestScaled(digit, n);
    ErrorsAdded(digit, BbpSum(digit, digit + 17), Scale(digit) * PiPartial(digit + 17), Scale(digit) * PiPartial(n));
  }

  lemma ErrorsAdded(digit: nat, sum: int, a: real, b: real)
    requires -((digit + 17) as real) <= sum as real - a <= 3.0 * (digit + 17) as real && 0.0 <= b - a < 1.0
    ensures -((2 * digit + 18) as real) < (sum - digit) as real - b <= (2 * digit + 51) as real
  {
    assert (sum - digit) as real - b == (sum as real - a) - (b - a) - digit as real;
  }
}
