/** Powers of two for any modulus (mapreduce/pi/pidigits.h, modPow2). */
module PowerModulo {
  import opened Arithmetic
  import opened Limbs
  import opened Wide
  import opened NewtonDivision
  import opened Montgomery

  /** When `modPow2` is right: the exponent 0 is answered with 1, odd moduli need 62 bits, and 2^1 is never reduced. */
  predicate PowersRight(exponent: nat, modulo: nat) {
    if exponent == 0 then modulo != 1
    else if modulo % 2 == 1 then modulo < 0x4000_0000_0000_0000
    else !(modulo == 2 && exponent == 1)
  }

  /** The residue so far: right, or the 2 it starts from. */
  predicate SoFar(v: int, pre: nat, m: U64)
    requires m > 0
  {
    (pre == 1 && v == 2) || v == Residue(Pow2(pre), m)
  }

  lemma SquaredResidue(v: int, pre: nat, m: U64)
    requires m > 0 && SoFar(v, pre, m)
    ensures v * v % m == Residue(Pow2(2 * pre), m)
  {
    NextExponent(pre, 0);
    assert Pow2(1) == 2;
    hide Pow2;
    if v == Residue(Pow2(pre), m) {
      ModIsCong(Pow2(pre), m);
    }
    CongMul2(v, Pow2(pre), v, Pow2(pre), m);
  }

  lemma DoubledResidue(w: int, k: nat, m: U64)
    requires m > 0 && w == Residue(Pow2(k), m)
    ensures (if 2 * w >= m then 2 * w - m else 2 * w) == Residue(Pow2(k + 1), m)
  {
    var u := if 2 * w >= m then 2 * w - m else 2 * w;
    ModIsCong(Pow2(k), m);
    CongMul(w, Pow2(k), 2, m);
    CongByMultiple(u, 2 * w, if 2 * w >= m then -1 else 0, m);
    Quotient(u, m, 0, u);
  }

  lemma SquareFits(v: int, m: U64)
    requires 0 <= v <= m
    ensures 0 <= v * v < N && ModN(v * v) == v * v
  {
    MulMono(v, 0xFFFF_FFFF_FFFF_FFFF, v, 0xFFFF_FFFF_FFFF_FFFF);
  }

  /** `result <<= 1` for a value below 2^64. */
  method ShiftLeftOne(a: Int128) returns (r: Int128)
    requires a.Value() < 0x1_0000_0000_0000_0000
    ensures r.Value() == 2 * a.Value()
  {
    hide Int128.Part0, Int128.Part1, FromParts;
    assert a.Part1() == 0;
    r := FromParts((a.Part1() * 2 + a.Part0() / 0x8000_0000_0000_0000) % 0x1_0000_0000_0000_0000,
        a.Part0() * 2 % 0x1_0000_0000_0000_0000);
  }

  /** What `result % modulo` gives, right or not, when `result` is not already reduced. */
  function Reduced(a: nat, m: U64): (r: nat)
    requires 0 < m
    ensures r < m && (r == a % m <==> DividesExactly(a, m))
  {
    if a < m then SmallModulo(a, m); a
    else if DividesExactly(a, m) then a % m else a % m + m - 0x1_0000_0000_0000_0000
  }

  lemma SmallModulo(a: nat, m: U64)
    requires a < m
    ensures a % m == a && DividesExactly(a, m)
  {
    Quotient(a, m, 0, a);
    MulMono(a, a, N % m, N);
  }

  /** One bit of the exponent: square, reduce, and double if the bit is set. */
  function PowerBit(v: nat, odd: bool, m: U64): (r: nat)
    requires 0 < m
    ensures r < m
  {
    var w := Reduced(v * v, m);
    if !odd then w else if 2 * w >= m then 2 * w - m else 2 * w
  }

  /** What the loop of `modPow2` computes, bit by bit from the top. */
  function PowerChain(exponent: nat, m: U64): (r: nat)
    requires 2 <= m
    ensures r <= m
  {
    if exponent <= 1 then 2 else PowerBit(PowerChain(exponent / 2, m), exponent % 2 == 1, m)
  }

  method Reduce(a: Int128, modulo: U64, seed: Int128) returns (r: Int128)
    requires 2 <= modulo && GoodSeed(modulo, seed.Value())
    ensures r.Value() == Reduced(a.Value(), modulo)
  {
    hide Int128.Part0, Int128.Part1, DividesExactly, GoodSeed;
    LessIsLess(a, FromParts(0, modulo));
    if !Less(a, FromParts(0, modulo)) {
      var quotient, remainder := DivMod(a, modulo, seed);
      r := FromParts(0, remainder);
    } else {
      r := a;
    }
  }

  /** One round of the loop for an even modulus. */
  method EvenStep(result: Int128, odd: bool, modulo: U64, seed: Int128) returns (r: Int128)
    requires 2 <= modulo && GoodSeed(modulo, seed.Value()) && result.Value() <= modulo
    ensures r.Value() == PowerBit(result.Value(), odd, modulo)
  {
    hide Int128.Value, Int128.Part0, Int128.Part1, GoodSeed, ModN, Less, FromParts, Reduced;
    SquareFits(result.Value(), modulo);
    r := Mult128Lo(result, result);
    r := Reduce(r, modulo, seed);
    if odd {
      r := ShiftLeftOne(r);
      var m := FromParts(0, modulo);
      LessIsLess(r, m);
      if !Less(r, m) {
        DifferenceFits(r.Value(), modulo);
        r := Sub(r, m);
      }
    }
  }

  lemma BitIsResidue(v: nat, odd: bool, m: U64, pre: nat)
    requires 2 <= m && GoodDivisor(m) && SoFar(v, pre, m) && v <= m
    ensures PowerBit(v, odd, m) == Residue(Pow2(2 * pre + if odd then 1 else 0), m)
  {
    hide Pow2, Residue, SoFar, GoodDivisor, DividesExactly, Reduced;
    SquareFits(v, m);
    GoodDivisorDivides(v * v, m);
    SquaredResidue(v, pre, m);
    if odd {
      DoubledResidue(Reduced(v * v, m), 2 * pre, m);
    }
  }

  /** For a divisor that divides everything the loop computes the power, unless it never runs. */
  lemma {:induction false} ChainIsPower(exponent: nat, m: U64)
    requires exponent > 0 && 2 <= m && GoodDivisor(m)
    ensures exponent > 1 ==> PowerChain(exponent, m) == Residue(Pow2(exponent), m)
    ensures exponent == 1 ==> PowerChain(exponent, m) == 2
  {
    if exponent > 1 {
      hide Pow2, Residue, GoodDivisor, PowerBit;
      ChainIsPower(exponent / 2, m);
      BitIsResidue(PowerChain(exponent / 2, m), exponent % 2 == 1, m, exponent / 2);
    }
  }

  lemma DifferenceFits(a: int, b: int)
    requires 0 <= b <= a < N
    ensures ModN(a - b) == a - b
  {
  }

  /**
    `modPow2`: 2^exponent modulo any divisor that divides everything, exactly when `PowersRight` holds; else what the
    loop computes.
   */
  method ModPow2(exponent: U64, modulo: U64, seed: Int128) returns (r: U64)
    requires 0 < modulo && (modulo % 2 == 1 ==> modulo < 0x8000_0000_0000_0000)
    requires 2 <= modulo ==> GoodSeed(modulo, seed.Value())
    ensures GoodDivisor(modulo) ==> (r == Residue(Pow2(exponent), modulo) <==> PowersRight(exponent, modulo))
    ensures modulo % 2 == 0 && exponent > 0 ==> r == PowerChain(exponent, modulo)
  {
    hide Pow2, Residue, GoodSeed, GoodDivisor, PowerChain, Int128.Value;
    SmallPowers(modulo);
    if exponent == 0 {
      return 1;
    }
    if modulo % 2 == 1 {
      r := MontgomeryModPow2(exponent, modulo);
      return;
    }
    r := EvenPower(exponent, modulo, seed);
    if GoodDivisor(modulo) {
      ChainIsPower(exponent, modulo);
    }
  }

  /** For an even modulus that does not divide everything the power can be wrong. */
  lemma EvenModulusCanFail()
    ensures var m := 0xFD00_0000_0000_0000;
            PowerChain(190, m) == 0x1800_0000_0000_0000 && Residue(Pow2(190), m) == 0x1B00_0000_0000_0000
  {
    var m: U64 := 0xFD00_0000_0000_0000;
    assert PowerChain(2, m) == 4;
    assert PowerChain(5, m) == 32;
    assert PowerChain(11, m) == 0x800;
    assert PowerChain(23, m) == 0x80_0000;
    assert PowerChain(47, m) == 0x8000_0000_0000;
    assert PowerChain(95, m) == 0xF800_0000_0000_0000;
    BigPower();
  }

  lemma BigPower()
    ensures Pow2(190) == 0x8000_0000_0000_0000 * 0x8000_0000_0000_0000 * 0x1_0000_0000_0000_0000
  {
    Pow2Values();
    Pow2Add(63, 63);
    Pow2Add(126, 64);
  }

  lemma SmallPowers(m: U64)
    requires m > 0
    ensures Residue(Pow2(0), m) == 1 <==> m != 1
    ensures m % 2 == 0 ==> (Residue(Pow2(1), m) == 2 <==> m != 2)
  {
    assert Pow2(0) == 1 && Pow2(1) == 2;
    if m > 1 {
      Quotient(1, m, 0, 1);
    }
    if m > 2 {
      Quotient(2, m, 0, 2);
    }
  }

  method EvenPower(exponent: U64, modulo: U64, seed: Int128) returns (r: U64)
    requires exponent > 0 && 2 <= modulo && modulo % 2 == 0 && GoodSeed(modulo, seed.Value())
    ensures r == PowerChain(exponent, modulo)
  {
    hide Int128.Value, Int128.Part0, Int128.Part1, GoodSeed, FromParts, BitSet, BitLength, Prefix, PowerBit;
    var result := FromParts(0, 2);
    var bit: U64 := HighestSetBit64(exponent);
    bit := bit / 2;
    ghost var i := BitLength(exponent) - 1;
    BitLengthBounds(exponent);
    TopPrefix(exponent);
    PrefixStep(exponent, i + 1);
    while bit > 0
      invariant 0 <= i && bit == if i == 0 then 0 else Pow2(i - 1)
      invariant Prefix(exponent, i) >= 1 && result.Value() == PowerChain(Prefix(exponent, i), modulo)
      decreases i
    {
      PrefixStep(exponent, i);
      result := EvenStep(result, BitSet(exponent, bit), modulo, seed);
      i := i - 1;
      bit := bit / 2;
    }
    NoBitsLeft(exponent);
    LowWord(result);
    r := result.Part0();
    SmallLow(result.Value(), modulo);
  }

  lemma TopPrefix(p: nat)
    requires p > 0
    ensures BitLength(p) >= 1 && Prefix(p, BitLength(p) - 1) == 1
  {
    BitLengthBounds(p);
    PrefixIs(p, BitLength(p) - 1);
    Quotient(p, Pow2(BitLength(p) - 1), 1, p - Pow2(BitLength(p) - 1));
  }

  lemma NoBitsLeft(p: nat)
    ensures Prefix(p, 0) == p
  {
  }

  lemma SmallLow(v: int, m: U64)
    requires 0 <= v <= m
    ensures Low64(v) == v
  {
  }
}
