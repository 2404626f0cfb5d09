/** 128-bit integers of four limbs (mapreduce/pi/pidigits.h, class Int128, the portable code). */
module Wide {
  import opened Arithmetic
  import opened Limbs

  const N: int := 0x1_0000_0000_0000_0000_0000_0000_0000_0000

  /** Arithmetic of 128-bit words wraps. */
  function ModN(x: int): (r: int)
    ensures 0 <= r < N
  {
    x % N
  }

  datatype Int128 = Words(word3: U32, word2: U32, word1: U32, word0: U32) {
    function Part0(): (r: U64) { word1 * 0x1_0000_0000 + word0 }

    function Part1(): (r: U64) { word3 * 0x1_0000_0000 + word2 }

    /** The number the limbs stand for. */
    function Value(): (r: int)
      ensures 0 <= r < 0x1_0000_0000_0000_0000_0000_0000_0000_0000
    {
      Part1() * 0x1_0000_0000_0000_0000 + Part0()
    }
  }

  function FromParts(hi: U64, lo: U64): (r: Int128)
    ensures r.Value() == hi * 0x1_0000_0000_0000_0000 + lo
    ensures r.Part0() == lo && r.Part1() == hi
  {
    Words(hi / 0x1_0000_0000, hi % 0x1_0000_0000, lo / 0x1_0000_0000, lo % 0x1_0000_0000)
  }

  /** A wrapped result, from the multiple of 2^128 that was dropped. */
  lemma Wrapped(x: int, k: int, r: int)
    requires x == k * N + r && 0 <= r < N
    ensures r == ModN(x)
  {
  }

  /** `operator<`: limb by limb from the top. */
  predicate Less(a: Int128, b: Int128) {
    if a.word3 == b.word3 then
      if a.word2 == b.word2 then
        if a.word1 == b.word1 then a.word0 < b.word0 else a.word1 < b.word1
      else a.word2 < b.word2
    else a.word3 < b.word3
  }

  lemma LessIsLess(a: Int128, b: Int128)
    ensures Less(a, b) <==> a.Value() < b.Value()
  {
  }

  /** `operator+(unsigned)`: the carry of each limb is read off its own wrap. */
  method AddSmall(a: Int128, x: U32) returns (r: Int128)
    ensures r.Value() == ModN(a.Value() + x)
  {
    var word0 := (a.word0 + x) % 0x1_0000_0000;
    var word1 := (a.word1 + if word0 < a.word0 then 1 else 0) % 0x1_0000_0000;
    var word2 := (a.word2 + if word1 < a.word1 then 1 else 0) % 0x1_0000_0000;
    var word3 := (a.word3 + if word2 < a.word2 then 1 else 0) % 0x1_0000_0000;
    r := Words(word3, word2, word1, word0);
    ghost var c1, c2 := if word0 < a.word0 then 1 else 0, if word1 < a.word1 then 1 else 0;
    ghost var c3, c4 := if word2 < a.word2 then 1 else 0, if word3 < a.word3 then 1 else 0;
    assert a.word0 + x == word0 + c1 * 0x1_0000_0000 && a.word1 + c1 == word1 + c2 * 0x1_0000_0000;
    assert a.word2 + c2 == word2 + c3 * 0x1_0000_0000 && a.word3 + c3 == word3 + c4 * 0x1_0000_0000;
    CarriedSum(a, r, x, c1, c2, c3, c4);
  }

  lemma CarriedSum(a: Int128, r: Int128, x: int, c1: int, c2: int, c3: int, c4: int)
    requires a.word0 + x == r.word0 + c1 * 0x1_0000_0000 && a.word1 + c1 == r.word1 + c2 * 0x1_0000_0000
    requires a.word2 + c2 == r.word2 + c3 * 0x1_0000_0000 && a.word3 + c3 == r.word3 + c4 * 0x1_0000_0000
    ensures r.Value() == ModN(a.Value() + x)
  {
    Wrapped(a.Value() + x, c4, r.Value());
  }

  /** `operator+`. */
  method Add(a: Int128, b: Int128) returns (r: Int128)
    ensures r.Value() == ModN(a.Value() + b.Value())
  {
    var word0, carry := AddCarryOut(a.word0, b.word0);
    var word1, carry1 := AddCarryInOut(a.word1, b.word1, carry);
    var word2, carry2 := AddCarryInOut(a.word2, b.word2, carry1);
    var word3 := AddCarryIn(a.word3, b.word3, carry2);
    r := Words(word3, word2, word1, word0);
    Wrapped(a.Value() + b.Value(), (a.word3 + b.word3 + carry2) / 0x1_0000_0000, r.Value());
  }

  /** `operator-`. */
  method Sub(a: Int128, b: Int128) returns (r: Int128)
    ensures r.Value() == ModN(a.Value() - b.Value())
  {
    var word0, borrow := SubBorrowOut(a.word0, b.word0);
    var word1, borrow1 := SubBorrowInOut(a.word1, b.word1, borrow);
    var word2, borrow2 := SubBorrowInOut(a.word2, b.word2, borrow1);
    var word3 := SubBorrowIn(a.word3, b.word3, borrow2);
    r := Words(word3, word2, word1, word0);
    Wrapped(a.Value() - b.Value(), (a.word3 - b.word3 - borrow2) / 0x1_0000_0000, r.Value());
  }

  method Mult64(a: U64, b: U64) returns (r: Int128)
    ensures r.Value() == a * b
  {
    var hi, lo := MultFull64(a, b);
    r := FromParts(hi, lo);
  }

  /** A 256-bit number of two halves. */
  function Value256(hi: Int128, lo: Int128): int {
    hi.Part1() * 0x1_0000_0000_0000_0000_0000_0000_0000_0000_0000_0000_0000_0000 +
        hi.Part0() * 0x1_0000_0000_0000_0000_0000_0000_0000_0000
    + lo.Part1() * 0x1_0000_0000_0000_0000 + lo.Part0()
  }

  /** One row of `mult128`: a cross product is added to the middle of the 256-bit result, with its carries. */
  method AddMiddle(hi: Int128, lo: Int128, cross: Int128) returns (resultHi: Int128, resultLo: Int128)
    requires Value256(hi, lo) + cross.Part1() * 0x1_0000_0000_0000_0000_0000_0000_0000_0000 +
            cross.Part0() * 0x1_0000_0000_0000_0000
             < 0x1_0000_0000_0000_0000_0000_0000_0000_0000_0000_0000_0000_0000_0000_0000_0000_0000
    ensures Value256(resultHi, resultLo) ==
            Value256(hi, lo) + cross.Part1() * 0x1_0000_0000_0000_0000_0000_0000_0000_0000 +
                cross.Part0() * 0x1_0000_0000_0000_0000
  {
    hide Int128.Part0, Int128.Part1;
    var part1, carry := AddCarryOut64(lo.Part1(), cross.Part0());
    var hi0, carry1 := AddCarryInOut64(hi.Part0(), cross.Part1(), carry);
    var hi1 := AddCarryIn64(hi.Part1(), 0, carry1);
    resultLo := FromParts(part1, lo.Part0());
    resultHi := FromParts(hi1, hi0);
  }

  /** The rows of `mult128` summed: `bd` below, `ac` above, the two cross products in the middle. */
  method SumRows(bd: Int128, ac: Int128, ad: Int128, bc: Int128) returns (resultHi: Int128, resultLo: Int128)
    requires ac.Value() * 0x1_0000_0000_0000_0000_0000_0000_0000_0000 + (ad.Value() +
            bc.Value()) * 0x1_0000_0000_0000_0000 + bd.Value()
             < 0x1_0000_0000_0000_0000_0000_0000_0000_0000_0000_0000_0000_0000_0000_0000_0000_0000
    ensures resultHi.Value() * 0x1_0000_0000_0000_0000_0000_0000_0000_0000 + resultLo.Value() ==
            ac.Value() * 0x1_0000_0000_0000_0000_0000_0000_0000_0000 + (ad.Value() +
                bc.Value()) * 0x1_0000_0000_0000_0000 + bd.Value()
  {
    hide Int128.Part0, Int128.Part1;
    resultHi, resultLo := AddMiddle(ac, bd, ad);
    resultHi, resultLo := AddMiddle(resultHi, resultLo, bc);
  }

  /** `mult128`: the full 256-bit product. */
  method Mult128(a: Int128, b: Int128) returns (resultHi: Int128, resultLo: Int128)
    ensures resultHi.Value() * N + resultLo.Value() == a.Value() * b.Value()
  {
    Square(a, b);
    hide Int128.Value;
    var bd := Mult64(a.Part0(), b.Part0());
    var ac := Mult64(a.Part1(), b.Part1());
    var ad := Mult64(a.Part1(), b.Part0());
    var bc := Mult64(a.Part0(), b.Part1());
    resultHi, resultLo := SumRows(bd, ac, ad, bc);
  }

  lemma Square(a: Int128, b: Int128)
    ensures a.Value() * b.Value() ==
            a.Part1() * b.Part1() * 0x1_0000_0000_0000_0000_0000_0000_0000_0000
            + (a.Part1() * b.Part0() + a.Part0() * b.Part1()) * 0x1_0000_0000_0000_0000 + a.Part0() * b.Part0()
    ensures a.Value() * b.Value() < 0x1_0000_0000_0000_0000_0000_0000_0000_0000_0000_0000_0000_0000_0000_0000_0000_0000
  {
    hide Int128.Part0, Int128.Part1;
    CrossProducts(a.Value(), b.Value(), a.Part1(), a.Part0(), b.Part1(), b.Part0(), 0x1_0000_0000_0000_0000);
    MulMono(a.Value(), 0xFFFF_FFFF_FFFF_FFFF_FFFF_FFFF_FFFF_FFFF, b.Value(), 0xFFFF_FFFF_FFFF_FFFF_FFFF_FFFF_FFFF_FFFF);
  }

  /** `mult128hi`. */
  method Mult128Hi(a: Int128, b: Int128) returns (r: Int128)
    ensures r.Value() == a.Value() * b.Value() / N
  {
    var lo: Int128;
    r, lo := Mult128(a, b);
    Quotient(a.Value() * b.Value(), N, r.Value(), lo.Value());
  }

  /** `mult128lo`: the terms above 128 bits are dropped, those that cross into the upper part wrap. */
  method Mult128Lo(a: Int128, b: Int128) returns (r: Int128)
    ensures r.Value() == ModN(a.Value() * b.Value())
  {
    var hi, lo := MultFull64(a.Part0(), b.Part0());
    var part1: U64 := (hi + a.Part0() * b.Part1() + a.Part1() * b.Part0()) % 0x1_0000_0000_0000_0000;
    r := FromParts(part1, lo);
    Square(a, b);
    LowPart(a.Value() * b.Value(), a.Part1() * b.Part1(), hi + a.Part0() * b.Part1() +
        a.Part1() * b.Part0(), lo, r.Value());
  }

  lemma LowPart(product: int, top: int, middle: int, lo: U64, r: int)
    requires product == top * 0x1_0000_0000_0000_0000_0000_0000_0000_0000 + middle * 0x1_0000_0000_0000_0000 + lo
    requires r == middle % 0x1_0000_0000_0000_0000 * 0x1_0000_0000_0000_0000 + lo
    ensures r == ModN(product)
  {
    Wrapped(product, top + middle / 0x1_0000_0000_0000_0000, r);
  }

  /** `operator*(u64)`. */
  method MultSmall(a: Int128, x: U64) returns (r: Int128)
    ensures r.Value() == ModN(a.Value() * x)
  {
    hide Int128.Part0, Int128.Part1;
    var low := Mult64(a.Part0(), x);
    var part1: U64 := (low.Part1() + a.Part1() * x) % 0x1_0000_0000_0000_0000;
    r := FromParts(part1, low.Part0());
    SplitProduct(a.Part1(), a.Part0(), x);
    hide Int128.Value;
    LowPart(a.Value() * x, 0, low.Part1() + a.Part1() * x, low.Part0(), r.Value());
  }

  lemma SplitProduct(hi: U64, lo: U64, x: U64)
    ensures (hi * 0x1_0000_0000_0000_0000 + lo) * x == hi * x * 0x1_0000_0000_0000_0000 + lo * x
  {
  }
}
