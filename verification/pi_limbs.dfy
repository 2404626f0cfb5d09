/**
  Extended-precision primitives in 32-bit limbs (mapreduce/pi/pidigits.h, the portable code).

  Machine words are integers with their range; every wrap-around of the original is an explicit remainder.
 */
module Limbs {
  import opened Arithmetic

  type U32 = x: int | 0 <= x < 0x1_0000_0000
  type U64 = x: int | 0 <= x < 0x1_0000_0000_0000_0000

  // ---- carries and borrows ----

  method AddCarryOut(a: U32, b: U32) returns (result: U32, carry: int)
    ensures 0 <= carry <= 1 && carry * 0x1_0000_0000 + result == a + b
  {
    result := (a + b) % 0x1_0000_0000;
    carry := if result < a then 1 else 0;
  }

  method AddCarryInOut(a: U32, b: U32, carryIn: int) returns (result: U32, carry: int)
    requires 0 <= carryIn <= 1
    ensures 0 <= carry <= 1 && carry * 0x1_0000_0000 + result == a + b + carryIn
  {
    result := (a + b + carryIn) % 0x1_0000_0000;
    if carryIn != 0 {
      carry := if result <= a then 1 else 0;
    } else {
      carry := if result < a then 1 else 0;
    }
  }

  method AddCarryIn(a: U32, b: U32, carryIn: int) returns (result: U32)
    requires 0 <= carryIn <= 1
    ensures result == (a + b + carryIn) % 0x1_0000_0000
  {
    result := (a + b + carryIn) % 0x1_0000_0000;
  }

  method AddCarryOut64(a: U64, b: U64) returns (result: U64, carry: int)
    ensures 0 <= carry <= 1 && carry * 0x1_0000_0000_0000_0000 + result == a + b
  {
    result := (a + b) % 0x1_0000_0000_0000_0000;
    carry := if result < a then 1 else 0;
  }

  method AddCarryInOut64(a: U64, b: U64, carryIn: int) returns (result: U64, carry: int)
    requires 0 <= carryIn <= 1
    ensures 0 <= carry <= 1 && carry * 0x1_0000_0000_0000_0000 + result == a + b + carryIn
  {
    result := (a + b + carryIn) % 0x1_0000_0000_0000_0000;
    if carryIn != 0 {
      carry := if result <= a then 1 else 0;
    } else {
      carry := if result < a then 1 else 0;
    }
  }

  method AddCarryIn64(a: U64, b: U64, carryIn: int) returns (result: U64)
    requires 0 <= carryIn <= 1
    ensures result == (a + b + carryIn) % 0x1_0000_0000_0000_0000
  {
    result := (a + b + carryIn) % 0x1_0000_0000_0000_0000;
  }

  method SubBorrowOut(a: U32, b: U32) returns (result: U32, borrow: int)
    ensures 0 <= borrow <= 1 && result - borrow * 0x1_0000_0000 == a - b
  {
    result := (a - b) % 0x1_0000_0000;
    borrow := if result > a then 1 else 0;
  }

  method SubBorrowInOut(a: U32, b: U32, borrowIn: int) returns (result: U32, borrow: int)
    requires 0 <= borrowIn <= 1
    ensures 0 <= borrow <= 1 && result - borrow * 0x1_0000_0000 == a - b - borrowIn
  {
    result := (a - b - borrowIn) % 0x1_0000_0000;
    if borrowIn != 0 {
      borrow := if result >= a then 1 else 0;
    } else {
      borrow := if result > a then 1 else 0;
    }
  }

  method SubBorrowIn(a: U32, b: U32, borrowIn: int) returns (result: U32)
    requires 0 <= borrowIn <= 1
    ensures result == (a - b - borrowIn) % 0x1_0000_0000
  {
    result := (a - b - borrowIn) % 0x1_0000_0000;
  }

  // ---- multiplication ----

  /** The low and high halves of a product of two limbs. */
  function Lo(a: U32, b: U32): U32 { a * b % 0x1_0000_0000 }

  function MultHi(a: U32, b: U32): (r: U32)
    ensures r <= 0xFFFF_FFFE && r * 0x1_0000_0000 + Lo(a, b) == a * b
  {
    ProductBound(a, b);
    a * b / 0x1_0000_0000
  }

  lemma ProductBound(a: U32, b: U32)
    ensures 0 <= a * b <= 0xFFFF_FFFF * 0xFFFF_FFFF
  {
    MulMono(a, 0xFFFF_FFFF, b, 0xFFFF_FFFF);
  }

  lemma CrossProducts(f1: int, f2: int, a: int, b: int, c: int, d: int, w: int)
    requires f1 == a * w + b && f2 == c * w + d
    ensures f1 * f2 == a * c * w * w + (a * d + b * c) * w + b * d
  {
    calc {
      f1 * f2;
      (a * w + b) * (c * w + d);
      (a * w) * (c * w) + (a * w) * d + b * (c * w) + b * d;
      a * c * w * w + a * d * w + b * c * w + b * d;
    }
  }

  /** The carry chain of `multFull64` over the halves of its four partial products. */
  method AddColumns(bdLo: U32, bdHi: U32, adLo: U32, adHi: U32, bcLo: U32, bcHi: U32, acLo: U32, acHi: U32)
    returns (resultHi: U64, resultLo: U64)
    requires adHi <= 0xFFFF_FFFE
    requires bdLo + (bdHi + adLo + bcLo) * 0x1_0000_0000 + (adHi + bcHi + acLo) * 0x1_0000_0000_0000_0000
             + acHi * 0x1_0000_0000_0000_0000_0000_0000 < 0x1_0000_0000_0000_0000_0000_0000_0000_0000
    ensures resultHi * 0x1_0000_0000_0000_0000 + resultLo ==
            bdLo + (bdHi + adLo + bcLo) * 0x1_0000_0000 + (adHi + bcHi + acLo) * 0x1_0000_0000_0000_0000
            + acHi * 0x1_0000_0000_0000_0000_0000_0000
  {
    var result1: U32, result2: U32, result3: U32;
    var carry: int;
    result1, carry := AddCarryOut(adLo, bdHi);
    result2 := AddCarryIn(adHi, 0, carry);
    result1, carry := AddCarryOut(bcLo, result1);
    result2, carry := AddCarryInOut(bcHi, result2, carry);
    result3 := AddCarryIn(0, 0, carry);
    result2, carry := AddCarryOut(acLo, result2);
    result3 := AddCarryIn(acHi, result3, carry);
    resultLo := result1 * 0x1_0000_0000 + bdLo;
    resultHi := result3 * 0x1_0000_0000 + result2;
  }

  /** The full 128-bit product of two 64-bit words. */
  method MultFull64(f1: U64, f2: U64) returns (resultHi: U64, resultLo: U64)
    ensures resultHi * 0x1_0000_0000_0000_0000 + resultLo == f1 * f2
  {
    hide Lo, MultHi;
    var a: U32, b: U32 := f1 / 0x1_0000_0000, f1 % 0x1_0000_0000;
    var c: U32, d: U32 := f2 / 0x1_0000_0000, f2 % 0x1_0000_0000;
    CrossProducts(f1, f2, a, b, c, d, 0x1_0000_0000);
    MulMono(f1, 0xFFFF_FFFF_FFFF_FFFF, f2, 0xFFFF_FFFF_FFFF_FFFF);
    resultHi, resultLo :=
      AddColumns(Lo(b, d), MultHi(b, d), Lo(a, d), MultHi(a, d), Lo(b, c), MultHi(b, c), Lo(a, c), MultHi(a, c));
  }
}
