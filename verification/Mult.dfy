/** mipssim.cc, Mult: 32 by 32 bit multiplication by shifting and adding, on words that wrap around. */
module Multiplier {
  import opened Bytes
  import opened Common

  const Two32: int := 0x1_0000_0000

  /** The double word held by two words. */
  function Double(hi: Word, lo: Word): nat {
    hi * Two32 + lo
  }

  // ---------------------------------------------------------------- masks

  lemma LowBit(x: Word)
    ensures And32(x, 1) != 0 <==> x % 2 == 1
  {
    MaskTestsBit(x, 0);
  }

  /** The early exit: nothing is left above bit 0. */
  lemma NothingAbove(x: Word)
    ensures And32(x, 0xffff_fffe) == 0 <==> x < 2
  {
    if x > 0 {
      Pow2Word();
      assert Pow2(31) - 1 == 0xffff_fffe / 2;
      AndAllOnes(x / 2, 31);
    }
  }

  lemma SetLowBit(x: Word)
    requires x % 2 == 0
    ensures Or32(x, 1) == x + 1
  {
    if x > 0 { assert BitOr(x / 2, 0) == x / 2; }
  }

  // ---------------------------------------------------------------- double words

  /** Adding the low words, carrying, and adding the high words adds the double words. */
  method AddDouble(hi: Word, lo: Word, bHi: Word, bLo: Word) returns (hi': Word, lo': Word)
    requires Double(hi, lo) + Double(bHi, bLo) < Two32 * Two32
    ensures Double(hi', lo') == Double(hi, lo) + Double(bHi, bLo)
  {
    hi' := hi;
    lo' := Wrap(lo + bLo);
    if lo' < bLo {
      hi' := Wrap(hi' + 1);
    }
    hi' := Wrap(hi' + bHi);
  }

  method ShiftDouble(bHi: Word, bLo: Word) returns (bHi': Word, bLo': Word)
    requires 2 * Double(bHi, bLo) < Two32 * Two32
    ensures Double(bHi', bLo') == 2 * Double(bHi, bLo)
  {
    hide And32, Or32;
    bHi' := Wrap(2 * bHi);
    if And32(bLo, 0x8000_0000) != 0 {
      SetLowBit(bHi');
      bHi' := Or32(bHi', 1);
    }
    TopBit(bLo);
    bLo' := Wrap(2 * bLo);
  }

  /** Flipping both words and adding one, with carry, is subtraction from 2^64. */
  method NegateDouble(hi: Word, lo: Word) returns (hi': Word, lo': Word)
    requires Double(hi, lo) > 0
    ensures Double(hi', lo') == Two32 * Two32 - Double(hi, lo)
  {
    hi' := Not32(hi);
    lo' := Not32(lo);
    lo' := Wrap(lo' + 1);
    if lo' == 0 {
      hi' := Wrap(hi' + 1);
    }
  }

  lemma ProductBound(x: nat, y: nat)
    requires x <= Two32 && y < Two32
    ensures x * y <= Two32 * y < Two32 * Two32
  {
  }

  /** a >> 1 on a signed integer. */
  function Half(a: Int32): Int32 {
    a / 2
  }

  predicate LowBitSet(a: Int32) {
    And32(Wrap(a), 1) != 0
  }

  predicate NoMoreBits(a: Int32) {
    And32(Wrap(a), 0xffff_fffe) == 0
  }

  /** What the loop's two tests see. */
  lemma Tests(a: Int32)
    ensures LowBitSet(a) <==> a % 2 == 1
    ensures NoMoreBits(a) ==> Half(a) == 0
  {
    hide And32;
    LowBit(Wrap(a));
    NothingAbove(Wrap(a));
  }

  predicate IsProduct(a: Int32, b: Word, hi: Word, lo: Word) {
    Double(hi, lo) == Wrap(a) * b
  }

  /** After i turns: the i low bits of a0 have been used up and a holds the rest; sum is their product
      with b, and shifted is b times 2 to the i. */
  predicate Turn(a0: int, b: Word, i: nat, a: int, sum: nat, shifted: nat) {
    var low := a0 - Pow2(i) * a;
    0 <= low < Pow2(i) && sum == low * b && shifted == Pow2(i) * b
  }

  lemma FirstTurn(a0: int, b: Word)
    ensures Turn(a0, b, 0, a0, 0, b)
  {
  }

  /** The next bit of a0 joins the low ones; the sum and the shift fit in a double word. */
  lemma NextTurn(a0: int, b: Word, i: nat, a: Int32, sum: nat, shifted: nat)
    requires i < 32 && Turn(a0, b, i, a, sum, shifted)
    ensures sum + shifted < Two32 * Two32 && 2 * shifted < Two32 * Two32
    ensures LowBitSet(a) ==> Turn(a0, b, i + 1, Half(a), sum + shifted, 2 * shifted)
    ensures !LowBitSet(a) ==> Turn(a0, b, i + 1, Half(a), sum, 2 * shifted)
    ensures NoMoreBits(a) ==> Half(a) == 0
  {
    Tests(a);
    hide LowBitSet, NoMoreBits;
    var p := Pow2(i);
    var low := a0 - p * a;
    Pow2Word();
    Pow2Monotone(i + 1, 32);
    hide Pow2;
    ProductBound(low + p, b);
    ProductBound(2 * p, b);
    Distribute(low, p, b);
    assert a == 2 * (a / 2) + a % 2;
    HalveFactor(p, a);
  }

  lemma Distribute(x: int, y: int, z: int)
    ensures (x + y) * z == x * z + y * z && (2 * y) * z == 2 * (y * z)
  {
  }

  lemma HalveFactor(p: int, a: int)
    ensures p * a == (2 * p) * (a / 2) + if a % 2 == 1 then p else 0
  {
  }

  /** With no bits left above the one just added, or with all 32 tested, the sum is the product. */
  lemma LastTurn(a0: Int32, b: Word, i: nat, a: Int32, hi: Word, lo: Word, shifted: nat)
    requires i <= 32 && Turn(a0, b, i, a, Double(hi, lo), shifted) && (i == 32 || a == 0)
    ensures IsProduct(a0, b, hi, lo)
  {
    if i == 32 {
      Pow2Word();
      hide Pow2;
      assert a0 - Two32 * a == Wrap(a0);
    }
  }

  lemma StartingDoubles(b: Word)
    ensures Double(0, 0) == 0 && Double(0, b) == b
  {
  }

  /** The loop over the bits of a0. The right shift drags the sign of a negative a along; the 32 bits
      that are tested are those of the word. */
  method UnsignedMult(a0: Int32, b: Word) returns (hi: Word, lo: Word)
    ensures IsProduct(a0, b, hi, lo)
  {
    hide Double, Turn, LowBitSet, NoMoreBits, Half, IsProduct, Pow2;
    var a := a0;
    var bLo: Word := b;
    var bHi: Word := 0;
    lo := 0;
    hi := 0;
    FirstTurn(a0, b);
    StartingDoubles(b);
    var i := 0;
    while i < 32
      invariant 0 <= i <= 32 && Turn(a0, b, i, a, Double(hi, lo), Double(bHi, bLo))
    {
      NextTurn(a0, b, i, a, Double(hi, lo), Double(bHi, bLo));
      if LowBitSet(a) {
        hi, lo := AddDouble(hi, lo, bHi, bLo);
        if NoMoreBits(a) {
          LastTurn(a0, b, i + 1, Half(a), hi, lo, 2 * Double(bHi, bLo));
          return;
        }
      }
      bHi, bLo := ShiftDouble(bHi, bLo);
      a := Half(a);
      i := i + 1;
    }
    LastTurn(a0, b, i, a, hi, lo, Double(bHi, bLo));
  }

  /** The magnitude, as a word: also of the most negative integer, which is its own negation. */
  lemma Magnitude(x: int)
    requires -0x8000_0000 <= x < 0
    ensures Wrap(Signed(Wrap(-x))) == -x
  {
  }

  /** A double word that holds the negation of x, read as signed. */
  lemma ReadSigned(hi: Word, lo: Word, x: int)
    requires -0x4000_0000_0000_0000 <= x <= 0x4000_0000_0000_0000
    requires Double(hi, lo) == if x < 0 then Two32 * Two32 + x else x
    ensures Signed(hi) * Two32 + Wrap(Signed(lo)) == x
  {
  }

  lemma Signs(a: int, b: int)
    ensures (-a) * b == -(a * b) && a * (-b) == -(a * b) && (-a) * (-b) == a * b
  {
  }

  lemma MagnitudeBound(x: nat, y: nat)
    requires 0 < x <= 0x8000_0000 && 0 < y <= 0x8000_0000
    ensures 0 < x * y <= 0x4000_0000_0000_0000
  {
    assert x * y <= 0x8000_0000 * y;
  }

  lemma SignedProduct(a: Int32, b: Int32)
    requires a != 0 && b != 0
    ensures Abs(a) * Abs(b) == if (a < 0) != (b < 0) then -(a * b) else a * b
    ensures 0 < Abs(a) * Abs(b) <= 0x4000_0000_0000_0000
  {
    Signs(a, b);
    MagnitudeBound(Abs(a), Abs(b));
  }

  /** Sign and magnitude: a negative product is the complement of the product of the magnitudes. */
  method Mult(a: Int32, b: Int32, signedArith: bool) returns (hi: Int32, lo: Int32)
    ensures signedArith ==> hi * Two32 + Wrap(lo) == a * b
    ensures !signedArith ==> Wrap(hi) * Two32 + Wrap(lo) == Wrap(a) * Wrap(b)
  {
    if a == 0 || b == 0 {
      return 0, 0;
    }
    var negative := false;
    var x: int, y: int := a, b;
    if signedArith {
      if x < 0 {
        negative := !negative;
        Magnitude(x);
        x := Signed(Wrap(-x));
      }
      if y < 0 {
        negative := !negative;
        Magnitude(y);
        y := Signed(Wrap(-y));
      }
      assert Wrap(x) == Abs(a) && Wrap(y) == Abs(b);
      SignedProduct(a, b);
    }
    assert negative ==> Wrap(x) * Wrap(y) > 0;
    ghost var product := Wrap(x) * Wrap(y);
    assert signedArith ==> a * b == if negative then -product else product;
    var uHi, uLo := UnsignedMult(x, Wrap(y));
    if negative {
      uHi, uLo := NegateDouble(uHi, uLo);
    }
    hi := Signed(uHi);
    lo := Signed(uLo);
    if signedArith {
      ReadSigned(uHi, uLo, a * b);
    } else {
      SignedThenWrapped(uHi);
      SignedThenWrapped(uLo);
    }
  }
}
