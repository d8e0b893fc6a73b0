/** Bytes, 32-bit words and the bitwise operators on them, and the layout of integers in memory
    and in sectors: little-endian two's complement, as on the i386 host the Makefiles select. */
module Bytes {
  type Byte = x: int | 0 <= x < 256

  const WordSize: int := 0x1_0000_0000

  /** A 32-bit word read as unsigned, and the same word read as signed. */
  type Word = x: int | 0 <= x < 0x1_0000_0000
  type Int32 = x: int | -0x8000_0000 <= x < 0x8000_0000

  function Wrap(x: int): Word {
    x % 0x1_0000_0000
  }

  function Signed(u: Word): Int32 {
    if u < 0x8000_0000 then u else u - 0x1_0000_0000
  }

  lemma SignedThenWrapped(u: Word)
    ensures Wrap(Signed(u)) == u
  {
  }

  // ---------------------------------------------------------------- bits

  function Pow2(k: nat): (p: nat)
    ensures p > 0
  {
    if k == 0 then 1 else 2 * Pow2(k - 1)
  }

  predicate Bit(w: nat, k: nat)
    decreases k
  {
    if k == 0 then w % 2 == 1 else Bit(w / 2, k - 1)
  }

  function BitAnd(a: nat, b: nat): nat {
    if a == 0 then 0 else (if a % 2 == 1 && b % 2 == 1 then 1 else 0) + 2 * BitAnd(a / 2, b / 2)
  }

  function BitOr(a: nat, b: nat): nat
    decreases a + b
  {
    if a == 0 then b else if b == 0 then a else
      (if a % 2 == 1 || b % 2 == 1 then 1 else 0) + 2 * BitOr(a / 2, b / 2)
  }

  function BitXor(a: nat, b: nat): nat
    decreases a + b
  {
    if a == 0 then b else if b == 0 then a else
      (if a % 2 != b % 2 then 1 else 0) + 2 * BitXor(a / 2, b / 2)
  }

  function Not32(a: Word): Word {
    0xffff_ffff - a
  }

  lemma {:induction false} BitZero(k: nat)
    ensures !Bit(0, k)
  {
    if k > 0 { BitZero(k - 1); }
  }

  lemma {:induction false} BitOfAnd(a: nat, b: nat, k: nat)
    ensures Bit(BitAnd(a, b), k) == (Bit(a, k) && Bit(b, k))
    decreases k
  {
    if a == 0 {
      BitZero(k);
    } else if k > 0 {
      BitOfAnd(a / 2, b / 2, k - 1);
    }
  }

  lemma AndBit(x: nat, m: nat)
    ensures BitAnd(x, 2 * m) == 2 * BitAnd(x / 2, m)
    ensures BitAnd(x, 2 * m + 1) == x % 2 + 2 * BitAnd(x / 2, m)
  {
  }

  lemma {:induction false} AndAllOnes(x: nat, n: nat)
    requires x < Pow2(n)
    ensures BitAnd(x, Pow2(n) - 1) == x
    decreases n
  {
    if n > 0 {
      AndBit(x, Pow2(n - 1) - 1);
      AndAllOnes(x / 2, n - 1);
      assert 2 * (Pow2(n - 1) - 1) + 1 == Pow2(n) - 1;
      hide BitAnd;
    }
  }

  lemma {:induction false} BitOfOr(a: nat, b: nat, k: nat)
    ensures Bit(BitOr(a, b), k) == (Bit(a, k) || Bit(b, k))
    decreases k
  {
    if a == 0 || b == 0 {
      BitZero(k);
    } else if k > 0 {
      BitOfOr(a / 2, b / 2, k - 1);
    }
  }

  lemma {:induction false} BitOfXor(a: nat, b: nat, k: nat)
    ensures Bit(BitXor(a, b), k) == (Bit(a, k) != Bit(b, k))
    decreases k
  {
    if a == 0 || b == 0 {
      BitZero(k);
    } else if k > 0 {
      BitOfXor(a / 2, b / 2, k - 1);
    }
  }

  lemma {:induction false} BitOfPow2(j: nat, k: nat)
    ensures Bit(Pow2(j), k) == (j == k)
    decreases k
  {
    if k > 0 {
      if j == 0 {
        BitZero(k - 1);
      } else {
        BitOfPow2(j - 1, k - 1);
      }
    }
  }

  lemma HalfOfComplement(p: nat, w: nat)
    requires w < 2 * p
    ensures (2 * p - 1 - w) / 2 == p - 1 - w / 2
    ensures (2 * p - 1 - w) % 2 == 1 - w % 2
  {
  }

  lemma {:induction false} BitOfComplement(n: nat, w: nat, k: nat)
    requires w < Pow2(n) && k < n
    ensures Bit(Pow2(n) - 1 - w, k) == !Bit(w, k)
    decreases k
  {
    hide Bit, Pow2;
    Pow2Doubles(n);
    HalfOfComplement(Pow2(n - 1), w);
    BitStep(w, k);
    BitStep(Pow2(n) - 1 - w, k);
    if k > 0 {
      BitOfComplement(n - 1, w / 2, k - 1);
    }
  }

  lemma Pow2Doubles(n: nat)
    requires n > 0
    ensures Pow2(n) == 2 * Pow2(n - 1)
  {
  }

  lemma BitStep(w: nat, k: nat)
    ensures Bit(w, k) == if k == 0 then w % 2 == 1 else Bit(w / 2, k - 1)
  {
  }

  lemma {:induction false} NonZeroHasBit(w: nat) returns (k: nat)
    requires w > 0
    ensures Bit(w, k)
  {
    if w % 2 == 1 {
      k := 0;
    } else {
      k := NonZeroHasBit(w / 2);
      k := k + 1;
    }
  }

  lemma {:induction false} Fits(a: nat, b: nat, n: nat)
    requires a < Pow2(n) && b < Pow2(n)
    ensures BitAnd(a, b) <= a && BitOr(a, b) < Pow2(n) && BitXor(a, b) < Pow2(n)
    decreases n
  {
    if n > 0 {
      Fits(a / 2, b / 2, n - 1);
    }
  }

  lemma Pow2Monotone(j: nat, k: nat)
    requires j <= k
    ensures Pow2(j) <= Pow2(k)
  {
  }

  lemma Pow2Word()
    ensures Pow2(31) == 0x8000_0000 && Pow2(32) == 0x1_0000_0000
  {
    assert Pow2(8) == 256;
    assert Pow2(16) == 65536;
    assert Pow2(24) == 0x100_0000;
  }

  function And32(a: Word, b: Word): Word {
    Pow2Word();
    Fits(a, b, 32);
    BitAnd(a, b)
  }

  function Or32(a: Word, b: Word): Word {
    Pow2Word();
    Fits(a, b, 32);
    BitOr(a, b)
  }

  function Xor32(a: Word, b: Word): Word {
    Pow2Word();
    Fits(a, b, 32);
    BitXor(a, b)
  }

  /** The word holding 1 << k. */
  function Shift1(k: nat): Word
    requires k < 32
  {
    Pow2Word();
    Pow2Monotone(k, 31);
    Pow2(k)
  }

  /** The test `w & (1 << k)` reads bit k. */
  lemma {:induction false} MaskTestsBit(w: Word, k: nat)
    requires k < 32
    ensures And32(w, Shift1(k)) != 0 <==> Bit(w, k)
  {
    var m := And32(w, Shift1(k));
    if m != 0 {
      var j := NonZeroHasBit(m);
      BitOfAnd(w, Shift1(k), j);
      BitOfPow2(k, j);
    } else {
      BitOfAnd(w, Shift1(k), k);
      BitOfPow2(k, k);
      BitZero(k);
    }
  }

  /** Setting or clearing one bit of a word leaves the other 31 alone. */
  lemma {:induction false} SetClearBit(w: Word, k: nat, j: nat)
    requires k < 32 && j < 32
    ensures Bit(Or32(w, Shift1(k)), j) == (j == k || Bit(w, j))
    ensures Bit(And32(w, Not32(Shift1(k))), j) == (j != k && Bit(w, j))
  {
    Pow2Word();
    BitOfPow2(k, j);
    BitOfOr(w, Shift1(k), j);
    BitOfComplement(32, Shift1(k), j);
    BitOfAnd(w, Not32(Shift1(k)), j);
  }

  lemma {:induction false} TopBitIs(w: nat, n: nat)
    requires w < 2 * Pow2(n)
    ensures Bit(w, n) <==> w >= Pow2(n)
  {
    if n > 0 { TopBitIs(w / 2, n - 1); }
  }

  /** The test `x & 0x80000000`. */
  lemma TopBit(x: Word)
    ensures And32(x, 0x8000_0000) != 0 <==> x >= 0x8000_0000
  {
    Pow2Word();
    MaskTestsBit(x, 31);
    TopBitIs(x, 31);
  }

  /** The test `(x ^ y) & 0x80000000`. */
  lemma TopBitsDiffer(x: Word, y: Word)
    ensures And32(Xor32(x, y), 0x8000_0000) != 0 <==> (x >= 0x8000_0000) != (y >= 0x8000_0000)
  {
    Pow2Word();
    MaskTestsBit(Xor32(x, y), 31);
    BitOfXor(x, y, 31);
    TopBitIs(x, 31);
    TopBitIs(y, 31);
  }

  lemma {:induction false} OrSelf(x: nat)
    ensures BitOr(x, x) == x
  {
    if x > 0 { OrSelf(x / 2); }
  }

  // ---------------------------------------------------------------- layout

  function WordBytes(u: Word): (b: seq<Byte>)
    ensures |b| == 4
  {
    [u % 256, u / 256 % 256, u / 65536 % 256, u / 16777216]
  }

  function BytesWord(b: seq<Byte>): Word
    requires |b| == 4
  {
    (b[0] as int) + 256 * (b[1] as int) + 65536 * (b[2] as int) + 16777216 * (b[3] as int)
  }

  lemma WordRoundTrip(u: Word)
    ensures BytesWord(WordBytes(u)) == u
  {
    assert u / 256 / 256 == u / 65536 && u / 65536 / 256 == u / 16777216;
  }

  /** An array of words, laid out one after the other. */
  function WordsBytes(ws: seq<Word>): (b: seq<Byte>)
    ensures |b| == 4 * |ws|
  {
    seq(4 * |ws|, k requires 0 <= k < 4 * |ws| => WordBytes(ws[k / 4])[k % 4])
  }

  function BytesWords(b: seq<Byte>, n: nat): (ws: seq<Word>)
    requires |b| >= 4 * n
    ensures |ws| == n
  {
    seq(n, i requires 0 <= i < n => BytesWord(b[4 * i..4 * i + 4]))
  }

  lemma WordAt(ws: seq<Word>, i: nat)
    requires i < |ws|
    ensures WordsBytes(ws)[4 * i..4 * i + 4] == WordBytes(ws[i])
  {
  }

  lemma WordsRoundTrip(ws: seq<Word>, rest: seq<Byte>)
    ensures BytesWords(WordsBytes(ws) + rest, |ws|) == ws
  {
    hide WordsBytes, BytesWord, WordBytes;
    var b := WordsBytes(ws) + rest;
    forall i | 0 <= i < |ws|
      ensures BytesWord(b[4 * i..4 * i + 4]) == ws[i]
    {
      WordAt(ws, i);
      assert b[4 * i..4 * i + 4] == WordsBytes(ws)[4 * i..4 * i + 4];
      WordRoundTrip(ws[i]);
    }
  }
}
