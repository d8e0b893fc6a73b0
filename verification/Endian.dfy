/** translate.cc: converting words and half words between the host's byte order and the simulated
    machine's little-endian order, and what a load or store through a host pointer does. */
module Endian {
  import opened Bytes

  type Half = x: int | 0 <= x < 0x1_0000

  // ---------------------------------------------------------------- masking and joining bytes

  lemma {:induction false} AndNothing(x: nat)
    ensures BitAnd(x, 0) == 0
  {
    if x > 0 { AndNothing(x / 2); }
  }

  lemma AndTwoBits(x: nat, m: nat)
    ensures BitAnd(x, 4 * m + 3) == x % 4 + 4 * BitAnd(x / 4, m)
    ensures BitAnd(x, 4 * m) == 4 * BitAnd(x / 4, m)
  {
    hide BitAnd;
    AndBit(x, 2 * m + 1);
    AndBit(x, 2 * m);
    AndBit(x / 2, m);
    assert x / 2 / 2 == x / 4;
  }

  lemma AndNibble(x: nat, m: nat)
    ensures BitAnd(x, 16 * m + 15) == x % 16 + 16 * BitAnd(x / 16, m)
    ensures BitAnd(x, 16 * m) == 16 * BitAnd(x / 16, m)
  {
    hide BitAnd;
    AndTwoBits(x, 4 * m + 3);
    AndTwoBits(x, 4 * m);
    AndTwoBits(x / 4, m);
    assert x / 4 / 4 == x / 16;
  }

  lemma AlignmentMasks(x: nat)
    ensures BitAnd(x, 3) == x % 4 && BitAnd(x, 1) == x % 2
  {
    AndTwoBits(x, 0);
    AndBit(x, 0);
    AndNothing(x / 4);
    AndNothing(x / 2);
  }

  /** A mask of eight ones keeps a byte, wherever it stands. */
  lemma AndByte(x: nat)
    ensures BitAnd(x, 0xff) == x % 256
    ensures BitAnd(x, 0xff00) == x / 256 % 256 * 256
    ensures BitAnd(x, 0xff_0000) == x / 65536 % 256 * 65536
    ensures BitAnd(x, 0xff00_0000) == x / 16777216 % 256 * 16777216
  {
    hide BitAnd;
    AndLowByte(x);
    AndSkipByte(x, 0xff);
    AndSkipByte(x, 0xff00);
    AndSkipByte(x, 0xff_0000);
    AndLowByte(x / 256);
    AndSkipByte(x / 256, 0xff);
    AndSkipByte(x / 256, 0xff00);
    AndLowByte(x / 65536);
    AndSkipByte(x / 65536, 0xff);
    AndLowByte(x / 16777216);
    assert x / 256 / 256 == x / 65536 && x / 65536 / 256 == x / 16777216;
  }

  lemma AndLowByte(x: nat)
    ensures BitAnd(x, 0xff) == x % 256
  {
    hide BitAnd;
    AndNibble(x, 15);
    AndNibble(x / 16, 0);
    AndNothing(x / 16 / 16);
  }

  lemma AndSkipByte(x: nat, m: nat)
    ensures BitAnd(x, 256 * m) == 256 * BitAnd(x / 256, m)
  {
    hide BitAnd;
    AndNibble(x, 16 * m);
    AndNibble(x / 16, m);
    assert x / 16 / 16 == x / 256;
  }

  /** Bits that do not overlap add up. */
  lemma {:induction false} OrDisjoint(low: nat, high: nat, k: nat)
    requires low < Pow2(k)
    ensures BitOr(low, high * Pow2(k)) == low + high * Pow2(k)
    decreases k
  {
    if k > 0 {
      var m := high * Pow2(k - 1);
      assert high * Pow2(k) == 2 * m;
      OrDisjoint(low / 2, high, k - 1);
      assert BitOr(low / 2, m) == low / 2 + m;
    }
  }

  lemma OrBytes(low: nat, high: nat)
    ensures low < 256 ==> BitOr(low, high * 256) == low + high * 256
    ensures low < 65536 ==> BitOr(low, high * 65536) == low + high * 65536
    ensures low < 16777216 ==> BitOr(low, high * 16777216) == low + high * 16777216
  {
    assert Pow2(8) == 256;
    assert Pow2(16) == 65536;
    assert Pow2(24) == 16777216;
    hide Pow2, BitOr;
    if low < 256 { OrDisjoint(low, high, 8); }
    if low < 65536 { OrDisjoint(low, high, 16); }
    if low < 16777216 { OrDisjoint(low, high, 24); }
  }

  // ---------------------------------------------------------------- the conversions

  function Reversed(b: seq<Byte>): (r: seq<Byte>)
    requires |b| == 4
    ensures |r| == 4
  {
    [b[3], b[2], b[1], b[0]]
  }

  /** The four bytes of a word, lowest first. */
  predicate MadeOf(w: int, b0: int, b1: int, b2: int, b3: int) {
    && 0 <= b0 < 256 && 0 <= b1 < 256 && 0 <= b2 < 256 && 0 <= b3 < 256
    && w == b0 + 256 * b1 + 65536 * b2 + 16777216 * b3
  }

  lemma Parts(w: Word) returns (b0: int, b1: int, b2: int, b3: int)
    ensures MadeOf(w, b0, b1, b2, b3) && WordBytes(w) == [b0, b1, b2, b3]
  {
    assert w / 256 / 256 == w / 65536 && w / 65536 / 256 == w / 16777216;
    b0, b1, b2, b3 := w % 256, w / 256 % 256, w / 65536 % 256, w / 16777216;
  }

  lemma Split(x: int, b: int, rest: int)
    requires 0 <= b < 256 && x == b + 256 * rest
    ensures x % 256 == b && x / 256 == rest
  {
  }

  lemma DropBytes(w: nat, b0: int, b1: int, b2: int, b3: int)
    requires MadeOf(w, b0, b1, b2, b3)
    ensures w % 256 == b0 && w / 256 % 256 == b1 && w / 65536 % 256 == b2 && w / 16777216 % 256 == b3
    ensures MadeOf(w / 256, b1, b2, b3, 0) && MadeOf(w / 16777216, b3, 0, 0, 0)
  {
    Split(w, b0, b1 + 256 * b2 + 65536 * b3);
    Split(w / 256, b1, b2 + 256 * b3);
    Split(w / 256 / 256, b2, b3);
    assert w / 256 / 256 == w / 65536 && w / 65536 / 256 == w / 16777216;
  }

  lemma WrapOver(w: Word, over: int)
    ensures Wrap(w + 0x1_0000_0000 * over) == w
  {
  }

  lemma RaiseBytes(w: Word, b0: int, b1: int, b2: int, b3: int)
    requires MadeOf(w, b0, b1, b2, b3)
    ensures MadeOf(Wrap(w * 256), 0, b0, b1, b2) && MadeOf(Wrap(w * 16777216), 0, 0, 0, b0)
  {
    hide Wrap;
    WrapOver(256 * b0 + 65536 * b1 + 16777216 * b2, b3);
    assert w * 256 == 256 * b0 + 65536 * b1 + 16777216 * b2 + 0x1_0000_0000 * b3;
    WrapOver(16777216 * b0, b1 + 256 * b2 + 65536 * b3);
    assert w * 16777216 == 16777216 * b0 + 0x1_0000_0000 * (b1 + 256 * b2 + 65536 * b3);
  }

  lemma MaskBytes(w: nat, b0: int, b1: int, b2: int, b3: int)
    requires MadeOf(w, b0, b1, b2, b3)
    ensures BitAnd(w, 0xff) == b0 && BitAnd(w, 0xff00) == b1 * 256
    ensures BitAnd(w, 0xff_0000) == b2 * 65536 && BitAnd(w, 0xff00_0000) == b3 * 16777216
  {
    hide BitAnd;
    AndByte(w);
    DropBytes(w, b0, b1, b2, b3);
  }

  /** What the shifts and masks select, on a word made of these bytes. */
  lemma Selected(w: Word, b0: int, b1: int, b2: int, b3: int)
    requires MadeOf(w, b0, b1, b2, b3)
    ensures BitAnd(w / 16777216, 0xff) == b3 && BitAnd(w / 256, 0xff00) == b2 * 256
    ensures BitAnd(Wrap(w * 256), 0xff_0000) == b1 * 65536 && BitAnd(Wrap(w * 16777216), 0xff00_0000) == b0 * 16777216
  {
    hide BitAnd, Wrap, MadeOf;
    DropBytes(w, b0, b1, b2, b3);
    RaiseBytes(w, b0, b1, b2, b3);
    MaskBytes(w / 16777216, b3, 0, 0, 0);
    MaskBytes(w / 256, b1, b2, b3, 0);
    MaskBytes(Wrap(w * 256), 0, b0, b1, b2);
    MaskBytes(Wrap(w * 16777216), 0, 0, 0, b0);
  }

  lemma Joined(b0: nat, b1: nat, b2: nat, b3: nat)
    requires b0 < 256 && b1 < 256 && b2 < 256 && b3 < 256
    ensures BitOr(BitOr(BitOr(b3, b2 * 256), b1 * 65536), b0 * 16777216) == b3 + 256 * b2 + 65536 * b1 + 16777216 * b0
  {
    hide BitOr;
    OrBytes(b3, b2);
    OrBytes(b3 + 256 * b2, b1);
    OrBytes(b3 + 256 * b2 + 65536 * b1, b0);
  }

  /** On a big-endian host the conversion turns the four bytes around; elsewhere it does nothing. */
  method WordToHost(hostIsBigEndian: bool, word: Word) returns (r: Word)
    ensures r == if hostIsBigEndian then BytesWord(Reversed(WordBytes(word))) else word
  {
    if hostIsBigEndian {
      ghost var b0, b1, b2, b3 := Parts(word);
      Selected(word, b0, b1, b2, b3);
      Joined(b0, b1, b2, b3);
      assert b3 + 256 * b2 + 65536 * b1 + 16777216 * b0 == BytesWord(Reversed(WordBytes(word)));
      hide BitOr, BitAnd, WordBytes, BytesWord, Wrap, MadeOf;
      r := And32(word / 16777216, 0xff);
      r := Or32(r, And32(word / 256, 0xff00));
      r := Or32(r, And32(Wrap(word * 256), 0xff_0000));
      r := Or32(r, And32(Wrap(word * 16777216), 0xff00_0000));
      return r;
    }
    return word;
  }

  lemma HalfSelected(h: Half)
    ensures BitAnd(h * 256, 0xff00) == h % 256 * 256 && BitAnd(h / 256, 0x00ff) == h / 256
    ensures BitOr(h % 256 * 256, h / 256) == h % 256 * 256 + h / 256
  {
    hide BitOr, BitAnd;
    var b0: int, b1: int := h % 256, h / 256;
    MaskBytes(h * 256, 0, b0, b1, 0);
    MaskBytes(b1, b1, 0, 0, 0);
    OrBytes(b1, b0);
    OrCommutes(b0 * 256, b1);
  }

  /** The same for half words. */
  method ShortToHost(hostIsBigEndian: bool, shortword: Half) returns (r: Half)
    ensures r == if hostIsBigEndian then shortword % 256 * 256 + shortword / 256 else shortword
  {
    if hostIsBigEndian {
      HalfSelected(shortword);
      hide BitOr, BitAnd;
      r := BitAnd(shortword * 256, 0xff00);
      r := BitOr(r, BitAnd(shortword / 256, 0x00ff));
      return r;
    }
    return shortword;
  }

  lemma {:induction false} OrCommutes(a: nat, b: nat)
    ensures BitOr(a, b) == BitOr(b, a)
    decreases a + b
  {
    if a != 0 && b != 0 { OrCommutes(a / 2, b / 2); }
  }

  // ---------------------------------------------------------------- loads and stores through host pointers

  /** The unsigned int the host finds at these bytes, and the bytes it stores for one. */
  function HostWord(hostIsBigEndian: bool, b: seq<Byte>): Word
    requires |b| == 4
  {
    BytesWord(if hostIsBigEndian then Reversed(b) else b)
  }

  function HostWordBytes(hostIsBigEndian: bool, word: Word): (b: seq<Byte>)
    ensures |b| == 4
  {
    if hostIsBigEndian then Reversed(WordBytes(word)) else WordBytes(word)
  }

  function HostHalf(hostIsBigEndian: bool, b: seq<Byte>): Half
    requires |b| == 2
  {
    if hostIsBigEndian then 256 * (b[0] as int) + (b[1] as int) else (b[0] as int) + 256 * (b[1] as int)
  }

  function HostHalfBytes(hostIsBigEndian: bool, half: Half): (b: seq<Byte>)
    ensures |b| == 2
  {
    if hostIsBigEndian then [half / 256, half % 256] else [half % 256, half / 256]
  }

  lemma BytesRoundTrip(b: seq<Byte>)
    requires |b| == 4
    ensures WordBytes(BytesWord(b)) == b
  {
    var b0: int, b1: int, b2: int, b3: int := b[0], b[1], b[2], b[3];
    DropBytes(BytesWord(b), b0, b1, b2, b3);
    var w := BytesWord(b);
    assert w / 16777216 == b3;
    assert WordBytes(w) == [b0, b1, b2, b3];
  }

  /** Load and convert, or convert and store: on either host, memory is little-endian. */
  lemma LoadsLittleEndian(hostIsBigEndian: bool, b: seq<Byte>)
    requires |b| == 4
    ensures hostIsBigEndian ==> BytesWord(Reversed(WordBytes(HostWord(true, b)))) == BytesWord(b)
  {
    BytesRoundTrip(Reversed(b));
    assert Reversed(Reversed(b)) == b;
  }

  lemma StoresLittleEndian(word: Word)
    ensures Reversed(WordBytes(BytesWord(Reversed(WordBytes(word))))) == WordBytes(word)
  {
    BytesRoundTrip(Reversed(WordBytes(word)));
  }
}
