/** mipssim.cc: what the results of the comparisons, the logic operations and the shifts are, bit by bit,
    and which register receives a result. */
module MipsLaws {
  import opened Bytes
  import opened Mips
  import opened MipsEncoding

  // ---------------------------------------------------------------- bits of remainders and products

  lemma HalfOfRemainder(w: nat, p: nat)
    requires p > 0
    ensures w % (2 * p) / 2 == w / 2 % p && w % (2 * p) % 2 == w % 2
  {
    var q, r := w / (2 * p), w % (2 * p);
    assert w == 2 * (p * q) + r;
    assert w / 2 == p * q + r / 2 && r / 2 < p;
    QuotientIs(w / 2, p, q, r / 2);
  }

  lemma QuotientIs(w: nat, p: nat, q: nat, r: nat)
    requires p > 0 && r < p && w == p * q + r
    ensures w % p == r && w / p == q
  {
    var d := w / p - q;
    assert p * d == r - w % p;
    MultipleOf(p, d);
  }

  lemma MultipleOf(p: nat, d: int)
    ensures (d > 0 ==> p * d >= p) && (d < 0 ==> p * d + p <= 0)
  {
  }

  lemma {:induction false} BitOfRemainder(w: nat, n: nat, k: nat)
    ensures Bit(w % Pow2(n), k) == (k < n && Bit(w, k))
    decreases k
  {
    hide Pow2, Bit;
    BitStep(w, k);
    BitStep(w % Pow2(n), k);
    if n == 0 {
      PowerOfNothing();
      BitZero(k);
    } else {
      Pow2Doubles(n);
      HalfOfRemainder(w, Pow2(n - 1));
      if k > 0 {
        BitOfRemainder(w / 2, n - 1, k - 1);
      }
    }
  }

  lemma PowerOfNothing()
    ensures Pow2(0) == 1
  {
  }

  lemma {:induction false} BitOfProduct(w: nat, n: nat, k: nat)
    ensures Bit(w * Pow2(n), k) == (k >= n && Bit(w, k - n))
    decreases n
  {
    hide Pow2, Bit;
    if n == 0 {
      PowerOfNothing();
    } else {
      Pow2Doubles(n);
      var half := w * Pow2(n - 1);
      assert w * Pow2(n) == 2 * half;
      Halves(half);
      BitStep(2 * half, k);
      if k > 0 {
        BitOfProduct(w, n - 1, k - 1);
      }
    }
  }

  /** Numbers below a power of two with the same bits are the same. */
  lemma {:induction false} SameBits(u: nat, v: nat, n: nat)
    requires u < Pow2(n) && v < Pow2(n) && forall k :: 0 <= k < n ==> Bit(u, k) == Bit(v, k)
    ensures u == v
    decreases n
  {
    if n > 0 {
      assert Bit(u, 0) == Bit(v, 0);
      forall k | 0 <= k < n - 1 ensures Bit(u / 2, k) == Bit(v / 2, k) {
        assert Bit(u, k + 1) == Bit(v, k + 1);
      }
      SameBits(u / 2, v / 2, n - 1);
    }
  }

  // ---------------------------------------------------------------- comparisons

  /** Bit k is the highest in which u and v differ, and v has it. */
  predicate HighestDifference(u: nat, v: nat, n: nat, k: nat) {
    k < n && !Bit(u, k) && Bit(v, k) && forall j :: k < j < n ==> Bit(u, j) == Bit(v, j)
  }

  lemma {:induction false} LessHasBit(u: nat, v: nat, n: nat) returns (k: nat)
    requires u < v < Pow2(n)
    ensures HighestDifference(u, v, n, k)
    decreases n
  {
    if u / 2 < v / 2 {
      k := LessHasBit(u / 2, v / 2, n - 1);
      k := k + 1;
      forall j | k < j < n ensures Bit(u, j) == Bit(v, j) {
        assert Bit(u / 2, j - 1) == Bit(v / 2, j - 1);
      }
    } else {
      k := 0;
    }
  }

  lemma {:induction false} BitMakesLess(u: nat, v: nat, n: nat, k: nat)
    requires u < Pow2(n) && v < Pow2(n) && HighestDifference(u, v, n, k)
    ensures u < v
    decreases n
  {
    if k == 0 {
      forall j | 0 <= j < n - 1 ensures Bit(u / 2, j) == Bit(v / 2, j) {
        assert Bit(u, j + 1) == Bit(v, j + 1);
      }
      SameBits(u / 2, v / 2, n - 1);
    } else {
      forall j | k - 1 < j < n - 1 ensures Bit(u / 2, j) == Bit(v / 2, j) {
        assert Bit(u, j + 1) == Bit(v, j + 1);
      }
      BitMakesLess(u / 2, v / 2, n - 1, k - 1);
    }
  }

  /** Bit k of a register. */
  predicate RegisterBit(v: Int32, k: nat) {
    Bit(Wrap(v), k)
  }

  /** In the unsigned order the register with the highest bit that the other lacks is the greater; in the
      signed order the sign bit counts the other way. */
  ghost predicate Below(a: Int32, b: Int32) {
    exists k :: HighestDifference(Wrap(a), Wrap(b), 32, k)
  }

  ghost predicate SignedBelow(a: Int32, b: Int32) {
    if RegisterBit(a, 31) != RegisterBit(b, 31) then RegisterBit(a, 31) else Below(a, b)
  }

  lemma UnsignedOrder(a: Int32, b: Int32)
    ensures Below(a, b) <==> Wrap(a) < Wrap(b)
  {
    hide Pow2, Bit;
    Pow2Word();
    if Wrap(a) < Wrap(b) {
      var k := LessHasBit(Wrap(a), Wrap(b), 32);
    }
    if Below(a, b) {
      var k :| HighestDifference(Wrap(a), Wrap(b), 32, k);
      BitMakesLess(Wrap(a), Wrap(b), 32, k);
    }
  }

  lemma SignedOrder(a: Int32, b: Int32)
    ensures SignedBelow(a, b) <==> a < b
  {
    hide Pow2, Bit, Below;
    Pow2Word();
    UnsignedOrder(a, b);
    TopBitIs(Wrap(a), 31);
    TopBitIs(Wrap(b), 31);
  }

  predicate Compares(op: Op) {
    op.SLT? || op.SLTI? || op.SLTU? || op.SLTIU?
  }

  /** The four comparisons give one or nothing, by the order of the bits. */
  lemma Comparisons(op: Op, a: Int32, b: Int32, x: Int32)
    requires Compares(op)
    ensures var second := if op.SLT? || op.SLTU? then b else x;
      var less := if op.SLT? || op.SLTI? then SignedBelow(a, second) else Below(a, second);
      Meaning(op, a, b, x, 0, 0) == Value(if less then 1 else 0)
  {
    hide SignedBelow, Below;
    var second := if op.SLT? || op.SLTU? then b else x;
    SignedOrder(a, second);
    UnsignedOrder(a, second);
  }

  // ---------------------------------------------------------------- logic

  predicate IsBitwise(op: Op) {
    op.AND? || op.ANDI? || op.OR? || op.ORI? || op.XOR? || op.XORI? || op.NOR? || op.LUI?
  }

  /** Bit k of the result of a logic operation. The constant is extended with zeros; OR, as the code has
      it, takes rs twice. */
  predicate LogicBit(op: Op, a: Int32, b: Int32, x: Int32, k: nat)
    requires IsBitwise(op)
  {
    var constant := k < 16 && RegisterBit(x, k);
    match op
    case AND => RegisterBit(a, k) && RegisterBit(b, k)
    case ANDI => RegisterBit(a, k) && constant
    case OR => RegisterBit(a, k)
    case ORI => RegisterBit(a, k) || constant
    case XOR => RegisterBit(a, k) != RegisterBit(b, k)
    case XORI => RegisterBit(a, k) != constant
    case NOR => !RegisterBit(a, k) && !RegisterBit(b, k)
    case LUI => k >= 16 && RegisterBit(x, k - 16)
  }

  lemma LowHalfBits(x: Int32, k: nat)
    ensures Bit(Wrap(x) % 0x1_0000, k) == (k < 16 && Bit(Wrap(x), k))
  {
    assert Pow2(8) == 256;
    assert Pow2(16) == 0x1_0000;
    hide Pow2, Bit;
    BitOfRemainder(Wrap(x), 16, k);
  }

  lemma UpperHalfBits(x: Int32, k: nat)
    requires k < 32
    ensures Bit(Wrap(x * 0x1_0000), k) == (k >= 16 && Bit(Wrap(x), k - 16))
  {
    assert Pow2(8) == 256;
    assert Pow2(16) == 0x1_0000;
    hide Pow2, Bit;
    ShiftedBits(x, 16, k);
  }

  lemma WholeWords(y: int, over: int)
    ensures Wrap(y + 0x1_0000_0000 * over) == Wrap(y)
  {
  }

  /** The low word of x times a power of two. */
  lemma ShiftedBits(x: Int32, n: nat, k: nat)
    requires k < 32
    ensures Bit(Wrap(x * Pow2(n)), k) == (k >= n && Bit(Wrap(x), k - n))
  {
    hide Pow2, Bit;
    Pow2Word();
    var p, q := Pow2(n), (x - Wrap(x)) / 0x1_0000_0000;
    assert x == Wrap(x) + 0x1_0000_0000 * q;
    assert x * p == Wrap(x) * p + 0x1_0000_0000 * (q * p);
    WholeWords(Wrap(x) * p, q * p);
    BitOfRemainder(Wrap(x) * p, 32, k);
    BitOfProduct(Wrap(x), n, k);
  }

  /** The logic operations work bit by bit. */
  lemma LogicBits(op: Op, a: Int32, b: Int32, x: Int32, k: nat)
    requires IsBitwise(op) && k < 32
    ensures Meaning(op, a, b, x, 0, 0).Value?
    ensures RegisterBit(Meaning(op, a, b, x, 0, 0).v, k) == LogicBit(op, a, b, x, k)
  {
    hide Bit, BitAnd, BitOr, BitXor, Pow2;
    Pow2Word();
    var u, v, low := Wrap(a), Wrap(b), Wrap(x) % 0x1_0000;
    LowHalfBits(x, k);
    match op
    case AND => BitOfAnd(u, v, k); SignedThenWrapped(And32(u, v));
    case ANDI => BitOfAnd(u, low, k); SignedThenWrapped(And32(u, low));
    case OR =>
    case ORI => BitOfOr(u, low, k); SignedThenWrapped(Or32(u, low));
    case XOR => BitOfXor(u, v, k); SignedThenWrapped(Xor32(u, v));
    case XORI => BitOfXor(u, low, k); SignedThenWrapped(Xor32(u, low));
    case NOR =>
      BitOfOr(u, v, k);
      BitOfComplement(32, Or32(u, v), k);
      SignedThenWrapped(Not32(Or32(u, v)));
    case LUI =>
      UpperHalfBits(x, k);
      SignedThenWrapped(Wrap(x * 0x1_0000));
  }

  // ---------------------------------------------------------------- shifts

  lemma HalvedBits(b: Int32, k: nat)
    requires k < 32
    ensures RegisterBit(b / 2, k) == RegisterBit(b, if k < 31 then k + 1 else 31)
  {
    hide Bit, Pow2;
    Pow2Word();
    TopBitIs(Wrap(b), 31);
    TopBitIs(Wrap(b / 2), 31);
    if k < 31 {
      BitStep(Wrap(b), k + 1);
      BitOfRemainder(Wrap(b / 2), 31, k);
      BitOfRemainder(Wrap(b) / 2, 31, k);
      HalvedWord(b);
    }
  }

  lemma HalvedWord(b: Int32)
    ensures Wrap(b / 2) % 0x8000_0000 == Wrap(b) / 2 % 0x8000_0000
  {
    WrapIs(b);
    WrapIs(b / 2);
    hide Wrap;
    assert Wrap(b) / 2 == if b < 0 then b / 2 + 0x8000_0000 else b / 2;
  }

  lemma WrapIs(b: Int32)
    ensures Wrap(b) == if b < 0 then b + 0x1_0000_0000 else b
  {
  }

  lemma {:induction false} ShiftRightBits(b: Int32, n: nat, k: nat)
    requires k < 32
    ensures RegisterBit(ShiftRight(b, n), k) == RegisterBit(b, if k + n < 31 then k + n else 31)
    decreases n
  {
    hide RegisterBit;
    if n > 0 {
      ShiftRightBits(b / 2, n - 1, k);
      HalvedBits(b, if k + (n - 1) < 31 then k + (n - 1) else 31);
    }
  }

  /** How far a shift shifts: by the constant, or by the low five bits of rs. */
  function ShiftAmount(op: Op, a: Int32, x: Int32): nat {
    (if IsShift(op) then Wrap(x) else Wrap(a)) % 32
  }

  /** The left shifts bring in zeros. The right shifts repeat the sign, the logical ones too. */
  lemma ShiftBits(op: Op, a: Int32, b: Int32, x: Int32, k: nat)
    requires KindOf(op) == Shifting && k < 32
    ensures Meaning(op, a, b, x, 0, 0).Value?
    ensures var v, n := Meaning(op, a, b, x, 0, 0).v, ShiftAmount(op, a, x);
      RegisterBit(v, k) == if op.SLL? || op.SLLV? then k >= n && RegisterBit(b, k - n)
        else RegisterBit(b, if k + n < 31 then k + n else 31)
  {
    hide Bit, Pow2, ShiftRight, Wrap, Signed;
    var n := ShiftAmount(op, a, x);
    ShiftRightBits(b, n, k);
    ShiftedBits(b, n, k);
    SignedThenWrapped(Wrap(b * Pow2(n)));
  }

  // ---------------------------------------------------------------- where results go

  /** Operations with a constant in the word put their result in rt, the others in rd; MTHI and MTLO put
      theirs in HI and LO. */
  lemma DestinationByCode(f: Fields)
    requires GoodFields(f) && Computes(f.opCode)
    ensures HasCode(f.opCode) && !CodeOf(f.opCode).Condition?
    ensures CodeOf(f.opCode).Primary? ==> Dest(f) == f.rt
    ensures CodeOf(f.opCode).Function? && !f.opCode.MTHI? && !f.opCode.MTLO? ==> Dest(f) == f.rd
    ensures f.opCode.MTHI? ==> Dest(f) == 32
    ensures f.opCode.MTLO? ==> Dest(f) == 33
  {
  }
}
