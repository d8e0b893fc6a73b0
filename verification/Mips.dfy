/** mipssim.h and mipssim.cc: decoding an instruction word, and what the instructions compute. */
module Mips {
  import opened Bytes
  import opened Common
  import opened Endian

  datatype Op =
    | ADD | ADDI | ADDIU | ADDU | AND | ANDI | BEQ | BGEZ | BGEZAL | BGTZ | BLEZ | BLTZ | BLTZAL | BNE
    | DIV | DIVU | J | JAL | JALR | JR | LB | LBU | LH | LHU | LUI | LW | LWL | LWR
    | MFHI | MFLO | MTHI | MTLO | MULT | MULTU | NOR | OR | ORI | RFE | SB | SH | SLL | SLLV
    | SLT | SLTI | SLTIU | SLTU | SRA | SRAV | SRL | SRLV | SUB | SUBU | SW | SWL | SWR | XOR | XORI
    | SYSCALL | UNIMP | RES | SPECIAL | BCOND

  datatype Format = IFMT | JFMT | RFMT

  /** Bits 31:26 of the instruction. */
  function OpTable(k: nat): (Op, Format)
    requires k < 64
  {
    match k
    case 0 => (SPECIAL, RFMT) case 1 => (BCOND, IFMT) case 2 => (J, JFMT) case 3 => (JAL, JFMT)
    case 4 => (BEQ, IFMT) case 5 => (BNE, IFMT) case 6 => (BLEZ, IFMT) case 7 => (BGTZ, IFMT)
    case 8 => (ADDI, IFMT) case 9 => (ADDIU, IFMT) case 10 => (SLTI, IFMT) case 11 => (SLTIU, IFMT)
    case 12 => (ANDI, IFMT) case 13 => (ORI, IFMT) case 14 => (XORI, IFMT) case 15 => (LUI, IFMT)
    case 16 => (UNIMP, IFMT) case 17 => (UNIMP, IFMT) case 18 => (UNIMP, IFMT) case 19 => (UNIMP, IFMT)
    case 32 => (LB, IFMT) case 33 => (LH, IFMT) case 34 => (LWL, IFMT) case 35 => (LW, IFMT)
    case 36 => (LBU, IFMT) case 37 => (LHU, IFMT) case 38 => (LWR, IFMT)
    case 40 => (SB, IFMT) case 41 => (SH, IFMT) case 42 => (SWL, IFMT) case 43 => (SW, IFMT) case 46 => (SWR, IFMT)
    case 48 => (UNIMP, IFMT) case 49 => (UNIMP, IFMT) case 50 => (UNIMP, IFMT) case 51 => (UNIMP, IFMT)
    case 56 => (UNIMP, IFMT) case 57 => (UNIMP, IFMT) case 58 => (UNIMP, IFMT) case 59 => (UNIMP, IFMT)
    case _ => (RES, IFMT)
  }

  /** The "funct" field of SPECIAL instructions. */
  function SpecialTable(k: nat): Op
    requires k < 64
  {
    match k
    case 0 => SLL case 2 => SRL case 3 => SRA case 4 => SLLV case 6 => SRLV case 7 => SRAV
    case 8 => JR case 9 => JALR case 12 => SYSCALL case 13 => UNIMP
    case 16 => MFHI case 17 => MTHI case 18 => MFLO case 19 => MTLO
    case 24 => MULT case 25 => MULTU case 26 => DIV case 27 => DIVU
    case 32 => ADD case 33 => ADDU case 34 => SUB case 35 => SUBU
    case 36 => AND case 37 => OR case 38 => XOR case 39 => NOR case 42 => SLT case 43 => SLTU
    case _ => RES
  }

  datatype Fields = Fields(opCode: Op, rs: nat, rt: nat, rd: nat, extra: Int32)

  class Instruction {
    var value: Word
    var opCode: Op
    var rs: nat
    var rt: nat
    var rd: nat
    var extra: Int32

    constructor (value: Word)
      ensures this.value == value
    {
      this.value := value;
      opCode := RES;
      rs, rt, rd, extra := 0, 0, 0, 0;
    }

    method Decode()
      modifies this
      ensures value == old(value)
      ensures Fields(opCode, rs, rt, rd, extra) == FieldsOf(value)
    {
      hide OpTable, SpecialTable, ExtraOf, OpOf;
      rs := value / 0x20_0000 % 32;
      rt := value / 0x1_0000 % 32;
      rd := value / 0x800 % 32;
      var op := OpTable(value / 0x400_0000 % 64);
      DecodeExtra(op.1);
      DecodeOp(op.0);
    }

    /** The constant, by the format of the instruction. */
    method DecodeExtra(format: Format)
      modifies `extra
      ensures extra == ExtraOf(format, value)
    {
      if format.IFMT? {
        extra := value % 0x1_0000;
        if extra >= 0x8000 {
          extra := extra - 0x1_0000;
        }
      } else if format.RFMT? {
        extra := value / 64 % 32;
      } else {
        extra := value % 0x400_0000;
      }
    }

    /** The end of Decode: SPECIAL and BCOND say what they are elsewhere in the word. */
    method DecodeOp(op: Op)
      modifies `opCode
      ensures opCode == OpOf(op, value)
    {
      hide SpecialTable;
      opCode := op;
      if opCode == SPECIAL {
        opCode := SpecialTable(value % 64);
      } else if opCode == BCOND {
        var i := value / 0x1_0000 % 32;
        if i == 0 {
          opCode := BLTZ;
        } else if i == 1 {
          opCode := BGEZ;
        } else if i == 16 {
          opCode := BLTZAL;
        } else if i == 17 {
          opCode := BGEZAL;
        } else {
          opCode := UNIMP;
        }
      }
    }
  }

  function BranchOp(i: nat): Op {
    if i == 0 then BLTZ else if i == 1 then BGEZ else if i == 16 then BLTZAL else if i == 17 then BGEZAL else UNIMP
  }

  function ExtraOf(format: Format, value: Word): Int32 {
    match format
    case IFMT => (var low := value % 0x1_0000; if low >= 0x8000 then low - 0x1_0000 else low)
    case RFMT => value / 64 % 32
    case JFMT => value % 0x400_0000
  }

  function OpOf(op: Op, value: Word): Op {
    if op == SPECIAL then SpecialTable(value % 64) else if op == BCOND then BranchOp(value / 0x1_0000 % 32) else op
  }

  function FieldsOf(value: Word): Fields {
    var op := OpTable(value / 0x400_0000 % 64);
    Fields(OpOf(op.0, value), value / 0x20_0000 % 32, value / 0x1_0000 % 32, value / 0x800 % 32, ExtraOf(op.1, value))
  }

  // ---------------------------------------------------------------- decoding is total and undoes encoding

  datatype Kind =
    | CheckedSum | SumOrTest | Logical | Shifting | Multiplying | Branching | Loading | Storing | Trapping
    | NoCase

  /** The cases of the switch in OneInstruction, by what they do. */
  function KindOf(op: Op): Kind {
    match op
    case ADD => CheckedSum case ADDI => CheckedSum case SUB => CheckedSum
    case ADDIU => SumOrTest case ADDU => SumOrTest case SUBU => SumOrTest
    case SLT => SumOrTest case SLTI => SumOrTest case SLTIU => SumOrTest case SLTU => SumOrTest
    case AND => Logical case ANDI => Logical case NOR => Logical case OR => Logical case ORI => Logical
    case XOR => Logical case XORI => Logical case LUI => Logical
    case MFHI => Logical case MFLO => Logical case MTHI => Logical case MTLO => Logical
    case SLL => Shifting case SLLV => Shifting case SRA => Shifting case SRAV => Shifting
    case SRL => Shifting case SRLV => Shifting
    case DIV => Multiplying case DIVU => Multiplying case MULT => Multiplying case MULTU => Multiplying
    case BEQ => Branching case BNE => Branching case BGEZ => Branching case BGEZAL => Branching
    case BGTZ => Branching case BLEZ => Branching case BLTZ => Branching case BLTZAL => Branching
    case J => Branching case JAL => Branching case JALR => Branching case JR => Branching
    case LB => Loading case LBU => Loading case LH => Loading case LHU => Loading
    case LW => Loading case LWL => Loading case LWR => Loading
    case SB => Storing case SH => Storing case SW => Storing case SWL => Storing case SWR => Storing
    case SYSCALL => Trapping case RES => Trapping case UNIMP => Trapping
    case RFE => NoCase case SPECIAL => NoCase case BCOND => NoCase
  }

  predicate Handled(op: Op) {
    KindOf(op) != NoCase
  }

  predicate IsShift(op: Op) { op.SLL? || op.SRA? || op.SRL? }

  /** The registers and constants of a decoded instruction. */
  predicate GoodFields(f: Fields) {
    && Handled(f.opCode) && f.rs < 32 && f.rt < 32 && f.rd < 32
    && (IsShift(f.opCode) ==> 0 <= f.extra < 32)
    && (f.opCode.J? || f.opCode.JAL? ==> 0 <= f.extra < 0x400_0000)
    && (!f.opCode.J? && !f.opCode.JAL? ==> -0x8000 <= f.extra < 0x8000)
  }

  lemma TableHandled(k: nat)
    requires k < 64
    ensures var op := OpTable(k).0;
      (op == SPECIAL || op == BCOND || Handled(op)) && !IsShift(op)
  {
  }

  lemma TableFormats(k: nat)
    requires k < 64
    ensures var op := OpTable(k);
      && (op.0.J? || op.0.JAL? <==> op.1.JFMT?)
      && (op.1.RFMT? <==> op.0 == SPECIAL)
  {
  }

  lemma SpecialTotal(k: nat)
    requires k < 64
    ensures Handled(SpecialTable(k)) && !SpecialTable(k).J? && !SpecialTable(k).JAL?
  {
  }

  lemma BranchTotal(i: nat)
    ensures Handled(BranchOp(i)) && !BranchOp(i).J? && !BranchOp(i).JAL? && !IsShift(BranchOp(i))
  {
  }

  lemma ExtraTotal(format: Format, value: Word)
    ensures var extra := ExtraOf(format, value);
      && (format.IFMT? ==> -0x8000 <= extra < 0x8000) && (format.RFMT? ==> 0 <= extra < 32)
      && (format.JFMT? ==> 0 <= extra < 0x400_0000)
  {
  }

  /** Every word decodes to a case of the switch, with register numbers below 32; a constant shift is by
      less than a word, and other constants fit the field they came from. */
  lemma DecodeTotal(value: Word)
    ensures GoodFields(FieldsOf(value))
  {
    hide OpTable, SpecialTable, BranchOp, ExtraOf, Handled;
    var k := value / 0x400_0000 % 64;
    TableHandled(k);
    TableFormats(k);
    SpecialTotal(value % 64);
    BranchTotal(value / 0x1_0000 % 32);
    ExtraTotal(OpTable(k).1, value);
  }

  lemma Peel16(q: nat, r: nat)
    requires r < 0x1_0000
    ensures (q * 0x1_0000 + r) / 0x1_0000 == q && (q * 0x1_0000 + r) % 0x1_0000 == r
  {
  }

  lemma Peel5(q: nat, r: nat)
    requires r < 32
    ensures (q * 32 + r) / 32 == q && (q * 32 + r) % 32 == r
  {
  }

  lemma Peel6(q: nat, r: nat)
    requires r < 64
    ensures (q * 64 + r) / 64 == q && (q * 64 + r) % 64 == r
  {
  }

  lemma Nested(w: nat)
    ensures w / 64 / 32 == w / 0x800 && w / 0x800 / 32 == w / 0x1_0000
    ensures w / 0x1_0000 / 32 == w / 0x20_0000 && w / 0x20_0000 / 32 == w / 0x400_0000
  {
  }

  lemma UpperFields(w: nat, k: nat, rs: nat, rt: nat, low: nat)
    requires k < 64 && rs < 32 && rt < 32 && low < 0x1_0000
    requires w == k * 0x400_0000 + rs * 0x20_0000 + rt * 0x1_0000 + low
    ensures w < 0x1_0000_0000 && w % 0x1_0000 == low
    ensures w / 0x1_0000 % 32 == rt && w / 0x20_0000 % 32 == rs && w / 0x400_0000 % 64 == k
  {
    Nested(w);
    Peel16((k * 32 + rs) * 32 + rt, low);
    Peel5(k * 32 + rs, rt);
    Peel5(k, rs);
  }

  /** An immediate-format word is decoded into the operation and the fields it was made of. */
  lemma DecodeImmediate(w: nat, k: nat, rs: nat, rt: nat, imm: int)
    requires 1 < k < 64 && OpTable(k).1.IFMT? && rs < 32 && rt < 32 && -0x8000 <= imm < 0x8000
    requires w == k * 0x400_0000 + rs * 0x20_0000 + rt * 0x1_0000 + imm % 0x1_0000
    ensures w < 0x1_0000_0000
    ensures var f := FieldsOf(w); f.opCode == OpTable(k).0 && f.rs == rs && f.rt == rt && f.extra == imm
  {
    UpperFields(w, k, rs, rt, imm % 0x1_0000);
    assert OpTable(k).0 != SPECIAL && OpTable(k).0 != BCOND;
    hide OpTable;
    assert imm % 0x1_0000 == if imm < 0 then imm + 0x1_0000 else imm;
  }

  /** So is a register-format word. */
  lemma DecodeRegister(w: nat, funct: nat, rs: nat, rt: nat, rd: nat, shift: nat)
    requires funct < 64 && rs < 32 && rt < 32 && rd < 32 && shift < 32
    requires w == rs * 0x20_0000 + rt * 0x1_0000 + rd * 0x800 + shift * 64 + funct
    ensures w < 0x1_0000_0000 && FieldsOf(w) == Fields(SpecialTable(funct), rs, rt, rd, shift)
  {
    hide SpecialTable;
    UpperFields(w, 0, rs, rt, rd * 0x800 + shift * 64 + funct);
    LowerFields(w, (rs * 32 + rt) * 32 + rd, shift, funct);
    Peel5(rs * 32 + rt, rd);
  }

  lemma LowerFields(w: nat, upper: nat, shift: nat, funct: nat)
    requires shift < 32 && funct < 64 && w == (upper * 32 + shift) * 64 + funct
    ensures w % 64 == funct && w / 64 % 32 == shift && w / 0x800 == upper
  {
    Nested(w);
    Peel6(upper * 32 + shift, funct);
    Peel5(upper, shift);
  }

  // ---------------------------------------------------------------- what instructions compute

  function To32(x: int): Int32 {
    Signed(Wrap(x))
  }

  /** Addition as the machine does it. */
  function Sum32(x: int, y: int): Int32 {
    To32(x + y)
  }

  predicate Fits32(x: int) {
    -0x8000_0000 <= x < 0x8000_0000
  }

  /** b << n: the low word of b times 2 to the n. */
  function ShiftLeft(b: Int32, n: nat): Int32 {
    To32(b * Pow2(n))
  }

  /** b >> n on a signed integer: halved n times, rounding down. */
  function ShiftRight(b: Int32, n: nat): Int32
    decreases n
  {
    if n == 0 then b else ShiftRight(b / 2, n - 1)
  }

  datatype Computed = Value(v: Int32) | Overflow

  function Checked(x: int): Computed {
    if Fits32(x) then Value(x) else Overflow
  }

  function Flag(b: bool): Computed {
    Value(if b then 1 else 0)
  }

  /** Instructions that compute one register from registers and constants. */
  predicate Computes(op: Op) {
    KindOf(op).CheckedSum? || KindOf(op).SumOrTest? || KindOf(op).Logical? || KindOf(op).Shifting?
  }

  /** Their meaning, with a and b for the registers rs and rt. OR ignores rt, and the logical right
      shifts carry the sign, as the code has it. */
  function Meaning(op: Op, a: Int32, b: Int32, x: Int32, hi: Int32, lo: Int32): Computed
    requires Computes(op)
  {
    match op
    case ADD => Checked(a + b)
    case ADDI => Checked(a + x)
    case ADDIU => Value(To32(a + x))
    case ADDU => Value(To32(a + b))
    case SUB => Checked(a - b)
    case SUBU => Value(To32(a - b))
    case AND => Value(Signed(And32(Wrap(a), Wrap(b))))
    case ANDI => Value(Signed(And32(Wrap(a), Wrap(x) % 0x1_0000)))
    case NOR => Value(Signed(Not32(Or32(Wrap(a), Wrap(b)))))
    case OR => Value(a)
    case ORI => Value(Signed(Or32(Wrap(a), Wrap(x) % 0x1_0000)))
    case XOR => Value(Signed(Xor32(Wrap(a), Wrap(b))))
    case XORI => Value(Signed(Xor32(Wrap(a), Wrap(x) % 0x1_0000)))
    case LUI => Value(To32(x * 0x1_0000))
    case MFHI => Value(hi)
    case MFLO => Value(lo)
    case MTHI => Value(a)
    case MTLO => Value(a)
    case SLL => Value(ShiftLeft(b, Wrap(x) % 32))
    case SLLV => Value(ShiftLeft(b, Wrap(a) % 32))
    case SRA => Value(ShiftRight(b, Wrap(x) % 32))
    case SRAV => Value(ShiftRight(b, Wrap(a) % 32))
    case SRL => Value(ShiftRight(b, Wrap(x) % 32))
    case SRLV => Value(ShiftRight(b, Wrap(a) % 32))
    case SLT => Flag(a < b)
    case SLTI => Flag(a < x)
    case SLTIU => Flag(Wrap(a) < Wrap(x))
    case SLTU => Flag(Wrap(a) < Wrap(b))
  }

  /** The register they write: rt in the immediate format, else rd, and HI or LO for the moves to them. */
  function Dest(f: Fields): (r: nat)
    requires Computes(f.opCode) && f.rt < 32 && f.rd < 32
    ensures r < 34
  {
    match f.opCode
    case MTHI => 32
    case MTLO => 33
    case ADDI => f.rt case ADDIU => f.rt case ANDI => f.rt case LUI => f.rt
    case ORI => f.rt case SLTI => f.rt case SLTIU => f.rt case XORI => f.rt
    case _ => f.rd
  }

  /** The sign bit of an exclusive or, as the overflow tests compute it. */
  function SignsDiffer(a: Int32, b: Int32): Word {
    And32(Xor32(Wrap(a), Wrap(b)), 0x8000_0000)
  }

  /** The tests for overflow of a sum and of a difference look at the signs only. */
  lemma SumOverflows(a: Int32, b: Int32)
    ensures var sum := To32(a + b);
      && (SignsDiffer(a, b) == 0 && SignsDiffer(a, sum) != 0 <==> !Fits32(a + b))
      && (SignsDiffer(a, b) == 0 && SignsDiffer(b, sum) != 0 <==> !Fits32(a + b))
      && (Fits32(a + b) ==> sum == a + b)
  {
    hide And32, Xor32;
    var sum := To32(a + b);
    TopBitsDiffer(Wrap(a), Wrap(b));
    TopBitsDiffer(Wrap(a), Wrap(sum));
    TopBitsDiffer(Wrap(b), Wrap(sum));
    assert forall x: Int32 :: Wrap(x) >= 0x8000_0000 <==> x < 0;
  }

  lemma DifferenceOverflows(a: Int32, b: Int32)
    ensures var diff := To32(a - b);
      && (SignsDiffer(a, b) != 0 && SignsDiffer(a, diff) != 0 <==> !Fits32(a - b))
      && (Fits32(a - b) ==> diff == a - b)
  {
    hide And32, Xor32;
    var diff := To32(a - b);
    TopBitsDiffer(Wrap(a), Wrap(b));
    TopBitsDiffer(Wrap(a), Wrap(diff));
    assert forall x: Int32 :: Wrap(x) >= 0x8000_0000 <==> x < 0;
  }

  lemma ShiftMask(x: nat)
    ensures BitAnd(x, 0x1f) == x % 32
  {
    hide BitAnd;
    AndBit(x, 15);
    AndNibble(x / 2, 0);
    AndNothing(x / 2 / 16);
  }

  /** The computing cases of the switch. */
  method Evaluate(op: Op, a: Int32, b: Int32, x: Int32, hi: Int32, lo: Int32) returns (r: Computed)
    requires Computes(op) && (IsShift(op) ==> 0 <= x < 32)
    ensures r == Meaning(op, a, b, x, hi, lo)
  {
    match KindOf(op) {
      case CheckedSum => r := AddChecked(op, a, b, x);
      case SumOrTest => r := AddOrCompare(op, a, b, x);
      case Shifting => r := Shift(op, a, b, x);
      case Logical => r := Logic(op, a, b, x, hi, lo);
    }
    hide Meaning;
  }

  method AddChecked(op: Op, a: Int32, b: Int32, x: Int32) returns (r: Computed)
    requires KindOf(op) == CheckedSum
    ensures r == Meaning(op, a, b, x, 0, 0)
  {
    hide And32, Xor32;
    match op {
      case ADD =>
        SumOverflows(a, b);
        var sum := To32(a + b);
        if And32(Xor32(Wrap(a), Wrap(b)), 0x8000_0000) == 0 && And32(Xor32(Wrap(a), Wrap(sum)), 0x8000_0000) != 0 {
          return Overflow;
        }
        return Value(sum);
      case ADDI =>
        SumOverflows(a, x);
        var sum := To32(a + x);
        if And32(Xor32(Wrap(a), Wrap(x)), 0x8000_0000) == 0 && And32(Xor32(Wrap(x), Wrap(sum)), 0x8000_0000) != 0 {
          return Overflow;
        }
        return Value(sum);
      case SUB =>
        DifferenceOverflows(a, b);
        var diff := To32(a - b);
        if And32(Xor32(Wrap(a), Wrap(b)), 0x8000_0000) != 0 && And32(Xor32(Wrap(a), Wrap(diff)), 0x8000_0000) != 0 {
          return Overflow;
        }
        return Value(diff);
    }
  }

  method AddOrCompare(op: Op, a: Int32, b: Int32, x: Int32) returns (r: Computed)
    requires KindOf(op) == SumOrTest
    ensures r == Meaning(op, a, b, x, 0, 0)
  {
    match op {
      case ADDIU => r := Value(To32(a + x));
      case ADDU => r := Value(To32(a + b));
      case SUBU => r := Value(To32(a - b));
      case SLT => r := Value(if a < b then 1 else 0);
      case SLTI => r := Value(if a < x then 1 else 0);
      case SLTIU => r := Value(if Wrap(a) < Wrap(x) then 1 else 0);
      case SLTU => r := Value(if Wrap(a) < Wrap(b) then 1 else 0);
    }
  }

  lemma ShiftAmounts(a: Int32, x: Int32)
    ensures And32(Wrap(a), 0x1f) == Wrap(a) % 32
    ensures 0 <= x < 32 ==> Wrap(x) % 32 == x
  {
    hide BitAnd;
    ShiftMask(Wrap(a));
  }

  method Shift(op: Op, a: Int32, b: Int32, x: Int32) returns (r: Computed)
    requires KindOf(op) == Shifting && (IsShift(op) ==> 0 <= x < 32)
    ensures r == Meaning(op, a, b, x, 0, 0)
  {
    hide ShiftLeft, ShiftRight, Wrap, And32;
    ShiftAmounts(a, x);
    var n := And32(Wrap(a), 0x1f);
    match op {
      case SLL => r := Value(ShiftLeft(b, x));
      case SLLV => r := Value(ShiftLeft(b, n));
      case SRA => r := Value(ShiftRight(b, x));
      case SRAV => r := Value(ShiftRight(b, n));
      case SRL =>
        var tmp := b;
        tmp := ShiftRight(tmp, x);
        r := Value(tmp);
      case SRLV =>
        var tmp := b;
        tmp := ShiftRight(tmp, n);
        r := Value(tmp);
    }
  }

  lemma LogicFacts(a: Int32, x: Int32)
    ensures And32(Wrap(x), 0xffff) == Wrap(x) % 0x1_0000 && Signed(Or32(Wrap(a), Wrap(a))) == a
  {
    hide BitAnd, BitOr;
    SignBitOfHalf(Wrap(x));
    OrSelf(Wrap(a));
  }

  method Logic(op: Op, a: Int32, b: Int32, x: Int32, hi: Int32, lo: Int32) returns (r: Computed)
    requires KindOf(op) == Logical
    ensures r == Meaning(op, a, b, x, hi, lo)
  {
    var u, v := Wrap(a), Wrap(b);
    LogicFacts(a, x);
    hide And32, Or32, Xor32, Wrap, Signed;
    var low := And32(Wrap(x), 0xffff);
    match op {
      case AND => r := Value(Signed(And32(u, v)));
      case ANDI => r := Value(Signed(And32(u, low)));
      case NOR => r := Value(Signed(Not32(Or32(u, v))));
      case OR => r := Value(Signed(Or32(u, u)));
      case ORI => r := Value(Signed(Or32(u, low)));
      case XOR => r := Value(Signed(Xor32(u, v)));
      case XORI => r := Value(Signed(Xor32(u, low)));
      case LUI => r := Value(To32(x * 0x1_0000));
      case MFHI => r := Value(hi);
      case MFLO => r := Value(lo);
      case MTHI => r := Value(a);
      case MTLO => r := Value(a);
    }
  }

  // ---------------------------------------------------------------- branches

  predicate IsBranch(op: Op) {
    KindOf(op) == Branching
  }

  /** The register that receives the return address, if any. */
  function LinkReg(f: Fields): nat {
    if f.opCode.BGEZAL? || f.opCode.BLTZAL? || f.opCode.JAL? then 31 else if f.opCode.JALR? then f.rd else 32
  }

  predicate Condition(op: Op, a: Int32, b: Int32) {
    match op
    case BEQ => a == b
    case BNE => a != b
    case BGTZ => a > 0
    case BLEZ => a <= 0
    case BLTZ => a < 0
    case BLTZAL => a < 0
    case _ => a >= 0
  }

  /** Where execution goes after the delay slot; a and b are rs and rt after linking, next the
      address of the delay slot. */
  function Target(f: Fields, a: Int32, b: Int32, next: Int32): Int32
    requires IsBranch(f.opCode)
  {
    if f.opCode.J? || f.opCode.JAL? then
      Signed(Wrap(next + 4) / 0x1000_0000 * 0x1000_0000 + Wrap(4 * f.extra) % 0x1000_0000)
    else if f.opCode.JALR? || f.opCode.JR? then a
    else if Condition(f.opCode, a, b) then To32(next + To32(4 * f.extra))
    else To32(next + 4)
  }

  /** The jump's mask and union: the segment of pc with the word index in it. */
  lemma JumpTarget(pc: Word, low: Word)
    requires low < 0x1000_0000
    ensures Or32(And32(pc, 0xf000_0000), low) == pc / 0x1000_0000 * 0x1000_0000 + low
  {
    hide BitAnd, BitOr;
    AndTopNibble(pc);
    OrTopNibble(low, pc / 0x1000_0000);
  }

  lemma AndTopNibble(x: Word)
    ensures BitAnd(x, 0xf000_0000) == x / 0x1000_0000 * 0x1000_0000
  {
    hide BitAnd;
    AndSkipByte(x, 0xf0_0000);
    AndSkipByte(x / 256, 0xf000);
    AndSkipByte(x / 65536, 0xf0);
    AndNibble(x / 16777216, 15);
    AndNibble(x / 16777216 / 16, 0);
    AndNothing(x / 16777216 / 16 / 16);
    assert x / 256 / 256 == x / 65536 && x / 65536 / 256 == x / 16777216 && x / 16777216 / 16 == x / 0x1000_0000;
  }

  lemma OrTopNibble(low: nat, high: nat)
    requires low < 0x1000_0000
    ensures BitOr(high * 0x1000_0000, low) == high * 0x1000_0000 + low
  {
    assert Pow2(14) == 0x4000;
    assert Pow2(28) == 0x1000_0000;
    hide Pow2, BitOr;
    OrDisjoint(low, high, 28);
    OrCommutes(high * 0x1000_0000, low);
  }

  /** The branch cases of the switch, after linking. */
  method BranchTarget(f: Fields, a: Int32, b: Int32, next: Int32) returns (pcAfter: Int32)
    requires GoodFields(f) && KindOf(f.opCode) == Branching
    ensures pcAfter == Target(f, a, b, next)
  {
    hide To32;
    if f.opCode.J? || f.opCode.JAL? {
      pcAfter := Jump(next, f.extra);
      hide To32, Wrap, Signed;
      return;
    }
    if f.opCode.JALR? || f.opCode.JR? {
      return a;
    }
    var taken := Taken(f.opCode, a, b);
    pcAfter := if taken then To32(next + To32(4 * f.extra)) else To32(next + 4);
  }

  method Jump(next: Int32, index: int) returns (pcAfter: Int32)
    requires 0 <= index < 0x400_0000
    ensures pcAfter == Signed(Wrap(next + 4) / 0x1000_0000 * 0x1000_0000 + Wrap(4 * index) % 0x1000_0000)
  {
    hide And32, Or32, Signed, Wrap;
    pcAfter := To32(next + 4);
    SignedThenWrapped(Wrap(next + 4));
    WordIndex(index);
    JumpTarget(Wrap(next + 4), 4 * index);
    pcAfter := Signed(Or32(And32(Wrap(pcAfter), 0xf000_0000), Wrap(4 * index)));
  }

  lemma WordIndex(index: int)
    requires 0 <= index < 0x400_0000
    ensures Wrap(4 * index) == 4 * index && Wrap(4 * index) % 0x1000_0000 == 4 * index
  {
  }

  method Taken(op: Op, a: Int32, b: Int32) returns (taken: bool)
    requires op.BEQ? || op.BNE? || op.BGEZ? || op.BGEZAL? || op.BLTZ? || op.BLTZAL? || op.BGTZ? || op.BLEZ?
    ensures taken == Condition(op, a, b)
  {
    TopBit(Wrap(a));
    hide And32;
    match op {
      case BEQ => taken := a == b;
      case BNE => taken := a != b;
      case BGEZ => taken := And32(Wrap(a), 0x8000_0000) == 0;
      case BGEZAL => taken := And32(Wrap(a), 0x8000_0000) == 0;
      case BLTZ => taken := And32(Wrap(a), 0x8000_0000) != 0;
      case BLTZAL => taken := And32(Wrap(a), 0x8000_0000) != 0;
      case BGTZ => taken := a > 0;
      case BLEZ => taken := a <= 0;
    }
  }

  // ---------------------------------------------------------------- loads

  predicate IsLoad(op: Op) {
    KindOf(op) == Loading
  }

  /** How many bytes they move. */
  function Size(op: Op): (n: nat)
    ensures n == 1 || n == 2 || n == 4
  {
    if op.LB? || op.LBU? || op.SB? then 1 else if op.LH? || op.LHU? || op.SH? then 2 else 4
  }

  /** What reaches the register, from the bytes in memory and what the register would hold by then. */
  function Extended(op: Op, bytes: seq<Byte>, base: Int32): Int32
    requires IsLoad(op) && |bytes| == Size(op)
  {
    var b0: int := bytes[0];
    if op == LB then (if b0 >= 128 then b0 - 256 else b0)
    else if op == LBU then b0
    else if op == LH then (var h := b0 + 256 * (bytes[1] as int); if h >= 0x8000 then h - 0x1_0000 else h)
    else if op == LHU then b0 + 256 * (bytes[1] as int)
    else if op == LWR then Signed(Wrap(base) / 256 * 256 + (bytes[3] as int))
    else Signed(BytesWord(bytes))
  }

  lemma Halves(m: nat)
    ensures 2 * m % 2 == 0 && 2 * m / 2 == m && (2 * m + 1) % 2 == 1 && (2 * m + 1) / 2 == m
  {
  }

  lemma OrWithNothing(x: nat)
    ensures BitOr(x, 0) == x && BitOr(0, x) == x
  {
  }

  lemma OrEven(x: nat, y: nat)
    requires y % 2 == 0
    ensures BitOr(x, y) == x % 2 + 2 * BitOr(x / 2, y / 2)
  {
    OrWithNothing(x / 2);
    OrWithNothing(y / 2);
  }

  lemma OrOdd(x: nat, y: nat)
    requires y % 2 == 1
    ensures BitOr(x, y) == 1 + 2 * BitOr(x / 2, y / 2)
  {
    OrWithNothing(y / 2);
  }

  lemma OrBit(x: nat, m: nat)
    ensures BitOr(x, 2 * m) == x % 2 + 2 * BitOr(x / 2, m)
    ensures BitOr(x, 2 * m + 1) == 1 + 2 * BitOr(x / 2, m)
  {
    hide BitOr;
    Halves(m);
    OrEven(x, 2 * m);
    OrOdd(x, 2 * m + 1);
  }

  lemma OrNibble(x: nat, m: nat)
    ensures BitOr(x, 16 * m) == x % 16 + 16 * BitOr(x / 16, m)
  {
    hide BitOr;
    OrBit(x, 8 * m);
    OrBit(x / 2, 4 * m);
    OrBit(x / 4, 2 * m);
    OrBit(x / 8, m);
    assert x / 2 / 2 == x / 4 && x / 4 / 2 == x / 8 && x / 8 / 2 == x / 16;
  }

  lemma {:induction false} OrAllOnes(x: nat, n: nat)
    requires x < Pow2(n)
    ensures BitOr(x, Pow2(n) - 1) == Pow2(n) - 1
    decreases n
  {
    if n > 0 {
      OrBit(x, Pow2(n - 1) - 1);
      OrAllOnes(x / 2, n - 1);
      assert 2 * (Pow2(n - 1) - 1) + 1 == Pow2(n) - 1;
      hide BitOr;
    }
  }

  lemma OrSkipByte(x: nat, m: nat)
    ensures BitOr(x, 256 * m) == x % 256 + 256 * BitOr(x / 256, m)
  {
    hide BitOr;
    OrNibble(x, 16 * m);
    OrNibble(x / 16, m);
    assert x / 16 / 16 == x / 256;
    assert x % 256 == x % 16 + 16 * (x / 16 % 16);
  }

  lemma SetUpperBytes(x: Word)
    ensures BitOr(x, 0xffff_ff00) == 0xffff_ff00 + x % 256
    ensures BitOr(x, 0xffff_0000) == 0xffff_0000 + x % 0x1_0000
  {
    assert Pow2(8) == 256;
    assert Pow2(16) == 65536;
    assert Pow2(24) == 16777216;
    hide BitOr, Pow2;
    OrSkipByte(x, 0xff_ffff);
    OrAllOnes(x / 256, 24);
    OrSkipByte(x, 0xffff00);
    OrSkipByte(x / 256, 0xffff);
    OrAllOnes(x / 256 / 256, 16);
    LowTwoBytes(x);
  }

  lemma LowTwoBytes(x: nat)
    ensures x % 0x1_0000 == x % 256 + 256 * (x / 256 % 256)
  {
    var q := x / 256;
    assert x == 0x1_0000 * (q / 256) + (256 * (q % 256) + x % 256);
    Peel16(q / 256, 256 * (q % 256) + x % 256);
  }

  lemma TopOfByte(x: nat)
    ensures x / 16 / 4 / 2 == x / 128
    ensures x % 256 >= 128 <==> x / 128 % 2 == 1
  {
    assert x % 256 == x % 128 + 128 * (x / 128 % 2);
  }

  lemma SignBitOfByte(x: nat)
    ensures BitAnd(x, 0x80) != 0 <==> x % 256 >= 128
  {
    hide BitAnd;
    TopOfByte(x);
    AndNibble(x, 8);
    AndTwoBits(x / 16, 2);
    AndBit(x / 16 / 4, 1);
    AlignmentMasks(x / 16 / 4 / 2);
  }

  lemma SignBitOfHalf(x: nat)
    ensures BitAnd(x, 0x8000) != 0 <==> x % 0x1_0000 >= 0x8000
    ensures BitAnd(x, 0xffff) == x % 0x1_0000
  {
    hide BitAnd;
    AndSkipByte(x, 0x80);
    SignBitOfByte(x / 256);
    AndNibble(x, 0xfff);
    AndNibble(x / 16, 0xff);
    AndLowByte(x / 16 / 16);
    assert x / 16 / 16 == x / 256;
    assert x % 256 == x % 16 + 16 * (x / 16 % 16);
    LowTwoBytes(x);
  }

  /** LB and LBU, after ReadMem: whatever the host's char, the byte is extended as the operation says. */
  method ExtendByte(op: Op, value: Int32) returns (r: Int32)
    requires op.LB? || op.LBU?
    ensures var b := Wrap(value) % 256; r == if op.LB? && b >= 128 then b - 256 else b
  {
    hide BitAnd, BitOr;
    SignBitOfByte(Wrap(value));
    SetUpperBytes(Wrap(value));
    AndLowByte(Wrap(value));
    if And32(Wrap(value), 0x80) != 0 && op.LB? {
      r := Signed(Or32(Wrap(value), 0xffff_ff00));
    } else {
      r := Signed(And32(Wrap(value), 0xff));
    }
  }

  method ExtendHalf(op: Op, value: Int32) returns (r: Int32)
    requires op.LH? || op.LHU?
    ensures var h := Wrap(value) % 0x1_0000; r == if op.LH? && h >= 0x8000 then h - 0x1_0000 else h
  {
    hide BitAnd, BitOr;
    SignBitOfHalf(Wrap(value));
    SetUpperBytes(Wrap(value));
    if And32(Wrap(value), 0x8000) != 0 && op.LH? {
      r := Signed(Or32(Wrap(value), 0xffff_0000));
    } else {
      r := Signed(And32(Wrap(value), 0xffff));
    }
  }

  /** LWR on an aligned word: the top byte of the word replaces the low byte of the register. */
  method MergeLoad(base: Int32, value: Int32) returns (r: Int32)
    ensures r == Signed(Wrap(base) / 256 * 256 + Wrap(value) / 0x100_0000)
  {
    hide And32, Or32, Wrap;
    var w := Wrap(base);
    var high := Wrap(value) / 0x100_0000;
    Merged(w, high);
    r := Signed(Or32(And32(w, 0xffff_ff00), And32(high, 0xff)));
  }

  lemma Merged(w: Word, high: Word)
    requires high < 256
    ensures Or32(And32(w, 0xffff_ff00), And32(high, 0xff)) == w / 256 * 256 + high
  {
    hide BitAnd, BitOr;
    KeepUpperBytes(w);
    LowByteOf(high);
    JoinLowByte(w / 256, high);
  }

  lemma LowByteOf(x: nat)
    requires x < 256
    ensures BitAnd(x, 0xff) == x
  {
    hide BitAnd;
    AndLowByte(x);
  }

  lemma JoinLowByte(q: nat, low: nat)
    requires low < 256
    ensures BitOr(q * 256, low) == q * 256 + low
  {
    hide BitOr;
    OrBytes(low, q);
    OrCommutes(q * 256, low);
  }

  lemma KeepUpperBytes(x: Word)
    ensures BitAnd(x, 0xffff_ff00) == x / 256 * 256
  {
    assert Pow2(8) == 256;
    assert Pow2(16) == 65536;
    assert Pow2(24) == 16777216;
    hide BitAnd, Pow2;
    AndSkipByte(x, 0xff_ffff);
    AndAllOnes(x / 256, 24);
  }

  /** SWR on an aligned word: the low byte of the register replaces the top byte of the word. */
  method MergeStore(value: Int32, v: Int32) returns (r: Int32)
    ensures Wrap(r) == Wrap(value) % 0x100_0000 + 0x100_0000 * (Wrap(v) % 256)
  {
    hide BitAnd, BitOr, Wrap, Signed;
    var low := Wrap(value) % 0x100_0000;
    LowThreeBytes(Wrap(value));
    OrBytes(low, Wrap(v) % 256);
    TopByte(v);
    var u: Word := low + 0x100_0000 * (Wrap(v) % 256);
    SignedThenWrapped(u);
    r := Signed(Or32(And32(Wrap(value), 0xff_ffff), Wrap(Wrap(v) * 0x100_0000)));
  }

  lemma TopByte(v: Int32)
    ensures Wrap(Wrap(v) * 0x100_0000) == Wrap(v) % 256 * 0x100_0000
  {
    var w: int := Wrap(v);
    WrapOver(w % 256 * 0x100_0000, w / 256);
    assert w * 0x100_0000 == w % 256 * 0x100_0000 + 0x1_0000_0000 * (w / 256);
  }

  lemma LowThreeBytes(x: Word)
    ensures BitAnd(x, 0xff_ffff) == x % 0x100_0000
  {
    hide BitAnd;
    AndSplitByte(x, 0xffff);
    AndSplitByte(x / 256, 0xff);
    AndLowByte(x / 256 / 256);
    var q := x / 256;
    var h := q / 256;
    assert x == 0x100_0000 * (h / 256) + (65536 * (h % 256) + 256 * (q % 256) + x % 256);
  }

  lemma AndSplitByte(x: nat, m: nat)
    ensures BitAnd(x, 256 * m + 255) == x % 256 + 256 * BitAnd(x / 256, m)
  {
    hide BitAnd;
    AndNibble(x, 16 * m + 15);
    AndNibble(x / 16, m);
    assert x / 16 / 16 == x / 256;
    assert x % 256 == x % 16 + 16 * (x / 16 % 16);
  }

  /** The bytes a value was read from, as far as the load operations look. */
  predicate ReadFrom(value: Int32, bytes: seq<Byte>) {
    && (|bytes| == 1 ==> Wrap(value) % 256 == bytes[0])
    && (|bytes| == 2 ==> Wrap(value) % 0x1_0000 == (bytes[0] as int) + 256 * (bytes[1] as int))
    && (|bytes| == 4 ==> value == Signed(BytesWord(bytes)))
  }

  /** The load cases of the switch, after ReadMem has given value. */
  method Extend(op: Op, value: Int32, base: Int32, ghost bytes: seq<Byte>) returns (r: Int32)
    requires KindOf(op) == Loading && |bytes| == Size(op) && ReadFrom(value, bytes)
    ensures r == Extended(op, bytes, base)
  {
    match op {
      case LB => r := ExtendByte(op, value);
      case LBU => r := ExtendByte(op, value);
      case LH => r := ExtendHalf(op, value);
      case LHU => r := ExtendHalf(op, value);
      case LW => r := value;
      case LWL => r := value;
      case LWR =>
        r := MergeLoad(base, value);
        TopOfWord(bytes);
    }
  }

  lemma TopOfWord(bytes: seq<Byte>)
    requires |bytes| == 4
    ensures Wrap(Signed(BytesWord(bytes))) / 0x100_0000 == bytes[3]
  {
  }

  // ---------------------------------------------------------------- products and quotients

  /** Division as in C: the quotient rounds toward zero, the remainder has the sign of a. */
  function Quotient(a: int, b: int): int
    requires b != 0
  {
    var q := Abs(a) / Abs(b);
    if (a < 0) != (b < 0) then -q else q
  }

  function Remainder(a: int, b: int): int
    requires b != 0
  {
    var r := Abs(a) % Abs(b);
    if a < 0 then -r else r
  }

  /** What the pair HI:LO means after a multiplication or a division. */
  predicate HiLo(op: Op, a: Int32, b: Int32, hi: Int32, lo: Int32)
    requires KindOf(op) == Multiplying
  {
    match op
    case MULT => hi * 0x1_0000_0000 + Wrap(lo) == a * b
    case MULTU => Wrap(hi) * 0x1_0000_0000 + Wrap(lo) == Wrap(a) * Wrap(b)
    case DIV =>
      if b == 0 then hi == 0 && lo == 0
      else a == b * lo + hi && Abs(hi) < Abs(b) && (hi == 0 || (hi < 0) == (a < 0))
    case DIVU =>
      if b == 0 then hi == 0 && lo == 0
      else Wrap(a) == Wrap(b) * Wrap(lo) + Wrap(hi) && Wrap(hi) < Wrap(b)
  }

  /** The quotient that does not fit a word: the host stops on it. */
  predicate HostFault(op: Op, a: Int32, b: Int32) {
    op.DIV? && a == -0x8000_0000 && b == -1
  }

  /** There is one such quotient. */
  lemma HostFaultExactly(a: Int32, b: Int32)
    requires b != 0
    ensures HostFault(DIV, a, b) <==> !Fits32(Quotient(a, b))
  {
    if a == -0x8000_0000 && b == -1 {
      assert Quotient(a, b) == 0x8000_0000;
    } else {
      DivisionIsExact(a, b);
    }
  }

  lemma DivideDown(x: nat, y: nat)
    requires y > 0
    ensures 0 <= x / y <= x && y * (x / y) + x % y == x && 0 <= x % y <= x
    ensures y > 1 && x > 0 ==> x / y < x
  {
    var q := x / y;
    assert x == y * q + x % y;
    Multiples(y, q);
    hide *;
  }

  lemma Multiples(y: nat, q: nat)
    requires y > 0
    ensures y * q >= q && (y > 1 ==> y * q >= 2 * q)
  {
  }

  lemma DivisionIsExact(a: Int32, b: Int32)
    requires b != 0
    ensures a == b * Quotient(a, b) + Remainder(a, b) && Abs(Remainder(a, b)) < Abs(b)
    ensures Fits32(Remainder(a, b)) && (!HostFault(DIV, a, b) ==> Fits32(Quotient(a, b)))
  {
    DivideDown(Abs(a), Abs(b));
    SignedFactors(Abs(b), Abs(a) / Abs(b));
  }

  lemma SignedFactors(y: int, q: int)
    ensures (-y) * (-q) == y * q && y * (-q) == -(y * q) && (-y) * q == -(y * q)
  {
  }

  method Divide(op: Op, a: Int32, b: Int32) returns (hi: Int32, lo: Int32)
    requires (op.DIV? || op.DIVU?) && !HostFault(op, a, b)
    ensures HiLo(op, a, b, hi, lo)
  {
    if b == 0 {
      return 0, 0;
    }
    if op.DIV? {
      DivisionIsExact(a, b);
      hide Quotient;
      lo := Quotient(a, b);
      hi := Remainder(a, b);
    } else {
      DivideDown(Wrap(a), Wrap(b));
      var quotient: Word := Wrap(a) / Wrap(b);
      var remainder: Word := Wrap(a) % Wrap(b);
      lo := Signed(quotient);
      hi := Signed(remainder);
      SignedThenWrapped(quotient);
      SignedThenWrapped(remainder);
      hide Wrap, Signed;
    }
  }

  // ---------------------------------------------------------------- where the code is not the architecture

  lemma {:induction false} OrAbsorbs(x: nat, y: nat)
    ensures BitOr(x, y) == x <==> BitAnd(x, y) == y
    decreases x + y
  {
    if x == 0 {
    } else if y == 0 {
      AndNothing(x);
    } else {
      OrAbsorbs(x / 2, y / 2);
    }
  }

  lemma WrapInjective(x: Int32, u: Word)
    ensures Signed(u) == x <==> u == Wrap(x)
  {
  }

  /** The code's OR takes rs twice: it is the architecture's exactly when rs has every bit of rt. */
  lemma OrRightWhen(a: Int32, b: Int32)
    ensures Meaning(OR, a, b, 0, 0, 0) == Value(Signed(Or32(Wrap(a), Wrap(b)))) <==> And32(Wrap(a), Wrap(b)) == Wrap(b)
  {
    hide BitOr, BitAnd, Signed, Wrap;
    OrAbsorbs(Wrap(a), Wrap(b));
    WrapInjective(a, Or32(Wrap(a), Wrap(b)));
  }

  lemma OrWrongOnOneAndTwo()
    ensures Meaning(OR, 1, 2, 0, 0, 0) != Value(Signed(Or32(Wrap(1), Wrap(2))))
  {
    hide Meaning, Signed, Or32, And32;
    NoCommonBit();
    OrRightWhen(1, 2);
  }

  lemma NoCommonBit()
    ensures And32(1, 2) == 0
  {
  }

  /** The architecture's logical right shift brings in zeros. */
  function LogicalShiftRight(w: Word, n: nat): Word
    decreases n
  {
    if n == 0 then w else LogicalShiftRight(w / 2, n - 1)
  }

  lemma {:induction false} ShiftSigns(b: Int32, n: nat)
    ensures b < 0 ==> ShiftRight(b, n) < 0
    ensures b >= 0 ==> ShiftRight(b, n) == LogicalShiftRight(b, n)
    decreases n
  {
    if n > 0 { ShiftSigns(b / 2, n - 1); }
  }

  lemma {:induction false} LogicalShiftShrinks(w: Word, n: nat)
    ensures LogicalShiftRight(w, n) <= w
    ensures n > 0 ==> LogicalShiftRight(w, n) <= w / 2
    decreases n
  {
    if n > 0 { LogicalShiftShrinks(w / 2, n - 1); }
  }

  lemma ShiftByNothing(b: Int32)
    ensures ShiftRight(b, 0) == b && LogicalShiftRight(Wrap(b), 0) == Wrap(b)
  {
  }

  /** SRL and SRLV shift a signed integer: that is the architecture's shift exactly when the value is
      not negative or nothing is shifted. */
  lemma LogicalShiftRightWhen(b: Int32, n: nat)
    ensures Wrap(ShiftRight(b, n)) == LogicalShiftRight(Wrap(b), n) <==> b >= 0 || n == 0
  {
    hide ShiftRight, LogicalShiftRight;
    ShiftByNothing(b);
    ShiftSigns(b, n);
    LogicalShiftShrinks(Wrap(b), n);
  }

  /** -2 shifted by one place comes out as -1 where the architecture has the largest word. */
  lemma LogicalShiftRightWrong()
    ensures ShiftRight(-2, 1) == -1 && LogicalShiftRight(Wrap(-2), 1) == 0x7fff_ffff
  {
    assert ShiftRight(-1, 0) == -1 && LogicalShiftRight(0x7fff_ffff, 0) == 0x7fff_ffff;
  }
}
