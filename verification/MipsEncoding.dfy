/** mipssim.h, read the other way: how each operation is written in an instruction word, by its own table,
    and that decoding is the inverse of it. */
module MipsEncoding {
  import opened Bytes
  import opened Mips

  /** Where the number of an operation stands in the word: bits 31:26, the function field of SPECIAL
      (operation 0), or the register field rt of BCOND (operation 1). */
  datatype Code = Primary(k: nat) | Function(funct: nat) | Condition(rt: nat)

  /** The operations that a program can be written in. */
  predicate HasCode(op: Op) {
    !op.RFE? && !op.UNIMP? && !op.RES? && !op.SPECIAL? && !op.BCOND?
  }

  function CodeOf(op: Op): Code
    requires HasCode(op)
  {
    match op
    // arithmetic
    case ADD => Function(0x20) case ADDU => Function(0x21) case ADDI => Primary(8) case ADDIU => Primary(9)
    case SUB => Function(0x22) case SUBU => Function(0x23)
    case MULT => Function(0x18) case MULTU => Function(0x19) case DIV => Function(0x1a) case DIVU => Function(0x1b)
    case MFHI => Function(0x10) case MTHI => Function(0x11) case MFLO => Function(0x12) case MTLO => Function(0x13)
    // logic and comparison
    case AND => Function(0x24) case OR => Function(0x25) case XOR => Function(0x26) case NOR => Function(0x27)
    case ANDI => Primary(12) case ORI => Primary(13) case XORI => Primary(14) case LUI => Primary(15)
    case SLT => Function(0x2a) case SLTU => Function(0x2b) case SLTI => Primary(10) case SLTIU => Primary(11)
    // shifts
    case SLL => Function(0) case SRL => Function(2) case SRA => Function(3)
    case SLLV => Function(4) case SRLV => Function(6) case SRAV => Function(7)
    // jumps, branches and the system call
    case J => Primary(2) case JAL => Primary(3) case JR => Function(8) case JALR => Function(9)
    case BEQ => Primary(4) case BNE => Primary(5) case BLEZ => Primary(6) case BGTZ => Primary(7)
    case BLTZ => Condition(0) case BGEZ => Condition(1) case BLTZAL => Condition(0x10) case BGEZAL => Condition(0x11)
    case SYSCALL => Function(12)
    // loads and stores
    case LB => Primary(0x20) case LBU => Primary(0x24) case LH => Primary(0x21) case LHU => Primary(0x25)
    case LW => Primary(0x23) case LWL => Primary(0x22) case LWR => Primary(0x26)
    case SB => Primary(0x28) case SH => Primary(0x29) case SW => Primary(0x2b)
    case SWL => Primary(0x2a) case SWR => Primary(0x2e)
  }

  /** What an assembler is given for an instruction; extra is the target, the shift or the constant. */
  predicate Encodable(f: Fields) {
    && HasCode(f.opCode) && f.rs < 32 && f.rt < 32 && f.rd < 32
    && match CodeOf(f.opCode)
       case Primary(k) =>
         if f.opCode.J? || f.opCode.JAL? then 0 <= f.extra < 0x400_0000 else -0x8000 <= f.extra < 0x8000
       case Function(_) => 0 <= f.extra < 32
       case Condition(rt) => f.rt == rt && -0x8000 <= f.extra < 0x8000
  }

  /** The word of the instruction. */
  function Assemble(f: Fields): (w: nat)
    requires Encodable(f)
  {
    match CodeOf(f.opCode)
    case Primary(k) =>
      if f.opCode.J? || f.opCode.JAL? then k * 0x400_0000 + f.extra
      else k * 0x400_0000 + f.rs * 0x20_0000 + f.rt * 0x1_0000 + f.extra % 0x1_0000
    case Function(funct) => f.rs * 0x20_0000 + f.rt * 0x1_0000 + f.rd * 0x800 + f.extra * 64 + funct
    case Condition(rt) => 0x400_0000 + f.rs * 0x20_0000 + rt * 0x1_0000 + f.extra % 0x1_0000
  }

  /** Two decodings agree on the fields that the word of the operation has. */
  predicate SameInstruction(f: Fields, g: Fields) {
    && f.opCode == g.opCode && f.extra == g.extra
    && (!f.opCode.J? && !f.opCode.JAL? ==> f.rs == g.rs && f.rt == g.rt)
    && (HasCode(f.opCode) && CodeOf(f.opCode).Function? ==> f.rd == g.rd)
  }

  lemma BranchCodes(op: Op)
    requires HasCode(op) && CodeOf(op).Primary? && CodeOf(op).k < 8
    ensures var k := CodeOf(op).k; 1 < k && OpTable(k) == (op, if op.J? || op.JAL? then JFMT else IFMT)
  {
    match op
    case J => case JAL => case BEQ => case BNE => case BLEZ => case BGTZ =>
  }

  lemma ConstantCodes(op: Op)
    requires HasCode(op) && CodeOf(op).Primary? && 8 <= CodeOf(op).k < 32
    ensures OpTable(CodeOf(op).k) == (op, IFMT) && !op.J? && !op.JAL?
  {
    match op
    case ADDI => case ADDIU => case SLTI => case SLTIU => case ANDI => case ORI => case XORI => case LUI =>
  }

  lemma LoadCodes(op: Op)
    requires HasCode(op) && CodeOf(op).Primary? && 32 <= CodeOf(op).k < 40
    ensures OpTable(CodeOf(op).k) == (op, IFMT) && !op.J? && !op.JAL?
  {
    match op
    case LB => case LH => case LWL => case LW => case LBU => case LHU => case LWR =>
  }

  lemma StoreCodes(op: Op)
    requires HasCode(op) && CodeOf(op).Primary? && CodeOf(op).k >= 40
    ensures CodeOf(op).k < 64 && OpTable(CodeOf(op).k) == (op, IFMT) && !op.J? && !op.JAL?
  {
    match op
    case SB => case SH => case SWL => case SW => case SWR =>
  }

  lemma PrimaryCodes(op: Op)
    requires HasCode(op) && CodeOf(op).Primary?
    ensures var k := CodeOf(op).k; 1 < k < 64 && OpTable(k) == (op, if op.J? || op.JAL? then JFMT else IFMT)
  {
    hide CodeOf, OpTable;
    if CodeOf(op).k < 8 {
      BranchCodes(op);
    } else if CodeOf(op).k < 32 {
      ConstantCodes(op);
    } else if CodeOf(op).k < 40 {
      LoadCodes(op);
    } else {
      StoreCodes(op);
    }
  }

  lemma LowFunctionCodes(op: Op)
    requires HasCode(op) && CodeOf(op).Function? && CodeOf(op).funct < 16
    ensures CodeOf(op).funct < 64 && SpecialTable(CodeOf(op).funct) == op
  {
    match op
    case SLL => case SRL => case SRA => case SLLV => case SRLV => case SRAV => case JR => case JALR =>
    case SYSCALL =>
  }

  lemma MiddleFunctionCodes(op: Op)
    requires HasCode(op) && CodeOf(op).Function? && 16 <= CodeOf(op).funct < 32
    ensures CodeOf(op).funct < 64 && SpecialTable(CodeOf(op).funct) == op
  {
    match op
    case MFHI => case MTHI => case MFLO => case MTLO => case MULT => case MULTU => case DIV => case DIVU =>
  }

  lemma SumCodes(op: Op)
    requires HasCode(op) && CodeOf(op).Function? && 32 <= CodeOf(op).funct < 36
    ensures SpecialTable(CodeOf(op).funct) == op
  {
    match op
    case ADD => case ADDU => case SUB => case SUBU =>
  }

  lemma LogicCodes(op: Op)
    requires HasCode(op) && CodeOf(op).Function? && CodeOf(op).funct >= 36
    ensures CodeOf(op).funct < 64 && SpecialTable(CodeOf(op).funct) == op
  {
    match op
    case AND => case OR => case XOR => case NOR => case SLT => case SLTU =>
  }

  lemma FunctionCodes(op: Op)
    requires HasCode(op) && CodeOf(op).Function?
    ensures CodeOf(op).funct < 64 && SpecialTable(CodeOf(op).funct) == op
  {
    hide CodeOf, SpecialTable;
    if CodeOf(op).funct < 16 {
      LowFunctionCodes(op);
    } else if CodeOf(op).funct < 32 {
      MiddleFunctionCodes(op);
    } else if CodeOf(op).funct < 36 {
      SumCodes(op);
    } else {
      LogicCodes(op);
    }
  }

  lemma ConditionCodes(op: Op)
    requires HasCode(op) && CodeOf(op).Condition?
    ensures CodeOf(op).rt < 32 && BranchOp(CodeOf(op).rt) == op
  {
  }

  lemma JumpFields(k: nat, target: nat)
    requires k < 64 && target < 0x400_0000
    ensures var w := k * 0x400_0000 + target;
      w < 0x1_0000_0000 && w / 0x400_0000 % 64 == k && w % 0x400_0000 == target
  {
  }

  /** The word assembled from an operation and its fields decodes to that operation with those fields. */
  lemma DecodesWhatWasAssembled(f: Fields)
    requires Encodable(f)
    ensures Assemble(f) < 0x1_0000_0000 && SameInstruction(FieldsOf(Assemble(f)), f)
  {
    hide OpTable, SpecialTable, BranchOp, CodeOf;
    var w := Assemble(f);
    match CodeOf(f.opCode)
    case Primary(k) =>
      PrimaryCodes(f.opCode);
      if f.opCode.J? || f.opCode.JAL? {
        JumpFields(k, f.extra);
      } else {
        DecodeImmediate(w, k, f.rs, f.rt, f.extra);
      }
    case Function(funct) =>
      FunctionCodes(f.opCode);
      DecodeRegister(w, funct, f.rs, f.rt, f.rd, f.extra);
    case Condition(rt) =>
      ConditionCodes(f.opCode);
      UpperFields(w, 1, f.rs, rt, f.extra % 0x1_0000);
      FirstTwo();
      ConstantIs(f.extra, w);
  }

  lemma FirstTwo()
    ensures OpTable(0) == (SPECIAL, RFMT) && OpTable(1) == (BCOND, IFMT)
  {
  }

  lemma ConstantIs(x: Int32, w: Word)
    requires -0x8000 <= x < 0x8000 && w % 0x1_0000 == x % 0x1_0000
    ensures ExtraOf(IFMT, w) == x
  {
    assert x % 0x1_0000 == if x < 0 then x + 0x1_0000 else x;
  }

  // ---------------------------------------------------------------- every word

  /** The numbers of the coprocessors. */
  predicate Coprocessor(k: nat) {
    16 <= k < 20 || 48 <= k < 52 || 56 <= k < 60
  }

  lemma LowerTable(k: nat)
    requires 1 < k < 16
    ensures var (op, format) := OpTable(k); HasCode(op) && CodeOf(op) == Primary(k)
    ensures var (op, format) := OpTable(k); (format.JFMT? <==> k < 4) && !format.RFMT?
  {
    match k
    case 2 => case 3 => case 4 => case 5 => case 6 => case 7 => case 8 => case 9 => case 10 => case 11 =>
    case 12 => case 13 => case 14 => case 15 =>
  }

  lemma LoadTable(k: nat)
    requires 32 <= k < 39
    ensures var (op, format) := OpTable(k); HasCode(op) && CodeOf(op) == Primary(k) && format.IFMT?
  {
    match k
    case 32 => case 33 => case 34 => case 35 => case 36 => case 37 => case 38 =>
  }

  lemma StoreTable(k: nat)
    requires 40 <= k < 47 && k != 44 && k != 45
    ensures var (op, format) := OpTable(k); HasCode(op) && CodeOf(op) == Primary(k) && format.IFMT?
  {
    match k
    case 40 => case 41 => case 42 => case 43 => case 46 =>
  }

  lemma RestOfTable(k: nat)
    requires 16 <= k < 32 || k == 39 || k == 44 || k == 45 || 47 <= k < 64
    ensures OpTable(k) == (if Coprocessor(k) then UNIMP else RES, IFMT)
  {
  }

  /** What the operation field says of the word. */
  lemma CodesAgree(k: nat)
    requires k < 64
    ensures var (op, format) := OpTable(k);
      && (k == 0 <==> op == SPECIAL) && (k == 1 <==> op == BCOND)
      && (HasCode(op) ==> CodeOf(op) == Primary(k) && (format.JFMT? <==> op.J? || op.JAL?) && !format.RFMT?)
      && (k > 1 && !HasCode(op) ==> op == if Coprocessor(k) then UNIMP else RES)
      && (HasCode(op) ==> !Coprocessor(k))
  {
    hide CodeOf, OpTable;
    FirstTwo();
    if 1 < k < 16 {
      LowerTable(k);
    } else if 32 <= k < 39 {
      LoadTable(k);
    } else if 40 <= k < 47 && k != 44 && k != 45 {
      StoreTable(k);
    } else if k > 1 {
      RestOfTable(k);
    }
    if k > 1 && HasCode(OpTable(k).0) { JumpCodes(OpTable(k).0); }
  }

  lemma JumpCodes(op: Op)
    requires HasCode(op)
    ensures op.J? || op.JAL? <==> CodeOf(op) == Primary(2) || CodeOf(op) == Primary(3)
  {
  }

  lemma FunctionsAgree(funct: nat)
    requires funct < 64
    ensures var op := SpecialTable(funct);
      (HasCode(op) ==> CodeOf(op) == Function(funct)) && !op.J? && !op.JAL?
  {
  }

  lemma ConditionsAgree(i: nat)
    ensures var op := BranchOp(i);
      (HasCode(op) ==> CodeOf(op) == Condition(i)) && !op.J? && !op.JAL?
  {
  }

  lemma SplitWord(w: Word)
    ensures w / 0x400_0000 < 64 && w == w / 0x400_0000 * 0x400_0000 + w % 0x400_0000
    ensures w % 0x400_0000 == w / 0x20_0000 % 32 * 0x20_0000 + w / 0x1_0000 % 32 * 0x1_0000 + w % 0x1_0000
    ensures w % 0x1_0000 == w / 0x800 % 32 * 0x800 + w / 64 % 32 * 64 + w % 64
  {
    Nested(w);
    var a, b, c, d := w / 64, w / 0x800, w / 0x1_0000, w / 0x20_0000;
    assert w == 64 * a + w % 64 && a == 32 * b + a % 32 && b == 32 * c + b % 32;
    assert c == 32 * d + c % 32 && d == 32 * (w / 0x400_0000) + d % 32;
  }

  /** And every word that decodes to an operation with a code is the one assembled from what it decodes
      to: no two words are the same instruction. */
  lemma AssemblesWhatWasDecoded(w: Word)
    requires HasCode(FieldsOf(w).opCode)
    ensures Encodable(FieldsOf(w)) && Assemble(FieldsOf(w)) == w
  {
    hide OpTable, SpecialTable, BranchOp, CodeOf;
    SplitWord(w);
    var k := w / 0x400_0000;
    assert k % 64 == k;
    CodesAgree(k);
    FirstTwo();
    FunctionsAgree(w % 64);
    ConditionsAgree(w / 0x1_0000 % 32);
    ConstantBack(w);
  }

  lemma ConstantBack(w: Word)
    ensures ExtraOf(IFMT, w) % 0x1_0000 == w % 0x1_0000 && -0x8000 <= ExtraOf(IFMT, w) < 0x8000
  {
  }

  lemma FunctionsWithoutCode(funct: nat)
    requires funct < 64
    ensures var op := SpecialTable(funct); (HasCode(op) || op == UNIMP || op == RES) && (op == UNIMP <==> funct == 13)
  {
  }

  lemma ConditionsWithoutCode(i: nat)
    ensures HasCode(BranchOp(i)) || BranchOp(i) == UNIMP
    ensures BranchOp(i) == UNIMP <==> i != 0 && i != 1 && i != 16 && i != 17
  {
  }

  /** The other words are the reserved ones and those of the coprocessors, of BREAK and of the conditions
      that the simulator does not know. */
  lemma WordsWithoutCode(w: Word)
    ensures var op := FieldsOf(w).opCode; HasCode(op) || op == UNIMP || op == RES
    ensures var k, funct, rt := w / 0x400_0000, w % 64, w / 0x1_0000 % 32;
      FieldsOf(w).opCode == UNIMP <==>
        Coprocessor(k) || (k == 0 && funct == 13) || (k == 1 && rt != 0 && rt != 1 && rt != 16 && rt != 17)
  {
    hide OpTable, SpecialTable, BranchOp, CodeOf, ExtraOf;
    var k := w / 0x400_0000;
    assert k % 64 == k;
    CodesAgree(k);
    FirstTwo();
    FunctionsWithoutCode(w % 64);
    ConditionsWithoutCode(w / 0x1_0000 % 32);
  }
}
