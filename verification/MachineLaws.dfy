/** mipssim.cc and translate.cc: what single instructions do to registers and to flat memory, in words of
    their own, and what the use and dirty bits tell after any run. */
module MachineLaws {
  import opened Bytes
  import Endian
  import opened Translation
  import opened Mips
  import MipsLaws
  import opened Machines

  // ---------------------------------------------------------------- jumps that link

  /** The register that a jump or branch leaves its return address in; nothing for the others. */
  predicate LinksTo(f: Fields, reg: nat) {
    (reg == 31 && (f.opCode.JAL? || f.opCode.BGEZAL? || f.opCode.BLTZAL?)) || (reg == f.rd && f.opCode.JALR?)
  }

  /** The branch or jump f has been executed, and left t. */
  predicate BranchDone(f: Fields, r: Registers, mem: seq<Byte>, rd: Access, wr: Access, t: Registers, m: seq<Byte>) {
    && GoodRegs(r) && GoodFields(f) && |mem| == MemorySize && |t| == NumTotalRegs && IsBranch(f.opCode)
    && Executed(f, r, mem, rd, wr, Completed, t, m)
  }

  /** What a jump or branch leaves in the general register reg. */
  predicate Returned(f: Fields, r: Registers, t: Registers, reg: nat) {
    && |r| == |t| == NumTotalRegs && reg < 32
    && (LinksTo(f, reg) ==> Wrap(t[reg]) == Ahead(r[NextPCReg], 4))
    && (LinksTo(f, reg) && Wrap(r[NextPCReg]) == Ahead(r[PCReg], 4) ==> Wrap(t[reg]) == Ahead(r[PCReg], 8))
    && (!LinksTo(f, reg) ==> t[reg] == r[reg])
  }

  /** The return address is the one after the delay slot: eight bytes on from the jump itself when it is not
      in a delay slot. It is there whether or not the branch is taken; only a load that is due for the same
      register writes over it. No other jump or branch changes a general register by itself. */
  lemma ReturnAddress(f: Fields, r: Registers, mem: seq<Byte>, rd: Access, wr: Access,
                      t: Registers, m: seq<Byte>, reg: nat)
    requires BranchDone(f, r, mem, rd, wr, t, m) && 0 < reg < 32
    ensures |r| == NumTotalRegs && (reg != r[LoadReg] ==> Returned(f, r, t, reg))
  {
    hide BranchDone, Target, Finish, Signed, KindOf, Linked, LinksTo, GoodFields, Wrap, Ahead;
    var pcAfter := BranchEnds(f, r, mem, rd, wr, t, m);
    LinkedRegister(f, r, reg);
    TwoOn(r[NextPCReg], r[PCReg]);
    if reg != r[LoadReg] { FinishKeeps(Linked(f, r), pcAfter, reg); }
  }

  lemma BranchEnds(f: Fields, r: Registers, mem: seq<Byte>, rd: Access, wr: Access, t: Registers, m: seq<Byte>)
    returns (pcAfter: Int32)
    requires BranchDone(f, r, mem, rd, wr, t, m)
    ensures GoodRegs(r) && GoodFields(f) && t == Finish(Linked(f, r), 0, 0, pcAfter)
  {
    hide Target, Finish, KindOf, GoodFields, LoadResult, StoreResult, HandlerEntry, Meaning, HiLo;
    RegistersNamed(f);
    var l := Linked(f, r);
    pcAfter := Target(f, l[f.rs], l[f.rt], r[NextPCReg]);
  }

  lemma RegistersNamed(f: Fields)
    requires GoodFields(f)
    ensures f.rs < 32 && f.rt < 32 && f.rd < 32
  {
  }

  /** The word at so many bytes from x. */
  function Ahead(x: int, n: int): Word {
    Wrap(x + n)
  }

  lemma TwoOn(next: int, pc: int)
    ensures Wrap(next) == Ahead(pc, 4) ==> Ahead(next, 4) == Ahead(pc, 8)
  {
    hide Wrap;
    WrapAdds(next, 4);
    WrapAdds(pc + 4, 4);
  }

  lemma WrapAdds(x: int, n: int)
    ensures Wrap(x + n) == Wrap(Wrap(x) + n)
  {
    var q, r := x / 0x1_0000_0000, x % 0x1_0000_0000;
    assert x + n == r + n + 0x1_0000_0000 * q;
    MipsLaws.WholeWords(r + n, q);
  }

  lemma LinkedRegister(f: Fields, r: Registers, reg: nat)
    requires GoodRegs(r) && GoodFields(f) && 0 < reg < 32
    ensures Linked(f, r)[LoadReg] == r[LoadReg]
    ensures LinksTo(f, reg) ==> Wrap(Linked(f, r)[reg]) == Ahead(r[NextPCReg], 4)
    ensures !LinksTo(f, reg) ==> Linked(f, r)[reg] == r[reg]
  {
    hide GoodFields, KindOf;
    SignedThenWrapped(Ahead(r[NextPCReg], 4));
  }

  lemma FinishKeeps(r: Registers, pcAfter: Int32, reg: nat)
    requires GoodRegs(r) && 0 < reg < 32 && reg != r[LoadReg]
    ensures Finish(r, 0, 0, pcAfter)[reg] == r[reg]
    ensures Finish(r, 0, 0, pcAfter)[NextPCReg] == pcAfter
  {
  }

  /** Where a branch leads: from the delay slot on by so many words when it is taken, and past the delay slot
      when not. */
  lemma BranchLeadsTo(f: Fields, r: Registers, mem: seq<Byte>, rd: Access, wr: Access, t: Registers, m: seq<Byte>)
    requires GoodRegs(r) && GoodFields(f) && |mem| == MemorySize && |t| == NumTotalRegs
    requires Executed(f, r, mem, rd, wr, Completed, t, m) && Tests(f.opCode)
    ensures Wrap(t[NextPCReg]) == Ahead(r[NextPCReg], if Holds(f.opCode, r[f.rs], r[f.rt]) then 4 * f.extra else 4)
  {
    hide Finish, Signed, KindOf, GoodFields, Condition, Wrap;
    TestsBranch(f);
    RegistersNamed(f);
    LeadsTo(f, r[f.rs], r[f.rt], r[NextPCReg]);
    FinishKeeps(r, Target(f, r[f.rs], r[f.rt], r[NextPCReg]), if r[LoadReg] == 1 then 2 else 1);
  }

  predicate Tests(op: Op) {
    op.BEQ? || op.BNE? || op.BGTZ? || op.BLEZ? || op.BLTZ? || op.BGEZ?
  }

  /** The test of a branch that does not link. */
  predicate Holds(op: Op, a: int, b: int) {
    (op.BEQ? && a == b) || (op.BNE? && a != b) || (op.BGTZ? && a > 0) || (op.BLEZ? && a <= 0) || (op.BLTZ? && a < 0)
    || (op.BGEZ? && a >= 0)
  }

  lemma TestsBranch(f: Fields)
    requires Tests(f.opCode)
    ensures IsBranch(f.opCode) && LinkReg(f) == 32 && !f.opCode.J? && !f.opCode.JAL?
    ensures GoodFields(f) ==> -0x8000 <= f.extra < 0x8000
  {
  }

  lemma LeadsTo(f: Fields, a: Int32, b: Int32, next: Int32)
    requires Tests(f.opCode) && IsBranch(f.opCode) && -0x8000 <= f.extra < 0x8000
    ensures Wrap(Target(f, a, b, next)) == Ahead(next, if Holds(f.opCode, a, b) then 4 * f.extra else 4)
  {
    hide KindOf, To32, Wrap;
    OffsetIs(f.extra);
    SumIs(next, 4 * f.extra);
    SumIs(next, 4);
  }

  lemma OffsetIs(x: int)
    requires -0x8000 <= x < 0x8000
    ensures To32(4 * x) == 4 * x
  {
  }

  lemma SumIs(next: int, y: int)
    ensures Wrap(To32(next + y)) == Ahead(next, y)
  {
    SignedThenWrapped(Wrap(next + y));
  }

  // ---------------------------------------------------------------- loads and stores on flat memory

  /** What a load makes of four, two or one bytes b and the old register, said of its value alone. */
  predicate LoadedAs(op: Op, b: seq<Byte>, base: Int32, v: Int32)
    requires IsLoad(op) && |b| == Size(op)
  {
    match op
    case LB => -128 <= v < 128 && Wrap(v) % 256 == b[0]
    case LBU => v == b[0]
    case LH => -0x8000 <= v < 0x8000 && Wrap(v) % 0x1_0000 == (b[0] as int) + 256 * (b[1] as int)
    case LHU => v == (b[0] as int) + 256 * (b[1] as int)
    case LW => WordBytes(Wrap(v)) == b
    case LWL => WordBytes(Wrap(v)) == b
    case LWR => Wrap(v) % 256 == b[3] && Wrap(v) / 256 == Wrap(base) / 256
  }

  lemma ExtendedAs(op: Op, b: seq<Byte>, base: Int32)
    requires IsLoad(op) && |b| == Size(op)
    ensures LoadedAs(op, b, base, Extended(op, b, base))
  {
    hide WordBytes, BytesWord, Signed, Wrap, KindOf, LoadedAs, Extended;
    LoadOps(op);
    if op.LB? || op.LBU? {
      BytesAs(op, b, base);
    } else if op.LH? || op.LHU? {
      HalvesAs(op, b, base);
    } else {
      WordsAs(op, b, base);
    }
  }

  lemma LoadOps(op: Op)
    requires IsLoad(op)
    ensures op.LB? || op.LBU? || op.LH? || op.LHU? || op.LW? || op.LWL? || op.LWR?
  {
  }

  lemma BytesAs(op: Op, b: seq<Byte>, base: Int32)
    requires (op.LB? || op.LBU?) && IsLoad(op) && |b| == Size(op)
    ensures LoadedAs(op, b, base, Extended(op, b, base))
  {
    hide Wrap, KindOf;
    ByteAs(b[0]);
  }

  lemma HalvesAs(op: Op, b: seq<Byte>, base: Int32)
    requires (op.LH? || op.LHU?) && IsLoad(op) && |b| == Size(op)
    ensures LoadedAs(op, b, base, Extended(op, b, base))
  {
    hide Wrap, KindOf;
    HalfAs(b[0], b[1]);
  }

  lemma WordsAs(op: Op, b: seq<Byte>, base: Int32)
    requires (op.LW? || op.LWL? || op.LWR?) && IsLoad(op) && |b| == Size(op)
    ensures LoadedAs(op, b, base, Extended(op, b, base))
  {
    hide Wrap, KindOf, WordBytes, BytesWord, Signed;
    SignedThenWrapped(BytesWord(b));
    Endian.BytesRoundTrip(b);
    TopByteReplaced(Wrap(base), b[3]);
  }

  lemma TopByteReplaced(w: Word, b: Byte)
    ensures var u := w / 256 * 256 + (b as int);
      0 <= u < 0x1_0000_0000 && Wrap(Signed(u)) == u && u % 256 == b && u / 256 == w / 256
  {
  }

  lemma ByteAs(b: Byte)
    ensures b >= 128 ==> Wrap((b as int) - 256) % 256 == b
    ensures Wrap(b) % 256 == b
  {
  }

  lemma HalfAs(b0: Byte, b1: Byte)
    ensures var h := (b0 as int) + 256 * (b1 as int);
      Wrap(h) % 0x1_0000 == h && (h >= 0x8000 ==> Wrap(h - 0x1_0000) % 0x1_0000 == h)
  {
    var h: int := (b0 as int) + 256 * (b1 as int);
    WrapSmall(h);
    hide Wrap;
    Peel16(0xffff, h);
  }

  lemma WrapSmall(h: int)
    requires 0 <= h < 0x1_0000
    ensures Wrap(h) == h && Wrap(h - 0x1_0000) == 0xffff * 0x1_0000 + h && h % 0x1_0000 == h
  {
  }

  /** A load through a page table finds the bytes of flat memory at its address, as many as it loads, and
      has them for the register rt, extended as the operation says. */
  lemma LoadsFromFlat(f: Fields, r: Registers, mem: seq<Byte>, table: seq<TranslationEntry>, wr: Access,
                      t: Registers, m: seq<Byte>)
    requires GoodRegs(r) && GoodFields(f) && |mem| == MemorySize && |t| == NumTotalRegs && GoodTable(table)
    requires IsLoad(f.opCode)
    requires Executed(f, r, mem, TableWalk(table, Address(f, r), Size(f.opCode), false), wr, Completed, t, m)
    ensures var a := Ahead(r[f.rs], f.extra);
      var base := if r[LoadReg] == f.rt then r[LoadValueReg] else r[f.rt];
      && AllMapped(table, a, Size(f.opCode)) && t[LoadReg] == f.rt
      && LoadedAs(f.opCode, FlatBytes(mem, table, a, Size(f.opCode)), base, t[LoadValueReg])
  {
    hide GoodTable, FlatBytes, AllMapped, Extended, LoadedAs, TableWalk, Finish, GoodFields;
    RegistersNamed(f);
    SignedThenWrapped(Ahead(r[f.rs], f.extra));
    SizesAre(f.opCode);
    LoadIsFlatBytes(mem, table, Address(f, r), Size(f.opCode));
    var base := if r[LoadReg] == f.rt then r[LoadValueReg] else r[f.rt];
    var p := TableWalk(table, Address(f, r), Size(f.opCode), false).phys;
    FinishLoads(r, f.rt, LoadResult(f, r, mem, p), Sum32(r[NextPCReg], 4));
    ExtendedAs(f.opCode, FlatBytes(mem, table, Wrap(Address(f, r)), Size(f.opCode)), base);
  }

  lemma FinishLoads(r: Registers, reg: Int32, v: Int32, pcAfter: Int32)
    requires GoodRegs(r) && 0 <= reg < 32
    ensures Finish(r, reg, v, pcAfter)[LoadReg] == reg && Finish(r, reg, v, pcAfter)[LoadValueReg] == v
  {
  }

  lemma SizesAre(op: Op)
    ensures Size(op) in {1, 2, 4}
  {
  }

  /** The bytes that a store puts down over b: the low bytes of the register, lowest first, and for SWR only
      the last byte of the word. */
  function PutDown(op: Op, b: seq<Byte>, v: Int32): (c: seq<Byte>)
    requires KindOf(op) == Storing && |b| == Size(op)
  {
    var w := Wrap(v);
    if op.SB? then [w % 256]
    else if op.SH? then [w % 256, w / 256 % 256]
    else if op.SWR? then [b[0], b[1], b[2], w % 256]
    else [w % 256, w / 256 % 256, w / 65536 % 256, w / 16777216]
  }

  lemma WrittenIs(op: Op, b: seq<Byte>, v: Int32)
    requires KindOf(op) == Storing && |b| == Size(op)
    ensures Written(op, b, v) == PutDown(op, b, v) && |PutDown(op, b, v)| == Size(op)
  {
    hide Wrap;
    StoreOps(op);
  }

  lemma StoreOps(op: Op)
    requires KindOf(op) == Storing
    ensures op.SB? || op.SH? || op.SW? || op.SWL? || op.SWR?
  {
  }

  /** A store through a page table changes flat memory at the bytes it stores and nowhere else, and marks
      its page. */
  lemma StoresToFlat(f: Fields, r: Registers, mem: seq<Byte>, table: seq<TranslationEntry>, rd: Access,
                     t: Registers, m: seq<Byte>)
    requires GoodRegs(r) && GoodFields(f) && |mem| == MemorySize && |t| == NumTotalRegs && GoodTable(table)
    requires KindOf(f.opCode) == Storing
    requires Executed(f, r, mem, rd, TableWalk(table, Address(f, r), Size(f.opCode), true), Completed, t, m)
    ensures var a, n := Ahead(r[f.rs], f.extra), Size(f.opCode);
      && AllMapped(table, a, n) && TableWalk(table, Address(f, r), n, true).Hit?
      && FlatStore(mem, table, a, PutDown(f.opCode, FlatBytes(mem, table, a, n), r[f.rt]), m,
        Marked(table, TableWalk(table, Address(f, r), n, true), true))
  {
    hide GoodTable, FlatBytes, AllMapped, TableWalk, Finish, GoodFields, FlatStore, Written, PutDown, Marked, Stored;
    RegistersNamed(f);
    SizesAre(f.opCode);
    SignedThenWrapped(Ahead(r[f.rs], f.extra));
    var n, addr := Size(f.opCode), Address(f, r);
    WriteReads(table, addr, n);
    LoadIsFlatBytes(mem, table, addr, n);
    var p := TableWalk(table, addr, n, true).phys;
    WrittenIs(f.opCode, mem[p..p + n], r[f.rt]);
    StoreMarksFlat(mem, table, addr, Written(f.opCode, mem[p..p + n], r[f.rt]));
  }

  lemma WriteReads(table: seq<TranslationEntry>, virtAddr: Int32, size: nat)
    ensures var rd, wr := TableWalk(table, virtAddr, size, false), TableWalk(table, virtAddr, size, true);
      wr.Hit? ==> rd == wr
  {
  }

  // ---------------------------------------------------------------- what the bits tell

  /** A store leaves the entry it went by used and dirty; a load leaves it used, and as dirty as it was. No
      other entry changes, and no entry in any other respect. */
  lemma AccessMarks(entries: seq<TranslationEntry>, i: nat, p: nat, writing: bool, j: nat)
    requires i < |entries| && j < |entries|
    ensures var t := Marked(entries, Hit(i, p), writing);
      && |t| == |entries| && t[i].use && t[i].dirty == (writing || entries[i].dirty)
      && SameMapping(t[j], entries[j]) && (j != i ==> t[j] == entries[j])
  {
  }

  predicate SameMapping(x: TranslationEntry, y: TranslationEntry) {
    x.virtualPage == y.virtualPage && x.physicalPage == y.physicalPage && x.valid == y.valid && x.readOnly == y.readOnly
  }

  /** The entry x has come of y by accesses. */
  predicate Since(x: TranslationEntry, y: TranslationEntry) {
    SameMapping(x, y) && (y.use ==> x.use) && (y.dirty ==> x.dirty)
  }

  /** Entry i is dirty, and byte k of memory is in its frame. */
  predicate DirtyFrame(entries: seq<TranslationEntry>, i: nat, k: int) {
    i < |entries| && entries[i].dirty && entries[i].physicalPage == k / 256
  }

  /** From s to t no bit has been cleared and no page has moved, and every byte of memory that is not the same
      is in the frame of a dirty entry. */
  ghost predicate BitsTell(s: Snapshot, t: Snapshot) {
    && |t.entries| == |s.entries| && |t.mem| == |s.mem|
    && (forall i :: 0 <= i < |s.entries| ==> Since(t.entries[i], s.entries[i]))
    && (forall k :: 0 <= k < |s.mem| && t.mem[k] != s.mem[k] ==> exists i :: DirtyFrame(t.entries, i, k))
  }

  lemma BitsTellOn(s: Snapshot, t: Snapshot, u: Snapshot)
    requires BitsTell(s, t) && BitsTell(t, u)
    ensures BitsTell(s, u)
  {
    forall k | 0 <= k < |s.mem| && u.mem[k] != s.mem[k] ensures exists i :: DirtyFrame(u.entries, i, k) {
      if t.mem[k] != s.mem[k] {
        var i :| DirtyFrame(t.entries, i, k);
        assert DirtyFrame(u.entries, i, k);
      }
    }
  }

  lemma MarkingTells(s: Snapshot, a: Access, writing: bool)
    requires a.Hit? ==> a.index < |s.entries|
    ensures BitsTell(s, s.(entries := Marked(s.entries, a, writing)))
  {
  }

  /** A write through an entry that has been marked for it. */
  lemma StoringTells(s: Snapshot, byTlb: bool, virtAddr: Int32, entries: seq<TranslationEntry>, bytes: seq<Byte>)
    requires |entries| == |s.entries| && (|bytes| == 1 || |bytes| == 2 || |bytes| == 4) && |s.mem| == MemorySize
    requires var a := WalkBy(byTlb, s.entries, virtAddr, |bytes|, true);
      && a.Hit? && a.phys + |bytes| <= MemorySize && SameMapping(entries[a.index], s.entries[a.index])
    ensures var a := WalkBy(byTlb, s.entries, virtAddr, |bytes|, true);
      BitsTell(s.(entries := entries), Snapshot(s.regs, Stored(s.mem, a.phys, bytes), Marked(entries, a, true)))
  {
    hide TlbFind, TableFind;
    AlignedFits(virtAddr, |bytes|);
    var a := WalkBy(byTlb, s.entries, virtAddr, |bytes|, true);
    var m, t := Stored(s.mem, a.phys, bytes), Marked(entries, a, true);
    forall k | 0 <= k < |s.mem| && m[k] != s.mem[k] ensures exists i :: DirtyFrame(t, i, k) {
      assert a.phys <= k < a.phys + |bytes|;
      assert DirtyFrame(t, a.index, k);
    }
  }

  lemma NothingTells(s: Snapshot, t: Snapshot)
    requires t.mem == s.mem && t.entries == s.entries
    ensures BitsTell(s, t)
  {
  }

  /** The entries before an instruction writes, if it does: what the fetch and a read have marked. */
  function BeforeWriting(f: Fields, entries: seq<TranslationEntry>, a: Access, rd: Access): (t: seq<TranslationEntry>)
    requires (a.Hit? ==> a.index < |entries|) && (rd.Hit? ==> rd.index < |entries|)
    ensures |t| == |entries|
  {
    var fetched := Marked(entries, a, false);
    if KindOf(f.opCode) == Loading || IsPartStore(f.opCode) then Marked(fetched, rd, false) else fetched
  }

  lemma ReadingTells(s: Snapshot, f: Fields, a: Access, rd: Access)
    requires (a.Hit? ==> a.index < |s.entries|) && (rd.Hit? ==> rd.index < |s.entries|)
    ensures BitsTell(s, s.(entries := BeforeWriting(f, s.entries, a, rd)))
  {
    hide BitsTell, Marked, KindOf;
    var fetched := s.(entries := Marked(s.entries, a, false));
    MarkingTells(s, a, false);
    MarkingTells(fetched, rd, false);
    BitsTellOn(s, fetched, fetched.(entries := Marked(fetched.entries, rd, false)));
  }

  lemma TouchedIs(f: Fields, entries: seq<TranslationEntry>, a: Access, rd: Access, wr: Access)
    requires (a.Hit? ==> a.index < |entries|) && (rd.Hit? ==> rd.index < |entries|)
    requires (wr.Hit? ==> wr.index < |entries|)
    ensures Touched(f, Marked(entries, a, false), rd, wr)
      == if KindOf(f.opCode) == Storing then Marked(BeforeWriting(f, entries, a, rd), wr, true)
         else BeforeWriting(f, entries, a, rd)
  {
    hide Marked, KindOf;
  }

  /** Whatever an instruction does, the bits tell. */
  lemma InstructionTells(byTlb: bool, s: Snapshot, o: Outcome, t: Snapshot)
    requires Steps(byTlb, s, o, t)
    ensures BitsTell(s, t)
  {
    hide BitsTell, Executed, Halts, HandlerEntry, FieldsOf, BytesWord, WalkBy, Marked, Touched, GoodFields,
      BeforeWriting;
    var a := Fetches(byTlb, s);
    if a.Fault? {
      NothingTells(s, t);
    } else {
      var f := FieldsOf(BytesWord(s.mem[a.phys..a.phys + 4]));
      var addr := Address(f, s.regs);
      var rd := WalkBy(byTlb, s.entries, addr, Size(f.opCode), false);
      var wr := WalkBy(byTlb, s.entries, addr, Size(f.opCode), true);
      var read := s.(entries := BeforeWriting(f, s.entries, a, rd));
      ReadingTells(s, f, a, rd);
      TouchedIs(f, s.entries, a, rd, wr);
      WritingTells(byTlb, s, f, rd, wr, read, o, t);
      BitsTellOn(s, read, t);
    }
  }

  lemma WritingTells(byTlb: bool, s: Snapshot, f: Fields, rd: Access, wr: Access, read: Snapshot, o: Outcome,
                     t: Snapshot)
    requires GoodSnapshot(s) && GoodFields(f) && |t.regs| == NumTotalRegs
    requires wr == WalkBy(byTlb, s.entries, Address(f, s.regs), Size(f.opCode), true)
    requires read.regs == s.regs && read.mem == s.mem && BitsTell(s, read)
    requires Executed(f, s.regs, s.mem, rd, wr, o, t.regs, t.mem)
    requires t.entries == if KindOf(f.opCode) == Storing then Marked(read.entries, wr, true) else read.entries
    ensures BitsTell(read, t)
  {
    hide RegistersOnly, HandlerEntry, Finish, GoodFields, Marked, WalkBy, Stored, Written, Asserts;
    if KindOf(f.opCode) != Storing {
      NothingTells(read, t);
    } else if wr.Fault? {
      MarkingTells(read, wr, true);
      NothingTells(read.(entries := Marked(read.entries, wr, true)), t);
      BitsTellOn(read, read.(entries := Marked(read.entries, wr, true)), t);
    } else {
      RegistersNamed(f);
      var bytes := Written(f.opCode, s.mem[wr.phys..wr.phys + Size(f.opCode)], s.regs[f.rt]);
      StoringTells(s, byTlb, Address(f, s.regs), read.entries, bytes);
    }
  }

  /** After any run, from any state, and with the kernel free to change registers between instructions: a
      byte of memory that is not what it was at the start is in the frame of a dirty entry. A page that is
      clean has not been written. */
  lemma {:induction false} CleanPagesAreUnchanged(kernel: ExceptionHandler, fires: nat -> nat, byTlb: bool, s: Snapshot,
      outcomes: seq<Outcome>, ends: seq<Snapshot>, starts: seq<Snapshot>, k: nat)
    requires Machines.IsRun(kernel, fires, byTlb, s, outcomes, ends, starts) && k <= |starts|
    ensures BitsTell(s, Before(s, starts, k))
  {
    hide BitsTell, Steps;
    if k == 0 {
      NothingTells(s, s);
    } else {
      CleanPagesAreUnchanged(kernel, fires, byTlb, s, outcomes, ends, starts, k - 1);
      var last := Before(s, starts, k - 1);
      assert IsTurn(kernel, fires, byTlb, last, k - 1, outcomes[k - 1], ends[k - 1], starts[k - 1]);
      InstructionTells(byTlb, last, outcomes[k - 1], ends[k - 1]);
      NothingTells(ends[k - 1], starts[k - 1]);
      BitsTellOn(s, last, ends[k - 1]);
      BitsTellOn(s, ends[k - 1], starts[k - 1]);
    }
  }
}
