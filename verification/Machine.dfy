/** machine.cc, translate.cc and mipssim.cc: the simulated machine, with its registers, its memory and
    the instructions that work on them. A call of ExceptionHandler is the last thing any of these do;
    the methods end there, and what a method leaves behind is what the handler finds. */
module Machines {
  import opened Bytes
  import opened Endian
  import opened Translation
  import opened Mips
  import Multiplier

  const NumTotalRegs := 40
  const HiReg := 32
  const LoReg := 33
  const PCReg := 34
  const NextPCReg := 35
  const PrevPCReg := 36
  const LoadReg := 37
  const LoadValueReg := 38
  const BadVAddrReg := 39

  type Registers = seq<Int32>

  /** What ExceptionHandler makes of the registers. */
  type ExceptionHandler = (ExceptionType, Registers) -> Registers

  /** A pending load names a general register. */
  predicate GoodRegs(r: Registers) {
    |r| == NumTotalRegs && 0 <= r[LoadReg] < 32
  }

  /** The pending load takes effect, and another one is noted. */
  function Commit(r: Registers, nextReg: Int32, nextValue: Int32): (t: Registers)
    requires GoodRegs(r) && 0 <= nextReg < 32
    ensures GoodRegs(t) && t[0] == 0
  {
    r[r[LoadReg] := r[LoadValueReg]][LoadReg := nextReg][LoadValueReg := nextValue][0 := 0]
  }

  /** What the handler finds. */
  function HandlerEntry(r: Registers, badVAddr: Int32): (t: Registers)
    requires GoodRegs(r)
    ensures GoodRegs(t)
  {
    Commit(r[BadVAddrReg := badVAddr], 0, 0)
  }

  /** What a computing instruction f does to the registers: its one result, or the overflow trap. */
  predicate Produces(f: Fields, r: Registers, e: ExceptionType, t: Registers)
    requires GoodRegs(r) && GoodFields(f) && Computes(f.opCode)
  {
    match Meaning(f.opCode, r[f.rs], r[f.rt], f.extra, r[HiReg], r[LoReg])
    case Value(v) => e == NoException && t == r[Dest(f) := v]
    case Overflow => e == OverflowException && t == HandlerEntry(r, 0)
  }

  datatype Outcome = Completed | Trapped(e: ExceptionType) | Halted

  /** What a multiplication or division does; the host stops on the quotient that does not fit. */
  predicate Divides(f: Fields, r: Registers, o: Outcome, t: Registers)
    requires GoodRegs(r) && |t| == NumTotalRegs && GoodFields(f) && KindOf(f.opCode) == Multiplying
  {
    if HostFault(f.opCode, r[f.rs], r[f.rt]) then o == Halted
    else
      && o == Completed && t == r[HiReg := t[HiReg]][LoReg := t[LoReg]]
      && HiLo(f.opCode, r[f.rs], r[f.rt], t[HiReg], t[LoReg])
  }

  /** The return address in its register. */
  function Linked(f: Fields, r: Registers): (t: Registers)
    requires GoodRegs(r) && GoodFields(f)
    ensures GoodRegs(t)
  {
    if LinkReg(f) < 32 then r[LinkReg(f) := Sum32(r[NextPCReg], 4)] else r
  }

  function Address(f: Fields, r: Registers): Int32
    requires GoodRegs(r) && GoodFields(f)
  {
    To32(r[f.rs] + f.extra)
  }

  /** What a load at physical address p makes of memory and, for LWL and LWR, of the register. */
  function LoadResult(f: Fields, r: Registers, mem: seq<Byte>, p: nat): Int32
    requires GoodRegs(r) && GoodFields(f) && KindOf(f.opCode) == Loading && p + Size(f.opCode) <= |mem|
  {
    var base := if r[LoadReg] == f.rt then r[LoadValueReg] else r[f.rt];
    Extended(f.opCode, mem[p..p + Size(f.opCode)], base)
  }

  /** LWL, LWR, SWL and SWR assert that their address is aligned. */
  predicate Asserts(f: Fields, r: Registers)
    requires GoodRegs(r) && GoodFields(f)
  {
    (f.opCode.LWL? || f.opCode.LWR? || IsPartStore(f.opCode)) && Misaligned(Address(f, r), 4)
  }

  predicate IsPartStore(op: Op): (b: bool)
    ensures b ==> KindOf(op) == Storing && Size(op) == 4
  {
    op.SWL? || op.SWR?
  }

  /** What a load does before its result is due; a is how the address translates for reading. */
  predicate Loads(f: Fields, r: Registers, mem: seq<Byte>, a: Access, o: Outcome, t: Registers,
                  reg: Int32, value: Int32)
    requires GoodRegs(r) && GoodFields(f) && KindOf(f.opCode) == Loading && |mem| == MemorySize
  {
    if Asserts(f, r) then o == Halted
    else match a
      case Fault(e) => o == Trapped(e) && t == HandlerEntry(r, Address(f, r))
      case Hit(_, p) =>
        && o == Completed && t == r && reg == f.rt && p + Size(f.opCode) <= MemorySize
        && value == LoadResult(f, r, mem, p)
  }

  /** A byte as the host's char has it; half words are unsigned. */
  function LoadedValue(bytes: seq<Byte>, charIsSigned: bool): Int32
    requires |bytes| == 1 || |bytes| == 2 || |bytes| == 4
  {
    if |bytes| == 1 then (if charIsSigned && bytes[0] >= 128 then (bytes[0] as int) - 256 else bytes[0])
    else if |bytes| == 2 then (bytes[0] as int) + 256 * (bytes[1] as int)
    else Signed(BytesWord(bytes))
  }

  /** The low bytes of a value, lowest first. */
  function StoredBytes(value: Int32, size: nat): (b: seq<Byte>)
    requires size == 1 || size == 2 || size == 4
    ensures |b| == size
  {
    WordBytes(Wrap(value))[..size]
  }

  /** What a store puts at its address, over the bytes that were there. */
  function Written(op: Op, bytes: seq<Byte>, v: Int32): (b: seq<Byte>)
    requires KindOf(op) == Storing && |bytes| == Size(op)
    ensures |b| == Size(op)
  {
    if op.SWR? then bytes[..3] + [Wrap(v) % 256] else StoredBytes(v, Size(op))
  }

  /** Memory after a store at physical address p. */
  function StoreResult(f: Fields, r: Registers, mem: seq<Byte>, p: nat): (m: seq<Byte>)
    requires GoodRegs(r) && GoodFields(f) && KindOf(f.opCode) == Storing && p + Size(f.opCode) <= |mem|
    ensures |m| == |mem|
  {
    Stored(mem, p, Written(f.opCode, mem[p..p + Size(f.opCode)], r[f.rt]))
  }

  /** SWL and SWR read before they write. */
  function StoreFault(f: Fields, rd: Access, wr: Access): ExceptionType
    requires wr.Fault?
  {
    if IsPartStore(f.opCode) && rd.Fault? then rd.e else wr.e
  }

  /** What a store does; rd and wr are how the address translates for reading and for writing. */
  predicate Stores(f: Fields, r: Registers, mem: seq<Byte>, rd: Access, wr: Access,
                   o: Outcome, t: Registers, m: seq<Byte>)
    requires GoodRegs(r) && GoodFields(f) && KindOf(f.opCode) == Storing && |mem| == MemorySize
  {
    if Asserts(f, r) then o == Halted
    else if wr.Hit? then
      && o == Completed && t == r && wr.phys + Size(f.opCode) <= MemorySize
      && m == StoreResult(f, r, mem, wr.phys)
    else o == Trapped(StoreFault(f, rd, wr)) && t == HandlerEntry(r, Address(f, r)) && m == mem
  }

  /** The switch in ReadMem, on the bytes at the physical address. */
  method Load(hostIsBigEndian: bool, charIsSigned: bool, bytes: seq<Byte>) returns (value: Int32)
    requires |bytes| == 1 || |bytes| == 2 || |bytes| == 4
    ensures value == LoadedValue(bytes, charIsSigned)
  {
    if |bytes| == 1 {
      value := bytes[0];
      if charIsSigned && value >= 128 {
        value := value - 256;
      }
    } else if |bytes| == 2 {
      HalfRoundTrip(bytes[0], bytes[1]);
      value := ShortToHost(hostIsBigEndian, HostHalf(hostIsBigEndian, bytes));
    } else {
      LoadsLittleEndian(hostIsBigEndian, bytes);
      hide WordBytes, BytesWord, Reversed;
      var word := WordToHost(hostIsBigEndian, HostWord(hostIsBigEndian, bytes));
      value := Signed(word);
    }
  }

  lemma HalfRoundTrip(b0: int, b1: int)
    requires 0 <= b0 < 256 && 0 <= b1 < 256
    ensures (256 * b0 + b1) % 256 == b1 && (256 * b0 + b1) / 256 == b0
    ensures (256 * b1 + b0) % 256 == b0 && (256 * b1 + b0) / 256 == b1
  {
  }

  /** The switch in WriteMem: what it puts at the physical address. */
  method Laid(hostIsBigEndian: bool, value: Int32, size: nat) returns (bytes: seq<Byte>)
    requires size == 1 || size == 2 || size == 4
    ensures bytes == StoredBytes(value, size)
  {
    LowHalf(Wrap(value));
    if size == 1 {
      bytes := [Wrap(value) % 256];
    } else if size == 2 {
      HalfRoundTrip(Wrap(value) % 0x1_0000 / 256, Wrap(value) % 256);
      var half := ShortToHost(hostIsBigEndian, Wrap(value) % 0x1_0000);
      bytes := HostHalfBytes(hostIsBigEndian, half);
    } else {
      StoresLittleEndian(Wrap(value));
      hide WordBytes, BytesWord, Reversed;
      var word := WordToHost(hostIsBigEndian, Wrap(value));
      bytes := HostWordBytes(hostIsBigEndian, word);
    }
  }

  lemma LowHalf(w: Word)
    ensures w % 0x1_0000 % 256 == w % 256 && w % 0x1_0000 / 256 == w / 256 % 256
    ensures w % 0x1_0000 == w / 256 % 256 * 256 + w % 256
  {
    var q := w / 256;
    Peel16(q / 256, q % 256 * 256 + w % 256);
    HalfRoundTrip(q % 256, w % 256);
    assert w == q / 256 * 0x1_0000 + (q % 256 * 256 + w % 256);
  }

  /** Where the run of Nachos itself ends: an ASSERT fails, or the host cannot divide. */
  predicate Halts(f: Fields, r: Registers)
    requires GoodRegs(r) && GoodFields(f)
  {
    HostFault(f.opCode, r[f.rs], r[f.rt]) || Asserts(f, r)
  }

  /** The registers after an instruction that completes, from what the switch left in r. */
  function Finish(r: Registers, loadReg: Int32, loadValue: Int32, pcAfter: Int32): (t: Registers)
    requires GoodRegs(r) && 0 <= loadReg < 32
    ensures GoodRegs(t)
  {
    Commit(r, loadReg, loadValue)[PrevPCReg := r[PCReg]][PCReg := r[NextPCReg]][NextPCReg := pcAfter]
  }

  predicate ExecutedMultiply(f: Fields, r: Registers, o: Outcome, t: Registers)
    requires GoodRegs(r) && |t| == NumTotalRegs && GoodFields(f) && KindOf(f.opCode) == Multiplying
  {
    && o == Completed && HiLo(f.opCode, r[f.rs], r[f.rt], t[HiReg], t[LoReg])
    && t == Finish(r[HiReg := t[HiReg]][LoReg := t[LoReg]], 0, 0, Sum32(r[NextPCReg], 4))
  }

  predicate ExecutedBranch(f: Fields, r: Registers, o: Outcome, t: Registers)
    requires GoodRegs(r) && GoodFields(f) && KindOf(f.opCode) == Branching
  {
    var l := Linked(f, r);
    o == Completed && t == Finish(l, 0, 0, Target(f, l[f.rs], l[f.rt], r[NextPCReg]))
  }

  predicate ExecutedLoad(f: Fields, r: Registers, mem: seq<Byte>, rd: Access, o: Outcome, t: Registers)
    requires GoodRegs(r) && GoodFields(f) && KindOf(f.opCode) == Loading && |mem| == MemorySize
  {
    match rd
    case Fault(e) => o == Trapped(e) && t == HandlerEntry(r, Address(f, r))
    case Hit(_, p) =>
      && o == Completed && p + Size(f.opCode) <= MemorySize
      && t == Finish(r, f.rt, LoadResult(f, r, mem, p), Sum32(r[NextPCReg], 4))
  }

  predicate ExecutedStore(f: Fields, r: Registers, mem: seq<Byte>, rd: Access, wr: Access,
                          o: Outcome, t: Registers, m: seq<Byte>)
    requires GoodRegs(r) && GoodFields(f) && KindOf(f.opCode) == Storing && |mem| == MemorySize
  {
    if wr.Hit? then
      && o == Completed && wr.phys + Size(f.opCode) <= MemorySize && t == Finish(r, 0, 0, Sum32(r[NextPCReg], 4))
      && m == StoreResult(f, r, mem, wr.phys)
    else o == Trapped(StoreFault(f, rd, wr)) && m == mem && t == HandlerEntry(r, Address(f, r))
  }

  predicate ExecutedTrap(f: Fields, r: Registers, o: Outcome, t: Registers)
    requires GoodRegs(r) && GoodFields(f)
  {
    o == Trapped(if f.opCode.SYSCALL? then SyscallException else IllegalInstrException) && t == HandlerEntry(r, 0)
  }

  predicate ExecutedCompute(f: Fields, r: Registers, o: Outcome, t: Registers)
    requires GoodRegs(r) && GoodFields(f) && Computes(f.opCode)
  {
    match Meaning(f.opCode, r[f.rs], r[f.rt], f.extra, r[HiReg], r[LoReg])
    case Value(v) => o == Completed && t == Finish(r[Dest(f) := v], 0, 0, Sum32(r[NextPCReg], 4))
    case Overflow => o == Trapped(OverflowException) && t == HandlerEntry(r, 0)
  }

  /** What instruction f does in one go, when Nachos lives on; rd and wr are how its address translates. */
  predicate Executed(f: Fields, r: Registers, mem: seq<Byte>, rd: Access, wr: Access,
                     o: Outcome, t: Registers, m: seq<Byte>)
    requires GoodRegs(r) && GoodFields(f) && |mem| == MemorySize && |t| == NumTotalRegs
  {
    var kind := KindOf(f.opCode);
    if kind == Storing then ExecutedStore(f, r, mem, rd, wr, o, t, m)
    else m == mem && RegistersOnly(f, r, mem, rd, o, t)
  }

  predicate RegistersOnly(f: Fields, r: Registers, mem: seq<Byte>, rd: Access, o: Outcome, t: Registers)
    requires GoodRegs(r) && GoodFields(f) && |mem| == MemorySize && |t| == NumTotalRegs && KindOf(f.opCode) != Storing
  {
    var kind := KindOf(f.opCode);
    if kind == Multiplying then ExecutedMultiply(f, r, o, t)
    else if kind == Branching then ExecutedBranch(f, r, o, t)
    else if kind == Loading then ExecutedLoad(f, r, mem, rd, o, t)
    else if kind == Trapping then ExecutedTrap(f, r, o, t)
    else ExecutedCompute(f, r, o, t)
  }

  /** The use and dirty bits after an instruction's own access to memory. */
  function Touched(f: Fields, entries: seq<TranslationEntry>, rd: Access, wr: Access): (t: seq<TranslationEntry>)
    requires (rd.Hit? ==> rd.index < |entries|) && (wr.Hit? ==> wr.index < |entries|)
    ensures |t| == |entries|
  {
    var read := if KindOf(f.opCode) == Loading || IsPartStore(f.opCode) then Marked(entries, rd, false) else entries;
    if KindOf(f.opCode) == Storing then Marked(read, wr, true) else read
  }

  lemma ZeroRegister(f: Fields, r: Registers, mem: seq<Byte>, rd: Access, wr: Access,
                     o: Outcome, t: Registers, m: seq<Byte>)
    requires GoodRegs(r) && GoodFields(f) && |mem| == MemorySize && |t| == NumTotalRegs
    requires Executed(f, r, mem, rd, wr, o, t, m)
    ensures t[0] == 0
  {
  }

  lemma MergedBytes(value: Int32, bytes: seq<Byte>, v: Int32)
    requires |bytes| == 4
    requires Wrap(value) == Wrap(Signed(BytesWord(bytes))) % 0x100_0000 + 0x100_0000 * (Wrap(v) % 256)
    ensures StoredBytes(value, 4) == bytes[..3] + [Wrap(v) % 256]
  {
    var b0: int, b1: int, b2: int, b3: int := bytes[0], bytes[1], bytes[2], bytes[3];
    SignedThenWrapped(BytesWord(bytes));
    assert BytesWord(bytes) == b3 * 0x100_0000 + (b0 + 256 * b1 + 65536 * b2);
    DropBytes(Wrap(value), b0, b1, b2, Wrap(v) % 256);
  }

  /** The word that SWL or SWR writes, from the word that it has read. */
  method MergePart(op: Op, value: Int32, v: Int32, ghost bytes: seq<Byte>) returns (merged: Int32)
    requires IsPartStore(op) && |bytes| == 4 && ReadFrom(value, bytes)
    ensures StoredBytes(merged, 4) == Written(op, bytes, v)
  {
    if op.SWL? {
      merged := v;
    } else {
      merged := MergeStore(value, v);
      MergedBytes(merged, bytes, v);
    }
  }

  lemma ValueReadFrom(bytes: seq<Byte>, charIsSigned: bool)
    requires |bytes| == 1 || |bytes| == 2 || |bytes| == 4
    ensures ReadFrom(LoadedValue(bytes, charIsSigned), bytes)
  {
  }

  lemma FetchedWord(bytes: seq<Byte>, charIsSigned: bool)
    requires |bytes| == 4
    ensures Wrap(LoadedValue(bytes, charIsSigned)) == BytesWord(bytes)
  {
    SignedThenWrapped(BytesWord(bytes));
  }

  // ---------------------------------------------------------------- between two instructions

  /** The registers after the tick: an interrupt that fires does the pending load, so that the handler
      and whatever runs next find it done. */
  function AfterTick(r: Registers, fires: bool): (t: Registers)
    requires GoodRegs(r)
    ensures GoodRegs(t)
  {
    if fires then Commit(r, 0, 0) else r
  }

  lemma CommitTwice(r: Registers)
    requires GoodRegs(r)
    ensures Commit(Commit(r, 0, 0), 0, 0) == Commit(r, 0, 0)
  {
  }

  /** What the kernel makes of the registers that an instruction left: only a trap leads there. */
  function AfterKernel(kernel: ExceptionHandler, o: Outcome, end: Registers): Registers {
    if o.Trapped? then kernel(o.e, end) else end
  }

  /** An instruction with outcome o left end, and the next one finds start: the kernel has handled the trap,
      if there was one, and then the clock ticked. */
  predicate Between(kernel: ExceptionHandler, o: Outcome, end: Registers, fires: bool, start: Registers) {
    GoodRegs(AfterKernel(kernel, o, end)) && start == AfterTick(AfterKernel(kernel, o, end), fires)
  }

  /** Register 0 is also zero where an instruction starts, if an interrupt fired just before, or the
      kernel has kept it at zero. */
  lemma ZeroAtStart(kernel: ExceptionHandler, o: Outcome, end: Registers, fires: bool, start: Registers)
    requires GoodRegs(end) && end[0] == 0 && Between(kernel, o, end, fires, start)
    requires fires || forall e: ExceptionType :: GoodRegs(kernel(e, end)) ==> kernel(e, end)[0] == 0
    ensures GoodRegs(start) && start[0] == 0
  {
  }

  // ---------------------------------------------------------------- one instruction, and a run of them

  /** The state of the machine: registers, memory, and the entries that translation goes by. */
  datatype Snapshot = Snapshot(regs: Registers, mem: seq<Byte>, entries: seq<TranslationEntry>)

  predicate GoodSnapshot(s: Snapshot) {
    GoodRegs(s.regs) && |s.mem| == MemorySize
  }

  /** How an address translates, through the TLB or through the page table. */
  function WalkBy(byTlb: bool, entries: seq<TranslationEntry>, virtAddr: Int32, size: nat, writing: bool): (a: Access)
    ensures a.Hit? ==> a.index < |entries|
  {
    Walk(entries, if byTlb then TlbFind(entries, virtAddr) else TableFind(entries, virtAddr), virtAddr, size, writing)
  }

  /** The instruction f was fetched by way of a; what becomes of the machine. */
  predicate Runs(byTlb: bool, s: Snapshot, a: Access, f: Fields, o: Outcome, t: Snapshot)
    requires GoodSnapshot(s) && a.Hit? && a.index < |s.entries|
  {
    GoodFields(f) && |t.regs| == NumTotalRegs &&
    var rd := WalkBy(byTlb, s.entries, Address(f, s.regs), Size(f.opCode), false);
    var wr := WalkBy(byTlb, s.entries, Address(f, s.regs), Size(f.opCode), true);
    && !Halts(f, s.regs) && Executed(f, s.regs, s.mem, rd, wr, o, t.regs, t.mem)
    && t.entries == Touched(f, Marked(s.entries, a, false), rd, wr)
  }

  function Fetches(byTlb: bool, s: Snapshot): (a: Access)
    requires GoodSnapshot(s)
    ensures a.Hit? ==> a.index < |s.entries|
  {
    WalkBy(byTlb, s.entries, s.regs[PCReg], 4, false)
  }

  /** What one instruction does from s, when Nachos lives on: a fetch that faults traps and changes nothing
      else, and a word that is fetched is decoded and executed. */
  predicate Steps(byTlb: bool, s: Snapshot, o: Outcome, t: Snapshot) {
    GoodSnapshot(s) &&
    match Fetches(byTlb, s)
    case Fault(e) => o == Trapped(e) && t == Snapshot(HandlerEntry(s.regs, s.regs[PCReg]), s.mem, s.entries)
    case Hit(i, p) => p + 4 <= MemorySize && Runs(byTlb, s, Hit(i, p), FieldsOf(BytesWord(s.mem[p..p + 4])), o, t)
  }

  /** The instruction at s is one on which the run of Nachos itself ends. */
  predicate Stops(byTlb: bool, s: Snapshot) {
    GoodSnapshot(s) &&
    match Fetches(byTlb, s)
    case Fault(_) => false
    case Hit(_, p) =>
      p + 4 <= MemorySize && var f := FieldsOf(BytesWord(s.mem[p..p + 4]));
      GoodFields(f) && Halts(f, s.regs)
  }

  /** The state before instruction k of a run from s. */
  function Before(s: Snapshot, starts: seq<Snapshot>, k: nat): Snapshot
    requires k <= |starts|
  {
    if k == 0 then s else starts[k - 1]
  }

  /** Turn k of a run: an instruction, the kernel if it trapped, and the tick. */
  predicate IsTurn(kernel: ExceptionHandler, fires: nat -> nat, byTlb: bool, before: Snapshot, k: nat, o: Outcome,
                   end: Snapshot, start: Snapshot)
  {
    && Steps(byTlb, before, o, end) && GoodSnapshot(end) && end.regs[0] == 0
    && Between(kernel, o, end.regs, fires(k) > 0, start.regs) && start.mem == end.mem && start.entries == end.entries
  }

  /** Every turn begins where the one before it left the machine. */
  predicate IsRun(kernel: ExceptionHandler, fires: nat -> nat, byTlb: bool, s: Snapshot, outcomes: seq<Outcome>,
                  ends: seq<Snapshot>, starts: seq<Snapshot>)
  {
    |outcomes| == |ends| == |starts| && forall k :: 0 <= k < |ends| ==>
      IsTurn(kernel, fires, byTlb, Before(s, starts, k), k, outcomes[k], ends[k], starts[k])
  }

  lemma NoTurns(kernel: ExceptionHandler, fires: nat -> nat, byTlb: bool, s: Snapshot)
    ensures IsRun(kernel, fires, byTlb, s, [], [], [])
  {
  }

  lemma TurnDone(kernel: ExceptionHandler, fires: nat -> nat, byTlb: bool, before: Snapshot, k: nat, o: Outcome,
                 end: Snapshot, start: Snapshot)
    requires Steps(byTlb, before, o, end) && GoodSnapshot(end) && end.regs[0] == 0
    requires GoodRegs(AfterKernel(kernel, o, end.regs))
    requires start.regs == AfterTick(AfterKernel(kernel, o, end.regs), fires(k) > 0)
    requires start.mem == end.mem && start.entries == end.entries
    ensures IsTurn(kernel, fires, byTlb, before, k, o, end, start)
  {
    hide Steps, AfterTick;
  }

  lemma ZeroAfter(byTlb: bool, s: Snapshot, o: Outcome, t: Snapshot)
    requires Steps(byTlb, s, o, t) && |t.regs| == NumTotalRegs
    ensures t.regs[0] == 0
  {
    hide FieldsOf, BytesWord, Halts, Executed, Touched, Marked, WalkBy;
    var a := Fetches(byTlb, s);
    if a.Hit? {
      var f := FieldsOf(BytesWord(s.mem[a.phys..a.phys + 4]));
      var rd := WalkBy(byTlb, s.entries, Address(f, s.regs), Size(f.opCode), false);
      var wr := WalkBy(byTlb, s.entries, Address(f, s.regs), Size(f.opCode), true);
      ZeroRegister(f, s.regs, s.mem, rd, wr, o, t.regs, t.mem);
    }
  }

  lemma RunGrows(kernel: ExceptionHandler, fires: nat -> nat, byTlb: bool, s: Snapshot, outcomes: seq<Outcome>,
                 ends: seq<Snapshot>, starts: seq<Snapshot>, o: Outcome, end: Snapshot, start: Snapshot)
    requires IsRun(kernel, fires, byTlb, s, outcomes, ends, starts)
    requires IsTurn(kernel, fires, byTlb, Before(s, starts, |starts|), |starts|, o, end, start)
    ensures IsRun(kernel, fires, byTlb, s, outcomes + [o], ends + [end], starts + [start])
    ensures Before(s, starts + [start], |starts| + 1) == start
  {
    hide IsTurn;
    forall k | 0 <= k <= |ends|
      ensures IsTurn(kernel, fires, byTlb, Before(s, starts + [start], k), k, (outcomes + [o])[k], (ends + [end])[k],
        (starts + [start])[k])
    {
      assert Before(s, starts + [start], k) == Before(s, starts, k);
    }
  }

  class Machine {
    const hostIsBigEndian: bool
    const charIsSigned: bool
    const registers: array<Int32>
    const mainMemory: array<Byte>
    var tlb: array?<TranslationEntry>
    var pageTable: array?<TranslationEntry>

    ghost predicate Valid()
      reads this, registers
    {
      && registers.Length == NumTotalRegs && GoodRegs(registers[..])
      && mainMemory.Length == MemorySize && (registers as object) != (mainMemory as object)
      && (tlb == null) != (pageTable == null)
      && (tlb != null ==> tlb.Length == TLBSize)
    }

    /** The table translation goes by. */
    ghost function Entries(): seq<TranslationEntry>
      reads this, tlb, pageTable
      requires (tlb == null) != (pageTable == null)
    {
      if tlb != null then tlb[..] else pageTable[..]
    }

    ghost function State(): Snapshot
      reads this, registers, mainMemory, tlb, pageTable
      requires (tlb == null) != (pageTable == null)
    {
      Snapshot(registers[..], mainMemory[..], Entries())
    }

    ghost function Lookup(virtAddr: Int32, size: nat, writing: bool): (a: Access)
      reads this, tlb, pageTable
      requires (tlb == null) != (pageTable == null)
      ensures a.Hit? ==> a.index < |Entries()|
    {
      Walk(Entries(), Find(virtAddr), virtAddr, size, writing)
    }

    /** How the address of a load or store translates, for reading and for writing. */
    ghost function ReadsAt(f: Fields): (a: Access)
      reads this, registers, tlb, pageTable
      requires Valid() && GoodFields(f)
      ensures a.Hit? ==> a.index < |Entries()|
    {
      Lookup(Address(f, registers[..]), Size(f.opCode), false)
    }

    ghost function WritesAt(f: Fields): (a: Access)
      reads this, registers, tlb, pageTable
      requires Valid() && GoodFields(f)
      ensures a.Hit? ==> a.index < |Entries()|
    {
      Lookup(Address(f, registers[..]), Size(f.opCode), true)
    }

    method DelayedLoad(nextReg: Int32, nextValue: Int32)
      requires Valid() && 0 <= nextReg < 32
      modifies registers
      ensures Valid() && registers[..] == Commit(old(registers[..]), nextReg, nextValue)
    {
      registers[registers[LoadReg]] := registers[LoadValueReg];
      registers[LoadReg] := nextReg;
      registers[LoadValueReg] := nextValue;
      registers[0] := 0;
    }

    method WriteRegister(num: nat, value: Int32)
      requires Valid() && num < NumTotalRegs && (num == LoadReg ==> 0 <= value < 32)
      modifies registers
      ensures Valid() && registers[..] == old(registers[..])[num := value]
    {
      registers[num] := value;
    }

    method RaiseException(which: ExceptionType, badVAddr: Int32)
      requires Valid()
      modifies registers
      ensures Valid() && registers[..] == HandlerEntry(old(registers[..]), badVAddr)
    {
      registers[BadVAddrReg] := badVAddr;
      DelayedLoad(0, 0);
    }

    ghost function Find(virtAddr: Int32): (f: Found)
      reads this, tlb, pageTable
      requires (tlb == null) != (pageTable == null)
      ensures f.At? ==> f.i < |Entries()|
    {
      if tlb != null then TlbFind(tlb[..], virtAddr) else TableFind(pageTable[..], virtAddr)
    }

    method FindEntry(virtAddr: Int32) returns (f: Found)
      requires Valid()
      ensures f == Find(virtAddr)
    {
      var vpn := Wrap(virtAddr) / PageSize;
      if tlb == null {
        if vpn >= pageTable.Length {
          return Missing(AddressErrorException);
        } else if !pageTable[vpn].valid {
          return Missing(PageFaultException);
        }
        return At(vpn);
      }
      var i := 0;
      while i < TLBSize && !(tlb[i].valid && Wrap(tlb[i].virtualPage) == vpn)
        invariant 0 <= i <= TLBSize
        invariant forall j :: 0 <= j < i ==> !Matches(tlb[..][j], virtAddr)
      {
        i := i + 1;
      }
      TlbIndexUnique(tlb[..], virtAddr, i);
      return if i == TLBSize then Missing(PageFaultException) else At(i);
    }

    /** Checks the entry found, marks it, and gives the physical address. */
    method UseEntry(i: nat, virtAddr: Int32, size: nat, writing: bool) returns (e: ExceptionType, physAddr: int)
      requires Valid() && i < |Entries()| && (size == 1 || size == 2 || size == 4) && !Misaligned(virtAddr, size)
      modifies tlb, pageTable
      ensures Valid() && Entries() == Marked(old(Entries()), Through(old(Entries()), i, virtAddr, writing), writing)
      ensures match Through(old(Entries()), i, virtAddr, writing)
        case Fault(x) => e == x != NoException
        case Hit(_, phys) => e == NoException && physAddr == phys && phys + size <= MemorySize
    {
      var entry := if tlb == null then pageTable[i] else tlb[i];
      if entry.readOnly && writing {
        return ReadOnlyException, 0;
      }
      var pageFrame := Wrap(entry.physicalPage);
      if pageFrame >= NumPhysPages {
        return BusErrorException, 0;
      }
      entry := entry.(use := true);
      if writing {
        entry := entry.(dirty := true);
      }
      if tlb == null {
        pageTable[i] := entry;
      } else {
        tlb[i] := entry;
      }
      physAddr := pageFrame * PageSize + Wrap(virtAddr) % PageSize;
      AlignedFits(virtAddr, size);
      assert physAddr >= 0 && physAddr + size <= MemorySize;
      e := NoException;
    }

    method Translate(virtAddr: Int32, size: nat, writing: bool) returns (e: ExceptionType, physAddr: int)
      requires Valid() && (size == 1 || size == 2 || size == 4)
      modifies tlb, pageTable
      ensures Valid() && Entries() == Marked(old(Entries()), old(Lookup(virtAddr, size, writing)), writing)
      ensures match old(Lookup(virtAddr, size, writing))
        case Fault(x) => e == x != NoException
        case Hit(_, phys) => e == NoException && physAddr == phys && phys + size <= MemorySize
    {
      hide BitAnd;
      AlignmentMasks(Wrap(virtAddr));
      AlignedWrap(virtAddr);
      if (size == 4 && And32(Wrap(virtAddr), 3) != 0) || (size == 2 && And32(Wrap(virtAddr), 1) != 0) {
        return AddressErrorException, 0;
      }
      var f := FindEntry(virtAddr);
      if f.Missing? {
        return f.e, 0;
      }
      e, physAddr := UseEntry(f.i, virtAddr, size, writing);
    }

    method ReadMem(addr: Int32, size: nat) returns (ok: bool, value: Int32, raised: ExceptionType)
      requires Valid() && (size == 1 || size == 2 || size == 4)
      modifies registers, tlb, pageTable
      ensures Valid() && Entries() == Marked(old(Entries()), old(Lookup(addr, size, false)), false)
      ensures ok == (raised == NoException)
      ensures match old(Lookup(addr, size, false))
        case Fault(e) => raised == e != NoException && registers[..] == HandlerEntry(old(registers[..]), addr)
        case Hit(_, p) =>
          && raised == NoException && registers[..] == old(registers[..]) && p + size <= MemorySize
          && value == LoadedValue(mainMemory[p..p + size], charIsSigned)
      ensures ok && tlb == null && old(GoodTable(Entries())) ==>
        && AllMapped(old(Entries()), Wrap(addr), size)
        && value == LoadedValue(FlatBytes(mainMemory[..], old(Entries()), Wrap(addr), size), charIsSigned)
    {
      hide LoadedValue, Commit, GoodTable, FlatBytes, AllMapped, TableFind, TlbFind, Walk, Marked;
      var exception, p := Translate(addr, size, false);
      if exception != NoException {
        RaiseException(exception, addr);
        return false, 0, exception;
      }
      if tlb == null && old(GoodTable(Entries())) {
        LoadIsFlatBytes(mainMemory[..], old(Entries()), addr, size);
      }
      value := Load(hostIsBigEndian, charIsSigned, mainMemory[p..p + size]);
      return true, value, NoException;
    }

    /** Stores bytes one after the other. */
    method Store(p: nat, bytes: seq<Byte>)
      requires Valid() && p + |bytes| <= MemorySize
      modifies mainMemory
      ensures Valid() && mainMemory[..] == Stored(old(mainMemory[..]), p, bytes)
    {
      forall k | p <= k < p + |bytes| {
        mainMemory[k] := bytes[k - p];
      }
    }

    method WriteMem(addr: Int32, size: nat, value: Int32) returns (ok: bool, raised: ExceptionType)
      requires Valid() && (size == 1 || size == 2 || size == 4)
      modifies registers, mainMemory, tlb, pageTable
      ensures Valid() && Entries() == Marked(old(Entries()), old(Lookup(addr, size, true)), true)
      ensures ok == (raised == NoException)
      ensures match old(Lookup(addr, size, true))
        case Fault(e) =>
          && raised == e != NoException && mainMemory[..] == old(mainMemory[..])
          && registers[..] == HandlerEntry(old(registers[..]), addr)
        case Hit(_, p) =>
          && raised == NoException && registers[..] == old(registers[..]) && p + size <= MemorySize
          && mainMemory[..] == Stored(old(mainMemory[..]), p, StoredBytes(value, size))
      ensures ok && tlb == null && old(GoodTable(Entries())) ==>
        && AllMapped(old(Entries()), Wrap(addr), size)
        && FlatStore(old(mainMemory[..]), old(Entries()), Wrap(addr), StoredBytes(value, size),
          mainMemory[..], Entries())
    {
      hide StoredBytes, Commit, GoodTable, FlatStore, AllMapped, TableFind, TlbFind, Walk, Marked, Stored;
      var exception, p := Translate(addr, size, true);
      if exception != NoException {
        RaiseException(exception, addr);
        return false, exception;
      }
      if tlb == null && old(GoodTable(Entries())) {
        StoreMarksFlat(mainMemory[..], old(Entries()), addr, StoredBytes(value, size));
      }
      var bytes := Laid(hostIsBigEndian, value, size);
      Store(p, bytes);
      return true, NoException;
    }

    // -------------------------------------------------------------- the instructions, by kind

    method Compute(f: Fields) returns (e: ExceptionType)
      requires Valid() && GoodFields(f) && Computes(f.opCode)
      modifies registers
      ensures Valid() && Produces(f, old(registers[..]), e, registers[..])
    {
      hide Meaning, Commit;
      var result := Evaluate(f.opCode, registers[f.rs], registers[f.rt], f.extra, registers[HiReg], registers[LoReg]);
      if result == Overflow {
        RaiseException(OverflowException, 0);
        return OverflowException;
      }
      WriteRegister(Dest(f), result.v);
      return NoException;
    }

    method Multiply(f: Fields) returns (o: Outcome)
      requires Valid() && GoodFields(f) && KindOf(f.opCode) == Multiplying
      modifies registers
      ensures Valid() && Divides(f, old(registers[..]), o, registers[..])
    {
      var a, b := registers[f.rs], registers[f.rt];
      if HostFault(f.opCode, a, b) {
        return Halted;
      }
      var hi: Int32, lo: Int32;
      if f.opCode.MULT? || f.opCode.MULTU? {
        hi, lo := Multiplier.Mult(a, b, f.opCode.MULT?);
      } else {
        hi, lo := Divide(f.opCode, a, b);
      }
      hide HiLo;
      WriteRegister(HiReg, hi);
      WriteRegister(LoReg, lo);
      return Completed;
    }

    /** Links, and gives the address after the delay slot. */
    method Branch(f: Fields) returns (pcAfter: Int32)
      requires Valid() && GoodFields(f) && KindOf(f.opCode) == Branching
      modifies registers
      ensures Valid() && registers[..] == Linked(f, old(registers[..]))
      ensures pcAfter == Target(f, registers[f.rs], registers[f.rt], old(registers[NextPCReg]))
    {
      hide Target;
      var next := registers[NextPCReg];
      if LinkReg(f) < 32 {
        WriteRegister(LinkReg(f), Sum32(next, 4));
      }
      pcAfter := BranchTarget(f, registers[f.rs], registers[f.rt], next);
    }

    method LoadInstruction(f: Fields) returns (o: Outcome, nextLoadReg: Int32, nextLoadValue: Int32)
      requires Valid() && GoodFields(f) && KindOf(f.opCode) == Loading
      modifies registers, tlb, pageTable
      ensures o != Halted ==> Valid() && 0 <= nextLoadReg < 32
      ensures o != Halted ==> Entries() == Marked(old(Entries()), old(ReadsAt(f)), false)
      ensures Loads(f, old(registers[..]), mainMemory[..], old(ReadsAt(f)),
        o, registers[..], nextLoadReg, nextLoadValue)
    {
      hide HandlerEntry, Commit, LoadResult, Marked, Walk, TlbFind, TableFind, Wrap;
      var tmp := To32(registers[f.rs] + f.extra);
      var size := Size(f.opCode);
      FaultMarksNothing(Entries(), Find(tmp), tmp, size, false);
      if tmp % size != 0 {
        if f.opCode.LWL? || f.opCode.LWR? {
          return Halted, 0, 0;
        }
        RaiseException(AddressErrorException, tmp);
        return Trapped(AddressErrorException), 0, 0;
      }
      o, nextLoadReg, nextLoadValue := LoadFrom(f, tmp, size);
    }

    /** A load once its address is known to be aligned. */
    method LoadFrom(f: Fields, tmp: Int32, size: nat) returns (o: Outcome, nextLoadReg: Int32, nextLoadValue: Int32)
      requires Valid() && GoodFields(f) && KindOf(f.opCode) == Loading
      requires tmp == Address(f, registers[..]) && size == Size(f.opCode)
      modifies registers, tlb, pageTable
      ensures o != Halted && Valid() && 0 <= nextLoadReg < 32
      ensures Entries() == Marked(old(Entries()), old(ReadsAt(f)), false)
      ensures match old(ReadsAt(f))
        case Fault(e) => o == Trapped(e) && registers[..] == HandlerEntry(old(registers[..]), tmp)
        case Hit(_, p) =>
          && o == Completed && registers[..] == old(registers[..]) && nextLoadReg == f.rt && p + size <= MemorySize
          && nextLoadValue == LoadResult(f, registers[..], mainMemory[..], p)
    {
      hide HandlerEntry, Commit, LoadedValue, Extended, ReadFrom, Marked, Walk, TlbFind, TableFind, FlatBytes, KindOf,
        Wrap, Size, Address;
      var base := if registers[LoadReg] == f.rt then registers[LoadValueReg] else registers[f.rt];
      ghost var a := Lookup(tmp, size, false);
      var ok, value, e := ReadMem(tmp, size);
      if !ok {
        return Trapped(e), 0, 0;
      }
      ghost var bytes := mainMemory[a.phys..a.phys + size];
      ValueReadFrom(bytes, charIsSigned);
      nextLoadReg := f.rt;
      nextLoadValue := Extend(f.opCode, value, base, bytes);
      o := Completed;
    }

    method StoreInstruction(f: Fields) returns (o: Outcome)
      requires Valid() && GoodFields(f) && KindOf(f.opCode) == Storing
      modifies registers, mainMemory, tlb, pageTable
      ensures o != Halted ==> Valid()
      ensures o != Halted ==> Entries() == Touched(f, old(Entries()), old(ReadsAt(f)), old(WritesAt(f)))
      ensures Stores(f, old(registers[..]), old(mainMemory[..]), old(ReadsAt(f)), old(WritesAt(f)),
        o, registers[..], mainMemory[..])
    {
      hide HandlerEntry, Commit, StoredBytes, Marked, Walk, TlbFind, TableFind;
      var tmp := To32(registers[f.rs] + f.extra);
      var v := registers[f.rt];
      if f.opCode.SWL? || f.opCode.SWR? {
        o := StorePart(f, tmp, v);
        return;
      }
      var ok, e := WriteMem(tmp, Size(f.opCode), v);
      o := if ok then Completed else Trapped(e);
    }

    /** Reads one word for SWL and SWR, and merges the register's bytes into it; the word they then write
        is at the same place. */
    method MergedWord(f: Fields, tmp: Int32, v: Int32) returns (ok: bool, value: Int32, e: ExceptionType)
      requires Valid() && IsPartStore(f.opCode)
      modifies registers, tlb, pageTable
      ensures Valid() && Lookup(tmp, 4, true) == old(Lookup(tmp, 4, true))
      ensures Entries() == Marked(old(Entries()), old(Lookup(tmp, 4, false)), false)
      ensures match old(Lookup(tmp, 4, false))
        case Fault(x) => !ok && e == x && registers[..] == HandlerEntry(old(registers[..]), tmp)
        case Hit(_, p) =>
          && ok && registers[..] == old(registers[..]) && p + 4 <= MemorySize
          && StoredBytes(value, 4) == Written(f.opCode, mainMemory[p..p + 4], v)
    {
      hide HandlerEntry, Written, StoredBytes, Walk, TlbFind, TableFind, Marked, Commit, LoadedValue;
      ghost var rd := Lookup(tmp, 4, false);
      MarkingKeepsWalks(Entries(), rd, false, tmp, 4, true);
      ok, value, e := ReadMem(tmp, 4);
      if ok {
        ghost var bytes := mainMemory[rd.phys..rd.phys + 4];
        ValueReadFrom(bytes, charIsSigned);
        value := MergePart(f.opCode, value, v, bytes);
      }
    }

    method StorePart(f: Fields, tmp: Int32, v: Int32) returns (o: Outcome)
      requires Valid() && GoodFields(f) && IsPartStore(f.opCode)
      requires tmp == Address(f, registers[..]) && v == registers[f.rt]
      modifies registers, mainMemory, tlb, pageTable
      ensures o != Halted ==> Valid()
      ensures o != Halted ==> Entries() == Touched(f, old(Entries()), old(ReadsAt(f)), old(WritesAt(f)))
      ensures Stores(f, old(registers[..]), old(mainMemory[..]), old(ReadsAt(f)), old(WritesAt(f)),
        o, registers[..], mainMemory[..])
    {
      hide Walk, Marked, Commit, Stored, StoredBytes, Written, TlbFind, TableFind, HandlerEntry;
      if tmp % 4 != 0 {
        return Halted;
      }
      WriteImpliesRead(Entries(), Find(tmp), tmp, 4);
      FaultMarksNothing(Entries(), Find(tmp), tmp, 4, true);
      var ok, value, e := MergedWord(f, tmp, v);
      if !ok {
        return Trapped(e);
      }
      ok, e := WriteMem(tmp, 4, value);
      o := if ok then Completed else Trapped(e);
    }

    // -------------------------------------------------------------- one instruction, and many

    /** The end of OneInstruction: the load that is due, then the program counters. */
    method Advance(nextLoadReg: Int32, nextLoadValue: Int32, pcAfter: Int32)
      requires Valid() && 0 <= nextLoadReg < 32
      modifies registers
      ensures Valid() && registers[..] == Finish(old(registers[..]), nextLoadReg, nextLoadValue, pcAfter)
    {
      DelayedLoad(nextLoadReg, nextLoadValue);
      registers[PrevPCReg] := registers[PCReg];
      registers[PCReg] := registers[NextPCReg];
      registers[NextPCReg] := pcAfter;
    }

    method RunMultiply(f: Fields) returns (o: Outcome)
      requires Valid() && GoodFields(f) && KindOf(f.opCode) == Multiplying
      modifies registers
      ensures Valid() && o.Halted? == HostFault(f.opCode, old(registers[f.rs]), old(registers[f.rt]))
      ensures !o.Halted? ==> ExecutedMultiply(f, old(registers[..]), o, registers[..])
    {
      hide HiLo, HostFault;
      var pcAfter := Sum32(registers[NextPCReg], 4);
      o := Multiply(f);
      if o.Completed? {
        Advance(0, 0, pcAfter);
      }
    }

    method RunBranch(f: Fields) returns (o: Outcome)
      requires Valid() && GoodFields(f) && KindOf(f.opCode) == Branching
      modifies registers
      ensures Valid() && !o.Halted? && ExecutedBranch(f, old(registers[..]), o, registers[..])
    {
      hide Target, Commit, Finish, Linked;
      var pcAfter := Branch(f);
      Advance(0, 0, pcAfter);
      o := Completed;
    }

    method RunLoad(f: Fields) returns (o: Outcome)
      requires Valid() && GoodFields(f) && KindOf(f.opCode) == Loading
      modifies registers, tlb, pageTable
      ensures o.Halted? == old(Asserts(f, registers[..]))
      ensures !o.Halted? ==> Valid() && Entries() == Marked(old(Entries()), old(ReadsAt(f)), false)
      ensures !o.Halted? ==> ExecutedLoad(f, old(registers[..]), mainMemory[..], old(ReadsAt(f)), o, registers[..])
    {
      hide LoadResult, HandlerEntry, Finish, Commit, Walk, Sum32, Marked;
      var pcAfter := Sum32(registers[NextPCReg], 4);
      var nextLoadReg: Int32, nextLoadValue: Int32;
      o, nextLoadReg, nextLoadValue := LoadInstruction(f);
      if o.Completed? {
        Advance(nextLoadReg, nextLoadValue, pcAfter);
      }
    }

    method RunStore(f: Fields) returns (o: Outcome)
      requires Valid() && GoodFields(f) && KindOf(f.opCode) == Storing
      modifies registers, mainMemory, tlb, pageTable
      ensures o.Halted? == old(Asserts(f, registers[..]))
      ensures !o.Halted? ==> Valid() && Entries() == Touched(f, old(Entries()), old(ReadsAt(f)), old(WritesAt(f)))
      ensures !o.Halted? ==> ExecutedStore(f, old(registers[..]), old(mainMemory[..]),
        old(ReadsAt(f)), old(WritesAt(f)), o, registers[..], mainMemory[..])
    {
      hide StoreResult, HandlerEntry, Finish, Commit, Walk, Sum32, Touched;
      var pcAfter := Sum32(registers[NextPCReg], 4);
      o := StoreInstruction(f);
      if o.Completed? {
        Advance(0, 0, pcAfter);
      }
    }

    method RunTrap(f: Fields) returns (o: Outcome)
      requires Valid() && GoodFields(f) && KindOf(f.opCode) == Trapping
      modifies registers
      ensures Valid() && !o.Halted? && ExecutedTrap(f, old(registers[..]), o, registers[..])
    {
      var which := if f.opCode.SYSCALL? then SyscallException else IllegalInstrException;
      RaiseException(which, 0);
      o := Trapped(which);
    }

    method RunCompute(f: Fields) returns (o: Outcome)
      requires Valid() && GoodFields(f) && Computes(f.opCode)
      modifies registers
      ensures Valid() && !o.Halted? && ExecutedCompute(f, old(registers[..]), o, registers[..])
    {
      hide Meaning, Commit, HandlerEntry, Finish, Sum32;
      var pcAfter := Sum32(registers[NextPCReg], 4);
      var e := Compute(f);
      if e != NoException {
        return Trapped(e);
      }
      Advance(0, 0, pcAfter);
      o := Completed;
    }

    /** The switch, and what follows it. */
    method Execute(f: Fields) returns (o: Outcome)
      requires Valid() && GoodFields(f)
      modifies registers, mainMemory, tlb, pageTable
      ensures o.Halted? == Halts(f, old(registers[..]))
      ensures !o.Halted? ==> Valid() && Entries() == Touched(f, old(Entries()), old(ReadsAt(f)), old(WritesAt(f)))
      ensures !o.Halted? ==> Executed(f, old(registers[..]), old(mainMemory[..]),
        old(ReadsAt(f)), old(WritesAt(f)), o, registers[..], mainMemory[..])
    {
      hide ExecutedMultiply, ExecutedBranch, ExecutedLoad, ExecutedStore, ExecutedTrap, ExecutedCompute, Lookup, Marked,
        ReadsAt, WritesAt;
      var kind := KindOf(f.opCode);
      if kind == Multiplying {
        o := RunMultiply(f);
      } else if kind == Branching {
        o := RunBranch(f);
      } else if kind == Loading {
        o := RunLoad(f);
      } else if kind == Storing {
        o := RunStore(f);
      } else if kind == Trapping {
        o := RunTrap(f);
      } else {
        o := RunCompute(f);
      }
    }

    /** The word at the program counter, decoded; reading it moves no translation. */
    method Fetch(instr: Instruction) returns (ok: bool, f: Fields, e: ExceptionType)
      requires Valid()
      modifies registers, tlb, pageTable, instr
      ensures Valid()
      ensures Entries() == Marked(old(Entries()), old(Lookup(registers[PCReg], 4, false)), false)
      ensures match old(Lookup(registers[PCReg], 4, false))
        case Fault(x) => !ok && e == x && registers[..] == HandlerEntry(old(registers[..]), old(registers[PCReg]))
        case Hit(_, p) =>
          && ok && registers[..] == old(registers[..]) && p + 4 <= MemorySize
          && f == FieldsOf(BytesWord(mainMemory[p..p + 4]))
      ensures ok ==> GoodFields(f) && ReadsAt(f) == old(ReadsAt(f)) && WritesAt(f) == old(WritesAt(f))
    {
      hide Commit, HandlerEntry, FieldsOf, Walk, TlbFind, TableFind, Marked, BytesWord, GoodFields, Size, Wrap, Signed,
        To32, LoadedValue;
      ghost var fetch := Lookup(registers[PCReg], 4, false);
      ghost var entries := Entries();
      f := Fields(RES, 0, 0, 0, 0);
      var raw;
      ok, raw, e := ReadMem(registers[PCReg], 4);
      if ok {
        FetchedWord(mainMemory[fetch.phys..fetch.phys + 4], charIsSigned);
        instr.value := Wrap(raw);
        instr.Decode();
        f := Fields(instr.opCode, instr.rs, instr.rt, instr.rd, instr.extra);
        DecodeTotal(instr.value);
        MarkingKeepsWalks(entries, fetch, false, Address(f, registers[..]), Size(f.opCode), false);
        MarkingKeepsWalks(entries, fetch, false, Address(f, registers[..]), Size(f.opCode), true);
      }
    }

    /** Fetches, decodes and executes. A Halted outcome ends Nachos. */
    method OneInstruction(instr: Instruction) returns (o: Outcome)
      requires Valid()
      modifies registers, mainMemory, tlb, pageTable, instr
      ensures o.Halted? == Stops(tlb != null, old(State()))
      ensures !o.Halted? ==> Valid() && Steps(tlb != null, old(State()), o, State())
    {
      hide Executed, Halts, HandlerEntry, FieldsOf, BytesWord, Walk, TlbFind, TableFind, Marked, Touched;
      FaultMarksNothing(Entries(), Find(registers[PCReg]), registers[PCReg], 4, false);
      var ok, f, e := Fetch(instr);
      if !ok {
        return Trapped(e);
      }
      o := Execute(f);
    }

    /** Whatever the registers were before, register 0 is zero after an instruction and at a trap. */
    method Turn(instr: Instruction) returns (o: Outcome)
      requires Valid()
      modifies registers, mainMemory, tlb, pageTable, instr
      ensures o.Halted? == Stops(tlb != null, old(State()))
      ensures !o.Halted? ==> Valid() && Steps(tlb != null, old(State()), o, State()) && registers[..][0] == 0
    {
      hide Steps, Stops;
      ghost var s := State();
      o := OneInstruction(instr);
      if !o.Halted? { ZeroAfter(tlb != null, s, o, State()); }
    }

    /** The clock tick after an instruction: each of the interrupts that fire does the pending load first. */
    method Tick(interrupts: nat)
      requires Valid()
      modifies registers
      ensures Valid() && registers[..] == AfterTick(old(registers[..]), interrupts > 0)
    {
      hide Commit;
      for i := 0 to interrupts
        invariant Valid() && registers[..] == AfterTick(old(registers[..]), i > 0)
      {
        CommitTwice(old(registers[..]));
        DelayedLoad(0, 0);
      }
    }

    /** Machine::Run for n instructions. kernel may do anything to the registers but leave a pending load for
        a register that does not exist. fires(k) interrupts fire at the tick after instruction k. ends are the
        states that the instructions or their traps leave, and starts those that the next ones find: a run of
        instructions, one after the other, up to the end or to one that ends Nachos. */
    method Run(n: nat, instr: Instruction, kernel: ExceptionHandler, fires: nat -> nat)
      returns (halted: bool, ghost outcomes: seq<Outcome>, ghost ends: seq<Snapshot>, ghost starts: seq<Snapshot>)
      requires Valid() && forall e: ExceptionType, r: Registers :: GoodRegs(r) ==> GoodRegs(kernel(e, r))
      modifies registers, mainMemory, tlb, pageTable, instr
      ensures IsRun(kernel, fires, tlb != null, old(State()), outcomes, ends, starts)
      ensures !halted ==> Valid() && |ends| == n && State() == Before(old(State()), starts, n)
      ensures halted ==> |ends| < n && Stops(tlb != null, Before(old(State()), starts, |ends|))
    {
      hide IsRun, IsTurn, Between, AfterTick, Commit, Steps, Stops;
      outcomes, ends, starts := [], [], [];
      ghost var first := State();
      NoTurns(kernel, fires, tlb != null, first);
      for i := 0 to n
        invariant Valid() && |outcomes| == |ends| == |starts| == i && State() == Before(first, starts, i)
        invariant IsRun(kernel, fires, tlb != null, first, outcomes, ends, starts)
      {
        ghost var before := State();
        var o := Turn(instr);
        if o.Halted? {
          return true, outcomes, ends, starts;
        }
        ghost var end := State();
        if o.Trapped? {
          SetRegisters(kernel(o.e, registers[..]));
        }
        Tick(fires(i));
        TurnDone(kernel, fires, tlb != null, before, i, o, end, State());
        RunGrows(kernel, fires, tlb != null, first, outcomes, ends, starts, o, end, State());
        outcomes, ends, starts := outcomes + [o], ends + [end], starts + [State()];
      }
      return false, outcomes, ends, starts;
    }

    method SetRegisters(r: Registers)
      requires Valid() && GoodRegs(r)
      modifies registers
      ensures Valid() && registers[..] == r
    {
      forall i | 0 <= i < NumTotalRegs {
        registers[i] := r[i];
      }
    }
  }

  // ---------------------------------------------------------------- what every instruction keeps

  /** The general register an instruction computes, if any; results of loads come later. */
  function Writes(f: Fields): nat
    requires GoodFields(f)
  {
    if Computes(f.opCode) then Dest(f) else if IsBranch(f.opCode) then LinkReg(f) else 32
  }

  /** An exception is precise: the handler finds the program counters and memory as they were before
      the instruction, and of the general registers only the pending load has been done. */
  lemma PreciseException(f: Fields, r: Registers, mem: seq<Byte>, rd: Access, wr: Access,
                         o: Outcome, t: Registers, m: seq<Byte>, g: nat)
    requires GoodRegs(r) && GoodFields(f) && |mem| == MemorySize && |t| == NumTotalRegs
    requires Executed(f, r, mem, rd, wr, o, t, m) && o.Trapped? && g < LoadReg
    ensures m == mem && t[PCReg] == r[PCReg] && t[NextPCReg] == r[NextPCReg] && t[LoadReg] == 0
    ensures t[g] == if g == 0 then 0 else if g == r[LoadReg] then r[LoadValueReg] else r[g]
  {
  }

  /** An instruction that completes moves the program counters on by one place, keeps register 0 at
      zero, does the pending load, and changes at most one other general register. */
  lemma Completion(f: Fields, r: Registers, mem: seq<Byte>, rd: Access, wr: Access,
                   o: Outcome, t: Registers, m: seq<Byte>, g: nat)
    requires GoodRegs(r) && GoodFields(f) && |mem| == MemorySize && |t| == NumTotalRegs
    requires Executed(f, r, mem, rd, wr, o, t, m) && o.Completed? && g < 32
    ensures t[PCReg] == r[NextPCReg] && t[PrevPCReg] == r[PCReg] && t[0] == 0 && GoodRegs(t)
    ensures KindOf(f.opCode) != Branching ==> t[NextPCReg] == Sum32(r[NextPCReg], 4)
    ensures g != 0 && g == r[LoadReg] ==> t[g] == r[LoadValueReg]
    ensures g != 0 && g != r[LoadReg] && g != Writes(f) ==> t[g] == r[g]
    ensures KindOf(f.opCode) != Loading ==> t[LoadReg] == 0
    ensures KindOf(f.opCode) == Loading ==> t[LoadReg] == f.rt
    ensures KindOf(f.opCode) != Storing ==> m == mem
  {
    hide Meaning, HiLo, Target, Extended, Written, Stored, Sum32, HandlerEntry;
  }

  /** A load, the tick after it, and the next instruction. The load is delayed by one instruction exactly
      when no interrupt fires at the tick. Then the register still holds what it held, and holds the
      value once the next instruction is over, however that ends and whatever it writes itself. Otherwise
      the next instruction finds the value, and may write over it. */
  lemma LoadIsDelayedByOne(f: Fields, r: Registers, mem: seq<Byte>, rd: Access, wr: Access, t: Registers, m: seq<Byte>,
                           fires: bool, f1: Fields, rd1: Access, wr1: Access, o1: Outcome, t1: Registers, m1: seq<Byte>)
    requires GoodRegs(r) && GoodFields(f) && |mem| == MemorySize && |t| == NumTotalRegs
    requires KindOf(f.opCode) == Loading && f.rt != 0 && Executed(f, r, mem, rd, wr, Completed, t, m)
    requires GoodRegs(t) && GoodFields(f1) && |m| == MemorySize && |t1| == NumTotalRegs
    requires Executed(f1, AfterTick(t, fires), m, rd1, wr1, o1, t1, m1)
    ensures var value, next := t[LoadValueReg], AfterTick(t, fires);
      && (next[LoadReg] == f.rt <==> !fires)
      && (r[LoadReg] != f.rt ==> next[f.rt] == if fires then value else r[f.rt])
      && (!fires || o1.Trapped? || Writes(f1) != f.rt ==> t1[f.rt] == value)
      && (fires && o1.Completed? && Computes(f1.opCode) && Dest(f1) == f.rt ==> t1[f.rt] == Computed(f1, next))
  {
    hide Executed, Commit, Finish, Linked, Meaning, HiLo, Target;
    Completion(f, r, mem, rd, wr, Completed, t, m, f.rt);
    CommitShows(t, f.rt);
    var next := AfterTick(t, fires);
    if o1.Trapped? {
      PreciseException(f1, next, m, rd1, wr1, o1, t1, m1, f.rt);
    } else {
      NeverHalted(f1, next, m, rd1, wr1, o1, t1, m1);
      Completion(f1, next, m, rd1, wr1, o1, t1, m1, f.rt);
      if Computes(f1.opCode) && Dest(f1) == f.rt && next[LoadReg] == 0 { ComputedStays(f1, next, m, rd1, wr1, t1, m1); }
    }
  }

  lemma CommitShows(r: Registers, g: nat)
    requires GoodRegs(r) && 0 < g < 32
    ensures Commit(r, 0, 0)[LoadReg] == 0
    ensures Commit(r, 0, 0)[g] == if g == r[LoadReg] then r[LoadValueReg] else r[g]
  {
  }

  /** What a computing instruction that does not trap computes. */
  function Computed(f: Fields, r: Registers): Int32
    requires GoodRegs(r) && GoodFields(f) && Computes(f.opCode)
  {
    match Meaning(f.opCode, r[f.rs], r[f.rt], f.extra, r[HiReg], r[LoReg])
    case Value(v) => v
    case Overflow => 0
  }

  lemma ComputedStays(f: Fields, r: Registers, mem: seq<Byte>, rd: Access, wr: Access, t: Registers, m: seq<Byte>)
    requires GoodRegs(r) && GoodFields(f) && |mem| == MemorySize && |t| == NumTotalRegs && r[LoadReg] == 0
    requires Computes(f.opCode) && 0 < Dest(f) < 32 && Executed(f, r, mem, rd, wr, Completed, t, m)
    ensures t[Dest(f)] == Computed(f, r)
  {
    hide Meaning;
  }

  lemma NeverHalted(f: Fields, r: Registers, mem: seq<Byte>, rd: Access, wr: Access,
                    o: Outcome, t: Registers, m: seq<Byte>)
    requires GoodRegs(r) && GoodFields(f) && |mem| == MemorySize && |t| == NumTotalRegs
    requires Executed(f, r, mem, rd, wr, o, t, m)
    ensures !o.Halted?
  {
  }

  /** What a store of so many bytes keeps of a value, and a load of them gives back. */
  function Narrowed(v: Int32, size: nat, charIsSigned: bool): Int32
    requires size == 1 || size == 2 || size == 4
  {
    if size == 4 then v
    else if size == 2 then Wrap(v) % 0x1_0000
    else if charIsSigned && Wrap(v) % 256 >= 128 then Wrap(v) % 256 - 256
    else Wrap(v) % 256
  }

  lemma WordThenLoaded(v: Int32, charIsSigned: bool)
    ensures LoadedValue(StoredBytes(v, 4), charIsSigned) == v
  {
    hide WordBytes, BytesWord, Wrap, Signed;
    WordRoundTrip(Wrap(v));
    WrapThenSigned(v);
    assert StoredBytes(v, 4) == WordBytes(Wrap(v));
  }

  lemma WrapThenSigned(v: Int32)
    ensures Signed(Wrap(v)) == v
  {
  }

  lemma LowBytes(w: Word)
    ensures WordBytes(w)[0] == w % 256 && WordBytes(w)[1] == w / 256 % 256
    ensures (w % 256) + 256 * (w / 256 % 256) == w % 0x1_0000
  {
    LowHalf(w);
  }

  lemma StoredThenLoaded(v: Int32, size: nat, charIsSigned: bool)
    requires size == 1 || size == 2 || size == 4
    ensures LoadedValue(StoredBytes(v, size), charIsSigned) == Narrowed(v, size, charIsSigned)
  {
    hide WordBytes, BytesWord, Wrap, Signed;
    if size == 4 {
      WordThenLoaded(v, charIsSigned);
    } else {
      LowBytes(Wrap(v));
    }
  }

  /** What is stored through the page table is read back through it, as far as the size goes, by
      whatever frames the page has; what is at other addresses is not changed. */
  lemma StoreThenLoad(mem: seq<Byte>, table: seq<TranslationEntry>, a: nat, v: Int32, size: nat,
                      m: seq<Byte>, t: seq<TranslationEntry>, b: nat, other: nat, charIsSigned: bool)
    requires |mem| == |m| == MemorySize && GoodTable(table) && (size == 1 || size == 2 || size == 4)
    requires FlatStore(mem, table, a, StoredBytes(v, size), m, t)
    requires AllMapped(table, a, size) && AllMapped(table, b, other) && (b + other <= a || a + size <= b)
    ensures AllMapped(t, a, size) && AllMapped(t, b, other)
    ensures LoadedValue(FlatBytes(m, t, a, size), charIsSigned) == Narrowed(v, size, charIsSigned)
    ensures FlatBytes(m, t, b, other) == FlatBytes(mem, table, b, other)
  {
    hide LoadedValue, Narrowed, StoredBytes, GoodTable, FlatByte, Mapped;
    StoredThenLoaded(v, size, charIsSigned);
    assert FlatBytes(m, t, a, size) == StoredBytes(v, size);
  }
}
