/** translate.cc: what address translation computes, and why paged memory looks like flat memory. */
module Translation {
  import opened Bytes
  import opened Endian

  const PageSize: int := 256
  const NumPhysPages: int := 32
  const MemorySize: int := 8192
  const TLBSize: int := 4

  datatype ExceptionType =
    | NoException | SyscallException | PageFaultException | ReadOnlyException | BusErrorException
    | AddressErrorException | OverflowException | IllegalInstrException

  datatype TranslationEntry = TranslationEntry(
    virtualPage: Int32, physicalPage: Int32, valid: bool, readOnly: bool, use: bool, dirty: bool)

  /** A fault, or the entry used and the physical address. */
  datatype Access = Fault(e: ExceptionType) | Hit(index: nat, phys: nat)

  function Page(virtAddr: int): nat {
    Wrap(virtAddr) / PageSize
  }

  function Offset(virtAddr: int): nat {
    Wrap(virtAddr) % PageSize
  }

  predicate Misaligned(virtAddr: int, size: nat) {
    (size == 4 && virtAddr % 4 != 0) || (size == 2 && virtAddr % 2 != 0)
  }

  /** The checks made on the entry that was found. */
  function Through(entries: seq<TranslationEntry>, i: nat, virtAddr: int, writing: bool): Access
    requires i < |entries|
  {
    var entry := entries[i];
    if entry.readOnly && writing then Fault(ReadOnlyException)
    else if Wrap(entry.physicalPage) >= NumPhysPages then Fault(BusErrorException)
    else Hit(i, entry.physicalPage * PageSize + Offset(virtAddr))
  }

  /** Where the entry for an address was found. */
  datatype Found = Missing(e: ExceptionType) | At(i: nat)

  function TableFind(table: seq<TranslationEntry>, virtAddr: int): Found {
    if Page(virtAddr) >= |table| then Missing(AddressErrorException)
    else if !table[Page(virtAddr)].valid then Missing(PageFaultException)
    else At(Page(virtAddr))
  }

  function Walk(entries: seq<TranslationEntry>, found: Found, virtAddr: int, size: nat, writing: bool): Access
    requires found.At? ==> found.i < |entries|
  {
    if Misaligned(virtAddr, size) then Fault(AddressErrorException)
    else if found.Missing? then Fault(found.e)
    else Through(entries, found.i, virtAddr, writing)
  }

  function TableWalk(table: seq<TranslationEntry>, virtAddr: int, size: nat, writing: bool): Access {
    Walk(table, TableFind(table, virtAddr), virtAddr, size, writing)
  }

  predicate Matches(entry: TranslationEntry, virtAddr: int) {
    entry.valid && Wrap(entry.virtualPage) == Page(virtAddr)
  }

  /** The first entry that matches, or |tlb|. */
  function TlbIndex(tlb: seq<TranslationEntry>, virtAddr: int): (i: nat)
    ensures i <= |tlb|
    ensures i < |tlb| ==> Matches(tlb[i], virtAddr)
    ensures forall j :: 0 <= j < i ==> !Matches(tlb[j], virtAddr)
  {
    if tlb == [] || Matches(tlb[0], virtAddr) then 0 else 1 + TlbIndex(tlb[1..], virtAddr)
  }

  lemma TlbIndexUnique(tlb: seq<TranslationEntry>, virtAddr: int, i: nat)
    requires i <= |tlb| && (i < |tlb| ==> Matches(tlb[i], virtAddr))
    requires forall j :: 0 <= j < i ==> !Matches(tlb[j], virtAddr)
    ensures TlbIndex(tlb, virtAddr) == i
  {
  }

  function TlbFind(tlb: seq<TranslationEntry>, virtAddr: int): Found {
    if TlbIndex(tlb, virtAddr) == |tlb| then Missing(PageFaultException) else At(TlbIndex(tlb, virtAddr))
  }

  function TlbWalk(tlb: seq<TranslationEntry>, virtAddr: int, size: nat, writing: bool): Access {
    Walk(tlb, TlbFind(tlb, virtAddr), virtAddr, size, writing)
  }

  /** The entries after a translation: the one used is marked, and marked dirty by a write. */
  function Marked(entries: seq<TranslationEntry>, a: Access, writing: bool): (r: seq<TranslationEntry>)
    requires a.Hit? ==> a.index < |entries|
    ensures |r| == |entries|
  {
    if a.Fault? then entries
    else entries[a.index := entries[a.index].(use := true, dirty := entries[a.index].dirty || writing)]
  }

  // ---------------------------------------------------------------- flat memory

  /** Valid pages have frames of their own, inside memory. */
  predicate GoodTable(table: seq<TranslationEntry>) {
    && (forall v :: 0 <= v < |table| ==> table[v].valid ==> 0 <= table[v].physicalPage < NumPhysPages)
    && (forall v, w :: 0 <= v < w < |table| && table[v].valid && table[w].valid ==>
      table[v].physicalPage != table[w].physicalPage)
  }

  predicate Mapped(table: seq<TranslationEntry>, a: nat) {
    a / PageSize < |table| && table[a / PageSize].valid
  }

  function Phys(table: seq<TranslationEntry>, a: nat): (p: nat)
    requires GoodTable(table) && Mapped(table, a)
    ensures p < MemorySize
  {
    table[a / PageSize].physicalPage * PageSize + a % PageSize
  }

  /** What the program sees at virtual address a. */
  function FlatByte(mem: seq<Byte>, table: seq<TranslationEntry>, a: nat): Byte
    requires |mem| == MemorySize && GoodTable(table) && Mapped(table, a)
  {
    mem[Phys(table, a)]
  }

  lemma PhysInjective(table: seq<TranslationEntry>, a: nat, b: nat)
    requires GoodTable(table) && Mapped(table, a) && Mapped(table, b) && Phys(table, a) == Phys(table, b)
    ensures a == b
  {
  }

  /** An aligned access stays in its page: its bytes are neighbours in memory as in the flat array. */
  lemma NeverStraddles(table: seq<TranslationEntry>, virtAddr: Int32, size: nat, writing: bool, k: nat)
    requires GoodTable(table) && size in {1, 2, 4} && k < size
    requires TableWalk(table, virtAddr, size, writing).Hit?
    ensures var a := Wrap(virtAddr);
      && (a + k) / PageSize == a / PageSize && Mapped(table, a + k)
      && Phys(table, a + k) == TableWalk(table, virtAddr, size, writing).phys + k
  {
    var a := Wrap(virtAddr);
    assert a % size == 0 by { AlignedWrap(virtAddr); }
    PageHoldsAligned(a, size, k);
  }

  lemma AlignedWrap(x: Int32)
    ensures Wrap(x) % 2 == x % 2 && Wrap(x) % 4 == x % 4
  {
  }

  /** In a page, an address that is a multiple of 2 or 4 has so many bytes after it. */
  lemma MultiplesFit(a: nat)
    ensures a % 2 == 0 ==> a % 256 <= 254
    ensures a % 4 == 0 ==> a % 256 <= 252
  {
  }

  lemma SamePage(a: nat, k: nat)
    requires a % 256 + k < 256
    ensures (a + k) / 256 == a / 256 && (a + k) % 256 == a % 256 + k
  {
  }

  lemma PageHoldsAligned(a: nat, size: nat, k: nat)
    requires (size == 1 || size == 2 || size == 4) && k < size && a % size == 0
    ensures (a + k) / PageSize == a / PageSize && (a + k) % PageSize == a % PageSize + k
    ensures a % PageSize + size <= PageSize
  {
    MultiplesFit(a);
    SamePage(a, k);
  }

  lemma AlignedFits(virtAddr: Int32, size: nat)
    requires (size == 1 || size == 2 || size == 4) && !Misaligned(virtAddr, size)
    ensures Offset(virtAddr) + size <= PageSize
  {
    AlignedWrap(virtAddr);
    MultiplesFit(Wrap(virtAddr));
  }

  /** Bytes replaced from p on. */
  function Stored(mem: seq<Byte>, p: nat, bytes: seq<Byte>): (r: seq<Byte>)
    requires p + |bytes| <= |mem|
    ensures |r| == |mem|
  {
    mem[..p] + bytes + mem[p + |bytes|..]
  }

  lemma OnlyTheAddressed(table: seq<TranslationEntry>, virtAddr: Int32, size: nat, b: nat)
    requires GoodTable(table) && size in {1, 2, 4} && TableWalk(table, virtAddr, size, true).Hit? && Mapped(table, b)
    requires var p := TableWalk(table, virtAddr, size, true).phys;
      p <= Phys(table, b) < p + size
    ensures Wrap(virtAddr) <= b < Wrap(virtAddr) + size
  {
    var k := Phys(table, b) - TableWalk(table, virtAddr, size, true).phys;
    NeverStraddles(table, virtAddr, size, true, k);
    PhysInjective(table, b, Wrap(virtAddr) + k);
  }

  /** The byte at b, when bytes have been laid over what was there from a on. */
  function Overlaid(before: Byte, a: nat, bytes: seq<Byte>, b: nat): Byte {
    if a <= b < a + |bytes| then bytes[b - a] else before
  }

  /** A store changes the flat array at the bytes addressed and nowhere else. */
  lemma StoreIsFlat(mem: seq<Byte>, table: seq<TranslationEntry>, virtAddr: Int32, bytes: seq<Byte>, b: nat)
    requires |mem| == MemorySize && GoodTable(table) && |bytes| in {1, 2, 4}
    requires TableWalk(table, virtAddr, |bytes|, true).Hit? && Mapped(table, b)
    ensures var p := TableWalk(table, virtAddr, |bytes|, true).phys;
      && p + |bytes| <= MemorySize
      && FlatByte(Stored(mem, p, bytes), table, b) == Overlaid(FlatByte(mem, table, b), Wrap(virtAddr), bytes, b)
  {
    var a, size := Wrap(virtAddr), |bytes|;
    var p := TableWalk(table, virtAddr, size, true).phys;
    NeverStraddles(table, virtAddr, size, true, size - 1);
    if a <= b < a + size {
      NeverStraddles(table, virtAddr, size, true, b - a);
    } else if p <= Phys(table, b) < p + size {
      OnlyTheAddressed(table, virtAddr, size, b);
    }
  }

  /** A load reads the flat array at the bytes addressed. */
  lemma LoadIsFlat(mem: seq<Byte>, table: seq<TranslationEntry>, virtAddr: Int32, size: nat, k: nat)
    requires |mem| == MemorySize && GoodTable(table) && size in {1, 2, 4} && k < size
    requires TableWalk(table, virtAddr, size, false).Hit?
    ensures var p := TableWalk(table, virtAddr, size, false).phys;
      && p + size <= MemorySize && Mapped(table, Wrap(virtAddr) + k)
      && mem[p + k] == FlatByte(mem, table, Wrap(virtAddr) + k)
  {
    NeverStraddles(table, virtAddr, size, false, k);
    NeverStraddles(table, virtAddr, size, false, size - 1);
  }

  /** Marking use and dirty bits moves no byte. */
  lemma MarkingIsInvisible(table: seq<TranslationEntry>, a: Access, writing: bool, b: nat)
    requires GoodTable(table) && (a.Hit? ==> a.index < |table|) && Mapped(table, b)
    ensures GoodTable(Marked(table, a, writing)) && Mapped(Marked(table, a, writing), b)
    ensures Phys(Marked(table, a, writing), b) == Phys(table, b)
  {
  }

  predicate AllMapped(table: seq<TranslationEntry>, a: nat, size: nat) {
    forall b: nat :: a <= b < a + size ==> Mapped(table, b)
  }

  /** What the program sees from virtual address a on. */
  function FlatBytes(mem: seq<Byte>, table: seq<TranslationEntry>, a: nat, size: nat): (bytes: seq<Byte>)
    requires |mem| == MemorySize && GoodTable(table) && AllMapped(table, a, size)
    ensures |bytes| == size && forall k :: 0 <= k < size ==> bytes[k] == FlatByte(mem, table, a + k)
  {
    seq<Byte>(size, k requires 0 <= k < size => FlatByte(mem, table, a + k))
  }

  /** The bytes a load finds are those of the flat array. */
  lemma LoadIsFlatBytes(mem: seq<Byte>, table: seq<TranslationEntry>, virtAddr: Int32, size: nat)
    requires |mem| == MemorySize && GoodTable(table) && size in {1, 2, 4}
    requires TableWalk(table, virtAddr, size, false).Hit?
    ensures var p := TableWalk(table, virtAddr, size, false).phys;
      && p + size <= MemorySize && AllMapped(table, Wrap(virtAddr), size)
      && FlatBytes(mem, table, Wrap(virtAddr), size) == mem[p..p + size]
  {
    hide TableWalk, Phys, Mapped, FlatByte;
    var a, p := Wrap(virtAddr), TableWalk(table, virtAddr, size, false).phys;
    LoadIsFlat(mem, table, virtAddr, size, 0);
    forall b: nat | a <= b < a + size ensures Mapped(table, b) && mem[p + (b - a)] == FlatByte(mem, table, b) {
      LoadIsFlat(mem, table, virtAddr, size, b - a);
    }
    var bytes := mem[p..p + size];
    forall k | 0 <= k < size ensures bytes[k] == FlatByte(mem, table, a + k) {
      assert mem[p + (a + k - a)] == FlatByte(mem, table, a + k);
    }
  }

  /** From one memory and table to the next, the flat array changes at the bytes from a on alone. */
  ghost predicate FlatStore(mem: seq<Byte>, table: seq<TranslationEntry>, a: nat, bytes: seq<Byte>,
                            m: seq<Byte>, t: seq<TranslationEntry>)
    requires |mem| == |m| == MemorySize && GoodTable(table)
  {
    && GoodTable(t)
    && (forall b: nat :: Mapped(t, b) == Mapped(table, b))
    && (forall b: nat :: Mapped(table, b) ==> FlatByte(m, t, b) == Overlaid(FlatByte(mem, table, b), a, bytes, b))
  }

  lemma StoreMarksFlat(mem: seq<Byte>, table: seq<TranslationEntry>, virtAddr: Int32, bytes: seq<Byte>)
    requires |mem| == MemorySize && GoodTable(table) && |bytes| in {1, 2, 4}
    requires TableWalk(table, virtAddr, |bytes|, true).Hit?
    ensures var a := TableWalk(table, virtAddr, |bytes|, true);
      && a.phys + |bytes| <= MemorySize && a.index < |table|
      && AllMapped(table, Wrap(virtAddr), |bytes|)
      && FlatStore(mem, table, Wrap(virtAddr), bytes, Stored(mem, a.phys, bytes), Marked(table, a, true))
  {
    var a := TableWalk(table, virtAddr, |bytes|, true);
    NeverStraddles(table, virtAddr, |bytes|, true, |bytes| - 1);
    var m, t := Stored(mem, a.phys, bytes), Marked(table, a, true);
    MarkedGood(table, a, true);
    forall b: nat
      ensures Mapped(t, b) == Mapped(table, b)
      ensures Mapped(table, b) ==>
        FlatByte(m, t, b) == Overlaid(FlatByte(mem, table, b), Wrap(virtAddr), bytes, b)
    {
      if Mapped(table, b) {
        MarkingIsInvisible(table, a, true, b);
        StoreIsFlat(mem, table, virtAddr, bytes, b);
      }
    }
    forall b: nat | Wrap(virtAddr) <= b < Wrap(virtAddr) + |bytes| ensures Mapped(table, b) {
      NeverStraddles(table, virtAddr, |bytes|, true, b - Wrap(virtAddr));
    }
  }

  lemma MarkedGood(table: seq<TranslationEntry>, a: Access, writing: bool)
    requires GoodTable(table) && (a.Hit? ==> a.index < |table|)
    ensures GoodTable(Marked(table, a, writing))
  {
  }

  /** What is in the TLB is also in the table. */
  predicate Agrees(tlb: seq<TranslationEntry>, table: seq<TranslationEntry>) {
    forall i :: 0 <= i < |tlb| ==> tlb[i].valid ==>
      var v := Wrap(tlb[i].virtualPage);
      && v < |table| && table[v].valid
      && table[v].physicalPage == tlb[i].physicalPage && table[v].readOnly == tlb[i].readOnly
  }

  /** A TLB that agrees with the table either misses or gives the table's answer. */
  lemma TlbGivesTableAnswer(tlb: seq<TranslationEntry>, table: seq<TranslationEntry>, virtAddr: Int32,
                            size: nat, writing: bool)
    requires Agrees(tlb, table)
    ensures var t := TlbWalk(tlb, virtAddr, size, writing);
      var w := TableWalk(table, virtAddr, size, writing);
      && (t.Hit? ==> w == Hit(Page(virtAddr), t.phys))
      && (t.Fault? ==> w == t || t.e == PageFaultException)
      && (TlbIndex(tlb, virtAddr) < |tlb| && t.Fault? ==> w == t)
  {
  }

  /** Use and dirty bits do not influence any later translation. */
  lemma MarkingKeepsThrough(entries: seq<TranslationEntry>, a: Access, marking: bool, found: Found,
                            virtAddr: int, size: nat, writing: bool)
    requires (a.Hit? ==> a.index < |entries|) && (found.At? ==> found.i < |entries|)
    ensures var marked := Marked(entries, a, marking);
      Walk(marked, found, virtAddr, size, writing) == Walk(entries, found, virtAddr, size, writing)
  {
  }

  lemma MarkingKeepsTlb(entries: seq<TranslationEntry>, a: Access, marking: bool, virtAddr: int)
    requires a.Hit? ==> a.index < |entries|
    ensures TlbFind(Marked(entries, a, marking), virtAddr) == TlbFind(entries, virtAddr)
  {
    var marked := Marked(entries, a, marking);
    assert forall i :: 0 <= i < |entries| ==> Matches(marked[i], virtAddr) == Matches(entries[i], virtAddr);
    TlbIndexUnique(marked, virtAddr, TlbIndex(entries, virtAddr));
  }

  lemma MarkingKeepsWalks(entries: seq<TranslationEntry>, a: Access, marking: bool,
                          virtAddr: int, size: nat, writing: bool)
    requires a.Hit? ==> a.index < |entries|
    ensures var marked := Marked(entries, a, marking);
      && TableWalk(marked, virtAddr, size, writing) == TableWalk(entries, virtAddr, size, writing)
      && TlbWalk(marked, virtAddr, size, writing) == TlbWalk(entries, virtAddr, size, writing)
  {
    MarkingKeepsTlb(entries, a, marking, virtAddr);
    assert TableFind(Marked(entries, a, marking), virtAddr) == TableFind(entries, virtAddr);
    MarkingKeepsThrough(entries, a, marking, TlbFind(entries, virtAddr), virtAddr, size, writing);
    MarkingKeepsThrough(entries, a, marking, TableFind(entries, virtAddr), virtAddr, size, writing);
    hide Marked, Walk, TlbFind, TableFind;
  }

  /** A misaligned address faults, and an access that faults marks no entry. */
  lemma FaultMarksNothing(entries: seq<TranslationEntry>, found: Found, virtAddr: int, size: nat, writing: bool)
    requires found.At? ==> found.i < |entries|
    ensures var a := Walk(entries, found, virtAddr, size, writing);
      && (a.Hit? ==> a.index < |entries|)
      && (Misaligned(virtAddr, size) ==> a == Fault(AddressErrorException))
    ensures forall e: ExceptionType, w: bool, t: seq<TranslationEntry> {:trigger Marked(t, Fault(e), w)} ::
      Marked(t, Fault(e), w) == t
  {
  }

  /** What can be written can be read, at the same place. */
  lemma WriteImpliesRead(entries: seq<TranslationEntry>, found: Found, virtAddr: int, size: nat)
    requires found.At? ==> found.i < |entries|
    ensures var rd, wr := Walk(entries, found, virtAddr, size, false), Walk(entries, found, virtAddr, size, true);
      (rd.Fault? ==> wr.Fault?) && (rd.Hit? && wr.Hit? ==> rd == wr)
  {
  }
}
