/** addrspace.cc: finding frames for a program, loading it, and giving the frames back. A page, like a
    frame and a disk sector, is 256 bytes. */
module AddrSpaces {
  import opened Bytes
  import opened BitMaps
  import opened Translation
  import opened OpenFiles
  import Endian

  const Frames: nat := 32

  // ---------------------------------------------------------------- free blocks of frames

  /** n frames from s on are unmarked. */
  predicate Free(bits: seq<bool>, s: nat, n: nat) {
    s + n <= |bits| && forall k :: s <= k < s + n ==> !bits[k]
  }

  ghost predicate HasRoom(bits: seq<bool>, n: nat) {
    exists s: nat :: Free(bits, s, n)
  }

  /** No free block of n frames starts before limit. */
  predicate NoneBefore(bits: seq<bool>, limit: nat, n: nat) {
    forall s :: 0 <= s < limit ==> !Free(bits, s, n)
  }

  /** The first place where n frames are free. */
  predicate Lowest(bits: seq<bool>, s: int, n: nat) {
    0 <= s && Free(bits, s, n) && NoneBefore(bits, s, n)
  }

  /** Of the free blocks of n frames or more inside the first upto frames, none is longer than worst,
      and start is where the first one that long begins; worst is 0 when there is none. */
  ghost predicate Surveyed(bits: seq<bool>, upto: nat, n: nat, worst: nat, start: int) {
    && (forall q: nat, l: nat :: n <= l && q + l <= upto && Free(bits, q, l) ==>
      l <= worst && (l == worst ==> start <= q))
    && (worst > 0 ==> n <= worst && 0 <= start && start + worst <= upto && Free(bits, start, worst))
  }

  /** s begins the first of the longest free blocks, and that has at least n frames. */
  ghost predicate Longest(bits: seq<bool>, s: int, n: nat) {
    exists worst: nat :: 0 < worst && Surveyed(bits, |bits|, n, worst, s)
  }

  /** A busy frame ends every block that has come too near. */
  lemma BlockedByBusy(bits: seq<bool>, from: nat, chunk: nat, n: nat)
    requires NoneBefore(bits, from, n) && chunk < n
    requires from + chunk == |bits| || (from + chunk < |bits| && bits[from + chunk])
    ensures NoneBefore(bits, from + chunk + 1, n)
    ensures from + chunk == |bits| ==> !HasRoom(bits, n)
  {
  }

  lemma SurveyFreeFrame(bits: seq<bool>, from: nat, chunk: nat, n: nat, worst: nat, start: int)
    requires from + chunk < |bits| && !bits[from + chunk] && Free(bits, from, chunk) && (from > 0 ==> bits[from - 1])
    requires n > 0 && Surveyed(bits, from + chunk, n, worst, start)
    ensures Free(bits, from, chunk + 1)
    ensures var record := chunk + 1 >= n && (worst == 0 || chunk + 1 > worst);
      Surveyed(bits, from + chunk + 1, n, if record then chunk + 1 else worst, if record then from else start)
  {
  }

  lemma SurveyBusyFrame(bits: seq<bool>, upto: nat, n: nat, worst: nat, start: int)
    requires upto < |bits| && bits[upto] && n > 0 && Surveyed(bits, upto, n, worst, start)
    ensures Surveyed(bits, upto + 1, n, worst, start)
  {
  }

  lemma SurveyStarts(bits: seq<bool>, n: nat, start: int)
    requires n > 0
    ensures Surveyed(bits, 0, n, 0, start)
  {
  }

  lemma SurveyEnds(bits: seq<bool>, n: nat, worst: nat, start: int)
    requires n > 0 && Surveyed(bits, |bits|, n, worst, start)
    ensures HasRoom(bits, n) <==> worst > 0
    ensures worst > 0 ==> Longest(bits, start, n)
  {
    if worst > 0 { assert Free(bits, start, n); }
  }

  lemma FreeFrames(bits: seq<bool>, from: nat, chunk: nat)
    ensures from <= |bits| ==> Free(bits, from, 0)
    ensures Free(bits, from, chunk) && from + chunk < |bits| && !bits[from + chunk] ==> Free(bits, from, chunk + 1)
  {
  }

  predicate MapsTo(entry: TranslationEntry, page: int, frame: int) {
    entry.valid && entry.virtualPage == page && entry.physicalPage == frame && !entry.readOnly
  }

  lemma NoRoom(bits: seq<bool>, n: nat)
    ensures NoneBefore(bits, 0, n)
    ensures NoneBefore(bits, |bits| + 1, n) ==> !HasRoom(bits, n)
  {
  }

  lemma LowestIsRoom(bits: seq<bool>, s: int, n: nat)
    ensures 0 <= s && NoneBefore(bits, s, n) && Free(bits, s, n) ==> Lowest(bits, s, n)
    ensures Lowest(bits, s, n) ==> HasRoom(bits, n)
  {
  }

  // ---------------------------------------------------------------- programs on file and in memory

  /** The first n bytes of a segment at pos in the file have been copied to at, as far as the file goes. */
  predicate Copied(mem: seq<Byte>, before: seq<Byte>, at: nat, file: seq<Byte>, pos: nat, n: nat) {
    |mem| == |before| && forall k :: 0 <= k < |mem| ==>
      mem[k] == if at <= k < at + n && pos + (k - at) < |file| then file[pos + (k - at)] else before[k]
  }

  /** What one ReadAt does, in these terms. */
  lemma CopiedByRead(next: seq<Byte>, before: seq<Byte>, at: nat, file: seq<Byte>, pos: nat, n: nat)
    requires at + n <= |before| == |next|
    requires var r := Clamp(n, pos, |file|);
      && (r > 0 ==> next[at..at + r] == file[pos..pos + r])
      && (forall k :: 0 <= k < |next| && !(at <= k < at + r) ==> next[k] == before[k])
    ensures Copied(next, before, at, file, pos, n)
  {
  }

  /** The next piece of the same segment. */
  lemma CopiedAfter(before: seq<Byte>, m1: seq<Byte>, m2: seq<Byte>, at: nat, file: seq<Byte>, pos: nat,
                    n1: nat, n2: nat)
    requires Copied(m1, before, at, file, pos, n1) && Copied(m2, m1, at + n1, file, pos + n1, n2)
    ensures Copied(m2, before, at, file, pos, n1 + n2)
  {
  }

  /** How much of a segment LoadSegment copies: all of it when it starts on a page boundary. */
  function LoadedLength(addr: int, size: nat): nat {
    if addr % 256 == 0 || size < 256 then size else size / 256 * 256
  }

  lemma CopiedTwice(before: seq<Byte>, m1: seq<Byte>, m2: seq<Byte>, at: nat, file: seq<Byte>, pos: nat,
                    n1: nat, n2: nat)
    requires Copied(m1, before, at, file, pos, n1) && Copied(m2, m1, at, file, pos, n2)
    ensures Copied(m2, before, at, file, pos, if n2 > n1 then n2 else n1)
  {
  }

  lemma Lengths(addr: int, size: nat)
    ensures size == 256 * (size / 256) + size % 256
    ensures (size - size % 256) % 256 == 0 && (size - size % 256) / 256 == size / 256
    ensures addr % 256 == 0 || size < 256 ==> LoadedLength(addr, size) == size
    ensures addr % 256 != 0 && size >= 256 ==> LoadedLength(addr, size) == 256 * (size / 256) > size % 256
    ensures DivRoundUp(size, 256) == size / 256 + if size % 256 > 0 then 1 else 0
    ensures DivRoundUp(size - size % 256, 256) == size / 256
  {
  }

  lemma PageAfter(addr: int, pages: nat)
    ensures (addr + 256 * pages) / 256 == addr / 256 + pages
  {
  }

  /** How a virtual address of a program leads to a byte. */
  function ByteAt(table: seq<TranslationEntry>, virtAddr: int): (a: Access)
    ensures a.Hit? ==> a.index < |table|
  {
    if virtAddr < 0 then Fault(AddressErrorException) else TableWalk(table, virtAddr, 1, false)
  }

  lemma NegativeFaults(table: seq<TranslationEntry>, virtAddr: int)
    ensures virtAddr < 0 ==> ByteAt(table, virtAddr) == Fault(AddressErrorException)
  {
  }

  lemma ByteAtIs(table: seq<TranslationEntry>, virtAddr: int)
    requires 0 <= virtAddr < 0x8000_0000
    ensures ByteAt(table, virtAddr) ==
      if virtAddr / 256 >= |table| then Fault(AddressErrorException)
      else if !table[virtAddr / 256].valid then Fault(PageFaultException)
      else if Wrap(table[virtAddr / 256].physicalPage) >= 32 then Fault(BusErrorException)
      else Hit(virtAddr / 256, Wrap(table[virtAddr / 256].physicalPage) * 256 + virtAddr % 256)
  {
  }

  lemma MarkedByRead(table: seq<TranslationEntry>, a: Access)
    requires a.Hit? ==> a.index < |table|
    ensures Marked(table, a, false) ==
      if a.Fault? then table else table[a.index := table[a.index].(use := true)]
  {
  }

  /** t is before with n pages from first on marked as used. */
  predicate UsedFrom(t: seq<TranslationEntry>, before: seq<TranslationEntry>, first: int, n: nat) {
    |t| == |before| && forall v :: 0 <= v < |t| ==>
      t[v] == if first <= v < first + n then before[v].(use := true) else before[v]
  }

  /** Where a space's own addresses lead, and what reading there marks. */
  lemma OwnByte(table: seq<TranslationEntry>, start: int, addr: int)
    requires 0 <= start && start + |table| <= Frames && 0 <= addr < 256 * |table|
    requires forall i :: 0 <= i < |table| ==> MapsTo(table[i], i, start + i)
    ensures addr < 0x8000_0000 && ByteAt(table, addr) == Hit(addr / 256, 256 * start + addr)
    ensures UsedFrom(Marked(table, ByteAt(table, addr), false), table, addr / 256, 1)
    ensures forall i :: 0 <= i < |table| ==> MapsTo(Marked(table, ByteAt(table, addr), false)[i], i, start + i)
  {
  }

  lemma NothingYet(mem: seq<Byte>, at: nat, file: seq<Byte>, pos: nat, table: seq<TranslationEntry>, first: int)
    ensures Copied(mem, mem, at, file, pos, 0) && UsedFrom(table, table, first, 0)
  {
  }

  lemma UsedAfter(before: seq<TranslationEntry>, t1: seq<TranslationEntry>, t2: seq<TranslationEntry>, first: int,
                  n1: nat, n2: nat)
    requires UsedFrom(t1, before, first, n1) && UsedFrom(t2, t1, first + n1, n2)
    ensures UsedFrom(t2, before, first, n1 + n2)
  {
  }

  lemma UsedTwice(before: seq<TranslationEntry>, t1: seq<TranslationEntry>, t2: seq<TranslationEntry>, first: int,
                  n1: nat, n2: nat)
    requires UsedFrom(t1, before, first, n1) && UsedFrom(t2, t1, first, n2)
    ensures UsedFrom(t2, before, first, if n2 > n1 then n2 else n1)
  {
  }

  const NOFFMAGIC := 0xbadfad
  const UserStackSize := 1024

  datatype Segment = Segment(virtualAddr: Int32, inFileAddr: Int32, size: Int32)
  datatype NoffHeader = NoffHeader(noffMagic: Int32, code: Segment, initData: Segment, uninitData: Segment)

  function DecodeNoff(b: seq<Byte>): NoffHeader
    requires |b| == 40
  {
    var w := BytesWords(b, 10);
    NoffHeader(Signed(w[0]),
      Segment(Signed(w[1]), Signed(w[2]), Signed(w[3])),
      Segment(Signed(w[4]), Signed(w[5]), Signed(w[6])),
      Segment(Signed(w[7]), Signed(w[8]), Signed(w[9])))
  }

  /** A header as the file format lays it out: the magic number, then code, initialized and uninitialized
      data, each as address, place in the file and size, all in little-endian words. */
  function EncodeNoff(h: NoffHeader): (b: seq<Byte>)
    ensures |b| == 40
  {
    IntBytes(h.noffMagic) + SegmentBytes(h.code) + SegmentBytes(h.initData) + SegmentBytes(h.uninitData)
  }

  function SegmentBytes(s: Segment): (b: seq<Byte>)
    ensures |b| == 12
  {
    IntBytes(s.virtualAddr) + IntBytes(s.inFileAddr) + IntBytes(s.size)
  }

  function IntBytes(x: Int32): (b: seq<Byte>)
    ensures |b| == 4
  {
    WordBytes(Wrap(x))
  }

  /** The integer at an offset of the header. */
  function IntAt(b: seq<Byte>, offset: nat): Int32
    requires offset + 4 <= |b|
  {
    Signed(BytesWord(b[offset..offset + 4]))
  }

  lemma IntRoundTrip(b: seq<Byte>, offset: nat, x: Int32)
    requires offset + 4 <= |b| && b[offset..offset + 4] == IntBytes(x)
    ensures IntAt(b, offset) == x
  {
    hide WordBytes, BytesWord;
    WordRoundTrip(Wrap(x));
  }

  lemma BytesOfIntAt(b: seq<Byte>, offset: nat)
    requires offset + 4 <= |b|
    ensures IntBytes(IntAt(b, offset)) == b[offset..offset + 4]
  {
    hide WordBytes, BytesWord;
    Endian.BytesRoundTrip(b[offset..offset + 4]);
    SignedThenWrapped(BytesWord(b[offset..offset + 4]));
  }

  lemma PartOfPart(b: seq<Byte>, from: nat, n: nat, i: nat, j: nat)
    requires from + n <= |b| && i <= j <= n
    ensures b[from..from + n][i..j] == b[from + i..from + j]
  {
    var whole, part := b[from..from + n], b[from + i..from + j];
    forall k | 0 <= k < j - i ensures whole[i..j][k] == part[k] {
      assert whole[i + k] == b[from + (i + k)];
    }
  }

  lemma SegmentAt(b: seq<Byte>, offset: nat, s: Segment)
    requires offset + 12 <= |b| && b[offset..offset + 12] == SegmentBytes(s)
    ensures Segment(IntAt(b, offset), IntAt(b, offset + 4), IntAt(b, offset + 8)) == s
  {
    hide IntBytes, IntAt;
    var t := SegmentBytes(s);
    assert t[0..4] == IntBytes(s.virtualAddr) && t[4..8] == IntBytes(s.inFileAddr) && t[8..12] == IntBytes(s.size);
    PartOfPart(b, offset, 12, 0, 4);
    PartOfPart(b, offset, 12, 4, 8);
    PartOfPart(b, offset, 12, 8, 12);
    IntRoundTrip(b, offset, s.virtualAddr);
    IntRoundTrip(b, offset + 4, s.inFileAddr);
    IntRoundTrip(b, offset + 8, s.size);
  }

  lemma DecodeNoffAt(b: seq<Byte>)
    requires |b| == 40
    ensures DecodeNoff(b) == NoffHeader(IntAt(b, 0), Segment(IntAt(b, 4), IntAt(b, 8), IntAt(b, 12)),
      Segment(IntAt(b, 16), IntAt(b, 20), IntAt(b, 24)), Segment(IntAt(b, 28), IntAt(b, 32), IntAt(b, 36)))
  {
    hide BytesWord, Signed;
  }

  /** Every header is read back from its encoding as it was. */
  lemma NoffRoundTrip(h: NoffHeader)
    ensures DecodeNoff(EncodeNoff(h)) == h
  {
    hide IntBytes, SegmentBytes, IntAt, DecodeNoff;
    var b := EncodeNoff(h);
    assert b[0..4] == IntBytes(h.noffMagic) && b[4..16] == SegmentBytes(h.code);
    assert b[16..28] == SegmentBytes(h.initData) && b[28..40] == SegmentBytes(h.uninitData);
    DecodeNoffAt(b);
    IntRoundTrip(b, 0, h.noffMagic);
    SegmentAt(b, 4, h.code);
    SegmentAt(b, 16, h.initData);
    SegmentAt(b, 28, h.uninitData);
  }

  /** And every forty bytes are the encoding of the header they are read as. */
  lemma NoffBytesRoundTrip(b: seq<Byte>)
    requires |b| == 40
    ensures EncodeNoff(DecodeNoff(b)) == b
  {
    hide IntBytes, IntAt, DecodeNoff;
    DecodeNoffAt(b);
    var h, w := DecodeNoff(b), seq(10, i requires 0 <= i < 10 => IntBytes(IntAt(b, 4 * i)));
    forall i | 0 <= i < 10 ensures w[i] == b[4 * i..4 * i + 4] {
      BytesOfIntAt(b, 4 * i);
    }
    assert SegmentBytes(h.code) == w[1] + w[2] + w[3] == b[4..16];
    assert SegmentBytes(h.initData) == w[4] + w[5] + w[6] == b[16..28];
    assert SegmentBytes(h.uninitData) == w[7] + w[8] + w[9] == b[28..40];
    assert IntBytes(h.noffMagic) == w[0] == b[0..4];
    assert EncodeNoff(h) == b[0..4] + b[4..16] + b[16..28] + b[28..40];
  }

  /** The segments and the stack, in pages. */
  function PagesOf(h: NoffHeader): nat {
    DivRoundUp(Wrap(h.code.size + h.initData.size + h.uninitData.size + UserStackSize), 256)
  }

  /** The fewest pages that hold it, when 32 bits hold the sum. */
  lemma PagesSuffice(h: NoffHeader)
    requires 0 <= h.code.size + h.initData.size + h.uninitData.size + 1024 < 0x1_0000_0000
    ensures 256 * PagesOf(h) >= h.code.size + h.initData.size + h.uninitData.size + 1024 > 256 * (PagesOf(h) - 1)
  {
  }

  /** Larger sums wrap around, and then the space is too small for its program. */
  lemma HoldsProgramExactlyWhen(h: NoffHeader)
    ensures 256 * PagesOf(h) >= h.code.size + h.initData.size + h.uninitData.size + 1024
      <==> h.code.size + h.initData.size + h.uninitData.size + 1024 < 0x1_0000_0000
  {
    var needed := h.code.size + h.initData.size + h.uninitData.size + 1024;
    if needed >= 0x1_0000_0000 {
      assert needed % 0x1_0000_0000 == needed - 0x1_0000_0000;
    }
    assert 256 * PagesOf(h) < needed % 0x1_0000_0000 + 256;
  }

  /** Two segments of nearly two gigabytes and one of two bytes get four pages in all. */
  lemma SizesWrapAround()
    ensures var most, none := Segment(0, 0, 0x7fff_ffff), Segment(0, 0, 2);
      PagesOf(NoffHeader(NOFFMAGIC, most, most, none)) == 4
  {
  }

  predicate SegmentFits(s: Segment, pages: nat) {
    s.size > 0 ==>
      && 0 <= s.virtualAddr && s.virtualAddr + s.size <= 256 * pages
      && 0 <= s.inFileAddr && s.inFileAddr + s.size < 0x8000_0000
  }

  /** What the constructor takes for granted: the magic number, and segments inside the space. */
  predicate GoodProgram(h: NoffHeader) {
    && h.noffMagic == NOFFMAGIC && PagesOf(h) > 0
    && SegmentFits(h.code, PagesOf(h)) && SegmentFits(h.initData, PagesOf(h))
  }

  /** The bytes of a segment that LoadSegment gets from the file. */
  predicate Covers(s: Segment, file: seq<Byte>, a: int) {
    s.size > 0 && 0 <= s.inFileAddr && s.virtualAddr <= a < s.virtualAddr + LoadedLength(s.virtualAddr, s.size) &&
    s.inFileAddr + (a - s.virtualAddr) < |file|
  }

  /** What a new space holds at virtual address a: data over code over zeros. */
  function InitialByte(h: NoffHeader, file: seq<Byte>, a: int): Byte {
    if Covers(h.initData, file, a) then file[h.initData.inFileAddr + (a - h.initData.virtualAddr)]
    else if Covers(h.code, file, a) then file[h.code.inFileAddr + (a - h.code.virtualAddr)]
    else 0
  }

  /** mem is before with the segments of the program laid over the space that begins at base. */
  predicate ProgramOver(before: seq<Byte>, mem: seq<Byte>, base: nat, pages: nat, h: NoffHeader, file: seq<Byte>) {
    && |mem| == |before| && base + 256 * pages <= |before|
    && (forall a :: 0 <= a < 256 * pages && before[base + a] == 0 ==> mem[base + a] == InitialByte(h, file, a))
    && (forall k :: 0 <= k < |mem| && !(base <= k < base + 256 * pages) ==> mem[k] == before[k])
  }

  /** Loading the segment brought bytes to page v of the space. */
  predicate Touches(s: Segment, v: int) {
    s.size > 0 && s.virtualAddr / 256 <= v
      < s.virtualAddr / 256 + DivRoundUp(LoadedLength(s.virtualAddr, s.size), 256)
  }

  /** t is before with the pages that the segment touches marked as used. */
  predicate UsedBy(t: seq<TranslationEntry>, before: seq<TranslationEntry>, s: Segment) {
    |t| == |before| && forall v :: 0 <= v < |t| ==>
      t[v] == if Touches(s, v) then before[v].(use := true) else before[v]
  }

  lemma UsedBySegment(t: seq<TranslationEntry>, before: seq<TranslationEntry>, s: Segment)
    requires s.size > 0
    ensures UsedFrom(t, before, s.virtualAddr / 256, DivRoundUp(LoadedLength(s.virtualAddr, s.size), 256))
      ==> UsedBy(t, before, s)
  {
    hide LoadedLength, DivRoundUp;
  }

  /** The page table of a new space: its pages in order over frames in order, valid, writable and clean,
      and used as far as loading the program has touched them. */
  predicate NewTable(t: seq<TranslationEntry>, start: int, h: NoffHeader) {
    forall v :: 0 <= v < |t| ==>
      && t[v].virtualPage == v && t[v].physicalPage == start + v && t[v].valid && !t[v].readOnly && !t[v].dirty
      && t[v].use == (Touches(h.code, v) || Touches(h.initData, v))
  }

  lemma BothTouch(empty: seq<TranslationEntry>, m: seq<TranslationEntry>, t: seq<TranslationEntry>, start: int,
                  h: NoffHeader)
    requires forall v :: 0 <= v < |empty| ==> MapsTo(empty[v], v, start + v) && !empty[v].use && !empty[v].dirty
    requires UsedBy(m, empty, h.code) && UsedBy(t, m, h.initData)
    ensures NewTable(t, start, h)
  {
    hide Touches;
  }

  /** The segment has been loaded, if it is not empty. */
  predicate SegmentOver(before: seq<Byte>, mem: seq<Byte>, base: nat, s: Segment, file: seq<Byte>) {
    if s.size > 0 then
      && 0 <= s.virtualAddr && 0 <= s.inFileAddr
      && Copied(mem, before, base + s.virtualAddr, file, s.inFileAddr, LoadedLength(s.virtualAddr, s.size))
    else mem == before
  }

  lemma TwoSegments(before: seq<Byte>, m: seq<Byte>, mem: seq<Byte>, base: nat, pages: nat, h: NoffHeader,
                    file: seq<Byte>)
    requires SegmentFits(h.code, pages) && SegmentFits(h.initData, pages) && base + 256 * pages <= |before|
    requires SegmentOver(before, m, base, h.code, file) && SegmentOver(m, mem, base, h.initData, file)
    ensures ProgramOver(before, mem, base, pages, h, file)
  {
  }

  /** mem is before with the new program's bytes in the space that begins at base, and nothing else changed. */
  predicate Loaded(before: seq<Byte>, mem: seq<Byte>, base: int, pages: nat, h: NoffHeader, file: seq<Byte>) {
    && |mem| == |before| && 0 <= base && base + 256 * pages <= |before|
    && (forall a :: 0 <= a < 256 * pages ==> mem[base + a] == InitialByte(h, file, a))
    && (forall k :: 0 <= k < |mem| && !(base <= k < base + 256 * pages) ==> mem[k] == before[k])
  }

  /** bits with n frames from s on set to v. */
  function Painted(bits: seq<bool>, s: int, n: nat, v: bool): (r: seq<bool>)
    ensures |r| == |bits|
  {
    seq(|bits|, k requires 0 <= k < |bits| => if s <= k < s + n then v else bits[k])
  }

  /** Exactly when LoadSegment copies the whole segment. */
  lemma WholeSegmentLoadedWhen(addr: int, size: nat)
    ensures LoadedLength(addr, size) == size <==> addr % 256 == 0 || size < 256 || size % 256 == 0
  {
  }

  /** A segment of 300 bytes that starts at 16 loses its last 44. */
  lemma SegmentCutShort()
    ensures LoadedLength(16, 300) == 256
  {
  }

  /** What the chosen algorithm makes of the request. */
  ghost predicate Chosen(algorithm: int, bits: seq<bool>, n: nat, found: bool, start: int)
    requires |bits| == Frames
  {
    match algorithm
    case 0 => found == HasRoom(bits, n) && (found ==> Lowest(bits, start, n))
    case 1 => n > 0 ==> found == (HasRoom(bits, n) && !bits[Frames - 1]) && (found ==> Lowest(bits, start, n))
    case _ => n > 0 ==> found == (HasRoom(bits, n) && !bits[Frames - 1]) && (found ==> Longest(bits, start, n))
  }

  /** Whatever the algorithm, what it finds is free and inside memory. */
  lemma ChosenIsFree(algorithm: int, bits: seq<bool>, n: nat, start: int)
    requires |bits| == Frames && n > 0 && Chosen(algorithm, bits, n, true, start)
    ensures 0 <= start && Free(bits, start, n) && start + n <= Frames
  {
  }

  /** The executable is on disk: it shares no storage with memory or the map. */
  predicate Apart(executable: OpenFile, map_: BitMap, memory: array<Byte>) {
    && {memory as object, executable.hdr.dataSectors, map_.map_} !!
      {executable as object, executable.hdr, executable.disk, map_}
    && (memory as object) != executable.hdr.dataSectors && (memory as object) != map_.map_
    && (map_.map_ as object) != executable.hdr.dataSectors
  }

  class AddrSpace {
    var SpaceFound: bool
    var StartHere: int
    var numPages: nat
    var pageTable: array?<TranslationEntry>

    /** The space has its frames, one after the other, and its page table says so. */
    ghost predicate Mapped()
      reads this, pageTable
    {
      && pageTable != null && pageTable.Length == numPages && 0 <= StartHere && StartHere + numPages <= Frames
      && forall i :: 0 <= i < numPages ==> MapsTo(pageTable[i], i, StartHere + i)
    }

    /** A virtual address of this space as a physical one. What the machine's own Translate makes of the
        address for reading one byte, but for negative addresses; size only serves the final ASSERT. */
    method Translate(virtAddr: int, size: int) returns (e: ExceptionType, physAddr: int)
      requires pageTable != null && pageTable.Length == numPages && virtAddr < 0x8000_0000
      requires var a := ByteAt(pageTable[..], virtAddr);
        a.Hit? ==> a.phys + size <= MemorySize
      modifies pageTable
      ensures pageTable[..] == Marked(old(pageTable[..]), old(ByteAt(pageTable[..], virtAddr)), false)
      ensures match old(ByteAt(pageTable[..], virtAddr))
        case Fault(x) => e == x != NoException
        case Hit(_, phys) => e == NoException && physAddr == phys
    {
      hide ByteAt, Marked, Wrap;
      MarkedByRead(pageTable[..], ByteAt(pageTable[..], virtAddr));
      NegativeFaults(pageTable[..], virtAddr);
      if virtAddr < 0 {
        return AddressErrorException, 0;
      }
      ByteAtIs(pageTable[..], virtAddr);
      var vpn := virtAddr / 256;
      var offset := virtAddr % 256;
      if vpn >= numPages {
        return AddressErrorException, 0;
      } else if !pageTable[vpn].valid {
        return PageFaultException, 0;
      }
      var entry := pageTable[vpn];
      var pageFrame := Wrap(entry.physicalPage);
      if pageFrame >= NumPhysPages {
        return BusErrorException, 0;
      }
      pageTable[vpn] := entry.(use := true);
      physAddr := pageFrame * 256 + offset;
      e := NoException;
    }

    /** Translates, and reads n bytes of the file to the place found. */
    method LoadPiece(executable: OpenFile, memory: array<Byte>, addr: int, n: int, inFileAddr: int)
      requires Mapped() && memory.Length == MemorySize && executable.Valid()
      requires 0 <= addr < 256 * numPages && 0 <= n && addr + n <= 256 * numPages
      requires 0 <= inFileAddr && inFileAddr + n < 0x8000_0000
      modifies memory, pageTable
      ensures Mapped() && executable.Valid() && executable.Contents() == old(executable.Contents())
      ensures Copied(memory[..], old(memory[..]), 256 * StartHere + addr, executable.Contents(), inFileAddr, n)
      ensures UsedFrom(pageTable[..], old(pageTable[..]), addr / 256, 1)
    {
      hide Copied, UsedFrom, ByteAt, Marked;
      ghost var before, table := memory[..], pageTable[..];
      OwnByte(table, StartHere, addr);
      var e, physAddr := Translate(addr, n);
      var r := executable.ReadAt(memory, physAddr, n, inFileAddr);
      CopiedByRead(memory[..], before, physAddr, executable.Contents(), inFileAddr, n);
    }

    /** The loop of LoadSegment over whole pages. */
    method LoadPages(executable: OpenFile, memory: array<Byte>, addr0: int, loops: nat, inFileAddr0: int)
      requires Mapped() && memory.Length == MemorySize && executable.Valid()
      requires 0 <= addr0 && addr0 + 256 * loops <= 256 * numPages
      requires 0 <= inFileAddr0 && inFileAddr0 + 256 * loops < 0x8000_0000
      modifies memory, pageTable
      ensures Mapped() && executable.Valid() && executable.Contents() == old(executable.Contents())
      ensures Copied(memory[..], old(memory[..]), 256 * StartHere + addr0, executable.Contents(), inFileAddr0,
        256 * loops)
      ensures UsedFrom(pageTable[..], old(pageTable[..]), addr0 / 256, loops)
    {
      hide Copied, UsedFrom, MapsTo, LoadedLength, DivRoundUp;
      ghost var before, table, file, at := memory[..], pageTable[..], executable.Contents(), 256 * StartHere + addr0;
      var addr, inFileAddr := addr0, inFileAddr0;
      NothingYet(before, at, file, inFileAddr0, table, addr0 / 256);
      for i := 0 to loops
        invariant addr == addr0 + 256 * i && inFileAddr == inFileAddr0 + 256 * i
        invariant Mapped() && executable.Valid() && executable.Contents() == file
        invariant Copied(memory[..], before, at, file, inFileAddr0, 256 * i)
        invariant UsedFrom(pageTable[..], table, addr0 / 256, i)
      {
        ghost var m, t := memory[..], pageTable[..];
        LoadPiece(executable, memory, addr, 256, inFileAddr);
        CopiedAfter(before, m, memory[..], at, file, inFileAddr0, 256 * i, 256);
        UsedAfter(table, t, pageTable[..], addr0 / 256, i, 1);
        addr := addr + 256;
        inFileAddr := inFileAddr + 256;
      }
    }

    /** LoadSegment after its first branch: whole pages, then what is left. */
    method LoadRest(executable: OpenFile, memory: array<Byte>, addr0: int, size: int, inFileAddr0: int)
      requires Mapped() && memory.Length == MemorySize && executable.Valid()
      requires 0 <= addr0 && 0 <= size && addr0 + size <= 256 * numPages
      requires 0 <= inFileAddr0 && inFileAddr0 + size < 0x8000_0000
      modifies memory, pageTable
      ensures Mapped() && executable.Valid() && executable.Contents() == old(executable.Contents())
      ensures Copied(memory[..], old(memory[..]), 256 * StartHere + addr0, executable.Contents(), inFileAddr0, size)
      ensures UsedFrom(pageTable[..], old(pageTable[..]), addr0 / 256, DivRoundUp(size, 256))
    {
      hide Copied, UsedFrom, MapsTo, LoadedLength, DivRoundUp;
      Lengths(addr0, size);
      LoadPagesAndTail(executable, memory, addr0, size / 256, size - 256 * (size / 256), inFileAddr0);
    }

    method LoadPagesAndTail(executable: OpenFile, memory: array<Byte>, addr0: int, loops: nat, left: nat,
        inFileAddr0: int)
      requires Mapped() && memory.Length == MemorySize && executable.Valid() && left < 256
      requires 0 <= addr0 && addr0 + (256 * loops + left) <= 256 * numPages
      requires 0 <= inFileAddr0 && inFileAddr0 + (256 * loops + left) < 0x8000_0000
      modifies memory, pageTable
      ensures Mapped() && executable.Valid() && executable.Contents() == old(executable.Contents())
      ensures Copied(memory[..], old(memory[..]), 256 * StartHere + addr0, executable.Contents(), inFileAddr0,
        256 * loops + left)
      ensures UsedFrom(pageTable[..], old(pageTable[..]), addr0 / 256, loops + if left > 0 then 1 else 0)
    {
      hide Copied, UsedFrom, MapsTo, LoadedLength, DivRoundUp;
      ghost var before, table, file, at := memory[..], pageTable[..], executable.Contents(), 256 * StartHere + addr0;
      LoadPages(executable, memory, addr0, loops, inFileAddr0);
      ghost var m, t := memory[..], pageTable[..];
      var n := 256 * loops;
      PageAfter(addr0, loops);
      LoadTail(executable, memory, addr0 + n, left, inFileAddr0 + n);
      CopiedAfter(before, m, memory[..], at, file, inFileAddr0, n, left);
      UsedAfter(table, t, pageTable[..], addr0 / 256, loops, if left > 0 then 1 else 0);
    }

    method LoadTail(executable: OpenFile, memory: array<Byte>, addr: int, left: int, inFileAddr: int)
      requires Mapped() && memory.Length == MemorySize && executable.Valid()
      requires 0 <= addr && 0 <= left < 256 && addr + left <= 256 * numPages
      requires 0 <= inFileAddr && inFileAddr + left < 0x8000_0000
      modifies memory, pageTable
      ensures Mapped() && executable.Valid() && executable.Contents() == old(executable.Contents())
      ensures Copied(memory[..], old(memory[..]), 256 * StartHere + addr, executable.Contents(), inFileAddr, left)
      ensures UsedFrom(pageTable[..], old(pageTable[..]), addr / 256, if left > 0 then 1 else 0)
    {
      hide Copied, UsedFrom, MapsTo, LoadedLength, DivRoundUp;
      NothingYet(memory[..], 256 * StartHere + addr, executable.Contents(), inFileAddr, pageTable[..], addr / 256);
      if left % 256 != 0 {
        LoadPiece(executable, memory, addr, left % 256, inFileAddr);
      }
    }

    /** The sizes are reduced before the addresses are advanced by them, so after a start inside a page
        the whole pages are read again from that start, and what is left of the segment is not read.
        Only the pages that are read to are marked as used. */
    method LoadSegment(executable: OpenFile, memory: array<Byte>, addr0: int, size0: int, inFileAddr0: int)
      requires Mapped() && memory.Length == MemorySize && executable.Valid()
      requires 0 <= addr0 && 0 < size0 && addr0 + size0 <= 256 * numPages
      requires 0 <= inFileAddr0 && inFileAddr0 + size0 < 0x8000_0000
      modifies memory, pageTable
      ensures Mapped() && executable.Valid() && executable.Contents() == old(executable.Contents())
      ensures Copied(memory[..], old(memory[..]), 256 * StartHere + addr0, executable.Contents(), inFileAddr0,
        LoadedLength(addr0, size0))
      ensures UsedFrom(pageTable[..], old(pageTable[..]), addr0 / 256, DivRoundUp(LoadedLength(addr0, size0), 256))
    {
      hide Copied, UsedFrom, MapsTo, LoadedLength, DivRoundUp;
      var addr, size, inFileAddr := addr0, size0, inFileAddr0;
      Lengths(addr0, size0);
      if addr % 256 != 0 {
        ghost var before, table := memory[..], pageTable[..];
        LoadPiece(executable, memory, addr, size % 256, inFileAddr);
        ghost var m, t := memory[..], pageTable[..];
        size := size - size % 256;
        addr := addr + size % 256;
        inFileAddr := inFileAddr + size % 256;
        LoadRest(executable, memory, addr, size, inFileAddr);
        CopiedTwice(before, m, memory[..], 256 * StartHere + addr0, executable.Contents(), inFileAddr0,
          size0 % 256, size);
        UsedTwice(table, t, pageTable[..], addr0 / 256, 1, DivRoundUp(size, 256));
      } else {
        LoadRest(executable, memory, addr, size, inFileAddr);
      }
    }

    method FirstFit(map_: BitMap)
      requires map_.Valid() && map_.numBits == Frames
      modifies `SpaceFound, `StartHere
      ensures SpaceFound == HasRoom(map_.Bits(), numPages)
      ensures SpaceFound ==> Lowest(map_.Bits(), StartHere, numPages)
    {
      ghost var bits := map_.Bits();
      var chunk := 0;
      var index := 0;
      var startingAddress := 0;
      var EndOfMem := false;
      SpaceFound := false;
      while !SpaceFound && index < Frames
        invariant 0 <= index <= Frames && chunk == 0 && !SpaceFound
        invariant numPages == 0 ==> index == 0 && !EndOfMem && startingAddress == 0
        invariant !EndOfMem ==> NoneBefore(bits, index, numPages)
        invariant EndOfMem ==> !HasRoom(bits, numPages)
        decreases !EndOfMem, Frames - index
      {
        ghost var from, ended := index, EndOfMem;
        var busy := map_.Test(index);
        while !busy && !EndOfMem
          invariant !SpaceFound && 0 <= index < Frames && (ended ==> EndOfMem && chunk == 0 && index == from)
          invariant !EndOfMem ==> index == from + chunk && busy == bits[index]
          invariant !ended && EndOfMem ==> index == 0 && chunk == Frames - from && chunk > 0
          invariant !ended ==> Free(bits, from, chunk) && startingAddress == if chunk > 0 then from else startingAddress
          invariant chunk == 0 && numPages == 0 ==> startingAddress == 0
          decreases !EndOfMem, Frames - index
        {
          if chunk == 0 {
            chunk := chunk + 1;
            startingAddress := index;
          } else {
            chunk := chunk + 1;
          }
          index := index + 1;
          if index >= Frames {
            EndOfMem := true;
            index := 0;
          }
          busy := map_.Test(index);
        }
        if chunk >= numPages {
          SpaceFound := true;
          StartHere := startingAddress;
          assert Free(bits, from, numPages);
          return;
        } else {
          if !ended { BlockedByBusy(bits, from, chunk, numPages); }
          chunk := 0;
        }
        index := index + 1;
      }
      // A request for no frames has returned from the loop, so the test that follows it in the code fails.
      assert chunk < numPages;
      BlockedByBusy(bits, Frames, 0, numPages);
    }

    /** What BestFit has found among the frames before limit: nothing, or the first place that fits. */
    ghost predicate BestSoFar(bits: seq<bool>, limit: nat, bestChunk: nat)
      reads this
    {
      numPages > 0 ==>
        if bestChunk == 0 then NoneBefore(bits, limit, numPages)
        else bestChunk == numPages && Lowest(bits, StartHere, numPages)
    }

    /** The inner loop of BestFit: the free frames from index on, up to a busy one or the end. The best
        size is noted while the run still grows, so it is never more than the request. */
    method FirstRun(map_: BitMap, from: nat, best: nat) returns (index: nat, EndOfMem: bool, bestChunk: nat)
      requires map_.Valid() && map_.numBits == Frames && from < Frames && BestSoFar(map_.Bits(), from, best)
      modifies `StartHere
      ensures index < Frames
      ensures EndOfMem ==> index == 0 && !map_.Bits()[Frames - 1]
      ensures EndOfMem ==> BestSoFar(map_.Bits(), Frames + 1, bestChunk)
      ensures !EndOfMem ==> from <= index && map_.Bits()[index] && BestSoFar(map_.Bits(), index + 1, bestChunk)
    {
      ghost var bits := map_.Bits();
      var chunk := 0;
      var startingAddress := from;
      index, EndOfMem, bestChunk := from, false, best;
      FreeFrames(bits, from, 0);
      hide Free, HasRoom, NoneBefore, Lowest;
      var busy := map_.Test(index);
      while !busy && !EndOfMem
        invariant index < Frames
        invariant !EndOfMem ==> index == from + chunk && busy == bits[index]
        invariant EndOfMem ==> index == 0 && chunk == Frames - from && !bits[Frames - 1]
        invariant Free(bits, from, chunk) && (chunk > 0 ==> startingAddress == from)
        invariant numPages > 0 && bestChunk == 0 ==> chunk < numPages
        invariant BestSoFar(bits, from, bestChunk)
        decreases !EndOfMem, Frames - index
      {
        FreeFrames(bits, from, chunk);
        LowestIsRoom(bits, from, numPages);
        if chunk == 0 {
          chunk := chunk + 1;
          startingAddress := index;
        } else {
          chunk := chunk + 1;
        }
        index := index + 1;
        if index >= Frames {
          EndOfMem := true;
          index := 0;
        }
        if chunk >= numPages {
          if bestChunk == 0 {
            bestChunk := chunk;
            StartHere := startingAddress;
          } else if chunk < bestChunk {
            bestChunk := chunk;
            StartHere := startingAddress;
          }
        }
        busy := map_.Test(index);
      }
      if numPages > 0 && bestChunk == 0 { BlockedByBusy(bits, from, chunk, numPages); }
    }

    method BestFit(map_: BitMap)
      requires map_.Valid() && map_.numBits == Frames
      modifies `SpaceFound, `StartHere
      ensures numPages > 0 ==> SpaceFound == (HasRoom(map_.Bits(), numPages) && !map_.Bits()[Frames - 1])
      ensures numPages > 0 && SpaceFound ==> Lowest(map_.Bits(), StartHere, numPages)
    {
      ghost var bits := map_.Bits();
      var bestChunk: nat := 0;
      var index := 0;
      SpaceFound := false;
      var EndOfMem := false;
      NoRoom(bits, numPages);
      while index < Frames && !SpaceFound
        invariant 0 <= index <= Frames && !SpaceFound
        invariant BestSoFar(bits, if EndOfMem then Frames + 1 else index, bestChunk)
        invariant !EndOfMem && index > 0 ==> bits[index - 1]
        invariant numPages > 0 && EndOfMem ==> bestChunk == 0
        decreases !EndOfMem, Frames - index
      {
        hide NoneBefore, Lowest, HasRoom;
        if !EndOfMem {
          index, EndOfMem, bestChunk := FirstRun(map_, index, bestChunk);
        }
        if bestChunk >= numPages && EndOfMem {
          LowestIsRoom(bits, StartHere, numPages);
          SpaceFound := true;
          return;
        }
        index := index + 1;
      }
    }

    /** The inner loop of WorstFit: the free frames from index on, up to a busy one or the end. */
    method ScanRun(map_: BitMap, from: nat, worst: nat) returns (index: nat, EndOfMem: bool, worstChunk: nat)
      requires map_.Valid() && map_.numBits == Frames && from < Frames && (from > 0 ==> map_.Bits()[from - 1])
      requires worst == 0 || worst >= numPages
      requires numPages > 0 ==> Surveyed(map_.Bits(), from, numPages, worst, StartHere)
      modifies `StartHere
      ensures index < Frames && (worstChunk == 0 || worstChunk >= numPages)
      ensures EndOfMem ==> index == 0 && !map_.Bits()[Frames - 1]
      ensures EndOfMem && numPages > 0 ==> Surveyed(map_.Bits(), Frames, numPages, worstChunk, StartHere)
      ensures !EndOfMem ==> from <= index && map_.Bits()[index]
      ensures !EndOfMem && numPages > 0 ==> Surveyed(map_.Bits(), index, numPages, worstChunk, StartHere)
    {
      hide *;
      ghost var bits := map_.Bits();
      var chunk := 0;
      var startingAddress := from;
      index, EndOfMem, worstChunk := from, false, worst;
      FreeFrames(bits, from, 0);
      var busy := map_.Test(index);
      while !busy && !EndOfMem
        invariant index < Frames && (worstChunk == 0 || worstChunk >= numPages)
        invariant !EndOfMem ==> index == from + chunk && busy == bits[index]
        invariant EndOfMem ==> index == 0 && chunk == Frames - from && !bits[Frames - 1]
        invariant Free(bits, from, chunk) && (chunk > 0 ==> startingAddress == from)
        invariant numPages > 0 ==> Surveyed(bits, from + chunk, numPages, worstChunk, StartHere)
        decreases !EndOfMem, Frames - index
      {
        FreeFrames(bits, from, chunk);
        if numPages > 0 { SurveyFreeFrame(bits, from, chunk, numPages, worstChunk, StartHere); }
        if chunk == 0 {
          chunk := chunk + 1;
          startingAddress := index;
        } else {
          chunk := chunk + 1;
        }
        index := index + 1;
        if index >= Frames {
          EndOfMem := true;
          index := 0;
        }
        if chunk >= numPages {
          if worstChunk == 0 {
            worstChunk := chunk;
            StartHere := startingAddress;
          } else if chunk > worstChunk {
            worstChunk := chunk;
            StartHere := startingAddress;
          }
        }
        busy := map_.Test(index);
      }
    }

    method WorstFit(map_: BitMap)
      requires map_.Valid() && map_.numBits == Frames
      modifies `SpaceFound, `StartHere
      ensures numPages > 0 ==> SpaceFound == (HasRoom(map_.Bits(), numPages) && !map_.Bits()[Frames - 1])
      ensures numPages > 0 && SpaceFound ==> Longest(map_.Bits(), StartHere, numPages)
    {
      ghost var bits := map_.Bits();
      if numPages > 0 { SurveyStarts(bits, numPages, StartHere); }
      hide Free, HasRoom, Surveyed, Longest;
      var worstChunk: nat := 0;
      var index := 0;
      SpaceFound := false;
      var EndOfMem := false;
      while index < Frames && !SpaceFound
        invariant 0 <= index <= Frames && !SpaceFound
        invariant numPages > 0 && !EndOfMem ==> Surveyed(bits, index, numPages, worstChunk, StartHere)
        invariant !EndOfMem && index > 0 ==> bits[index - 1]
        invariant worstChunk == 0 || worstChunk >= numPages
        invariant numPages > 0 && EndOfMem ==> worstChunk == 0 && Surveyed(bits, Frames, numPages, 0, StartHere)
        decreases !EndOfMem, Frames - index
      {
        if !EndOfMem {
          index, EndOfMem, worstChunk := ScanRun(map_, index, worstChunk);
        }
        if worstChunk >= numPages && EndOfMem {
          if numPages > 0 { SurveyEnds(bits, numPages, worstChunk, StartHere); }
          SpaceFound := true;
          return;
        }
        if numPages > 0 && !EndOfMem { SurveyBusyFrame(bits, index, numPages, worstChunk, StartHere); }
        index := index + 1;
      }
      if numPages > 0 && EndOfMem { SurveyEnds(bits, numPages, 0, StartHere); }
    }

    method MemoryAllocation(i: int, map_: BitMap)
      requires map_.Valid() && map_.numBits == Frames
      modifies `SpaceFound, `StartHere
      ensures 0 <= i <= 2 ==> Chosen(i, map_.Bits(), numPages, SpaceFound, StartHere)
      ensures !(0 <= i <= 2) ==> SpaceFound == old(SpaceFound) && StartHere == old(StartHere)
    {
      hide HasRoom, Lowest, Longest;
      if i == 0 {
        FirstFit(map_);
      } else if i == 1 {
        BestFit(map_);
      } else if i == 2 {
        WorstFit(map_);
      }
    }

    /** Takes the frames found and sets up the page table. */
    method TakeFrames(map_: BitMap)
      requires map_.Valid() && map_.numBits == Frames && 0 <= StartHere && StartHere + numPages <= Frames
      modifies map_.map_, `pageTable
      ensures Mapped() && fresh(pageTable) && map_.Bits() == Painted(old(map_.Bits()), StartHere, numPages, true)
      ensures forall j :: 0 <= j < numPages ==> !pageTable[j].use && !pageTable[j].dirty
    {
      var table := new TranslationEntry[numPages];
      ghost var bits := map_.Bits();
      for i := 0 to numPages
        invariant map_.Bits() == Painted(bits, StartHere, i, true)
        invariant forall j :: 0 <= j < i ==> MapsTo(table[j], j, StartHere + j) && !table[j].use && !table[j].dirty
      {
        table[i] := TranslationEntry(i, i + StartHere, true, false, false, false);
        map_.Mark(i + StartHere);
        assert Painted(bits, StartHere, i + 1, true) == Painted(bits, StartHere, i, true)[i + StartHere := true];
      }
      pageTable := table;
    }

    /** The loop of bzero calls, in the constructor and in the destructor. */
    method ZeroFrames(memory: array<Byte>)
      requires Mapped() && memory.Length == MemorySize
      modifies memory
      ensures forall k :: 0 <= k < MemorySize ==>
        memory[..][k] == if 256 * StartHere <= k < 256 * (StartHere + numPages) then 0 else old(memory[..])[k]
    {
      for i := 0 to numPages
        invariant Mapped()
        invariant forall k :: 0 <= k < MemorySize ==>
          memory[k] == if 256 * StartHere <= k < 256 * (StartHere + i) then 0 else old(memory[k])
      {
        var frame := pageTable[i].physicalPage;
        assert frame == StartHere + i;
        forall k | 256 * frame <= k < 256 * frame + 256 {
          memory[k] := 0;
        }
      }
    }

    method LoadProgram(executable: OpenFile, memory: array<Byte>, noffH: NoffHeader)
      requires Mapped() && memory.Length == MemorySize && executable.Valid()
      requires GoodProgram(noffH) && numPages == PagesOf(noffH)
      modifies memory, pageTable
      ensures Mapped() && executable.Valid() && executable.Contents() == old(executable.Contents())
      ensures ProgramOver(old(memory[..]), memory[..], 256 * StartHere, numPages, noffH, executable.Contents())
      ensures (forall j :: 0 <= j < numPages ==> !old(pageTable[..])[j].use && !old(pageTable[..])[j].dirty) ==>
        NewTable(pageTable[..], StartHere, noffH)
    {
      hide Copied, PagesOf, ProgramOver, SegmentFits, SegmentOver, NewTable, UsedBy;
      ghost var before, empty := memory[..], pageTable[..];
      LoadIfAny(executable, memory, noffH.code);
      ghost var m, t := memory[..], pageTable[..];
      LoadIfAny(executable, memory, noffH.initData);
      if forall j :: 0 <= j < numPages ==> !empty[j].use && !empty[j].dirty {
        BothTouch(empty, t, pageTable[..], StartHere, noffH);
      }
      TwoSegments(before, m, memory[..], 256 * StartHere, numPages, noffH, executable.Contents());
    }

    method LoadIfAny(executable: OpenFile, memory: array<Byte>, s: Segment)
      requires Mapped() && memory.Length == MemorySize && executable.Valid() && SegmentFits(s, numPages)
      modifies memory, pageTable
      ensures Mapped() && executable.Valid() && executable.Contents() == old(executable.Contents())
      ensures SegmentOver(old(memory[..]), memory[..], 256 * StartHere, s, executable.Contents())
      ensures UsedBy(pageTable[..], old(pageTable[..]), s)
    {
      hide Copied, LoadedLength, UsedFrom, DivRoundUp;
      if s.size > 0 {
        ghost var table := pageTable[..];
        LoadSegment(executable, memory, s.virtualAddr, s.size, s.inFileAddr);
        UsedBySegment(pageTable[..], table, s);
      }
    }

    /** Creates the space of a program: finds frames, and if there are any takes, zeroes and fills them. */
    constructor (executable: OpenFile, map_: BitMap, memory: array<Byte>, memAll: int)
      requires executable.Valid() && |executable.Contents()| >= 40
      requires GoodProgram(DecodeNoff(executable.Contents()[..40]))
      requires map_.Valid() && map_.numBits == Frames && memory.Length == MemorySize && 0 <= memAll <= 2
      requires Apart(executable, map_, memory)
      modifies map_.map_, memory
      ensures numPages == PagesOf(DecodeNoff(executable.Contents()[..40]))
      ensures var h := DecodeNoff(executable.Contents()[..40]);
        var needed := h.code.size + h.initData.size + h.uninitData.size + 1024;
        0 <= needed < 0x1_0000_0000 ==> 256 * numPages >= needed > 256 * (numPages - 1)
      ensures Chosen(memAll, old(map_.Bits()), numPages, SpaceFound, StartHere)
      ensures !SpaceFound ==> map_.Bits() == old(map_.Bits()) && memory[..] == old(memory[..])
      ensures SpaceFound ==> Mapped() && map_.Bits() == Painted(old(map_.Bits()), StartHere, numPages, true)
      ensures SpaceFound ==>
        fresh(pageTable) && NewTable(pageTable[..], StartHere, DecodeNoff(executable.Contents()[..40]))
      ensures SpaceFound ==>
        Loaded(old(memory[..]), memory[..], 256 * StartHere, numPages, DecodeNoff(executable.Contents()[..40]),
          executable.Contents())
    {
      hide *;
      SpaceFound, StartHere, numPages, pageTable := false, 0, 0, null;
      new;
      var noffH := ReadHeader(executable);
      numPages := PagesOf(noffH);
      if 0 <= noffH.code.size + noffH.initData.size + noffH.uninitData.size + 1024 < 0x1_0000_0000 {
        PagesSuffice(noffH);
      }
      MemoryAllocation(memAll, map_);
      if SpaceFound {
        Populate(executable, map_, memory, memAll, noffH);
      }
    }

    method ReadHeader(executable: OpenFile) returns (noffH: NoffHeader)
      requires executable.Valid() && |executable.Contents()| >= 40
      ensures noffH == DecodeNoff(executable.Contents()[..40])
    {
      var header := new Byte[40];
      var n := executable.ReadAt(header, 0, 40, 0);
      assert header[..] == header[0..40] == executable.Contents()[..40];
      noffH := DecodeNoff(header[..]);
    }

    /** The constructor's work once frames are found. */
    method Populate(executable: OpenFile, map_: BitMap, memory: array<Byte>, memAll: int, noffH: NoffHeader)
      requires executable.Valid() && GoodProgram(noffH) && numPages == PagesOf(noffH)
      requires map_.Valid() && map_.numBits == Frames && memory.Length == MemorySize
      requires Chosen(memAll, map_.Bits(), numPages, true, StartHere)
      requires Apart(executable, map_, memory)
      modifies map_.map_, memory, `pageTable
      ensures pageTable != null && fresh(pageTable) && NewTable(pageTable[..], StartHere, noffH)
      ensures Mapped() && map_.Bits() == Painted(old(map_.Bits()), StartHere, numPages, true)
      ensures executable.Valid() && executable.Contents() == old(executable.Contents())
      ensures Loaded(old(memory[..]), memory[..], 256 * StartHere, numPages, noffH, executable.Contents())
    {
      hide Chosen, PagesOf, DecodeNoff, InitialByte, NewTable;
      ChosenIsFree(memAll, map_.Bits(), numPages, StartHere);
      TakeFrames(map_);
      ZeroFrames(memory);
      LoadProgram(executable, memory, noffH);
    }

    /** The destructor: the space's frames are zeroed and its bits cleared, and nothing else. */
    method Destroy(map_: BitMap, memory: array<Byte>)
      requires Mapped() && map_.Valid() && map_.numBits == Frames && memory.Length == MemorySize
      requires (memory as object) != map_.map_ && (memory as object) != map_
      modifies map_.map_, memory
      ensures map_.Bits() == Painted(old(map_.Bits()), StartHere, numPages, false)
      ensures forall k :: 0 <= k < MemorySize ==>
        memory[..][k] == if 256 * StartHere <= k < 256 * (StartHere + numPages) then 0 else old(memory[..])[k]
    {
      ZeroFrames(memory);
      ghost var bits, zeroed := map_.Bits(), memory[..];
      for i := 0 to numPages
        invariant Mapped() && memory[..] == zeroed && map_.Bits() == Painted(bits, StartHere, i, false)
      {
        map_.Clear(i + StartHere);
        assert Painted(bits, StartHere, i + 1, false) == Painted(bits, StartHere, i, false)[i + StartHere := false];
      }
    }
  }
}
