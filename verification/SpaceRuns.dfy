/** addrspace.cc over a whole run: spaces are created and exit in any order, and each has its frames,
    and its memory, to itself. */
module SpaceRuns {
  import opened Bytes
  import opened Translation
  import opened AddrSpaces

  type Pid = nat
  datatype Space = Space(start: nat, pages: nat)

  /** MainMemMap and the live spaces. */
  datatype State = State(bits: seq<bool>, live: map<Pid, Space>)

  datatype Event = Created(pid: Pid, algorithm: int, pages: nat, found: bool, start: int) | Exited(pid: Pid)

  ghost predicate Enabled(s: State, e: Event) {
    match e
    case Created(pid, algorithm, pages, found, start) =>
      |s.bits| == Frames && pid !in s.live && pages > 0 && Chosen(algorithm, s.bits, pages, found, start)
    case Exited(pid) => pid in s.live
  }

  /** What the constructor and the destructor do to the map. */
  function Step(s: State, e: Event): State {
    match e
    case Created(pid, _, pages, found, start) =>
      if found && start >= 0 then State(Painted(s.bits, start, pages, true), s.live[pid := Space(start, pages)]) else s
    case Exited(pid) =>
      if pid in s.live then State(Painted(s.bits, s.live[pid].start, s.live[pid].pages, false), s.live - {pid}) else s
  }

  predicate Owns(sp: Space, f: int) {
    sp.start <= f < sp.start + sp.pages
  }

  /** The map marks exactly the frames of live spaces, and no frame has two owners. */
  ghost predicate Inv(s: State) {
    && |s.bits| == Frames
    && (forall p :: p in s.live ==> s.live[p].start + s.live[p].pages <= Frames)
    && (forall f :: 0 <= f < Frames ==> (s.bits[f] <==> exists p :: p in s.live && Owns(s.live[p], f)))
    && (forall p, q, f :: p in s.live && q in s.live && Owns(s.live[p], f) && Owns(s.live[q], f) ==> p == q)
  }

  lemma CreateKeeps(s: State, pid: Pid, algorithm: int, pages: nat, start: int)
    requires Inv(s) && Enabled(s, Created(pid, algorithm, pages, true, start))
    ensures start >= 0 && Inv(Step(s, Created(pid, algorithm, pages, true, start)))
  {
    hide Chosen;
    ChosenIsFree(algorithm, s.bits, pages, start);
    var t := Step(s, Created(pid, algorithm, pages, true, start));
    var sp := Space(start, pages);
    forall f | 0 <= f < Frames
      ensures t.bits[f] <==> exists p :: p in t.live && Owns(t.live[p], f)
    {
      if Owns(sp, f) {
        assert pid in t.live && Owns(t.live[pid], f);
      } else if s.bits[f] {
        var p :| p in s.live && Owns(s.live[p], f);
        assert p in t.live && Owns(t.live[p], f);
      } else {
        forall p | p in t.live ensures !Owns(t.live[p], f) {
          assert p != pid ==> p in s.live;
        }
      }
    }
    assert forall f :: 0 <= f < Frames && Owns(sp, f) ==> !s.bits[f];
    assert forall p, f :: p in s.live && Owns(s.live[p], f) ==> 0 <= f < Frames && s.bits[f];
  }

  lemma ExitKeeps(s: State, pid: Pid)
    requires Inv(s) && pid in s.live
    ensures Inv(Step(s, Exited(pid)))
    ensures forall f :: 0 <= f < Frames ==> Step(s, Exited(pid)).bits[f] == (s.bits[f] && !Owns(s.live[pid], f))
  {
    var t := Step(s, Exited(pid));
    forall f | 0 <= f < Frames
      ensures t.bits[f] <==> exists p :: p in t.live && Owns(t.live[p], f)
    {
      if t.bits[f] {
        var p :| p in s.live && Owns(s.live[p], f);
        assert p in t.live && Owns(t.live[p], f);
      } else {
        forall p | p in t.live ensures !Owns(t.live[p], f) {
          assert p in s.live && p != pid;
        }
      }
    }
  }

  /** What a space takes when it is created it gives back, all of it and nothing else, when it exits. */
  lemma ExitReturnsWhatCreationTook(s: State, pid: Pid, algorithm: int, pages: nat, start: int)
    requires Inv(s) && Enabled(s, Created(pid, algorithm, pages, true, start))
    ensures var t := Step(s, Created(pid, algorithm, pages, true, start));
      pid in t.live && Step(t, Exited(pid)) == s
  {
  }

  /** Any sequence of creations and exits. */
  ghost predicate IsRun(s: State, events: seq<Event>, last: State)
    decreases |events|
  {
    if events == [] then s == last else Enabled(s, events[0]) && IsRun(Step(s, events[0]), events[1..], last)
  }

  lemma {:induction false} RunKeeps(s: State, events: seq<Event>, last: State)
    requires Inv(s) && IsRun(s, events, last)
    ensures Inv(last)
    decreases |events|
  {
    if events != [] {
      match events[0] {
        case Created(pid, algorithm, pages, found, start) =>
          if found { CreateKeeps(s, pid, algorithm, pages, start); }
        case Exited(pid) => ExitKeeps(s, pid);
      }
      RunKeeps(Step(s, events[0]), events[1..], last);
    }
  }

  function Empty(): State {
    State(seq(Frames, i => false), map[])
  }

  /** After any run from an empty machine the map marks exactly the frames of the live spaces, each
      frame has one owner, and when all have left the map is clear again. */
  lemma FramesAreOwned(events: seq<Event>, s: State, f: nat)
    requires IsRun(Empty(), events, s) && f < Frames
    ensures |s.bits| == Frames && (s.bits[f] <==> exists p :: p in s.live && Owns(s.live[p], f))
    ensures forall p, q :: p in s.live && q in s.live && Owns(s.live[p], f) && Owns(s.live[q], f) ==> p == q
    ensures s.live == map[] ==> !s.bits[f]
  {
    RunKeeps(Empty(), events, s);
  }

  // ---------------------------------------------------------------- isolation

  /** The page table of a space. */
  predicate TableOf(table: seq<TranslationEntry>, sp: Space) {
    |table| == sp.pages && forall v :: 0 <= v < |table| ==> MapsTo(table[v], v, sp.start + v)
  }

  /** Through its page table a space sees its frames end to end. */
  lemma SpaceIsFlat(table: seq<TranslationEntry>, sp: Space, a: nat)
    requires TableOf(table, sp) && sp.start + sp.pages <= Frames
    ensures GoodTable(table)
    ensures a < 256 * sp.pages <==> Mapped(table, a)
    ensures Mapped(table, a) ==> Phys(table, a) == 256 * sp.start + a && Owns(sp, Phys(table, a) / 256)
  {
  }

  /** A store that goes through one live space's table changes nothing another live space can read. */
  lemma StoresStayHome(s: State, p: Pid, q: Pid, tp: seq<TranslationEntry>, tq: seq<TranslationEntry>,
      mem: seq<Byte>, virtAddr: Int32, bytes: seq<Byte>, b: nat)
    requires Inv(s) && p in s.live && q in s.live && p != q && TableOf(tp, s.live[p]) && TableOf(tq, s.live[q])
    requires |mem| == MemorySize && |bytes| in {1, 2, 4} && TableWalk(tp, virtAddr, |bytes|, true).Hit?
    requires b < 256 * s.live[q].pages
    ensures var phys := TableWalk(tp, virtAddr, |bytes|, true).phys;
      && phys + |bytes| <= MemorySize && GoodTable(tq) && Mapped(tq, b)
      && FlatByte(Stored(mem, phys, bytes), tq, b) == FlatByte(mem, tq, b)
  {
    SpaceIsFlat(tq, s.live[q], b);
    SpaceIsFlat(tp, s.live[p], 0);
    NeverStraddles(tp, virtAddr, |bytes|, true, |bytes| - 1);
    var phys := TableWalk(tp, virtAddr, |bytes|, true).phys;
    var at := Phys(tq, b);
    if phys <= at < phys + |bytes| {
      SameFrameSameOwner(s, p, q, tp, tq, virtAddr, |bytes|, b);
    }
  }

  lemma SameFrameSameOwner(s: State, p: Pid, q: Pid, tp: seq<TranslationEntry>, tq: seq<TranslationEntry>,
                           virtAddr: Int32, size: nat, b: nat)
    requires Inv(s) && p in s.live && q in s.live && TableOf(tp, s.live[p]) && TableOf(tq, s.live[q])
    requires size in {1, 2, 4} && TableWalk(tp, virtAddr, size, true).Hit? && GoodTable(tq) && Mapped(tq, b)
    requires TableWalk(tp, virtAddr, size, true).phys <= Phys(tq, b) < TableWalk(tp, virtAddr, size, true).phys + size
    ensures p == q
  {
    var k := Phys(tq, b) - TableWalk(tp, virtAddr, size, true).phys;
    SpaceIsFlat(tp, s.live[p], 0);
    NeverStraddles(tp, virtAddr, size, true, k);
    SpaceIsFlat(tp, s.live[p], Wrap(virtAddr) + k);
    SpaceIsFlat(tq, s.live[q], b);
  }

  // ---------------------------------------------------------------- what a new program sees

  /** Through its page table a new space reads as data over code over zeros. */
  lemma NewSpaceReads(before: seq<Byte>, mem: seq<Byte>, table: seq<TranslationEntry>, sp: Space, h: NoffHeader,
                      file: seq<Byte>, a: nat)
    requires |mem| == MemorySize && TableOf(table, sp) && sp.start + sp.pages <= Frames
    requires Loaded(before, mem, 256 * sp.start, sp.pages, h, file) && a < 256 * sp.pages
    ensures GoodTable(table) && Mapped(table, a) && FlatByte(mem, table, a) == InitialByte(h, file, a)
  {
  }

  /** So a data segment that starts on a page boundary, or is shorter than a page, or fills whole pages,
      reads as its bytes on file, all of them; and so does a code segment where no data lies over it. */
  lemma SegmentReadsAsFile(before: seq<Byte>, mem: seq<Byte>, table: seq<TranslationEntry>, sp: Space, h: NoffHeader,
                           file: seq<Byte>, s: Segment, k: nat)
    requires |mem| == MemorySize && TableOf(table, sp) && sp.start + sp.pages <= Frames
    requires Loaded(before, mem, 256 * sp.start, sp.pages, h, file)
    requires SegmentFits(s, sp.pages) && k < s.size && s.inFileAddr + s.size <= |file|
    requires s.virtualAddr % 256 == 0 || s.size < 256 || s.size % 256 == 0
    requires s == h.initData || (s == h.code && !Covers(h.initData, file, s.virtualAddr + k))
    ensures GoodTable(table) && Mapped(table, s.virtualAddr + k)
    ensures FlatByte(mem, table, s.virtualAddr + k) == file[s.inFileAddr + k]
  {
    hide LoadedLength, Loaded;
    WholeSegmentLoadedWhen(s.virtualAddr, s.size);
    NewSpaceReads(before, mem, table, sp, h, file, s.virtualAddr + k);
  }
}
