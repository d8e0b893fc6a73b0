/** addrspace.cc: real address spaces, created and destroyed in any order on one map of frames and one
    memory. They follow the runs of SpaceRuns.dfy, and every space keeps reading as its program. */
module SpaceObjects {
  import opened Bytes
  import opened BitMaps
  import opened OpenFiles
  import opened Translation
  import opened AddrSpaces
  import opened SpaceRuns

  /** file: what the executable holds. */
  datatype Request = Create(pid: Pid, executable: OpenFile, file: seq<Byte>, memAll: int) | Exit(pid: Pid)

  /** The objects are in state s. */
  ghost predicate Shows(map_: BitMap, spaces: map<Pid, AddrSpace>, s: State)
    reads map_, map_.map_, spaces.Values, set p | p in spaces && spaces[p].pageTable != null :: spaces[p].pageTable
  {
    && map_.Valid() && map_.numBits == Frames && map_.Bits() == s.bits
    && spaces.Keys == s.live.Keys
    && (forall p :: p in spaces ==> spaces[p].Mapped() && s.live[p] == Space(spaces[p].StartHere, spaces[p].numPages))
  }

  /** Live spaces share neither objects nor page tables. */
  ghost predicate Distinct(spaces: map<Pid, AddrSpace>)
    reads spaces.Values
  {
    forall p, q :: p in spaces && q in spaces && p != q ==>
      spaces[p] != spaces[q] && (spaces[p].pageTable != null ==> spaces[p].pageTable != spaces[q].pageTable)
  }

  /** Each live space's frames hold its program, as the constructor left it. */
  predicate Intact(mem: seq<Byte>, live: map<Pid, Space>, programs: map<Pid, seq<Byte>>) {
    live.Keys <= programs.Keys && forall p :: p in live ==> HoldsProgram(mem, live[p], programs[p])
  }

  predicate HoldsProgram(mem: seq<Byte>, sp: Space, file: seq<Byte>) {
    |file| >= 40 && 256 * (sp.start + sp.pages) <= |mem| &&
    forall k :: 256 * sp.start <= k < 256 * (sp.start + sp.pages) ==>
      mem[k] == InitialByte(DecodeNoff(file[..40]), file, k - 256 * sp.start)
  }

  /** An executable that the constructor can load. */
  ghost predicate Loadable(executable: OpenFile, file: seq<Byte>, map_: BitMap, memory: array<Byte>)
    reads executable, executable.disk, executable.hdr, executable.hdr.dataSectors
  {
    && executable.Valid() && Apart(executable, map_, memory)
    && executable.Contents() == file && |file| >= 40 && GoodProgram(DecodeNoff(file[..40]))
  }

  /** One of the requests was for this program under this number. */
  predicate Asked(requests: seq<Request>, pid: Pid, file: seq<Byte>) {
    exists r :: r in requests && r.Create? && r.pid == pid && r.file == file
  }

  // ---------------------------------------------------------------- frames do not overlap

  /** No frame of one live space is another's. */
  lemma OtherFrames(s: State, p: Pid, q: Pid, k: int)
    requires Inv(s) && p in s.live && q in s.live && p != q
    requires 256 * s.live[q].start <= k < 256 * (s.live[q].start + s.live[q].pages)
    ensures !(256 * s.live[p].start <= k < 256 * (s.live[p].start + s.live[p].pages))
  {
    assert Owns(s.live[q], k / 256);
    assert Owns(s.live[p], k / 256) ==> p == q;
  }

  lemma StillHolds(before: seq<Byte>, mem: seq<Byte>, sp: Space, file: seq<Byte>)
    requires HoldsProgram(before, sp, file) && |mem| == |before|
    requires forall k :: 256 * sp.start <= k < 256 * (sp.start + sp.pages) ==> mem[k] == before[k]
    ensures HoldsProgram(mem, sp, file)
  {
  }

  lemma NewlyHolds(before: seq<Byte>, mem: seq<Byte>, sp: Space, file: seq<Byte>)
    requires |file| >= 40 && Loaded(before, mem, 256 * sp.start, sp.pages, DecodeNoff(file[..40]), file)
    ensures HoldsProgram(mem, sp, file)
    ensures |mem| == |before|
    ensures forall k :: 0 <= k < |mem| && !(256 * sp.start <= k < 256 * (sp.start + sp.pages)) ==> mem[k] == before[k]
  {
    hide InitialByte, DecodeNoff;
    forall k | 256 * sp.start <= k < 256 * (sp.start + sp.pages)
      ensures mem[k] == InitialByte(DecodeNoff(file[..40]), file, k - 256 * sp.start)
    {
      assert mem[256 * sp.start + (k - 256 * sp.start)] == mem[k];
    }
  }

  lemma CreatedIntact(s: State, t: State, pid: Pid, before: seq<Byte>, mem: seq<Byte>, programs: map<Pid, seq<Byte>>,
                      file: seq<Byte>)
    requires Inv(t) && pid !in s.live && pid in t.live && t.live == s.live[pid := t.live[pid]]
    requires |before| == MemorySize && Intact(before, s.live, programs) && |file| >= 40
    requires Loaded(before, mem, 256 * t.live[pid].start, t.live[pid].pages, DecodeNoff(file[..40]), file)
    ensures Intact(mem, t.live, programs[pid := file])
  {
    hide Inv, Loaded, HoldsProgram;
    NewlyHolds(before, mem, t.live[pid], file);
    forall q | q in t.live ensures HoldsProgram(mem, t.live[q], programs[pid := file][q]) {
      if q != pid {
        assert HoldsProgram(before, s.live[q], programs[q]);
        RoomFor(before, s.live[q], programs[q]);
        forall k | 256 * t.live[q].start <= k < 256 * (t.live[q].start + t.live[q].pages) ensures mem[k] == before[k] {
          OtherFrames(t, pid, q, k);
        }
        StillHolds(before, mem, t.live[q], programs[q]);
      }
    }
  }

  lemma RoomFor(mem: seq<Byte>, sp: Space, file: seq<Byte>)
    requires HoldsProgram(mem, sp, file)
    ensures 256 * (sp.start + sp.pages) <= |mem|
  {
  }

  lemma ExitIntact(s: State, t: State, pid: Pid, before: seq<Byte>, mem: seq<Byte>, programs: map<Pid, seq<Byte>>)
    requires Inv(s) && pid in s.live && t.live == s.live - {pid}
    requires |before| == |mem| == MemorySize && Intact(before, s.live, programs)
    requires forall k :: 0 <= k < MemorySize ==>
      mem[k] == if 256 * s.live[pid].start <= k < 256 * (s.live[pid].start + s.live[pid].pages) then 0 else before[k]
    ensures Intact(mem, t.live, programs)
  {
    hide Inv, HoldsProgram;
    forall q | q in t.live ensures HoldsProgram(mem, t.live[q], programs[q]) {
      assert HoldsProgram(before, s.live[q], programs[q]);
      RoomFor(before, s.live[q], programs[q]);
      forall k | 256 * t.live[q].start <= k < 256 * (t.live[q].start + t.live[q].pages) ensures mem[k] == before[k] {
        OtherFrames(s, pid, q, k);
      }
      StillHolds(before, mem, t.live[q], programs[q]);
    }
  }

  lemma ProgramHasPages(h: NoffHeader)
    requires GoodProgram(h)
    ensures PagesOf(h) > 0
  {
  }

  // ---------------------------------------------------------------- the objects

  method CreateSpace(map_: BitMap, memory: array<Byte>, spaces: map<Pid, AddrSpace>, pid: Pid, executable: OpenFile,
                     file: seq<Byte>, memAll: int, ghost s: State, ghost programs: map<Pid, seq<Byte>>)
    returns (now: map<Pid, AddrSpace>, ghost e: Event, ghost after: map<Pid, seq<Byte>>)
    requires Shows(map_, spaces, s) && Distinct(spaces) && Inv(s) && memory.Length == MemorySize
    requires Intact(memory[..], s.live, programs)
    requires pid !in spaces && Loadable(executable, file, map_, memory) && 0 <= memAll <= 2
    modifies map_.map_, memory
    ensures Enabled(s, e) && Shows(map_, now, Step(s, e)) && Distinct(now)
    ensures Intact(memory[..], Step(s, e).live, after)
    ensures after == if pid in now then programs[pid := file] else programs
  {
    hide Inv, Chosen, Intact, GoodProgram, PagesOf, DecodeNoff;
    ghost var before := memory[..];
    ProgramHasPages(DecodeNoff(file[..40]));
    var space := new AddrSpace(executable, map_, memory, memAll);
    e := Created(pid, memAll, space.numPages, space.SpaceFound, space.StartHere);
    now, after := spaces, programs;
    if space.SpaceFound {
      now, after := spaces[pid := space], programs[pid := file];
      CreateKeeps(s, pid, memAll, space.numPages, space.StartHere);
      CreatedIntact(s, Step(s, e), pid, before, memory[..], programs, file);
    }
  }

  method ExitSpace(map_: BitMap, memory: array<Byte>, spaces: map<Pid, AddrSpace>, pid: Pid,
                   ghost s: State, ghost programs: map<Pid, seq<Byte>>)
    returns (now: map<Pid, AddrSpace>)
    requires Shows(map_, spaces, s) && Distinct(spaces) && Inv(s) && memory.Length == MemorySize
    requires Intact(memory[..], s.live, programs)
    requires pid in spaces && (memory as object) != map_.map_
    modifies map_.map_, memory
    ensures Enabled(s, Exited(pid)) && Shows(map_, now, Step(s, Exited(pid))) && Distinct(now)
    ensures Intact(memory[..], Step(s, Exited(pid)).live, programs)
  {
    hide Inv, Intact;
    ghost var before := memory[..];
    spaces[pid].Destroy(map_, memory);
    now := spaces - {pid};
    ExitIntact(s, Step(s, Exited(pid)), pid, before, memory[..], programs);
  }

  lemma {:induction false} RunJoin(s: State, events: seq<Event>, mid: State, more: seq<Event>, last: State)
    requires IsRun(s, events, mid) && IsRun(mid, more, last)
    ensures IsRun(s, events + more, last)
    decreases |events|
  {
    hide Enabled, Step;
    if events == [] {
      assert events + more == more;
    } else {
      assert (events + more)[1..] == events[1..] + more;
      RunJoin(Step(s, events[0]), events[1..], mid, more, last);
    }
  }

  /** One request; a second creation under a number in use and an exit of nobody do nothing. */
  method Serve(map_: BitMap, memory: array<Byte>, spaces: map<Pid, AddrSpace>, request: Request,
               ghost s: State, ghost programs: map<Pid, seq<Byte>>)
    returns (now: map<Pid, AddrSpace>, ghost happened: seq<Event>, ghost t: State, ghost after: map<Pid, seq<Byte>>)
    requires Shows(map_, spaces, s) && Distinct(spaces) && Inv(s) && memory.Length == MemorySize
    requires Intact(memory[..], s.live, programs) && (memory as object) != map_.map_
    requires request.Create? ==> Loadable(request.executable, request.file, map_, memory) && 0 <= request.memAll <= 2
    modifies map_.map_, memory
    ensures IsRun(s, happened, t) && Inv(t) && Shows(map_, now, t) && Distinct(now) && Intact(memory[..], t.live, after)
    ensures forall p :: p in after ==>
      (p in programs && after[p] == programs[p]) || (request.Create? && p == request.pid && after[p] == request.file)
  {
    hide Inv, Intact, Enabled, Step, GoodProgram, DecodeNoff, Loadable, Distinct;
    now, happened, t, after := spaces, [], s, programs;
    match request {
      case Create(pid, executable, file, memAll) =>
        if pid !in spaces {
          ghost var e;
          now, e, after := CreateSpace(map_, memory, spaces, pid, executable, file, memAll, s, programs);
          happened, t := [e], Step(s, e);
        }
      case Exit(pid) =>
        if pid in spaces {
          now := ExitSpace(map_, memory, spaces, pid, s, programs);
          happened, t := [Exited(pid)], Step(s, Exited(pid));
        }
    }
    RunKeeps(s, happened, t);
  }

  /** Any requests, one after the other. The objects follow a run of the step system, and in the end every
      live space still holds its program. */
  method Session(map_: BitMap, memory: array<Byte>, start: map<Pid, AddrSpace>, requests: seq<Request>,
                 ghost s: State, ghost programs: map<Pid, seq<Byte>>)
    returns (spaces: map<Pid, AddrSpace>, ghost events: seq<Event>, ghost last: State, ghost files: map<Pid, seq<Byte>>)
    requires Shows(map_, start, s) && Distinct(start) && Inv(s) && memory.Length == MemorySize
    requires Intact(memory[..], s.live, programs) && (memory as object) != map_.map_
    requires forall r :: r in requests && r.Create? ==>
      Loadable(r.executable, r.file, map_, memory) && 0 <= r.memAll <= 2
    modifies map_.map_, memory
    ensures IsRun(s, events, last) && Inv(last) && Shows(map_, spaces, last) && Distinct(spaces)
    ensures Intact(memory[..], last.live, files)
    ensures forall p :: p in files ==> Asked(requests, p, files[p]) || (p in programs && files[p] == programs[p])
  {
    hide Inv, Intact, IsRun, GoodProgram, DecodeNoff, Shows, Distinct;
    NothingHappens(s);
    spaces, events, last, files := start, [], s, programs;
    for i := 0 to |requests|
      invariant IsRun(s, events, last) && Inv(last) && Shows(map_, spaces, last) && Distinct(spaces)
      invariant Intact(memory[..], last.live, files)
      invariant forall r :: r in requests && r.Create? ==> Loadable(r.executable, r.file, map_, memory)
      invariant forall p :: p in files ==> Asked(requests, p, files[p]) || (p in programs && files[p] == programs[p])
    {
      ghost var happened, t;
      spaces, happened, t, files := Serve(map_, memory, spaces, requests[i], last, files);
      RunJoin(s, events, last, happened, t);
      events, last := events + happened, t;
    }
  }

  lemma NothingHappens(s: State)
    ensures IsRun(s, [], s)
  {
  }

  /** Through its page table a space reads as data over code over zeros. */
  ghost predicate ReadsAs(mem: seq<Byte>, table: seq<TranslationEntry>, file: seq<Byte>) {
    && |mem| == MemorySize && GoodTable(table) && |file| >= 40
    && forall a: nat :: a < 256 * |table| ==>
      Translation.Mapped(table, a) && FlatByte(mem, table, a) == InitialByte(DecodeNoff(file[..40]), file, a)
  }

  lemma ReadsAsProgram(mem: seq<Byte>, table: seq<TranslationEntry>, sp: Space, file: seq<Byte>)
    requires |mem| == MemorySize && TableOf(table, sp) && sp.start + sp.pages <= Frames && HoldsProgram(mem, sp, file)
    ensures ReadsAs(mem, table, file)
  {
    hide InitialByte, DecodeNoff, GoodTable, Translation.Mapped, Phys;
    SpaceIsFlat(table, sp, 0);
    forall a: nat | a < 256 * |table|
      ensures Translation.Mapped(table, a)
      ensures FlatByte(mem, table, a) == InitialByte(DecodeNoff(file[..40]), file, a)
    {
      SpaceIsFlat(table, sp, a);
      assert mem[256 * sp.start + a] == InitialByte(DecodeNoff(file[..40]), file, a);
    }
  }

  /** From an empty machine, whatever is created and exits: the map is that of a run from empty, so it
      marks the frames of the live spaces and no others, each for one owner; and each live space reads
      through its page table as a program that was asked for under its number. */
  method FromEmpty(memory: array<Byte>, map_: BitMap, requests: seq<Request>)
    returns (spaces: map<Pid, AddrSpace>, ghost events: seq<Event>, ghost last: State, ghost files: map<Pid, seq<Byte>>)
    requires memory.Length == MemorySize && (memory as object) != map_.map_
    requires map_.Valid() && map_.numBits == Frames && forall f :: 0 <= f < Frames ==> !map_.Bits()[f]
    requires forall r :: r in requests && r.Create? ==>
      Loadable(r.executable, r.file, map_, memory) && 0 <= r.memAll <= 2
    modifies map_.map_, memory
    ensures IsRun(Empty(), events, last) && Shows(map_, spaces, last) && spaces.Keys <= files.Keys
    ensures forall p :: p in spaces ==>
      ReadsAs(memory[..], spaces[p].pageTable[..], files[p]) && Asked(requests, p, files[p])
  {
    hide ReadsAs, HoldsProgram, Loadable, IsRun, MapsTo;
    assert map_.Bits() == Empty().bits;
    EmptyHolds();
    spaces, events, last, files := Session(map_, memory, map[], requests, Empty(), map[]);
    forall p | p in spaces ensures ReadsAs(memory[..], spaces[p].pageTable[..], files[p]) {
      ReadsAsProgram(memory[..], spaces[p].pageTable[..], last.live[p], files[p]);
    }
  }

  lemma EmptyHolds()
    ensures Inv(Empty())
  {
  }
}
