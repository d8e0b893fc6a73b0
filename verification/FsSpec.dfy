/** The file system as its bitmap and directory describe it, and what Create and Remove do to that
    description. The concrete file system (FileSystem.dfy) is proved to follow this one. */
module FsSpec {
  import opened Bytes
  import opened BitMaps
  import opened SectorDisk
  import opened FileHeaders

  const NumDirEntries := 10

  /** A directory slot: a file's nine-character key, header sector, length and data sectors. */
  datatype Slot = Free | File(key: seq<Byte>, sector: int, size: int, data: seq<int>)

  /** system: the sectors of the two headers and of the bitmap's and directory's own data. */
  datatype FsState = FsState(bits: seq<bool>, slots: seq<Slot>, system: seq<int>)

  function SlotOf(slots: seq<Slot>, key: seq<Byte>): (i: nat)
    ensures i <= |slots|
    ensures forall j :: 0 <= j < i ==> !(slots[j].File? && slots[j].key == key)
    ensures i < |slots| ==> slots[i].File? && slots[i].key == key
  {
    if slots == [] || (slots[0].File? && slots[0].key == key) then 0 else 1 + SlotOf(slots[1..], key)
  }

  function FreeSlot(slots: seq<Slot>): (i: nat)
    ensures i <= |slots|
    ensures forall j :: 0 <= j < i ==> slots[j].File?
    ensures i < |slots| ==> slots[i].Free?
  {
    if slots == [] || slots[0].Free? then 0 else 1 + FreeSlot(slots[1..])
  }

  lemma SlotOfUnique(slots: seq<Slot>, key: seq<Byte>, i: nat)
    requires i <= |slots|
    requires forall j :: 0 <= j < i ==> !(slots[j].File? && slots[j].key == key)
    requires i < |slots| ==> slots[i].File? && slots[i].key == key
    ensures SlotOf(slots, key) == i
  {
  }

  lemma FreeSlotUnique(slots: seq<Slot>, i: nat)
    requires i <= |slots|
    requires forall j :: 0 <= j < i ==> slots[j].File?
    requires i < |slots| ==> slots[i].Free?
    ensures FreeSlot(slots) == i
  {
  }

  // ---------------------------------------------------------------- operations

  function CreateFs(f: FsState, key: seq<Byte>, size: nat): (bool, FsState)
  {
    if SlotOf(f.slots, key) < |f.slots| then (false, f)
    else if FirstClear(f.bits) == |f.bits| then (false, f)
    else if FreeSlot(f.slots) == |f.slots| then (false, f)
    else
      var sector := FirstClear(f.bits);
      var bits1 := f.bits[sector := true];
      var n := DivRoundUp(size, SectorSize);
      if CountClear(bits1) < n then (false, f)
      else
        var t := Take(bits1, n);
        (true, f.(bits := t.1, slots := f.slots[FreeSlot(f.slots) := File(key, sector, size, t.0)]))
  }

  function ClearAll(bits: seq<bool>, s: seq<int>): (r: seq<bool>)
    ensures |r| == |bits|
    ensures forall k :: 0 <= k < |bits| ==> r[k] == (bits[k] && k !in s)
  {
    seq(|bits|, k requires 0 <= k < |bits| => bits[k] && k !in s)
  }

  function RemoveFs(f: FsState, key: seq<Byte>): (bool, FsState) {
    var i := SlotOf(f.slots, key);
    if i == |f.slots| then (false, f)
    else (true, f.(bits := ClearAll(f.bits, Claim(f, i)), slots := f.slots[i := Free]))
  }

  // ---------------------------------------------------------------- the allocation invariant

  /** The sectors slot i speaks for; the slot after the last stands for the file system itself. */
  function Claim(f: FsState, i: nat): (s: seq<int>)
    requires i <= |f.slots|
  {
    if i == |f.slots| then f.system
    else if f.slots[i].Free? then []
    else [f.slots[i].sector] + f.slots[i].data
  }

  predicate Disjoint(s: seq<int>, t: seq<int>) {
    forall x :: x in s ==> x !in t
  }

  predicate GoodSlot(s: Slot) {
    s.File? ==> 0 <= s.size <= MaxFileSize && |s.data| == DivRoundUp(s.size, SectorSize)
  }

  ghost predicate Claimed(f: FsState, k: int) {
    exists i :: 0 <= i <= |f.slots| && k in Claim(f, i)
  }

  /** A set bit for exactly the claimed sectors, every sector claimed once, no name used twice. */
  ghost predicate Inv(f: FsState) {
    && |f.bits| == NumSectors && |f.slots| == NumDirEntries
    && (forall i :: 0 <= i < |f.slots| ==> GoodSlot(f.slots[i]))
    && (forall i :: 0 <= i <= |f.slots| ==> AllIn(Claim(f, i), NumSectors) && NoDup(Claim(f, i)))
    && (forall i, j :: 0 <= i < j <= |f.slots| ==> Disjoint(Claim(f, i), Claim(f, j)))
    && (forall k :: 0 <= k < NumSectors ==> (f.bits[k] <==> Claimed(f, k)))
    && (forall i, j :: 0 <= i < j < |f.slots| && f.slots[i].File? && f.slots[j].File? ==>
      f.slots[i].key != f.slots[j].key)
  }

  // ---------------------------------------------------------------- Create

  /** The sectors Create takes: the header's and then the data's, all of them clear before. */
  lemma NewClaim(bits: seq<bool>, n: nat) returns (c: seq<int>, after: seq<bool>)
    requires FirstClear(bits) < |bits| && n <= CountClear(bits[FirstClear(bits) := true])
    ensures var t := Take(bits[FirstClear(bits) := true], n); c == [FirstClear(bits)] + t.0 && after == t.1
    ensures NoDup(c)
    ensures forall x :: x in c ==> 0 <= x < |bits| && !bits[x]
    ensures forall k :: 0 <= k < |bits| ==> after[k] == (bits[k] || k in c)
  {
    var sector := FirstClear(bits);
    var t := Take(bits[sector := true], n);
    TakeMarks(bits[sector := true], n);
    c, after := [sector] + t.0, t.1;
    assert forall x :: x in c <==> x == sector || x in t.0;
    forall i, j | 0 <= i < j < |c|
      ensures c[i] != c[j]
    {
      assert c[j] == t.0[j - 1];
      assert i > 0 ==> c[i] == t.0[i - 1];
      assert t.0[j - 1] in t.0;
    }
  }

  lemma CreateClaims(f: FsState, key: seq<Byte>, size: nat)
    requires Inv(f) && size <= MaxFileSize && CreateFs(f, key, size).0
    ensures var g := CreateFs(f, key, size).1; var i := FreeSlot(f.slots);
      && |g.slots| == |f.slots| && |g.bits| == |f.bits| && g.system == f.system
      && (forall j :: 0 <= j <= |f.slots| && j != i ==> Claim(g, j) == Claim(f, j))
      && Claim(f, i) == []
      && AllIn(Claim(g, i), NumSectors) && NoDup(Claim(g, i))
      && (forall x :: x in Claim(g, i) ==> 0 <= x < NumSectors && !f.bits[x])
      && (forall k :: 0 <= k < NumSectors ==> g.bits[k] == (f.bits[k] || k in Claim(g, i)))
  {
    CreateSlots(f, key, size);
    CountClearUpdate(f.bits, FirstClear(f.bits), true);
    var c, after := NewClaim(f.bits, DivRoundUp(size, SectorSize));
    hide CreateFs, Take, CountClear, FirstClear, NoDup, Inv, Claim;
    assert forall a :: 0 <= a < |c| ==> c[a] in c;
  }

  /** A successful Create changes one slot, which spoke for nothing before. */
  lemma CreateSlots(f: FsState, key: seq<Byte>, size: nat)
    requires CreateFs(f, key, size).0
    ensures var g := CreateFs(f, key, size).1; var i := FreeSlot(f.slots);
      && FirstClear(f.bits) < |f.bits| && DivRoundUp(size, SectorSize) <= CountClear(f.bits[FirstClear(f.bits) := true])
      && i < |f.slots| == |g.slots| && |g.bits| == |f.bits| && g.system == f.system
      && (forall j :: 0 <= j <= |f.slots| && j != i ==> Claim(g, j) == Claim(f, j)) && Claim(f, i) == []
      && var t := Take(f.bits[FirstClear(f.bits) := true], DivRoundUp(size, SectorSize));
        g.bits == t.1 && Claim(g, i) == [FirstClear(f.bits)] + t.0
  {
  }

  lemma CreateKeepsInv(f: FsState, key: seq<Byte>, size: nat)
    requires Inv(f) && size <= MaxFileSize
    ensures Inv(CreateFs(f, key, size).1)
  {
    var (ok, g) := CreateFs(f, key, size);
    if ok {
      CreateClaims(f, key, size);
      var i := FreeSlot(f.slots);
      forall a, b | 0 <= a < b <= |g.slots|
        ensures Disjoint(Claim(g, a), Claim(g, b))
      {
        if a == i {
          forall x | x in Claim(g, a) ensures x !in Claim(g, b) { assert x in Claim(f, b) ==> Claimed(f, x); }
        } else if b == i {
          forall x | x in Claim(g, a) ensures x !in Claim(g, b) { ClaimedIn(f, a, x); }
        }
      }
      forall k | 0 <= k < NumSectors
        ensures g.bits[k] <==> Claimed(g, k)
      {
        if Claimed(f, k) {
          var j :| 0 <= j <= |f.slots| && k in Claim(f, j);
          assert k in Claim(g, j);
        }
        if Claimed(g, k) {
          var j :| 0 <= j <= |g.slots| && k in Claim(g, j);
          assert j != i ==> k in Claim(f, j);
        }
      }
    }
  }

  lemma ClaimedIn(f: FsState, i: nat, x: int)
    requires Inv(f) && i <= |f.slots| && x in Claim(f, i)
    ensures 0 <= x < NumSectors && f.bits[x]
  {
  }

  /** Create succeeds exactly when the name is new, a directory slot is free, and there is room for
      the header and the data; otherwise nothing changes. */
  lemma CreateSucceedsIff(f: FsState, key: seq<Byte>, size: nat)
    requires Inv(f) && size <= MaxFileSize
    ensures CreateFs(f, key, size).0 <==>
      && (forall i :: 0 <= i < |f.slots| && f.slots[i].File? ==> f.slots[i].key != key)
      && (exists i :: 0 <= i < |f.slots| && f.slots[i].Free?)
      && 1 + DivRoundUp(size, SectorSize) <= CountClear(f.bits)
    ensures !CreateFs(f, key, size).0 ==> CreateFs(f, key, size).1 == f
  {
    CountClearPositive(f.bits);
    var sector := FirstClear(f.bits);
    if sector < |f.bits| {
      CountClearUpdate(f.bits, sector, true);
    }
    if FreeSlot(f.slots) < |f.slots| {
      assert f.slots[FreeSlot(f.slots)].Free?;
    }
  }

  // ---------------------------------------------------------------- Remove

  lemma RemovedClaim(f: FsState, key: seq<Byte>, j: nat)
    requires RemoveFs(f, key).0 && j <= |f.slots|
    ensures var g := RemoveFs(f, key).1;
      && |g.slots| == |f.slots| && |g.bits| == |f.bits|
      && Claim(g, j) == if j == SlotOf(f.slots, key) then [] else Claim(f, j)
  {
  }

  lemma RemovedBit(f: FsState, key: seq<Byte>, k: nat)
    requires Inv(f) && RemoveFs(f, key).0 && k < NumSectors
    ensures var g := RemoveFs(f, key).1;
      |g.bits| == NumSectors && (g.bits[k] <==> Claimed(g, k))
  {
    hide NoDup, AllIn, GoodSlot, Claim;
    var g, i := RemoveFs(f, key).1, SlotOf(f.slots, key);
    forall j | 0 <= j <= |f.slots| ensures Claim(g, j) == if j == i then [] else Claim(f, j) {
      RemovedClaim(f, key, j);
    }
    if f.bits[k] && k !in Claim(f, i) {
      var j :| 0 <= j <= |f.slots| && k in Claim(f, j);
      assert k in Claim(g, j);
    }
    if Claimed(g, k) {
      var j :| 0 <= j <= |g.slots| && k in Claim(g, j);
      ClaimedIn(f, j, k);
      assert Disjoint(Claim(f, if i < j then i else j), Claim(f, if i < j then j else i));
    }
  }

  lemma RemoveKeepsInv(f: FsState, key: seq<Byte>)
    requires Inv(f)
    ensures Inv(RemoveFs(f, key).1)
  {
    hide Claimed, ClearAll, Claim;
    var (ok, g) := RemoveFs(f, key);
    if ok {
      forall j | 0 <= j <= |f.slots|
        ensures Claim(g, j) == if j == SlotOf(f.slots, key) then [] else Claim(f, j)
      {
        RemovedClaim(f, key, j);
      }
      forall k | 0 <= k < NumSectors ensures g.bits[k] <==> Claimed(g, k) {
        RemovedBit(f, key, k);
      }
    }
  }

  /** Creating a file and removing it again gives back the same sectors and the same names. */
  lemma CreateThenRemove(f: FsState, key: seq<Byte>, size: nat)
    requires Inv(f) && size <= MaxFileSize && CreateFs(f, key, size).0
    ensures RemoveFs(CreateFs(f, key, size).1, key) == (true, f)
  {
    hide Claimed, ClearAll, CountClear, DivRoundUp, FirstClear, FreeSlot, GoodSlot, NoDup, SlotOf, Take;
    CreateClaims(f, key, size);
    CreateKeepsInv(f, key, size);
    var g := CreateFs(f, key, size).1;
    var i := FreeSlot(f.slots);
    assert g.slots[i].File? && g.slots[i].key == key;
    SlotOfUnique(g.slots, key, i);
    assert g.slots[i := Free] == f.slots;
    assert ClearAll(g.bits, Claim(g, i)) == f.bits;
  }

  // ---------------------------------------------------------------- conservation

  function SectorsInUse(slots: seq<Slot>): nat {
    if slots == [] then 0 else
      SectorsInUse(slots[..|slots| - 1]) + if slots[|slots| - 1].File? then 1 + |slots[|slots| - 1].data| else 0
  }

  lemma {:induction false} InUseUpdate(slots: seq<Slot>, i: nat, s: Slot)
    requires i < |slots|
    ensures SectorsInUse(slots[i := s]) ==
      SectorsInUse(slots) - (if slots[i].File? then 1 + |slots[i].data| else 0) + (if s.File? then 1 + |s.data| else 0)
  {
    var n := |slots| - 1;
    if i < n {
      assert slots[i := s][..n] == slots[..n][i := s];
      InUseUpdate(slots[..n], i, s);
    } else {
      assert slots[i := s][..n] == slots[..n];
    }
  }

  /** The last of a list without repetitions is not among the others. */
  lemma LastApart(bits: seq<bool>, s: seq<int>)
    requires s != [] && AllIn(s, |bits|) && NoDup(s) && forall x :: x in s ==> bits[x]
    ensures var n := |s| - 1;
      && AllIn(s[..n], |bits|) && NoDup(s[..n]) && (forall x :: x in s[..n] ==> bits[x] && x != s[n])
      && 0 <= s[n] < |bits| && bits[s[n]] && s[n] !in s[..n]
  {
    var n := |s| - 1;
    assert s[n] in s;
    forall x | x in s[..n] ensures bits[x] && x != s[n] {
      var j :| 0 <= j < n && s[j] == x;
      assert s[j] in s;
    }
  }

  lemma ClearAllLast(bits: seq<bool>, s: seq<int>)
    requires s != [] && 0 <= s[|s| - 1] < |bits|
    ensures ClearAll(bits, s) == ClearAll(bits, s[..|s| - 1])[s[|s| - 1] := false]
  {
    var n := |s| - 1;
    assert s == s[..n] + [s[n]];
  }

  lemma {:induction false} ClearAllCount(bits: seq<bool>, s: seq<int>)
    requires AllIn(s, |bits|) && NoDup(s) && forall x :: x in s ==> bits[x]
    ensures CountClear(ClearAll(bits, s)) == CountClear(bits) + |s|
  {
    hide CountClear, NoDup, AllIn;
    if s == [] {
      assert ClearAll(bits, s) == bits;
    } else {
      var n := |s| - 1;
      LastApart(bits, s);
      ClearAllCount(bits, s[..n]);
      CountClearUpdate(ClearAll(bits, s[..n]), s[n], false);
      ClearAllLast(bits, s);
    }
  }

  /** Free sectors and sectors in files always add up to the same total. */
  lemma SectorsConserved(f: FsState, key: seq<Byte>, size: nat)
    requires Inv(f) && size <= MaxFileSize
    ensures CountClear(CreateFs(f, key, size).1.bits) + SectorsInUse(CreateFs(f, key, size).1.slots) ==
            CountClear(f.bits) + SectorsInUse(f.slots)
    ensures CountClear(RemoveFs(f, key).1.bits) + SectorsInUse(RemoveFs(f, key).1.slots) ==
            CountClear(f.bits) + SectorsInUse(f.slots)
  {
    if CreateFs(f, key, size).0 {
      CountClearUpdate(f.bits, FirstClear(f.bits), true);
      InUseUpdate(f.slots, FreeSlot(f.slots), CreateFs(f, key, size).1.slots[FreeSlot(f.slots)]);
    }
    if RemoveFs(f, key).0 {
      var i := SlotOf(f.slots, key);
      forall x | x in Claim(f, i) ensures f.bits[x] { ClaimedIn(f, i, x); }
      ClearAllCount(f.bits, Claim(f, i));
      InUseUpdate(f.slots, i, Free);
    }
  }

  // ---------------------------------------------------------------- runs

  datatype Op = Create(key: seq<Byte>, size: nat) | Remove(key: seq<Byte>)

  function Apply(f: FsState, op: Op): FsState {
    match op
    case Create(key, size) => CreateFs(f, key, size).1
    case Remove(key) => RemoveFs(f, key).1
  }

  function Run(f: FsState, ops: seq<Op>): FsState
    decreases |ops|
  {
    if ops == [] then f else Apply(Run(f, ops[..|ops| - 1]), ops[|ops| - 1])
  }

  predicate Allowed(op: Op) {
    op.Create? ==> op.size <= MaxFileSize
  }

  /** The description of a freshly formatted disk. */
  function Formatted(): FsState {
    FsState(seq(NumSectors, k => k < 4), seq(NumDirEntries, i => Free), [0, 1, 2, 3])
  }

  lemma FormattedInv()
    ensures Inv(Formatted())
    ensures CountClear(Formatted().bits) + SectorsInUse(Formatted().slots) == NumSectors - 4
  {
    hide CountClear, SectorsInUse, Inv;
    FormattedClaims();
    FormattedCounts();
  }

  lemma FormattedClaims()
    ensures Inv(Formatted())
  {
    var f := Formatted();
    assert Claim(f, 10) == [0, 1, 2, 3];
    forall k | 0 <= k < NumSectors ensures f.bits[k] <==> Claimed(f, k) {
      if k < 4 { assert k in Claim(f, 10); }
    }
  }

  lemma FormattedCounts()
    ensures CountClear(Formatted().bits) == NumSectors - 4 && SectorsInUse(Formatted().slots) == 0
  {
    hide CountClear, SectorsInUse;
    var f := Formatted();
    ClearTail(f.bits, 4, NumSectors);
    assert f.bits[..NumSectors] == f.bits;
    NoneInUse(f.slots);
  }

  /** On an empty disk there is room for a file that is too big for its header, and Allocate would not
      notice. */
  lemma OverrunsOnEmptyDisk()
    ensures Overruns(MaxFileSize + 1, Formatted().bits)
  {
    hide CountClear, Formatted;
    FormattedCounts();
    OverrunsWhen(MaxFileSize + 1, Formatted().bits);
  }

  lemma {:induction false} ClearTail(bits: seq<bool>, m: nat, n: nat)
    requires m <= n <= |bits|
    requires forall k :: 0 <= k < n ==> bits[k] == (k < m)
    ensures CountClear(bits[..n]) == n - m
    decreases n
  {
    if n > 0 {
      assert bits[..n][..n - 1] == bits[..n - 1];
      if n == m {
        CountClearNone(bits[..n]);
      } else {
        ClearTail(bits, m, n - 1);
      }
    }
  }

  lemma {:induction false} NoneInUse(slots: seq<Slot>)
    requires forall i :: 0 <= i < |slots| ==> slots[i].Free?
    ensures SectorsInUse(slots) == 0
  {
    if slots != [] { NoneInUse(slots[..|slots| - 1]); }
  }

  /** After format and any sequence of Create and Remove the allocation invariant holds, and every
      sector is either free, in one file, or one of the four of the file system itself. */
  lemma {:induction false} AllocationInvariant(ops: seq<Op>)
    requires forall i :: 0 <= i < |ops| ==> Allowed(ops[i])
    ensures var f := Run(Formatted(), ops); Inv(f) && CountClear(f.bits) + SectorsInUse(f.slots) + 4 == NumSectors
    decreases |ops|
  {
    if ops == [] {
      FormattedInv();
    } else {
      var before := ops[..|ops| - 1];
      AllocationInvariant(before);
      var f := Run(Formatted(), before);
      match ops[|ops| - 1]
      case Create(key, size) =>
        CreateKeepsInv(f, key, size);
        SectorsConserved(f, key, size);
      case Remove(key) =>
        RemoveKeepsInv(f, key);
        SectorsConserved(f, key, 0);
    }
  }
}
