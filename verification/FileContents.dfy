/** The file system as a map from nine-character names to byte strings: what each operation does to
    the contents of every file, not only its own. */
module FileContents {
  import opened Bytes
  import opened Common
  import opened BitMaps
  import opened SectorDisk
  import opened FileHeaders
  import opened OpenFiles
  import opened Directories
  import opened FsSpec
  import opened FileSystems

  /** Slot i of the description and entry i of the table speak of the same file. */
  lemma EntryOfSlot(d: seq<Sector>, i: nat)
    requires Readable(d) && i < NumDirEntries
    ensures View(d).slots[i] == SlotFor(TableOn(d)[i], d)
  {
  }

  function SlotBytes(d: seq<Sector>, i: nat): seq<Byte>
    requires Readable(d) && i < NumDirEntries && TableOn(d)[i].inUse
  {
    assert GoodEntry(TableOn(d)[i], d);
    FileBytes(DecodeHeader(d[TableOn(d)[i].sector]), d)
  }

  lemma ContentBySlot(d: seq<Sector>, key: seq<Byte>)
    requires Readable(d)
    ensures var i := SlotOf(View(d).slots, key);
      i == IndexOf(TableOn(d), key) && Content(d, key) == if i == NumDirEntries then None else Some(SlotBytes(d, i))
  {
    SlotsOf(TableOn(d), d, key);
  }

  /** A file whose sectors all stay put keeps its contents. */
  lemma SlotUntouched(d: seq<Sector>, after: seq<Sector>, i: nat)
    requires Readable(d) && Readable(after) && i < NumDirEntries
    requires View(d).slots[i].File? && View(after).slots[i] == View(d).slots[i]
    requires forall n :: n in Claim(View(d), i) && 0 <= n < NumSectors ==> after[n] == d[n]
    ensures TableOn(d)[i].inUse && TableOn(after)[i].inUse && SlotBytes(after, i) == SlotBytes(d, i)
  {
    EntryOfSlot(d, i);
    EntryOfSlot(after, i);
    var s := TableOn(d)[i].sector;
    var h := DecodeHeader(d[s]);
    assert Claim(View(d), i) == [s] + Sectors(h);
    assert s in Claim(View(d), i);
    FileBytesFrame(h, d, after);
  }

  /** A file outside the file system's sectors and outside x keeps its contents. */
  lemma SlotWritten(d: seq<Sector>, after: seq<Sector>, i: nat, x: seq<int>)
    requires Sound(d) && Readable(after) && i < NumDirEntries
    requires View(d).slots[i].File? && View(after).slots[i] == View(d).slots[i]
    requires Written(d, after, x) && Disjoint(x, Claim(View(d), i))
    ensures TableOn(d)[i].inUse && TableOn(after)[i].inUse && SlotBytes(after, i) == SlotBytes(d, i)
  {
    forall n | n in Claim(View(d), i) && 0 <= n < NumSectors ensures after[n] == d[n] {
      ClaimsApart(View(d), i, NumDirEntries, n);
    }
    SlotUntouched(d, after, i);
  }

  /** A successful Create adds one name, with contents of the size asked for; no other file changes. */
  lemma CreateContents(d: seq<Sector>, after: seq<Sector>, key: seq<Byte>, size: nat, other: seq<Byte>)
    requires Sound(d) && Sound(after) && size <= MaxFileSize
    requires CreateFs(View(d), key, size) == (true, View(after))
    requires Written(d, after, [FirstClear(BitsOn(d))])
    ensures Content(d, key) == None
    ensures Content(after, key).Some? && |Content(after, key).value| == size
    ensures other != key ==> Content(after, other) == Content(d, other)
  {
    hide NoDup, AllIn, FileBytes, BytesWords, BitsOf, BytesTable, DecodeHeader, System, Inv;
    var f, g := View(d), View(after);
    var i := FreeSlot(f.slots);
    ContentBySlot(d, key);
    ContentBySlot(after, key);
    SlotOfUnique(g.slots, key, i);
    EntryOfSlot(after, i);
    if other != key {
      CreateKeepsOther(d, after, key, size, other);
    }
  }

  lemma CreateKeepsOther(d: seq<Sector>, after: seq<Sector>, key: seq<Byte>, size: nat, other: seq<Byte>)
    requires Sound(d) && Sound(after) && size <= MaxFileSize && other != key
    requires CreateFs(View(d), key, size) == (true, View(after))
    requires Written(d, after, [FirstClear(BitsOn(d))])
    ensures Content(after, other) == Content(d, other)
  {
    hide NoDup, AllIn, FileBytes, BytesWords, BitsOf, BytesTable, DecodeHeader, System, CountClear, DivRoundUp,
      FieldKey, FirstClear, GoodHeader, GoodSlot, Sectors, SlotBytes, UpToNul, Written;
    var f, g := View(d), View(after);
    ContentBySlot(d, other);
    ContentBySlot(after, other);
    var j := SlotOf(f.slots, other);
    SlotOfUnique(g.slots, other, j);
    if j < NumDirEntries {
      var x := [FirstClear(BitsOn(d))];
      forall n | n in Claim(f, j) ensures n !in x { ClaimedIn(f, j, n); }
      SlotWritten(d, after, j, x);
    }
  }

  /** A successful Remove takes away one name; no other file changes. */
  lemma RemoveContents(d: seq<Sector>, after: seq<Sector>, key: seq<Byte>, other: seq<Byte>)
    requires Sound(d) && Sound(after)
    requires RemoveFs(View(d), key) == (true, View(after))
    requires Written(d, after, [])
    ensures Content(d, key).Some? && Content(after, key) == None
    ensures other != key ==> Content(after, other) == Content(d, other)
  {
    hide BytesTable, ClearAll, DecodeHeader, Disjoint, FileBytes, GoodHeader, GoodTable, IndexOf, MapHeader, Mounted,
      NoDup, Readable, Sectors, SlotBytes, Slots, System, View, Written;
    var f, g := View(d), View(after);
    var i := SlotOf(f.slots, key);
    ContentBySlot(d, key);
    ContentBySlot(after, key);
    assert forall j :: 0 <= j < NumDirEntries && j != i && f.slots[j].File? ==> f.slots[j].key != key;
    SlotOfUnique(g.slots, key, NumDirEntries);
    if other != key {
      ContentBySlot(d, other);
      ContentBySlot(after, other);
      var j := SlotOf(f.slots, other);
      SlotOfUnique(g.slots, other, j);
      if j < NumDirEntries {
        SlotWritten(d, after, j, []);
      }
    }
  }

  /** A write through an open file's handle changes that file's bytes and nothing else: not the
      allocation, not the names, not a byte of any other file. */
  lemma WriteContents(d: seq<Sector>, after: seq<Sector>, key: seq<Byte>, h: Header, other: seq<Byte>)
    requires Sound(d) && IndexOf(TableOn(d), key) < NumDirEntries
    requires h == DecodeHeader(d[TableOn(d)[IndexOf(TableOn(d), key)].sector])
    requires |after| == NumSectors && forall n :: 0 <= n < NumSectors && n !in Sectors(h) ==> after[n] == d[n]
    ensures Sound(after) && View(after) == View(d)
    ensures MapHeader(after) == MapHeader(d) && DirHeader(after) == DirHeader(d)
    ensures Content(d, key) == Some(FileBytes(h, d)) && Content(after, key) == Some(FileBytes(h, after))
    ensures other != key ==> Content(after, other) == Content(d, other)
  {
    var i := IndexOf(TableOn(d), key);
    DataWritten(d, after, i);
    if other != key {
      ContentBySlot(d, other);
      ContentBySlot(after, other);
      var j := SlotOf(View(d).slots, other);
      if j < NumDirEntries {
        ContentBySlot(d, key);
        assert j != i;
        EntryClaim(d, i);
        forall n | n in Claim(View(d), j) && 0 <= n < NumSectors ensures after[n] == d[n] {
          ClaimsApart(View(d), j, i, n);
        }
        SlotUntouched(d, after, j);
      }
    }
  }

  /** Changing only the data sectors of one file leaves the description of the disk as it was. */
  lemma DataWritten(d: seq<Sector>, after: seq<Sector>, i: nat)
    requires Sound(d) && i < NumDirEntries && TableOn(d)[i].inUse && |after| == NumSectors
    requires forall n :: 0 <= n < NumSectors && n !in Sectors(DecodeHeader(d[TableOn(d)[i].sector])) ==>
      after[n] == d[n]
    ensures Readable(after) && TableOn(after) == TableOn(d) && View(after) == View(d)
    ensures DecodeHeader(after[TableOn(d)[i].sector]) == DecodeHeader(d[TableOn(d)[i].sector])
    ensures MapHeader(after) == MapHeader(d) && DirHeader(after) == DirHeader(d)
  {
    hide NoDup, BytesWords, BitsOf, BytesTable, Inv, GoodSlot, DivRoundUp;
    var h := DecodeHeader(d[TableOn(d)[i].sector]);
    SystemApart(d);
    SystemUntouched(d, i);
    FileBytesFrame(MapHeader(d), d, after);
    FileBytesFrame(DirHeader(d), d, after);
    forall j | 0 <= j < NumDirEntries && TableOn(d)[j].inUse
      ensures after[TableOn(d)[j].sector] == d[TableOn(d)[j].sector]
    {
      HeaderApart(d, i, j);
    }
    assert Slots(TableOn(d), after) == Slots(TableOn(d), d);
  }

  /** No sector of the file system itself is a data sector of a file. */
  lemma SystemUntouched(d: seq<Sector>, i: nat)
    requires Sound(d) && i < NumDirEntries && TableOn(d)[i].inUse
    ensures forall n :: n in System(d) ==> n !in Sectors(DecodeHeader(d[TableOn(d)[i].sector]))
  {
    EntryClaim(d, i);
    forall n | n in Claim(View(d), i) ensures n !in System(d) {
      ClaimsApart(View(d), i, NumDirEntries, n);
    }
    assert forall n :: n in Sectors(DecodeHeader(d[TableOn(d)[i].sector])) ==> n in Claim(View(d), i);
  }

  lemma HeadNotInTail(c: seq<int>)
    requires c != [] && NoDup(c)
    ensures c[0] !in c[1..]
  {
  }

  /** No header sector is a data sector. */
  lemma HeaderApart(d: seq<Sector>, i: nat, j: nat)
    requires Sound(d) && i < NumDirEntries && j < NumDirEntries && TableOn(d)[i].inUse && TableOn(d)[j].inUse
    ensures TableOn(d)[j].sector !in Sectors(DecodeHeader(d[TableOn(d)[i].sector]))
  {
    hide FileBytes, BytesWords, BitsOf, BytesTable, Slots;
    EntryClaim(d, i);
    EntryClaim(d, j);
    var c, s := Claim(View(d), i), TableOn(d)[j].sector;
    assert Claim(View(d), j)[0] == s;
    assert c[1..] == Sectors(DecodeHeader(d[TableOn(d)[i].sector]));
    if i == j {
      HeadNotInTail(c);
    } else {
      ClaimsApart(View(d), j, i, s);
    }
  }

  /** A freshly formatted disk has no files. */
  lemma FormattedContents(d: seq<Sector>, key: seq<Byte>)
    requires Readable(d) && View(d) == Formatted()
    ensures Content(d, key) == None
  {
    ContentBySlot(d, key);
    SlotOfUnique(Formatted().slots, key, NumDirEntries);
  }
}
