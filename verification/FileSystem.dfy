/** filesys.cc: the file system on disk. The bitmap and the directory are files of that disk; every
    operation fetches them, changes them in memory and, if it succeeds, writes them back. */
module FileSystems {
  import opened Bytes
  import opened Common
  import opened BitMaps
  import opened SectorDisk
  import opened FileHeaders
  import opened OpenFiles
  import opened Directories
  import opened FsSpec

  const FreeMapSector := 0
  const DirectorySector := 1
  const FreeMapFileSize := 128
  const DirectoryFileSize := 200

  // ---------------------------------------------------------------- reading the disk

  function MapHeader(d: seq<Sector>): Header
    requires |d| == NumSectors
  {
    DecodeHeader(d[FreeMapSector])
  }

  function DirHeader(d: seq<Sector>): Header
    requires |d| == NumSectors
  {
    DecodeHeader(d[DirectorySector])
  }

  function System(d: seq<Sector>): seq<int>
    requires |d| == NumSectors && GoodHeader(MapHeader(d)) && GoodHeader(DirHeader(d))
  {
    [FreeMapSector, DirectorySector] + Sectors(MapHeader(d)) + Sectors(DirHeader(d))
  }

  /** The headers of the bitmap and of the directory are readable, and their four sectors differ. */
  predicate Mounted(d: seq<Sector>) {
    && |d| == NumSectors
    && GoodHeader(MapHeader(d)) && MapHeader(d).numBytes == FreeMapFileSize
    && GoodHeader(DirHeader(d)) && DirHeader(d).numBytes == DirectoryFileSize
    && NoDup(System(d))
  }

  function BitsOn(d: seq<Sector>): (b: seq<bool>)
    requires Mounted(d)
    ensures |b| == NumSectors
  {
    BitsOf(BytesWords(FileBytes(MapHeader(d), d), 32), NumSectors)
  }

  function TableOn(d: seq<Sector>): (t: seq<DirectoryEntry>)
    requires Mounted(d)
    ensures |t| == NumDirEntries
  {
    BytesTable(FileBytes(DirHeader(d), d), NumDirEntries)
  }

  /** An entry in use leads to a readable header outside the file system's own sectors. */
  predicate GoodEntry(e: DirectoryEntry, d: seq<Sector>)
    requires Mounted(d)
  {
    e.inUse ==> 0 <= e.sector < NumSectors && e.sector !in System(d) && GoodHeader(DecodeHeader(d[e.sector]))
  }

  predicate GoodTable(t: seq<DirectoryEntry>, d: seq<Sector>)
    requires Mounted(d)
  {
    forall i :: 0 <= i < |t| ==> GoodEntry(t[i], d)
  }

  predicate Readable(d: seq<Sector>) {
    Mounted(d) && GoodTable(TableOn(d), d)
  }

  function SlotFor(e: DirectoryEntry, d: seq<Sector>): Slot
    requires Mounted(d) && GoodEntry(e, d)
  {
    if !e.inUse then Free else
      var h := DecodeHeader(d[e.sector]);
      File(FieldKey(e.name), e.sector, h.numBytes, Sectors(h))
  }

  function Slots(t: seq<DirectoryEntry>, d: seq<Sector>): (s: seq<Slot>)
    requires Mounted(d) && GoodTable(t, d)
    ensures |s| == |t|
  {
    seq(|t|, i requires 0 <= i < |t| => SlotFor(t[i], d))
  }

  /** What a disk says about its files. */
  function View(d: seq<Sector>): FsState
    requires Readable(d)
  {
    FsState(BitsOn(d), Slots(TableOn(d), d), System(d))
  }

  /** A file system: a readable disk whose description keeps the allocation invariant. */
  ghost predicate Sound(d: seq<Sector>) {
    Readable(d) && Inv(View(d))
  }

  /** The file system as a map from names to byte strings. */
  function Content(d: seq<Sector>, key: seq<Byte>): Option<seq<Byte>>
    requires Readable(d)
  {
    var t := TableOn(d);
    var i := IndexOf(t, key);
    if i == |t| then None else Some(FileBytes(DecodeHeader(d[t[i].sector]), d))
  }

  // ---------------------------------------------------------------- the directory and the slots

  lemma SlotsOf(t: seq<DirectoryEntry>, d: seq<Sector>, key: seq<Byte>)
    requires Mounted(d) && GoodTable(t, d)
    ensures SlotOf(Slots(t, d), key) == IndexOf(t, key) && FreeSlot(Slots(t, d)) == FirstFree(t)
  {
    assert forall k :: 0 <= k < |t| ==> Slots(t, d)[k] == SlotFor(t[k], d);
    SlotOfUnique(Slots(t, d), key, IndexOf(t, key));
    FreeSlotUnique(Slots(t, d), FirstFree(t));
  }

  /** Distinct sectors: a sector claimed by slot i is not claimed by slot j or by the system. */
  lemma ClaimsApart(f: FsState, i: nat, j: nat, x: int)
    requires Inv(f) && i <= |f.slots| && j <= |f.slots| && i != j && x in Claim(f, i)
    ensures x !in Claim(f, j)
  {
  }

  // ---------------------------------------------------------------- the three kinds of disk update

  /** A header goes to a sector outside the system and outside every header in use. */
  lemma HeaderWritten(before: seq<Sector>, after: seq<Sector>, s: int)
    requires Readable(before) && |after| == NumSectors && 0 <= s < NumSectors && after == before[s := after[s]]
    requires s !in System(before)
    requires forall i :: 0 <= i < NumDirEntries && TableOn(before)[i].inUse ==> TableOn(before)[i].sector != s
    ensures Readable(after) && View(after) == View(before) && TableOn(after) == TableOn(before)
  {
    assert System(before)[0] == 0 && System(before)[1] == 1;
    FileBytesFrame(MapHeader(before), before, after);
    FileBytesFrame(DirHeader(before), before, after);
    assert Slots(TableOn(after), after) == Slots(TableOn(before), before);
  }

  /** The directory file is rewritten, and nothing else. */
  lemma DirectoryWritten(before: seq<Sector>, after: seq<Sector>, t: seq<DirectoryEntry>)
    requires Mounted(before) && |after| == NumSectors && |t| == NumDirEntries && GoodTable(t, before)
    requires forall n :: 0 <= n < NumSectors && n !in Sectors(DirHeader(before)) ==> after[n] == before[n]
    requires BytesTable(FileBytes(DirHeader(before), after), NumDirEntries) == t
    ensures Mounted(after) && System(after) == System(before) && BitsOn(after) == BitsOn(before)
    ensures TableOn(after) == t && Readable(after) && Slots(t, after) == Slots(t, before)
  {
    SystemApart(before);
    FileBytesFrame(MapHeader(before), before, after);
    assert forall i :: 0 <= i < |t| && t[i].inUse ==> t[i].sector !in Sectors(DirHeader(before));
  }

  /** The bitmap file is rewritten, and nothing else. */
  lemma MapWritten(before: seq<Sector>, after: seq<Sector>, bits: seq<bool>)
    requires Readable(before) && |after| == NumSectors && |bits| == NumSectors
    requires forall n :: 0 <= n < NumSectors && n !in Sectors(MapHeader(before)) ==> after[n] == before[n]
    requires BitsOf(BytesWords(FileBytes(MapHeader(before), after), 32), NumSectors) == bits
    ensures Readable(after) && View(after) == View(before).(bits := bits) && TableOn(after) == TableOn(before)
  {
    SystemApart(before);
    FileBytesFrame(DirHeader(before), before, after);
    var t := TableOn(before);
    assert TableOn(after) == t;
    assert forall i :: 0 <= i < |t| && t[i].inUse ==> t[i].sector !in Sectors(MapHeader(before));
    assert Slots(t, after) == Slots(t, before);
  }

  lemma SystemApart(d: seq<Sector>)
    requires Mounted(d)
    ensures forall x :: x in Sectors(MapHeader(d)) ==> x in System(d) && x != 0 && x != 1 && x !in Sectors(DirHeader(d))
    ensures forall x :: x in Sectors(DirHeader(d)) ==> x in System(d) && x != 0 && x != 1 && x !in Sectors(MapHeader(d))
    ensures 0 in System(d) && 1 in System(d)
  {
    var s := System(d);
    assert s[0] == 0 && s[1] == 1;
    assert |Sectors(MapHeader(d))| == 1 && |Sectors(DirHeader(d))| == 1;
    assert s[2] == Sectors(MapHeader(d))[0] && s[3] == Sectors(DirHeader(d))[0];
  }

  // ---------------------------------------------------------------- the bitmap as a file

  /** BitMap::FetchFrom: the words of the bitmap come from the start of a file. */
  method FetchBitMap(freeMap: BitMap, file: OpenFile)
    requires freeMap.Valid() && file.Valid() && file.hdr.numBytes >= 4 * freeMap.numWords
    modifies freeMap.map_
    ensures freeMap.Valid() && freeMap.map_[..] == BytesWords(file.Contents(), freeMap.numWords)
  {
    hide NoDup, AllIn, BytesWords, WordsBytes, GoodHeader, FileBytes, BitsOf;
    var n := freeMap.numWords;
    var buf := BufferOf(WordsBytes(freeMap.map_[..]));
    var r := file.ReadAt(buf, 0, 4 * n, 0);
    assert r == 4 * n;
    assert n > 0 ==> buf[..] == buf[0..0 + r];
    WordsOfPrefix(buf[..], file.Contents(), n);
    var ws := BytesWords(buf[..], n);
    CopyWords(freeMap, ws);
  }

  method CopyWords(freeMap: BitMap, ws: seq<Word>)
    requires freeMap.Valid() && |ws| == freeMap.numWords
    modifies freeMap.map_
    ensures freeMap.map_[..] == ws
  {
    forall i | 0 <= i < |ws| {
      freeMap.map_[i] := ws[i];
    }
  }

  lemma WordsOfPrefix(b: seq<Byte>, c: seq<Byte>, n: nat)
    requires |b| == 4 * n <= |c| && (n > 0 ==> b == c[..4 * n])
    ensures BytesWords(b, n) == BytesWords(c, n)
  {
  }

  /** BitMap::WriteBack. */
  method WriteBackBitMap(freeMap: BitMap, file: OpenFile)
    requires freeMap.Valid() && file.Valid() && file.hdr.numBytes == 4 * freeMap.numWords
    modifies file.disk
    ensures file.Valid() && file.hdr.Value() == old(file.hdr.Value())
    ensures BytesWords(file.Contents(), freeMap.numWords) == freeMap.map_[..]
    ensures forall n :: 0 <= n < NumSectors && n !in Sectors(file.hdr.Value()) ==>
      file.disk.sectors[n] == old(file.disk.sectors)[n]
  {
    hide NoDup, AllIn, BytesWords, WordsBytes, GoodHeader, FileBytes;
    var bytes := WordsBytes(freeMap.map_[..]);
    var buf := BufferOf(bytes);
    WordsRoundTrip(freeMap.map_[..], []);
    assert bytes + [] == bytes;
    var r := file.WriteAt(buf, 4 * freeMap.numWords, 0);
    assert buf[..r] == bytes;
    assert file.Contents() == bytes;
  }

  /** Behind the four sectors that formatting writes the disk is as it was. */
  predicate RestKept(before: seq<Sector>, after: seq<Sector>) {
    |before| == |after| == NumSectors && forall n :: 4 <= n < NumSectors ==> after[n] == before[n]
  }

  lemma FirstFour(d: seq<Sector>)
    requires Mounted(d) && System(d) == [0, 1, 2, 3]
    ensures forall n :: n in Sectors(MapHeader(d)) || n in Sectors(DirHeader(d)) ==> n < 4
  {
    assert forall n :: n in Sectors(MapHeader(d)) || n in Sectors(DirHeader(d)) ==> n in System(d);
  }

  /** The first half of formatting: room for the two headers and the two files, and the headers on disk. */
  method FormatHeaders(disk: SynchDisk, freeMap: BitMap)
    requires disk.Valid() && freeMap.Valid() && freeMap.numBits == NumSectors
    requires forall k :: 0 <= k < NumSectors ==> !freeMap.Bits()[k]
    modifies disk, freeMap.map_
    ensures disk.Valid() && freeMap.Valid() && freeMap.Bits() == Formatted().bits
    ensures Mounted(disk.sectors) && System(disk.sectors) == [0, 1, 2, 3]
    ensures Sectors(MapHeader(disk.sectors)) == [2] && Sectors(DirHeader(disk.sectors)) == [3]
    ensures RestKept(old(disk.sectors), disk.sectors)
  {
    hide BitsOf, CountClear, FirstClear, DecodeHeader, HeaderWords;
    var mapHdr := new FileHeader();
    var dirHdr := new FileHeader();
    freeMap.Mark(FreeMapSector);
    freeMap.Mark(DirectorySector);
    FirstSectors(freeMap.Bits());
    var ok := mapHdr.Allocate(freeMap, FreeMapFileSize);
    assert ok;
    ok := dirHdr.Allocate(freeMap, DirectoryFileSize);
    assert ok;
    mapHdr.WriteBack(disk, FreeMapSector);
    dirHdr.WriteBack(disk, DirectorySector);
    HeadersWritten(disk.sectors, mapHdr.Value(), dirHdr.Value());
    assert RestKept(old(disk.sectors), disk.sectors);
    hide Mounted, System, Sectors, GoodHeader, Formatted;
  }

  lemma HeadersWritten(d: seq<Sector>, mapHdr: Header, dirHdr: Header)
    requires |d| == NumSectors && MapHeader(d) == mapHdr && DirHeader(d) == dirHdr
    requires |mapHdr.dataSectors| == |dirHdr.dataSectors| == NumDirect
    requires mapHdr.numBytes == FreeMapFileSize && dirHdr.numBytes == DirectoryFileSize
    requires mapHdr.numSectors == dirHdr.numSectors == 1
    requires Sectors(mapHdr) == [2] && Sectors(dirHdr) == [3]
    ensures Mounted(d) && System(d) == [0, 1, 2, 3]
  {
  }

  /** After formatting has written the bitmap, writing an empty directory completes the file system. */
  lemma FormatDone(d: seq<Sector>, after: seq<Sector>, t: seq<DirectoryEntry>)
    requires Mounted(d) && System(d) == [0, 1, 2, 3] && BitsOn(d) == Formatted().bits
    requires |t| == NumDirEntries && forall i :: 0 <= i < |t| ==> !t[i].inUse
    requires |after| == NumSectors && BytesTable(FileBytes(DirHeader(d), after), NumDirEntries) == t
    requires forall n :: 0 <= n < NumSectors && n !in Sectors(DirHeader(d)) ==> after[n] == d[n]
    ensures Sound(after) && View(after) == Formatted()
  {
    DirectoryWritten(d, after, t);
    assert Slots(t, after) == Formatted().slots;
    FormattedInv();
  }

  method OpenSystemFiles(disk: SynchDisk) returns (mapFile: OpenFile, dirFile: OpenFile)
    requires disk.Valid() && Mounted(disk.sectors)
    ensures fresh(mapFile) && fresh(dirFile) && fresh(mapFile.hdr) && fresh(dirFile.hdr)
    ensures OpenOn(disk, mapFile, dirFile)
  {
    mapFile := new OpenFile(disk, FreeMapSector);
    dirFile := new OpenFile(disk, DirectorySector);
  }

  /** The second half of formatting: the bitmap and an empty directory go to their files. */
  method WriteEmpty(disk: SynchDisk, freeMap: BitMap, directory: Directory, mapFile: OpenFile, dirFile: OpenFile)
    requires OpenOn(disk, mapFile, dirFile) && System(disk.sectors) == [0, 1, 2, 3]
    requires freeMap.Valid() && freeMap.numBits == NumSectors && freeMap.Bits() == Formatted().bits
    requires directory.Valid() && directory.tableSize == NumDirEntries
    requires forall i :: 0 <= i < NumDirEntries ==> !directory.table[i].inUse
    modifies disk
    ensures OpenOn(disk, mapFile, dirFile) && Sound(disk.sectors) && View(disk.sectors) == Formatted()
    ensures RestKept(old(disk.sectors), disk.sectors)
  {
    ghost var d0 := disk.sectors;
    SystemApart(d0);
    WriteBackBitMap(freeMap, mapFile);
    ghost var d := disk.sectors;
    directory.WriteBack(dirFile);
    FormatDone(d, disk.sectors, directory.table[..]);
    FirstFour(d0);
  }

  /** The two files are open on this disk, and their in-memory headers are those on disk. */
  ghost predicate OpenOn(disk: SynchDisk, mapFile: OpenFile, dirFile: OpenFile)
    reads disk, mapFile, mapFile.hdr, mapFile.hdr.dataSectors, dirFile, dirFile.hdr, dirFile.hdr.dataSectors
  {
    && mapFile.disk == disk && dirFile.disk == disk && mapFile.Valid() && dirFile.Valid()
    && Mounted(disk.sectors)
    && mapFile.hdr.Value() == MapHeader(disk.sectors) && dirFile.hdr.Value() == DirHeader(disk.sectors)
  }

  class FileSystem {
    const disk: SynchDisk
    const freeMapFile: OpenFile
    const directoryFile: OpenFile

    ghost predicate Open_()
      reads this, disk, freeMapFile, freeMapFile.hdr, freeMapFile.hdr.dataSectors,
            directoryFile, directoryFile.hdr, directoryFile.hdr.dataSectors
    {
      OpenOn(disk, freeMapFile, directoryFile)
    }

    ghost predicate Valid()
      reads this, disk, freeMapFile, freeMapFile.hdr, freeMapFile.hdr.dataSectors,
            directoryFile, directoryFile.hdr, directoryFile.hdr.dataSectors
    {
      Open_() && Sound(disk.sectors)
    }

    /** FileSystem(TRUE): whatever the disk held, it now describes an empty file system. */
    constructor Format(disk: SynchDisk)
      requires disk.Valid()
      modifies disk
      ensures this.disk == disk && Valid() && View(disk.sectors) == Formatted()
      ensures RestKept(old(disk.sectors), disk.sectors)
    {
      hide Mounted, System, View, Formatted, OpenOn, Sound, BitsOf, MapHeader, DirHeader;
      var freeMap := new BitMap(NumSectors);
      var directory := new Directory(NumDirEntries);
      FormatHeaders(disk, freeMap);
      var mapFile, dirFile := OpenSystemFiles(disk);
      this.disk := disk;
      freeMapFile := mapFile;
      directoryFile := dirFile;
      WriteEmpty(disk, freeMap, directory, mapFile, dirFile);
    }

    /** FileSystem(FALSE): opens the two files of a disk that already is a file system. */
    constructor Mount(disk: SynchDisk)
      requires Sound(disk.sectors)
      ensures this.disk == disk && Valid()
    {
      var mapFile := new OpenFile(disk, FreeMapSector);
      var dirFile := new OpenFile(disk, DirectorySector);
      this.disk := disk;
      freeMapFile := mapFile;
      directoryFile := dirFile;
    }

    /** Create succeeds and fails as its description says. A failure leaves the disk untouched; a
        success writes only the file system's own sectors and the sector of the new header. */
    method Create(name: Name, initialSize: Int32) returns (success: bool)
      requires Valid() && 0 <= initialSize
      requires CreateFs(View(disk.sectors), Key(name), initialSize).0 ==> initialSize <= MaxFileSize
      modifies disk
      ensures Valid()
      ensures (success, View(disk.sectors)) == CreateFs(old(View(disk.sectors)), Key(name), initialSize)
      ensures Written(old(disk.sectors), disk.sectors, if success then [FirstClear(old(BitsOn(disk.sectors)))] else [])
      ensures !success ==> disk.sectors == old(disk.sectors)
    {
      hide NoDup, AllIn, FileBytes, BytesWords, BitsOf, BytesTable, DecodeHeader, GoodHeader, System, Slots, SlotFor,
        Inv, CreateFs, GoodEntry, IndexOf, SlotOf;
      ghost var d := disk.sectors;
      var directory := new Directory(NumDirEntries);
      var freeMap := new BitMap(NumSectors);
      var hdr := new FileHeader();
      var sector;
      success, sector := CreateInMemory(name, initialSize, directory, freeMap, hdr);
      if success {
        PreparedFits(d, Key(name), initialSize, directory.table[..], freeMap.Bits(), hdr.Value());
        Flush(hdr, sector, directory, freeMap);
        PreparedFlushed(d, disk.sectors, Key(name), initialSize, directory.table[..], freeMap.Bits(), hdr.Value());
      }
    }

    /** The part of Create that works on the in-memory copies of the directory and the bitmap. */
    method CreateInMemory(name: Name, initialSize: Int32, directory: Directory, freeMap: BitMap, hdr: FileHeader)
      returns (success: bool, sector: int)
      requires Valid() && 0 <= initialSize
      requires CreateFs(View(disk.sectors), Key(name), initialSize).0 ==> initialSize <= MaxFileSize
      requires directory.Valid() && directory.tableSize == NumDirEntries && hdr.Valid()
      requires freeMap.Valid() && freeMap.numBits == NumSectors
      requires hdr != freeMapFile.hdr && hdr != directoryFile.hdr
      requires hdr.dataSectors != freeMapFile.hdr.dataSectors && hdr.dataSectors != directoryFile.hdr.dataSectors
      modifies directory.table, freeMap.map_, hdr, hdr.dataSectors
      ensures Valid() && directory.Valid() && freeMap.Valid() && hdr.Valid()
      ensures !success ==> CreateFs(View(disk.sectors), Key(name), initialSize) == (false, View(disk.sectors))
      ensures success ==> sector == FirstClear(BitsOn(disk.sectors))
      ensures success ==>
        Prepared(disk.sectors, Key(name), initialSize, directory.table[..], freeMap.Bits(), hdr.Value())
    {
      hide NoDup, AllIn, FileBytes, BytesWords, BitsOf, BytesTable, DecodeHeader, GoodHeader, System, Slots, SlotFor,
        Inv, Take, GoodEntry, IndexOf, SlotOf, CountClear, FirstClear, FirstFree, FreeSlot, Sectors, MapHeader,
        DirHeader, UpToNul;
      ghost var d := disk.sectors;
      sector := -1;
      directory.FetchFrom(directoryFile);
      SlotsOf(TableOn(d), d, Key(name));
      var found := directory.Find(name);
      if found != -1 {
        return false, sector;
      }
      FetchBitMap(freeMap, freeMapFile);
      sector := freeMap.Find();
      if sector == -1 {
        return false, sector;
      }
      var added := directory.Add(name, sector);
      if !added {
        return false, sector;
      }
      var ok := hdr.Allocate(freeMap, initialSize);
      return ok, sector;
    }

    /** Remove takes away the file of that name, if there is one, and frees its sectors. */
    method Remove(name: Name) returns (ok: bool)
      requires Valid()
      modifies disk
      ensures Valid()
      ensures (ok, View(disk.sectors)) == RemoveFs(old(View(disk.sectors)), Key(name))
      ensures Written(old(disk.sectors), disk.sectors, [])
      ensures !ok ==> disk.sectors == old(disk.sectors)
    {
      hide NoDup, AllIn, FileBytes, BytesWords, BitsOf, BytesTable, DecodeHeader, GoodHeader, Slots, SlotFor, Inv,
        RemoveFs, GoodEntry, IndexOf, SlotOf;
      ghost var d := disk.sectors;
      var directory := new Directory(NumDirEntries);
      var freeMap := new BitMap(NumSectors);
      ok := RemoveInMemory(name, directory, freeMap);
      if ok {
        FlushRemoval(directory, freeMap, Key(name));
      }
    }

    /** The end of a successful Remove: bitmap and directory go back to disk. */
    method FlushRemoval(directory: Directory, freeMap: BitMap, ghost key: seq<Byte>)
      requires Valid()
      requires directory.Valid() && directory.tableSize == NumDirEntries
      requires freeMap.Valid() && freeMap.numBits == NumSectors
      requires Removing(disk.sectors, key, directory.table[..], freeMap.Bits())
      modifies disk
      ensures Valid() && RemoveFs(old(View(disk.sectors)), key) == (true, View(disk.sectors))
      ensures Written(old(disk.sectors), disk.sectors, [])
    {
      hide NoDup, AllIn, FileBytes, BytesWords, BitsOf, BytesTable, DecodeHeader, GoodHeader, System, Slots, SlotFor,
        Inv, RemoveFs, GoodEntry, IndexOf, SlotOf;
      ghost var d := disk.sectors;
      SystemApart(d);
      WriteBackBitMap(freeMap, freeMapFile);
      ghost var d1 := disk.sectors;
      MapWritten(d, d1, freeMap.Bits());
      RemovalFits(d, d1, key, directory.table[..], freeMap.Bits());
      directory.WriteBack(directoryFile);
      DirectoryWritten(d1, disk.sectors, directory.table[..]);
      SystemApart(d1);
      RemovalFlushed(d, d1, disk.sectors, key, directory.table[..], freeMap.Bits());
    }

    /** The part of Remove that works on the in-memory copies of the directory and the bitmap. */
    method RemoveInMemory(name: Name, directory: Directory, freeMap: BitMap) returns (ok: bool)
      requires Valid()
      requires directory.Valid() && directory.tableSize == NumDirEntries
      requires freeMap.Valid() && freeMap.numBits == NumSectors
      modifies directory.table, freeMap.map_
      ensures Valid() && directory.Valid() && freeMap.Valid()
      ensures !ok ==> RemoveFs(View(disk.sectors), Key(name)) == (false, View(disk.sectors))
      ensures ok ==> Removing(disk.sectors, Key(name), directory.table[..], freeMap.Bits())
    {
      hide NoDup, AllIn, FileBytes, BytesWords, BitsOf, BytesTable, DecodeHeader, GoodHeader, System, Slots, SlotFor,
        Inv, IndexOf, SlotOf, ClearAll, Claim, Sectors;
      ghost var d := disk.sectors;
      directory.FetchFrom(directoryFile);
      SlotsOf(TableOn(d), d, Key(name));
      var sector := directory.Find(name);
      RemoveMisses(View(d), Key(name));
      if sector == -1 {
        return false;
      }
      FreeFile(sector, freeMap, IndexOf(TableOn(d), Key(name)));
      var removed := directory.Remove(name);
      return true;
    }

    /** The middle of Remove: the sectors that the file's header lists are cleared, and then its own. */
    method FreeFile(sector: int, freeMap: BitMap, ghost i: nat)
      requires Valid() && freeMap.Valid() && freeMap.numBits == NumSectors
      requires i < NumDirEntries && TableOn(disk.sectors)[i].inUse && TableOn(disk.sectors)[i].sector == sector
      modifies freeMap.map_
      ensures Valid() && freeMap.Valid()
      ensures freeMap.Bits() == ClearAll(View(disk.sectors).bits, Claim(View(disk.sectors), i))
    {
      hide NoDup, AllIn, FileBytes, BytesWords, BitsOf, BytesTable, DecodeHeader, System, Slots, SlotFor, Inv,
        ClearAll, Claim;
      ghost var d := disk.sectors;
      EntryClaim(d, i);
      var fileHdr := new FileHeader();
      fileHdr.FetchFrom(disk, sector);
      FetchBitMap(freeMap, freeMapFile);
      fileHdr.Deallocate(freeMap);
      ClearsClaim(BitsOn(d), freeMap.Bits(), sector, Sectors(fileHdr.Value()));
      freeMap.Clear(sector);
    }

    /** Open gives a handle on the file of that name, or nothing when there is none. */
    method Open(name: Name) returns (openFile: OpenFile?)
      requires Valid()
      ensures openFile == null <==> Content(disk.sectors, Key(name)) == None
      ensures openFile != null ==> fresh(openFile) && openFile.disk == disk && openFile.Valid()
      ensures openFile != null ==> openFile.seekPosition == 0
      ensures openFile != null ==> Content(disk.sectors, Key(name)) == Some(openFile.Contents())
      ensures openFile != null ==>
        var i := IndexOf(TableOn(disk.sectors), Key(name));
        && i < NumDirEntries && GoodEntry(TableOn(disk.sectors)[i], disk.sectors)
        && openFile.hdr.Value() == DecodeHeader(disk.sectors[TableOn(disk.sectors)[i].sector])
    {
      hide NoDup, AllIn, FileBytes, BytesWords, BitsOf, BytesTable, DecodeHeader, System, Inv;
      openFile := null;
      var directory := new Directory(NumDirEntries);
      directory.FetchFrom(directoryFile);
      var sector := directory.Find(name);
      if sector >= 0 {
        openFile := new OpenFile(disk, sector);
      }
    }

    /** The end of a successful Create: header, directory and bitmap go back to disk. */
    method Flush(hdr: FileHeader, sector: int, directory: Directory, freeMap: BitMap)
      requires Open_() && Readable(disk.sectors)
      requires hdr.Valid() && GoodHeader(hdr.Value())
      requires directory.Valid() && directory.tableSize == NumDirEntries
      requires freeMap.Valid() && freeMap.numBits == NumSectors
      requires 0 <= sector < NumSectors && sector !in System(disk.sectors)
      requires forall e :: e in TableOn(disk.sectors) && e.inUse ==> e.sector != sector
      requires forall e :: e in directory.table[..] && e.inUse && e.sector != sector ==> GoodEntry(e, disk.sectors)
      modifies disk
      ensures Open_() && Readable(disk.sectors)
      ensures TableOn(disk.sectors) == directory.table[..] && BitsOn(disk.sectors) == freeMap.Bits()
      ensures System(disk.sectors) == old(System(disk.sectors))
      ensures DecodeHeader(disk.sectors[sector]) == hdr.Value()
      ensures Written(old(disk.sectors), disk.sectors, [sector])
    {
      hide NoDup, AllIn, FileBytes, BytesWords, BitsOf, BytesTable, DecodeHeader, System, GoodHeader, Slots, SlotFor;
      ghost var d0 := disk.sectors;
      hdr.WriteBack(disk, sector);
      ghost var d1 := disk.sectors;
      HeaderWritten(d0, d1, sector);
      SystemApart(d1);
      assert GoodTable(directory.table[..], d1);
      directory.WriteBack(directoryFile);
      ghost var d2 := disk.sectors;
      DirectoryWritten(d1, d2, directory.table[..]);
      WriteBackBitMap(freeMap, freeMapFile);
      MapWritten(d2, disk.sectors, freeMap.Bits());
    }
  }

  lemma FirstSectors(bits: seq<bool>)
    requires |bits| == NumSectors && forall k :: 0 <= k < NumSectors ==> bits[k] == (k < 2)
    ensures CountClear(bits) == NumSectors - 2
    ensures Take(bits, 1) == ([2], bits[2 := true])
    ensures CountClear(bits[2 := true]) == NumSectors - 3
    ensures Take(bits[2 := true], 1) == ([3], bits[2 := true][3 := true])
  {
    ClearTail(bits, 2, NumSectors);
    assert bits[..NumSectors] == bits;
    FirstClearUnique(bits, 2);
    CountClearUpdate(bits, 2, true);
    FirstClearUnique(bits[2 := true], 3);
    assert Take(bits, 0) == ([], bits) && [] + [2] == [2];
    assert Take(bits[2 := true], 0) == ([], bits[2 := true]) && [] + [3] == [3];
  }

  /** Outside the file system's own sectors and those listed, the disk is as it was. */
  predicate Written(before: seq<Sector>, after: seq<Sector>, except_: seq<int>)
    requires Mounted(before) && |after| == NumSectors
  {
    forall n :: 0 <= n < NumSectors && n !in System(before) && n !in except_ ==> after[n] == before[n]
  }

  /** Create has succeeded in memory: t, bits and h are what it is about to write. */
  ghost predicate Prepared(d: seq<Sector>, key: seq<Byte>, size: nat, t: seq<DirectoryEntry>, bits: seq<bool>,
                           h: Header)
    requires Readable(d)
  {
    var f := View(d);
    var i := FreeSlot(f.slots);
    var (ok, g) := CreateFs(f, key, size);
    && ok && size <= MaxFileSize
    && bits == g.bits
    && |t| == NumDirEntries && t == TableOn(d)[i := t[i]]
    && t[i].inUse && t[i].sector == FirstClear(f.bits) && FieldKey(t[i].name) == key
    && |h.dataSectors| == NumDirect && h.numBytes == size && h.numSectors == DivRoundUp(size, SectorSize)
    && Sectors(h) == g.slots[i].data
  }

  lemma ClaimTail(c: seq<int>, sector: int, data: seq<int>)
    requires c == [sector] + data && AllIn(c, NumSectors) && NoDup(c)
    ensures 0 <= sector < NumSectors && AllIn(data, NumSectors) && NoDup(data)
  {
    assert c[0] == sector;
    assert forall a :: 0 <= a < |data| ==> data[a] == c[a + 1];
  }

  /** What Create is about to write fits the disk it goes to. */
  lemma PreparedFits(d: seq<Sector>, key: seq<Byte>, size: nat, t: seq<DirectoryEntry>, bits: seq<bool>, h: Header)
    requires Sound(d) && Prepared(d, key, size, t, bits, h)
    ensures GoodHeader(h)
    ensures var sector := FirstClear(BitsOn(d));
      && sector < NumSectors && sector !in System(d)
      && (forall e :: e in TableOn(d) && e.inUse ==> e.sector != sector)
      && (forall e :: e in t && e.inUse && e.sector != sector ==> GoodEntry(e, d))
  {
    var f := View(d);
    var sector := FirstClear(f.bits);
    CreateClaims(f, key, size);
    var g := CreateFs(f, key, size).1;
    ClaimTail(Claim(g, FreeSlot(f.slots)), sector, Sectors(h));
    if sector in System(d) { ClaimedIn(f, NumDirEntries, sector); }
    forall i | 0 <= i < NumDirEntries && TableOn(d)[i].inUse ensures TableOn(d)[i].sector != sector {
      HeaderClaimed(d, i);
    }
  }

  lemma HeaderClaimed(d: seq<Sector>, i: nat)
    requires Sound(d) && i < NumDirEntries && TableOn(d)[i].inUse
    ensures View(d).slots[i].File? && View(d).slots[i].sector == TableOn(d)[i].sector
    ensures View(d).bits[TableOn(d)[i].sector]
  {
    assert View(d).slots[i] == SlotFor(TableOn(d)[i], d);
    ClaimedIn(View(d), i, TableOn(d)[i].sector);
  }

  /** Once it is written, the disk describes what CreateFs computes. */
  lemma PreparedFlushed(d: seq<Sector>, after: seq<Sector>, key: seq<Byte>, size: nat, t: seq<DirectoryEntry>,
                        bits: seq<bool>, h: Header)
    requires Sound(d) && Prepared(d, key, size, t, bits, h)
    requires Readable(after) && TableOn(after) == t && BitsOn(after) == bits && System(after) == System(d)
    requires DecodeHeader(after[FirstClear(BitsOn(d))]) == h
    requires Written(d, after, [FirstClear(BitsOn(d))])
    ensures Sound(after) && View(after) == CreateFs(View(d), key, size).1
  {
    hide NoDup, AllIn, FileBytes, BytesWords, BitsOf, BytesTable, DecodeHeader, Inv, CountClear;
    var f := View(d);
    var g := CreateFs(f, key, size).1;
    var i := FreeSlot(f.slots);
    forall j | 0 <= j < NumDirEntries
      ensures View(after).slots[j] == g.slots[j]
    {
      if j != i && TableOn(d)[j].inUse {
        HeaderClaimed(d, j);
        assert after[t[j].sector] == d[t[j].sector];
      }
    }
    assert View(after).slots == g.slots;
    CreateKeepsInv(f, key, size);
  }

  /** Remove has succeeded in memory: t and bits are what it is about to write. */
  ghost predicate Removing(d: seq<Sector>, key: seq<Byte>, t: seq<DirectoryEntry>, bits: seq<bool>)
    requires Readable(d)
  {
    var f := View(d);
    var i := IndexOf(TableOn(d), key);
    && i < NumDirEntries && SlotOf(f.slots, key) == i
    && bits == ClearAll(f.bits, Claim(f, i))
    && t == TableOn(d)[i := TableOn(d)[i].(inUse := false)]
  }

  lemma RemoveMisses(f: FsState, key: seq<Byte>)
    ensures SlotOf(f.slots, key) == |f.slots| ==> RemoveFs(f, key) == (false, f)
  {
  }

  /** A header's data sectors cleared, and then its own. */
  lemma ClearsClaim(bits: seq<bool>, cleared: seq<bool>, sector: int, data: seq<int>)
    requires |cleared| == |bits| && 0 <= sector < |bits|
    requires forall k :: 0 <= k < |bits| ==> cleared[k] == (bits[k] && k !in data)
    ensures cleared[sector := false] == ClearAll(bits, [sector] + data)
  {
  }

  /** The sectors of the file in entry i are its header's and those its header lists, all of them marked. */
  lemma EntryClaim(d: seq<Sector>, i: nat)
    requires Sound(d) && i < NumDirEntries && TableOn(d)[i].inUse
    ensures 0 <= TableOn(d)[i].sector < NumSectors
    ensures Claim(View(d), i) == [TableOn(d)[i].sector] + Sectors(DecodeHeader(d[TableOn(d)[i].sector]))
    ensures forall x :: x in Claim(View(d), i) ==> 0 <= x < NumSectors && View(d).bits[x]
  {
  }

  lemma RemovalFits(d: seq<Sector>, d1: seq<Sector>, key: seq<Byte>, t: seq<DirectoryEntry>, bits: seq<bool>)
    requires Sound(d) && Removing(d, key, t, bits) && Readable(d1) && TableOn(d1) == TableOn(d)
    ensures GoodTable(t, d1)
  {
    forall i | 0 <= i < |t| ensures GoodEntry(t[i], d1) {
      assert GoodEntry(TableOn(d1)[i], d1);
    }
  }

  /** Once it is written, the disk describes what RemoveFs computes. */
  lemma RemovalFlushed(d: seq<Sector>, d1: seq<Sector>, after: seq<Sector>, key: seq<Byte>, t: seq<DirectoryEntry>,
                       bits: seq<bool>)
    requires Sound(d) && Removing(d, key, t, bits)
    requires Readable(d1) && View(d1) == View(d).(bits := bits) && TableOn(d1) == TableOn(d)
    requires Readable(after) && TableOn(after) == t && BitsOn(after) == BitsOn(d1) && System(after) == System(d1)
    requires GoodTable(t, d1) && Slots(t, after) == Slots(t, d1)
    ensures RemoveFs(View(d), key) == (true, View(after)) && Sound(after)
  {
    var f := View(d);
    var i := IndexOf(TableOn(d), key);
    forall j | 0 <= j < NumDirEntries
      ensures Slots(t, d1)[j] == f.slots[i := Free][j]
    {
      assert View(d1).slots[j] == SlotFor(TableOn(d)[j], d1);
    }
    assert View(after).slots == f.slots[i := Free];
    RemoveKeepsInv(f, key);
  }
}
