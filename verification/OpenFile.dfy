/** The simulated disk seen as an array of sectors: each read or write moves one whole sector. */
module SectorDisk {
  import opened Bytes

  const SectorSize := 256
  const NumSectors := 1024

  type Sector = s: seq<Byte> | |s| == SectorSize witness seq(SectorSize, i => 0)

  class SynchDisk {
    var sectors: seq<Sector>

    ghost predicate Valid() reads this {
      |sectors| == NumSectors
    }

    /** An unformatted disk holds whatever it holds. */
    constructor (initial: seq<Sector>)
      requires |initial| == NumSectors
      ensures Valid() && sectors == initial
    {
      sectors := initial;
    }

    method ReadSector(n: int, data: array<Byte>, at: nat)
      requires Valid() && 0 <= n < NumSectors && at + SectorSize <= data.Length
      modifies data
      ensures data[..] == old(data[..at]) + sectors[n] + old(data[at + SectorSize..])
    {
      forall i | at <= i < at + SectorSize {
        data[i] := sectors[n][i - at];
      }
    }

    method WriteSector(n: int, data: array<Byte>, at: nat)
      requires Valid() && 0 <= n < NumSectors && at + SectorSize <= data.Length
      modifies this
      ensures Valid() && sectors == old(sectors)[n := data[at..at + SectorSize]]
    {
      sectors := sectors[n := data[at..at + SectorSize]];
    }
  }

  /** A fresh buffer with the given contents. */
  method BufferOf(bytes: seq<Byte>) returns (buf: array<Byte>)
    ensures fresh(buf) && buf[..] == bytes
  {
    buf := new Byte[|bytes|];
    forall i | 0 <= i < |bytes| {
      buf[i] := bytes[i];
    }
  }
}

/** filehdr.cc: the i-node, one sector long, and its bytes on disk. */
module FileHeaders {
  import opened Bytes
  import opened BitMaps
  import opened SectorDisk

  const NumDirect := 62
  const MaxFileSize := NumDirect * SectorSize

  datatype Header = Header(numBytes: Int32, numSectors: Int32, dataSectors: seq<Int32>)

  function Sectors(h: Header): (s: seq<int>)
    requires 0 <= h.numSectors <= |h.dataSectors|
  {
    h.dataSectors[..h.numSectors]
  }

  /** A header as Allocate makes it: enough distinct sectors of the disk for its length. */
  predicate GoodHeader(h: Header) {
    && |h.dataSectors| == NumDirect
    && 0 <= h.numBytes <= MaxFileSize
    && h.numSectors == DivRoundUp(h.numBytes, SectorSize)
    && AllIn(Sectors(h), NumSectors)
    && NoDup(Sectors(h))
  }

  /** A turn of the loop of Allocate that stores beyond the header's last sector number. */
  predicate BeyondHeader(turn: nat) {
    turn >= NumDirect
  }

  /** There are clear sectors enough for the loop to run, and it leaves the header. */
  predicate Overruns(fileSize: nat, bits: seq<bool>) {
    && DivRoundUp(fileSize, SectorSize) <= CountClear(bits)
    && exists turn: nat :: turn < DivRoundUp(fileSize, SectorSize) && BeyondHeader(turn)
  }

  /** That is exactly so for a file too big for a header, when there is room for it on disk. */
  lemma OverrunsWhen(fileSize: nat, bits: seq<bool>)
    ensures Overruns(fileSize, bits) <==> fileSize > MaxFileSize && DivRoundUp(fileSize, SectorSize) <= CountClear(bits)
    ensures fileSize <= MaxFileSize <==> DivRoundUp(fileSize, SectorSize) <= NumDirect
  {
    if fileSize > MaxFileSize { assert BeyondHeader(NumDirect); }
  }

  function HeaderWords(h: Header): (ws: seq<Word>)
    requires |h.dataSectors| == NumDirect
    ensures |ws| == 64
  {
    [Wrap(h.numBytes), Wrap(h.numSectors)] + seq(NumDirect, i requires 0 <= i < NumDirect => Wrap(h.dataSectors[i]))
  }

  function DecodeHeader(s: Sector): (h: Header)
    ensures |h.dataSectors| == NumDirect
  {
    var ws := BytesWords(s, 64);
    Header(Signed(ws[0]), Signed(ws[1]), seq(NumDirect, i requires 0 <= i < NumDirect => Signed(ws[i + 2])))
  }

  lemma SignedWrap(x: Int32)
    ensures Signed(Wrap(x)) == x
  {
  }

  lemma HeaderRoundTrip(h: Header)
    requires |h.dataSectors| == NumDirect
    ensures |WordsBytes(HeaderWords(h))| == SectorSize
    ensures DecodeHeader(WordsBytes(HeaderWords(h))) == h
  {
    var ws := HeaderWords(h);
    var d := DecodeHeader(WordsBytes(ws));
    assert BytesWords(WordsBytes(ws), 64) == ws by {
      WordsRoundTrip(ws, []);
      assert WordsBytes(ws) + [] == WordsBytes(ws);
    }
    forall i | 0 <= i < NumDirect
      ensures d.dataSectors[i] == h.dataSectors[i]
    {
      SignedWrap(h.dataSectors[i]);
    }
    SignedWrap(h.numBytes);
    SignedWrap(h.numSectors);
    assert d.dataSectors == h.dataSectors;
  }

  /** The bytes of the file whose header is h: byte k is byte k % SectorSize of data sector k / SectorSize. */
  function FileBytes(h: Header, sectors: seq<Sector>): (b: seq<Byte>)
    requires GoodHeader(h) && |sectors| == NumSectors
    ensures |b| == h.numBytes
  {
    seq(h.numBytes, k requires 0 <= k < h.numBytes => sectors[h.dataSectors[k / SectorSize]][k % SectorSize])
  }

  lemma FileBytesFrame(h: Header, before: seq<Sector>, after: seq<Sector>)
    requires GoodHeader(h) && |before| == |after| == NumSectors
    requires forall n :: n in Sectors(h) ==> before[n] == after[n]
    ensures FileBytes(h, before) == FileBytes(h, after)
  {
  }

  class FileHeader {
    var numBytes: Int32
    var numSectors: Int32
    const dataSectors: array<Int32>

    ghost predicate Valid() reads this {
      dataSectors.Length == NumDirect
    }

    ghost function Value(): Header
      reads this, dataSectors
    {
      Header(numBytes, numSectors, dataSectors[..])
    }

    constructor ()
      ensures Valid() && fresh(dataSectors)
    {
      dataSectors := new Int32[NumDirect];
    }

    method Allocate(freeMap: BitMap, fileSize: Int32) returns (ok: bool)
      requires Valid() && freeMap.Valid() && freeMap.numBits == NumSectors
      requires 0 <= fileSize && !Overruns(fileSize, freeMap.Bits())
      modifies this, dataSectors, freeMap.map_
      ensures Valid()
      ensures ok <==> DivRoundUp(fileSize, SectorSize) <= CountClear(old(freeMap.Bits()))
      ensures numBytes == fileSize && numSectors == DivRoundUp(fileSize, SectorSize)
      ensures ok ==> fileSize <= MaxFileSize && numSectors <= NumDirect
      ensures !ok ==> freeMap.Bits() == old(freeMap.Bits()) && dataSectors[..] == old(dataSectors[..])
      ensures ok ==> dataSectors[numSectors..] == old(dataSectors[..])[numSectors..]
      ensures ok ==> Sectors(Value()) == Take(old(freeMap.Bits()), numSectors).0
      ensures ok ==> freeMap.Bits() == Take(old(freeMap.Bits()), numSectors).1
    {
      numBytes := fileSize;
      numSectors := DivRoundUp(fileSize, SectorSize);
      var clear := freeMap.NumClear();
      if clear < numSectors {
        return false;
      }
      OverrunsWhen(fileSize, freeMap.Bits());
      FillSectors(freeMap);
      return true;
    }

    /** The loop of Allocate: the next clear sector, one after the other. */
    method FillSectors(freeMap: BitMap)
      requires Valid() && freeMap.Valid() && freeMap.numBits == NumSectors
      requires 0 <= numSectors <= NumDirect && numSectors <= CountClear(freeMap.Bits())
      modifies dataSectors, freeMap.map_
      ensures Valid() && Sectors(Value()) == Take(old(freeMap.Bits()), numSectors).0
      ensures freeMap.Bits() == Take(old(freeMap.Bits()), numSectors).1
      ensures dataSectors[numSectors..] == old(dataSectors[numSectors..])
    {
      hide CountClear;
      ghost var bits0 := freeMap.Bits();
      for i := 0 to numSectors
        invariant dataSectors.Length >= numSectors && |Take(bits0, i).0| == i
        invariant dataSectors[..i] == Take(bits0, i).0 && freeMap.Bits() == Take(bits0, i).1
        invariant dataSectors[numSectors..] == old(dataSectors[numSectors..])
      {
        TakeNext(bits0, i);
        ghost var taken := dataSectors[..i];
        var s := freeMap.Find();
        assert dataSectors[..i] == taken;
        StoreSector(i, s);
      }
    }

    method StoreSector(i: nat, s: Int32)
      requires i < dataSectors.Length
      modifies dataSectors
      ensures dataSectors[..i + 1] == old(dataSectors[..i]) + [s]
      ensures dataSectors[i + 1..] == old(dataSectors[i + 1..])
    {
      dataSectors[i] := s;
    }

    method Deallocate(freeMap: BitMap)
      requires Valid() && freeMap.Valid() && freeMap.numBits == NumSectors && GoodHeader(Value())
      requires forall s :: s in Sectors(Value()) ==> freeMap.Bits()[s]   // ASSERTed sector by sector
      modifies freeMap.map_
      ensures forall k :: 0 <= k < NumSectors ==>
        freeMap.Bits()[k] == (old(freeMap.Bits())[k] && k !in Sectors(Value()))
    {
      for i := 0 to numSectors
        invariant Value() == old(Value())
        invariant forall k :: 0 <= k < NumSectors ==>
          freeMap.Bits()[k] == (old(freeMap.Bits())[k] && k !in Sectors(Value())[..i])
      {
        var marked := freeMap.Test(dataSectors[i]);
        assert Sectors(Value())[i] in Sectors(Value());
        assert marked;
        freeMap.Clear(dataSectors[i]);
        assert Sectors(Value())[..i + 1] == Sectors(Value())[..i] + [Sectors(Value())[i]];
      }
    }

    method FetchFrom(disk: SynchDisk, sector: int)
      requires Valid() && disk.Valid() && 0 <= sector < NumSectors
      modifies this, dataSectors
      ensures Valid() && Value() == DecodeHeader(disk.sectors[sector])
    {
      var buf := new Byte[SectorSize];
      disk.ReadSector(sector, buf, 0);
      assert buf[..] == disk.sectors[sector];
      var h := DecodeHeader(buf[..]);
      numBytes, numSectors := h.numBytes, h.numSectors;
      forall i | 0 <= i < NumDirect {
        dataSectors[i] := h.dataSectors[i];
      }
      assert dataSectors[..] == h.dataSectors;
    }

    method WriteBack(disk: SynchDisk, sector: int)
      requires Valid() && disk.Valid() && 0 <= sector < NumSectors
      modifies disk
      ensures disk.Valid()
      ensures disk.sectors == old(disk.sectors)[sector := disk.sectors[sector]]
      ensures DecodeHeader(disk.sectors[sector]) == Value()
    {
      var h := Header(numBytes, numSectors, dataSectors[..]);
      HeaderRoundTrip(h);
      var buf := BufferOf(WordsBytes(HeaderWords(h)));
      disk.WriteSector(sector, buf, 0);
      assert buf[0..0 + SectorSize] == WordsBytes(HeaderWords(h));
    }

    method ByteToSector(offset: nat) returns (s: int)
      requires Valid() && offset / SectorSize < NumDirect
      ensures s == dataSectors[offset / SectorSize]
    {
      return dataSectors[offset / SectorSize];
    }

    method FileLength() returns (n: int)
      ensures n == numBytes
    {
      return numBytes;
    }
  }
}

/** openfile.cc: an open file behaves as a byte sequence of fixed length. */
module OpenFiles {
  import opened Bytes
  import opened BitMaps
  import opened SectorDisk
  import opened FileHeaders

  /** How many bytes a transfer of numBytes at position moves in a file of length len. */
  function Clamp(numBytes: int, position: nat, len: nat): (n: nat)
    ensures n > 0 ==> position + n <= len && n <= numBytes
    ensures position <= len ==> position + n <= len
  {
    if numBytes <= 0 || position >= len then 0
    else if position + numBytes > len then len - position
    else numBytes
  }

  /** old with the bytes from position on replaced by data. */
  function Overlay(before: seq<Byte>, position: nat, data: seq<Byte>): (r: seq<Byte>)
    requires data != [] ==> position + |data| <= |before|
    ensures |r| == |before|
  {
    if data == [] then before else before[..position] + data + before[position + |data|..]
  }

  /** The n consecutive data sectors of a file from data sector first on, end to end. */
  function Stretch(h: Header, sectors: seq<Sector>, first: nat, n: nat): (b: seq<Byte>)
    requires GoodHeader(h) && |sectors| == NumSectors && first + n <= h.numSectors
    ensures |b| == n * SectorSize
  {
    if n == 0 then [] else
      assert Sectors(h)[first + n - 1] == h.dataSectors[first + n - 1];
      Stretch(h, sectors, first, n - 1) + sectors[h.dataSectors[first + n - 1]]
  }

  lemma {:induction false} StretchAt(h: Header, sectors: seq<Sector>, first: nat, n: nat, k: nat)
    requires GoodHeader(h) && |sectors| == NumSectors && first + n <= h.numSectors && k < n * SectorSize
    ensures first * SectorSize + k < h.numBytes ==>
      Stretch(h, sectors, first, n)[k] == FileBytes(h, sectors)[first * SectorSize + k]
  {
    if k < (n - 1) * SectorSize {
      StretchAt(h, sectors, first, n - 1, k);
    } else {
      assert (first * SectorSize + k) / SectorSize == first + n - 1;
    }
  }

  lemma SectorSpan(position: nat, count: nat, len: nat)
    requires 0 < count && position + count <= len
    ensures position / SectorSize <= (position + count - 1) / SectorSize < DivRoundUp(len, SectorSize)
    ensures position / SectorSize * SectorSize <= position < (position / SectorSize + 1) * SectorSize
    ensures (position + count - 1) / SectorSize * SectorSize < position + count
    ensures position + count <= ((position + count - 1) / SectorSize + 1) * SectorSize
  {
  }

  /** From offset lo to hi the buffer agrees with the image, whose byte base lies at offset 0. */
  predicate Shows(buf: seq<Byte>, image: seq<Byte>, base: nat, lo: nat, hi: nat) {
    forall x :: lo <= x < hi && x < |buf| && base + x < |image| ==> buf[x] == image[base + x]
  }

  class OpenFile {
    const disk: SynchDisk
    const hdr: FileHeader
    var seekPosition: int

    ghost predicate Valid() reads this, disk, hdr, hdr.dataSectors {
      disk.Valid() && hdr.Valid() && GoodHeader(hdr.Value())
    }

    ghost function Contents(): (b: seq<Byte>)
      requires Valid()
      reads this, disk, hdr, hdr.dataSectors
    {
      FileBytes(hdr.Value(), disk.sectors)
    }

    constructor (disk: SynchDisk, sector: int)
      requires disk.Valid() && 0 <= sector < NumSectors
      requires GoodHeader(DecodeHeader(disk.sectors[sector]))
      ensures this.disk == disk && fresh(hdr) && fresh(hdr.dataSectors)
      ensures Valid() && hdr.Value() == DecodeHeader(disk.sectors[sector]) && seekPosition == 0
    {
      this.disk := disk;
      var h := new FileHeader();
      h.FetchFrom(disk, sector);
      hdr := h;
      seekPosition := 0;
    }

    method Seek(position: int)
      modifies this
      ensures seekPosition == position
    {
      seekPosition := position;
    }

    method Read(into: array<Byte>, numBytes: int) returns (result: int)
      requires Valid() && 0 <= seekPosition && seekPosition + numBytes < 0x8000_0000
      requires Clamp(numBytes, seekPosition, |Contents()|) <= into.Length
      modifies this, into
      ensures Valid() && Contents() == old(Contents())
      ensures result == Clamp(numBytes, old(seekPosition), |Contents()|) && seekPosition == old(seekPosition) + result
      ensures result > 0 ==> into[..result] == Contents()[old(seekPosition)..old(seekPosition) + result]
      ensures into[result..] == old(into[result..])
    {
      result := ReadAt(into, 0, numBytes, seekPosition);
      seekPosition := seekPosition + result;
    }

    method Write(from: array<Byte>, numBytes: int) returns (result: int)
      requires Valid() && 0 <= seekPosition && seekPosition + numBytes < 0x8000_0000
      requires Clamp(numBytes, seekPosition, |Contents()|) <= from.Length
      modifies this, disk
      ensures Valid() && hdr.Value() == old(hdr.Value())
      ensures result == Clamp(numBytes, old(seekPosition), |old(Contents())|)
      ensures seekPosition == old(seekPosition) + result
      ensures Contents() == Overlay(old(Contents()), old(seekPosition), from[..result])
      ensures forall n :: 0 <= n < NumSectors && n !in Sectors(hdr.Value()) ==> disk.sectors[n] == old(disk.sectors)[n]
    {
      result := WriteAt(from, numBytes, seekPosition);
      seekPosition := seekPosition + result;
    }

    method ReadAt(into: array<Byte>, at: nat, numBytes: int, position: int) returns (result: int)
      requires Valid() && 0 <= position && position + numBytes < 0x8000_0000
      requires at + Clamp(numBytes, position, |Contents()|) <= into.Length
      modifies into
      ensures Valid() && Contents() == old(Contents()) && hdr.Value() == old(hdr.Value())
      ensures result == Clamp(numBytes, position, |Contents()|)
      ensures result > 0 ==> into[at..at + result] == Contents()[position..position + result]
      ensures forall k :: 0 <= k < into.Length && !(at <= k < at + result) ==> into[k] == old(into[k])
    {
      hide DivRoundUp, NoDup, Stretch;
      var fileLength := hdr.FileLength();
      if numBytes <= 0 || position >= fileLength {
        return 0;
      }
      var count: int := numBytes;
      if position + count > fileLength {
        count := fileLength - position;
      }
      var firstSector := position / SectorSize;
      var lastSector := (position + count - 1) / SectorSize;
      var numSectors := 1 + lastSector - firstSector;

      SectorSpan(position, count, fileLength);
      var buf := LoadSectors(firstSector, lastSector);
      CopyOut(into, at, buf, position - firstSector * SectorSize, count, firstSector, numSectors, position);
      return count;
    }

    /** The loop of ReadAt: all the full and partial sectors of the request, in a fresh buffer. */
    method LoadSectors(firstSector: nat, lastSector: nat) returns (buf: array<Byte>)
      requires Valid() && firstSector <= lastSector < hdr.numSectors
      ensures fresh(buf)
      ensures buf[..] == Stretch(hdr.Value(), disk.sectors, firstSector, 1 + lastSector - firstSector)
    {
      hide NoDup;
      buf := new Byte[(1 + lastSector - firstSector) * SectorSize];
      for i := firstSector to lastSector + 1
        invariant buf[..(i - firstSector) * SectorSize]
          == Stretch(hdr.Value(), disk.sectors, firstSector, i - firstSector)
      {
        var s := hdr.ByteToSector(i * SectorSize);
        assert s == Sectors(hdr.Value())[i];
        ghost var off := (i - firstSector) * SectorSize;
        ghost var before := buf[..];
        disk.ReadSector(s, buf, (i - firstSector) * SectorSize);
        assert buf[..off + SectorSize] == before[..off] + disk.sectors[s];
      }
      assert buf[..] == buf[..buf.Length];
    }

    /** The bcopy that ends ReadAt: the wanted part of the loaded sectors goes to the caller's buffer. */
    method CopyOut(into: array<Byte>, at: nat, buf: array<Byte>, start: nat, count: nat,
                   ghost firstSector: nat, ghost numSectors: nat, ghost position: nat)
      requires Valid() && into != buf && at + count <= into.Length && start + count <= buf.Length
      requires firstSector + numSectors <= hdr.numSectors && position == firstSector * SectorSize + start
      requires position + count <= hdr.numBytes
      requires buf[..] == Stretch(hdr.Value(), disk.sectors, firstSector, numSectors)
      modifies into
      ensures Valid() && hdr.Value() == old(hdr.Value())
      ensures into[at..at + count] == Contents()[position..position + count]
      ensures forall k :: 0 <= k < into.Length && !(at <= k < at + count) ==> into[k] == old(into[k])
    {
      ghost var h, d := hdr.Value(), disk.sectors;
      ghost var image := buf[..];
      forall k | at <= k < at + count {
        into[k] := buf[start + k - at];
      }
      assert hdr.Value() == h;
      forall k | at <= k < at + count
        ensures into[k] == FileBytes(h, d)[position + k - at]
      {
        StretchAt(h, d, firstSector, numSectors, start + k - at);
        assert into[k] == image[start + k - at];
      }
    }

    method WriteAt(from: array<Byte>, numBytes: int, position: int) returns (result: int)
      requires Valid() && 0 <= position && position + numBytes < 0x8000_0000
      requires Clamp(numBytes, position, |Contents()|) <= from.Length
      modifies disk
      ensures Valid() && hdr.Value() == old(hdr.Value())
      ensures result == Clamp(numBytes, position, |old(Contents())|)
      ensures Contents() == Overlay(old(Contents()), position, from[..result])
      ensures forall n :: 0 <= n < NumSectors && n !in Sectors(hdr.Value()) ==> disk.sectors[n] == old(disk.sectors)[n]
    {
      hide DivRoundUp, NoDup, Stored;
      var fileLength := hdr.FileLength();
      if numBytes <= 0 || position >= fileLength {
        return 0;
      }
      var count: int := numBytes;
      if position + count > fileLength {
        count := fileLength - position;
      }
      var firstSector := position / SectorSize;
      var lastSector := (position + count - 1) / SectorSize;
      SectorSpan(position, count, fileLength);
      ghost var was, base := Contents(), firstSector * SectorSize;
      var buf := ReadEdges(firstSector, lastSector, position, count);
      ghost var edges := buf[..];
      CopyIn(from, buf, position - firstSector * SectorSize, count);
      OverlayShows(edges, was, base, position, from[..count]);
      WriteOut(buf, firstSector, lastSector);
      StoredImage(hdr.Value(), old(disk.sectors), firstSector, lastSector, buf[..], position, from[..count]);
      return count;
    }

    /** The first half of WriteAt: a buffer for whole sectors, with the first and the last sector
        read in if they are to be partially modified. */
    method ReadEdges(firstSector: nat, lastSector: nat, position: nat, count: nat) returns (buf: array<Byte>)
      requires Valid() && firstSector <= lastSector < hdr.numSectors && count > 0 && position + count <= hdr.numBytes
      requires firstSector * SectorSize <= position < (firstSector + 1) * SectorSize
      requires lastSector * SectorSize < position + count <= (lastSector + 1) * SectorSize
      ensures fresh(buf) && buf.Length == (lastSector + 1 - firstSector) * SectorSize
      ensures Shows(buf[..], Contents(), firstSector * SectorSize, 0, position - firstSector * SectorSize)
      ensures Shows(buf[..], Contents(), firstSector * SectorSize,
        position - firstSector * SectorSize + count, buf.Length)
    {
      var numSectors := 1 + lastSector - firstSector;
      buf := new Byte[numSectors * SectorSize];
      var firstAligned := position == firstSector * SectorSize;
      var lastAligned := position + count == (lastSector + 1) * SectorSize;
      if !firstAligned {
        ReadIn(buf, 0, firstSector * SectorSize, firstSector * SectorSize);
      }
      if !lastAligned && (firstSector != lastSector || firstAligned) {
        ReadIn(buf, (lastSector - firstSector) * SectorSize, lastSector * SectorSize, firstSector * SectorSize);
      }
    }

    /** A ReadAt of one sector of this file into the transfer buffer; the buffer beyond it is untouched. */
    method ReadIn(buf: array<Byte>, off: nat, position: nat, ghost base: nat)
      requires Valid() && off + SectorSize <= buf.Length && position == base + off && position < hdr.numBytes
      modifies buf
      ensures Valid() && hdr.Value() == old(hdr.Value())
      ensures Shows(buf[..], Contents(), base, off, off + SectorSize)
      ensures forall k :: 0 <= k < buf.Length && !(off <= k < off + SectorSize) ==> buf[k] == old(buf[k])
    {
      var n := ReadAt(buf, off, SectorSize, position);
      forall x | off <= x < off + SectorSize && base + x < hdr.numBytes
        ensures buf[x] == Contents()[base + x]
      {
        assert buf[x] == buf[off..off + n][x - off];
      }
    }

    /** The bcopy of WriteAt: the caller's bytes go into the transfer buffer. */
    method CopyIn(from: array<Byte>, buf: array<Byte>, start: nat, count: nat)
      requires from != buf && 0 < count <= from.Length && start + count <= buf.Length
      modifies buf
      ensures buf[..] == Overlay(old(buf[..]), start, from[..count])
    {
      forall k | start <= k < start + count {
        buf[k] := from[k - start];
      }
    }

    /** The loop that ends WriteAt: consecutive sectors of the buffer go to consecutive data sectors. */
    method WriteOut(buf: array<Byte>, firstSector: nat, lastSector: nat)
      requires Valid() && firstSector <= lastSector < hdr.numSectors
      requires buf.Length == (lastSector + 1 - firstSector) * SectorSize
      modifies disk
      ensures Valid() && hdr.Value() == old(hdr.Value())
      ensures disk.sectors == Stored(old(disk.sectors), hdr.Value(), firstSector, lastSector + 1 - firstSector, buf[..])
    {
      ghost var before := disk.sectors;
      ghost var h := hdr.Value();
      for i := firstSector to lastSector + 1
        invariant disk.Valid()
        invariant disk.sectors == Stored(before, h, firstSector, i - firstSector, buf[..])
      {
        var s := hdr.ByteToSector(i * SectorSize);
        assert s == Sectors(h)[i];
        disk.WriteSector(s, buf, (i - firstSector) * SectorSize);
      }
    }

    method Length() returns (n: int)
      ensures n == hdr.numBytes
    {
      n := hdr.FileLength();
    }
  }

  lemma OverlayShows(edges: seq<Byte>, was: seq<Byte>, base: nat, position: nat, data: seq<Byte>)
    requires data != [] && base <= position && position + |data| <= |was| && position - base + |data| <= |edges|
    requires Shows(edges, was, base, 0, position - base)
    requires Shows(edges, was, base, position - base + |data|, |edges|)
    ensures Shows(Overlay(edges, position - base, data), Overlay(was, position, data), base, 0, |edges|)
  {
  }

  /** Disk contents after storing the first n sectors of buf in n consecutive data sectors of a file. */
  function Stored(sectors: seq<Sector>, h: Header, first: nat, n: nat, buf: seq<Byte>): (r: seq<Sector>)
    requires GoodHeader(h) && |sectors| == NumSectors && first + n <= h.numSectors && n * SectorSize <= |buf|
    ensures |r| == NumSectors
  {
    if n == 0 then sectors else
      var piece := buf[(n - 1) * SectorSize..(n - 1) * SectorSize + SectorSize];
      Stored(sectors, h, first, n - 1, buf)[Sectors(h)[first + n - 1] := piece]
  }

  lemma {:induction false} StoredAt(sectors: seq<Sector>, h: Header, first: nat, n: nat, buf: seq<Byte>)
    requires GoodHeader(h) && |sectors| == NumSectors && first + n <= h.numSectors && n * SectorSize <= |buf|
    ensures forall j :: 0 <= j < n ==>
      Stored(sectors, h, first, n, buf)[Sectors(h)[first + j]] == buf[j * SectorSize..j * SectorSize + SectorSize]
    ensures forall s :: 0 <= s < NumSectors && s !in Sectors(h)[first..first + n] ==>
      Stored(sectors, h, first, n, buf)[s] == sectors[s]
  {
    if n > 0 {
      StoredAt(sectors, h, first, n - 1, buf);
      assert Sectors(h)[first..first + n] == Sectors(h)[first..first + n - 1] + [Sectors(h)[first + n - 1]];
    }
  }
  /** A buffer that shows the new file around the data has the new bytes where it lies. */
  lemma ImageByte(was: seq<Byte>, position: nat, data: seq<Byte>, buf: seq<Byte>, base: nat, k: nat)
    requires data != [] && base <= position && position + |data| <= base + |buf| && position + |data| <= |was|
    requires k < |was| && Shows(buf, Overlay(was, position, data), base, 0, |buf|)
    ensures Overlay(was, position, data)[k] == if base <= k < base + |buf| then buf[k - base] else was[k]
  {
  }


  /** Storing a sector image in consecutive data sectors replaces exactly that stretch of the file,
      and touches no sector of any other file. */
  lemma StoredImage(h: Header, before: seq<Sector>, first: nat, last: nat, buf: seq<Byte>, position: nat,
                    data: seq<Byte>)
    requires GoodHeader(h) && |before| == NumSectors
    requires first <= last < h.numSectors && |buf| == (last + 1 - first) * SectorSize
    requires data != [] && first * SectorSize <= position && position + |data| <= h.numBytes
    requires position + |data| <= (last + 1) * SectorSize
    requires Shows(buf, Overlay(FileBytes(h, before), position, data), first * SectorSize, 0, |buf|)
    ensures FileBytes(h, Stored(before, h, first, last + 1 - first, buf))
      == Overlay(FileBytes(h, before), position, data)
    ensures forall n :: 0 <= n < NumSectors && n !in Sectors(h) ==>
      Stored(before, h, first, last + 1 - first, buf)[n] == before[n]
  {
    hide FileBytes, Overlay, Stored, Shows, NoDup, AllIn;
    var n := last + 1 - first;
    var after := Stored(before, h, first, n, buf);
    var was := FileBytes(h, before);
    var image := Overlay(was, position, data);
    StoredAt(before, h, first, n, buf);
    forall s | 0 <= s < NumSectors && s !in Sectors(h) ensures after[s] == before[s] {
      assert s !in Sectors(h)[first..first + n];
    }
    forall k | 0 <= k < h.numBytes
      ensures FileBytes(h, after)[k] == image[k]
    {
      StoredByte(h, before, after, first, n, buf, k);
      ImageByte(was, position, data, buf, first * SectorSize, k);
    }
  }

  /** Byte k of the file after storing: from the buffer inside the stored sectors, as before outside. */
  lemma StoredByte(h: Header, before: seq<Sector>, after: seq<Sector>, first: nat, n: nat, buf: seq<Byte>, k: nat)
    requires GoodHeader(h) && |before| == |after| == NumSectors && k < h.numBytes
    requires first + n <= h.numSectors && |buf| == n * SectorSize
    requires forall j :: 0 <= j < n ==> after[Sectors(h)[first + j]] == buf[j * SectorSize..j * SectorSize + SectorSize]
    requires forall s :: 0 <= s < NumSectors && s !in Sectors(h)[first..first + n] ==> after[s] == before[s]
    ensures FileBytes(h, after)[k] ==
      if first * SectorSize <= k < (first + n) * SectorSize then buf[k - first * SectorSize]
      else FileBytes(h, before)[k]
  {
    var j := k / SectorSize;
    if first <= j < first + n {
      var i := j - first;
      assert after[Sectors(h)[first + i]] == buf[i * SectorSize..i * SectorSize + SectorSize];
      assert buf[i * SectorSize..i * SectorSize + SectorSize][k % SectorSize] == buf[k - first * SectorSize];
    } else {
      assert Sectors(h)[j] !in Sectors(h)[first..first + n];
    }
  }
}
