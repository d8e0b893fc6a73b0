/** directory.cc: a table of fixed-length entries, searched by the first nine characters of a name. */
module Directories {
  import opened Bytes
  import opened BitMaps
  import opened SectorDisk
  import opened FileHeaders
  import opened OpenFiles

  const FileNameMaxLen := 9
  const EntrySize := 20   // flag and padding, sector number, ten name bytes, padding

  /** A C string, without its terminating NUL. */
  type Name = s: seq<Byte> | 0 !in s witness []

  /** The part of a name that the file system looks at. */
  function Key(name: Name): (k: seq<Byte>)
    ensures |k| <= FileNameMaxLen
  {
    if |name| <= FileNameMaxLen then name else name[..FileNameMaxLen]
  }

  function CharAt(name: Name, i: nat): Byte {
    if i < |name| then name[i] else 0
  }

  /** strncmp(field, name, n) == 0, having found the first i characters equal. */
  predicate StrnEq(field: seq<Byte>, name: Name, i: nat, n: nat)
    requires i <= n <= |field|
    decreases n - i
  {
    i == n || (field[i] == CharAt(name, i) && (field[i] == 0 || StrnEq(field, name, i + 1, n)))
  }

  /** strncpy(field, name, n): NULs fill what the name leaves. */
  function Strncpy(field: seq<Byte>, name: Name, n: nat): (r: seq<Byte>)
    requires n <= |field|
    ensures |r| == |field|
  {
    seq(|field|, i requires 0 <= i < |field| => if i < n then CharAt(name, i) else field[i])
  }

  function UpToNul(s: seq<Byte>): seq<Byte> {
    if s == [] || s[0] == 0 then [] else [s[0]] + UpToNul(s[1..])
  }

  function FieldKey(field: seq<Byte>): seq<Byte>
    requires |field| >= FileNameMaxLen
  {
    UpToNul(field[..FileNameMaxLen])
  }

  lemma {:induction false} StrnEqFrom(field: seq<Byte>, name: Name, i: nat)
    requires |field| >= FileNameMaxLen && i <= FileNameMaxLen && i <= |name|
    ensures StrnEq(field, name, i, FileNameMaxLen) <==> UpToNul(field[i..FileNameMaxLen]) == Key(name)[i..]
    decreases FileNameMaxLen - i
  {
    if i < FileNameMaxLen {
      var rest := field[i..FileNameMaxLen];
      assert rest[1..] == field[i + 1..FileNameMaxLen];
      if i < |name| {
        assert name[i] in name;
        assert Key(name)[i..] == [name[i]] + Key(name)[i + 1..];
        StrnEqFrom(field, name, i + 1);
        if field[i] == name[i] {
          assert UpToNul(rest) == [name[i]] + UpToNul(rest[1..]);
          assert UpToNul(rest)[1..] == UpToNul(rest[1..]);
          assert Key(name)[i..][1..] == Key(name)[i + 1..];
        } else {
          assert Key(name)[i..][0] == name[i];
        }
      }
    }
  }

  /** The comparison the directory uses holds exactly when the nine-character keys agree. */
  lemma StrnEqKey(field: seq<Byte>, name: Name)
    requires |field| >= FileNameMaxLen
    ensures StrnEq(field, name, 0, FileNameMaxLen) <==> FieldKey(field) == Key(name)
  {
    StrnEqFrom(field, name, 0);
    assert Key(name)[0..] == Key(name);
    assert field[0..FileNameMaxLen] == field[..FileNameMaxLen];
  }

  lemma {:induction false} StrnEqSelf(field: seq<Byte>, name: Name, i: nat)
    requires |field| >= FileNameMaxLen && i <= FileNameMaxLen
    ensures StrnEq(Strncpy(field, name, FileNameMaxLen), name, i, FileNameMaxLen)
    decreases FileNameMaxLen - i
  {
    if i < FileNameMaxLen { StrnEqSelf(field, name, i + 1); }
  }

  lemma StrncpyKey(field: seq<Byte>, name: Name)
    requires |field| >= FileNameMaxLen
    ensures FieldKey(Strncpy(field, name, FileNameMaxLen)) == Key(name)
  {
    StrnEqSelf(field, name, 0);
    StrnEqKey(Strncpy(field, name, FileNameMaxLen), name);
  }

  /** The first nine characters of the field are the name's, with NULs after its end; the last is as before. */
  predicate NulFilled(field: seq<Byte>, before: seq<Byte>, name: Name) {
    && |field| == |before| == FileNameMaxLen + 1
    && (forall k :: 0 <= k < FileNameMaxLen ==> field[k] == if k < |name| then name[k] else 0)
    && field[FileNameMaxLen] == before[FileNameMaxLen]
  }

  type NameField = s: seq<Byte> | |s| == FileNameMaxLen + 1 witness seq(FileNameMaxLen + 1, i => 0)

  datatype DirectoryEntry = DirectoryEntry(inUse: bool, sector: Int32, name: NameField)

  function EntryBytes(e: DirectoryEntry): (b: seq<Byte>)
    ensures |b| == EntrySize
  {
    [if e.inUse then 1 else 0, 0, 0, 0] + WordBytes(Wrap(e.sector)) + e.name + [0, 0]
  }

  function BytesEntry(b: seq<Byte>): DirectoryEntry
    requires |b| == EntrySize
  {
    DirectoryEntry(b[0] != 0, Signed(BytesWord(b[4..8])), b[8..18])
  }

  lemma EntryRoundTrip(e: DirectoryEntry)
    ensures BytesEntry(EntryBytes(e)) == e
  {
    var b := EntryBytes(e);
    assert b[4..8] == WordBytes(Wrap(e.sector));
    assert b[8..18] == e.name;
    WordRoundTrip(Wrap(e.sector));
    SignedWrap(e.sector);
  }

  function TableBytes(t: seq<DirectoryEntry>): (b: seq<Byte>)
    ensures |b| == EntrySize * |t|
  {
    seq(EntrySize * |t|, k requires 0 <= k < EntrySize * |t| => EntryBytes(t[k / EntrySize])[k % EntrySize])
  }

  function BytesTable(b: seq<Byte>, n: nat): (t: seq<DirectoryEntry>)
    requires |b| >= EntrySize * n
    ensures |t| == n
  {
    seq(n, i requires 0 <= i < n => BytesEntry(b[EntrySize * i..EntrySize * i + EntrySize]))
  }

  lemma EntryInTable(t: seq<DirectoryEntry>, i: nat)
    requires i < |t|
    ensures TableBytes(t)[EntrySize * i..EntrySize * i + EntrySize] == EntryBytes(t[i])
  {
    forall j | 0 <= j < EntrySize
      ensures TableBytes(t)[EntrySize * i + j] == EntryBytes(t[i])[j]
    {
      assert (EntrySize * i + j) / EntrySize == i;
    }
  }

  lemma TableRoundTrip(t: seq<DirectoryEntry>)
    ensures BytesTable(TableBytes(t), |t|) == t
  {
    var b := TableBytes(t);
    forall i | 0 <= i < |t|
      ensures BytesEntry(b[EntrySize * i..EntrySize * i + EntrySize]) == t[i]
    {
      EntryInTable(t, i);
      EntryRoundTrip(t[i]);
    }
  }

  /** Index of the first entry in use under this key, or |t|. */
  function IndexOf(t: seq<DirectoryEntry>, key: seq<Byte>): (i: nat)
    ensures i <= |t|
    ensures forall j :: 0 <= j < i ==> !(t[j].inUse && FieldKey(t[j].name) == key)
    ensures i < |t| ==> t[i].inUse && FieldKey(t[i].name) == key
  {
    if t == [] || (t[0].inUse && FieldKey(t[0].name) == key) then 0 else 1 + IndexOf(t[1..], key)
  }

  lemma IndexOfUnique(t: seq<DirectoryEntry>, key: seq<Byte>, i: nat)
    requires i <= |t|
    requires forall j :: 0 <= j < i ==> !(t[j].inUse && FieldKey(t[j].name) == key)
    requires i < |t| ==> t[i].inUse && FieldKey(t[i].name) == key
    ensures IndexOf(t, key) == i
  {
  }

  /** Index of the first entry not in use, or |t|. */
  function FirstFree(t: seq<DirectoryEntry>): (i: nat)
    ensures i <= |t|
    ensures forall j :: 0 <= j < i ==> t[j].inUse
    ensures i < |t| ==> !t[i].inUse
  {
    if t == [] || !t[0].inUse then 0 else 1 + FirstFree(t[1..])
  }

  lemma FirstFreeUnique(t: seq<DirectoryEntry>, i: nat)
    requires i <= |t|
    requires forall j :: 0 <= j < i ==> t[j].inUse
    requires i < |t| ==> !t[i].inUse
    ensures FirstFree(t) == i
  {
  }

  class Directory {
    const tableSize: nat
    const table: array<DirectoryEntry>

    ghost predicate Valid() reads this {
      table.Length == tableSize
    }

    /** A fresh directory: every entry free, whatever else its memory holds. */
    constructor (size: nat)
      ensures Valid() && tableSize == size && fresh(table)
      ensures forall i :: 0 <= i < size ==> !table[i].inUse
    {
      tableSize := size;
      table := new DirectoryEntry[size];
      new;
      for i := 0 to tableSize
        invariant forall j :: 0 <= j < i ==> !table[j].inUse
      {
        table[i] := table[i].(inUse := false);
      }
    }

    method FetchFrom(file: OpenFile)
      requires Valid() && file.Valid() && file.hdr.numBytes >= EntrySize * tableSize
      modifies table
      ensures Valid() && table[..] == BytesTable(file.Contents(), tableSize)
    {
      hide TableBytes, GoodHeader, FileBytes;
      var buf := BufferOf(TableBytes(table[..]));
      var n := file.ReadAt(buf, 0, EntrySize * tableSize, 0);
      assert n == EntrySize * tableSize;
      assert n > 0 ==> buf[..] == buf[0..0 + n];
      var t := BytesTable(buf[..], tableSize);
      forall i | 0 <= i < tableSize
        ensures t[i] == BytesTable(file.Contents(), tableSize)[i]
      {
        assert buf[..][EntrySize * i..EntrySize * i + EntrySize]
          == file.Contents()[EntrySize * i..EntrySize * i + EntrySize];
      }
      forall i | 0 <= i < tableSize {
        table[i] := t[i];
      }
    }

    method WriteBack(file: OpenFile)
      requires Valid() && file.Valid() && file.hdr.numBytes == EntrySize * tableSize
      modifies file.disk
      ensures file.Valid() && file.hdr.Value() == old(file.hdr.Value())
      ensures BytesTable(file.Contents(), tableSize) == table[..]
      ensures forall n :: 0 <= n < NumSectors && n !in Sectors(file.hdr.Value()) ==>
        file.disk.sectors[n] == old(file.disk.sectors)[n]
    {
      hide TableBytes, BytesTable, GoodHeader, FileBytes;
      var buf := BufferOf(TableBytes(table[..]));
      TableRoundTrip(table[..]);
      var n := file.WriteAt(buf, EntrySize * tableSize, 0);
      assert buf[..n] == TableBytes(table[..]);
      assert file.Contents() == TableBytes(table[..]);
    }

    method FindIndex(name: Name) returns (r: int)
      requires Valid()
      ensures r == if IndexOf(table[..], Key(name)) < tableSize then IndexOf(table[..], Key(name)) else -1
    {
      for i := 0 to tableSize
        invariant forall j :: 0 <= j < i ==> !(table[j].inUse && FieldKey(table[j].name) == Key(name))
      {
        StrnEqKey(table[i].name, name);
        if table[i].inUse && StrnEq(table[i].name, name, 0, FileNameMaxLen) {
          IndexOfUnique(table[..], Key(name), i);
          return i;
        }
      }
      IndexOfUnique(table[..], Key(name), tableSize);
      return -1;
    }

    method Find(name: Name) returns (sector: int)
      requires Valid()
      ensures var i := IndexOf(table[..], Key(name)); sector == if i < tableSize then table[i].sector else -1
    {
      var i := FindIndex(name);
      if i != -1 {
        return table[i].sector;
      }
      return -1;
    }

    method Add(name: Name, newSector: Int32) returns (ok: bool)
      requires Valid()
      modifies table
      ensures ok <==> IndexOf(old(table[..]), Key(name)) == tableSize && FirstFree(old(table[..])) < tableSize
      ensures !ok ==> table[..] == old(table[..])
      ensures ok ==> var i := FirstFree(old(table[..]));
        table[i].inUse && table[i].sector == newSector && FieldKey(table[i].name) == Key(name) &&
        table[..] == old(table[..])[i := table[i]]
      ensures ok ==> var i := FirstFree(old(table[..]));
        NulFilled(table[i].name, old(table[..])[i].name, name)
    {
      var found := FindIndex(name);
      if found != -1 {
        return false;
      }
      for i := 0 to tableSize
        invariant table[..] == old(table[..])
        invariant forall j :: 0 <= j < i ==> table[j].inUse
      {
        if !table[i].inUse {
          FirstFreeUnique(table[..], i);
          StrncpyKey(table[i].name, name);
          table[i] := DirectoryEntry(true, newSector, Strncpy(table[i].name, name, FileNameMaxLen));
          return true;
        }
      }
      FirstFreeUnique(table[..], tableSize);
      return false;
    }

    method Remove(name: Name) returns (ok: bool)
      requires Valid()
      modifies table
      ensures var i := IndexOf(old(table[..]), Key(name));
        ok == (i < tableSize) &&
        table[..] == if ok then old(table[..])[i := old(table[..])[i].(inUse := false)] else old(table[..])
    {
      var i := FindIndex(name);
      if i == -1 {
        return false;
      }
      table[i] := table[i].(inUse := false);
      return true;
    }
  }
}
