/** filesys.cc and openfile.cc over whole sessions: files are created, removed, written and read by name,
    and the disk always holds the map from names to byte strings that these operations describe. */
module FileSessions {
  import opened Bytes
  import opened Common
  import opened SectorDisk
  import opened FileHeaders
  import opened OpenFiles
  import opened Directories
  import opened FsSpec
  import opened FileSystems
  import opened FileContents

  type Files = map<seq<Byte>, seq<Byte>>

  datatype Call =
    | CreateCall(name: Name, size: Int32)
    | RemoveCall(name: Name)
    | WriteCall(name: Name, position: nat, data: seq<Byte>)
    | ReadCall(name: Name, position: nat, count: nat)

  /** Whether there is, or could be made, such a file; and the bytes read. */
  datatype Reply = Reply(ok: bool, bytes: seq<Byte>)

  /** Positions do not run out of the integers, and sizes not out of the file header. */
  predicate Allowed(c: Call) {
    match c
    case CreateCall(_, size) => 0 <= size <= MaxFileSize
    case RemoveCall(_) => true
    case WriteCall(_, position, data) => position + |data| < 0x8000_0000
    case ReadCall(_, position, count) => position + count < 0x8000_0000
  }

  /** The disk holds exactly these files. */
  ghost predicate Holds(d: seq<Sector>, m: Files) {
    Readable(d) && forall key: seq<Byte> :: Content(d, key) == if key in m then Some(m[key]) else None
  }

  /** A file with data written over it; what would go past its end is dropped. */
  function Rewritten(file: seq<Byte>, position: nat, data: seq<Byte>): (r: seq<Byte>)
    ensures |r| == |file|
  {
    Overlay(file, position, data[..Clamp(|data|, position, |file|)])
  }

  /** What a call makes of the files, and what it answers. A new file has the size asked for, whatever
      bytes its sectors held. */
  ghost predicate Answers(m: Files, c: Call, reply: Reply, n: Files) {
    match c
    case CreateCall(name, size) =>
      if reply.ok then
        && Key(name) !in m && n.Keys == m.Keys + {Key(name)} && |n[Key(name)]| == size
        && forall key :: key in m ==> n[key] == m[key]
      else n == m
    case RemoveCall(name) => reply.ok == (Key(name) in m) && n == m - {Key(name)}
    case WriteCall(name, position, data) =>
      && reply.ok == (Key(name) in m)
      && n == if reply.ok then m[Key(name) := Rewritten(m[Key(name)], position, data)] else m
    case ReadCall(name, position, count) =>
      && reply.ok == (Key(name) in m) && n == m
      && (reply.ok ==>
        var file := m[Key(name)];
        var r := Clamp(count, position, |file|);
        reply.bytes == if r == 0 then [] else file[position..position + r])
  }

  /** Every call got its answer, from the first map of files to the last. */
  ghost predicate IsSession(m: Files, calls: seq<Call>, replies: seq<Reply>, last: Files)
    decreases |calls|
  {
    if calls == [] then replies == [] && m == last
    else
      replies != [] && exists n: Files ::
        Answers(m, calls[0], replies[0], n) && IsSession(n, calls[1..], replies[1..], last)
  }

  lemma {:induction false} SessionOn(m: Files, calls: seq<Call>, replies: seq<Reply>, mid: Files,
                                     c: Call, reply: Reply, n: Files)
    requires IsSession(m, calls, replies, mid) && Answers(mid, c, reply, n)
    ensures IsSession(m, calls + [c], replies + [reply], n)
    decreases |calls|
  {
    hide Answers;
    var more, answers := calls + [c], replies + [reply];
    if calls == [] {
      assert more[1..] == [] && answers[1..] == [];
      assert IsSession(n, more[1..], answers[1..], n);
    } else {
      var k: Files :| Answers(m, calls[0], replies[0], k) && IsSession(k, calls[1..], replies[1..], mid);
      assert more[1..] == calls[1..] + [c] && answers[1..] == replies[1..] + [reply];
      SessionOn(k, calls[1..], replies[1..], mid, c, reply, n);
    }
  }

  // ---------------------------------------------------------------- one call

  method CreateFile(fs: FileSystem, name: Name, size: Int32, ghost m: Files) returns (ok: bool, ghost n: Files)
    requires fs.Valid() && Holds(fs.disk.sectors, m) && 0 <= size <= MaxFileSize
    modifies fs.disk
    ensures fs.Valid() && Holds(fs.disk.sectors, n) && Answers(m, CreateCall(name, size), Reply(ok, []), n)
    ensures View(fs.disk.sectors) == Apply(old(View(fs.disk.sectors)), Create(Key(name), size))
  {
    hide View, CreateFs, BitsOn, Content, Written, Key, Inv;
    ghost var d := fs.disk.sectors;
    ok := fs.Create(name, size);
    n := m;
    if ok {
      ghost var after := fs.disk.sectors;
      CreateContents(d, after, Key(name), size, Key(name));
      n := m[Key(name) := Content(after, Key(name)).value];
      forall key: seq<Byte> ensures Content(after, key) == if key in n then Some(n[key]) else None {
        CreateContents(d, after, Key(name), size, key);
      }
    }
  }

  method RemoveFile(fs: FileSystem, name: Name, ghost m: Files) returns (ok: bool, ghost n: Files)
    requires fs.Valid() && Holds(fs.disk.sectors, m)
    modifies fs.disk
    ensures fs.Valid() && Holds(fs.disk.sectors, n) && Answers(m, RemoveCall(name), Reply(ok, []), n)
    ensures View(fs.disk.sectors) == Apply(old(View(fs.disk.sectors)), Remove(Key(name)))
  {
    hide View, RemoveFs, Content, Written, Key, Inv;
    ghost var d := fs.disk.sectors;
    ok := fs.Remove(name);
    n := m - {Key(name)};
    if ok {
      ghost var after := fs.disk.sectors;
      RemoveContents(d, after, Key(name), Key(name));
      forall key: seq<Byte> ensures Content(after, key) == if key in n then Some(n[key]) else None {
        RemoveContents(d, after, Key(name), key);
      }
    } else {
      NotRemoved(d, Key(name));
    }
  }

  lemma RemoveFails(f: FsState, key: seq<Byte>)
    requires !RemoveFs(f, key).0
    ensures SlotOf(f.slots, key) == |f.slots|
  {
    hide SlotOf, Claim;
  }

  lemma NotRemoved(d: seq<Sector>, key: seq<Byte>)
    requires Readable(d) && !RemoveFs(View(d), key).0
    ensures Content(d, key) == None
  {
    hide RemoveFs, Content, Readable, SlotOf, IndexOf, SlotBytes, Sectors, System, BitsOn, TableOn;
    RemoveFails(View(d), key);
    ContentBySlot(d, key);
  }

  /** Open, Seek and Write. */
  method WriteFile(fs: FileSystem, name: Name, position: nat, data: seq<Byte>, ghost m: Files)
    returns (ok: bool, ghost n: Files)
    requires fs.Valid() && Holds(fs.disk.sectors, m) && position + |data| < 0x8000_0000
    modifies fs.disk
    ensures fs.Valid() && Holds(fs.disk.sectors, n) && Answers(m, WriteCall(name, position, data), Reply(ok, []), n)
    ensures View(fs.disk.sectors) == old(View(fs.disk.sectors))
  {
    hide View, Content, Key, Inv, IndexOf, DecodeHeader, Sectors, FileBytes, Overlay, Mounted, GoodEntry, GoodHeader;
    var openFile := fs.Open(name);
    n := m;
    if openFile == null {
      return false, n;
    }
    var from := new Byte[|data|](k requires 0 <= k < |data| => data[k]);
    assert from[..] == data;
    ghost var d, was := fs.disk.sectors, openFile.Contents();
    openFile.Seek(position);
    var result := openFile.WriteAt(from, from.Length, openFile.seekPosition);
    ghost var after := fs.disk.sectors;
    n := m[Key(name) := Rewritten(was, position, data)];
    WriteContents(d, after, Key(name), openFile.hdr.Value(), Key(name));
    forall key: seq<Byte> ensures Content(after, key) == if key in n then Some(n[key]) else None {
      WriteContents(d, after, Key(name), openFile.hdr.Value(), key);
    }
    ok := true;
  }

  /** Open, Seek and Read. */
  method ReadFile(fs: FileSystem, name: Name, position: nat, count: nat, ghost m: Files)
    returns (ok: bool, bytes: seq<Byte>)
    requires fs.Valid() && Holds(fs.disk.sectors, m) && position + count < 0x8000_0000
    ensures Answers(m, ReadCall(name, position, count), Reply(ok, bytes), m)
  {
    hide View, Content, Key, Inv, IndexOf, DecodeHeader, Sectors, FileBytes, Mounted, GoodEntry, GoodHeader;
    var openFile := fs.Open(name);
    if openFile == null {
      return false, [];
    }
    var into := new Byte[count];
    openFile.Seek(position);
    var result := openFile.ReadAt(into, 0, count, openFile.seekPosition);
    return true, into[..result];
  }

  // ---------------------------------------------------------------- whole sessions on the disk

  /** What a call does to the description of the disk: writes and reads do nothing to it. */
  function Described(f: FsState, c: Call): FsState
    requires Allowed(c)
  {
    match c
    case CreateCall(name, size) => Apply(f, Create(Key(name), size))
    case RemoveCall(name) => Apply(f, Remove(Key(name)))
    case WriteCall(_, _, _) => f
    case ReadCall(_, _, _) => f
  }

  /** The calls as operations on the description. */
  function Operations(calls: seq<Call>): (ops: seq<Op>)
    requires forall c :: c in calls ==> Allowed(c)
    ensures forall i :: 0 <= i < |ops| ==> FsSpec.Allowed(ops[i])
  {
    if calls == [] then []
    else
      var before, c := Operations(calls[..|calls| - 1]), calls[|calls| - 1];
      assert Allowed(c);
      match c
      case CreateCall(name, size) => before + [Create(Key(name), size)]
      case RemoveCall(name) => before + [Remove(Key(name))]
      case WriteCall(_, _, _) => before
      case ReadCall(_, _, _) => before
  }

  lemma OperationsOn(calls: seq<Call>, c: Call)
    requires Allowed(c) && forall b :: b in calls ==> Allowed(b)
    ensures Run(Formatted(), Operations(calls + [c])) == Described(Run(Formatted(), Operations(calls)), c)
  {
    hide Formatted, Apply, Key;
    var more := calls + [c];
    assert more[..|more| - 1] == calls;
    var ops := Operations(more);
    if c.CreateCall? || c.RemoveCall? {
      assert ops[..|ops| - 1] == Operations(calls);
    }
  }

  /** One call, by name. */
  method Serve(fs: FileSystem, c: Call, ghost m: Files) returns (reply: Reply, ghost n: Files)
    requires fs.Valid() && Holds(fs.disk.sectors, m) && Allowed(c)
    modifies fs.disk
    ensures fs.Valid() && Holds(fs.disk.sectors, n) && Answers(m, c, reply, n)
    ensures View(fs.disk.sectors) == Described(old(View(fs.disk.sectors)), c)
  {
    hide Holds, View, Apply, Key, Answers, Inv, Sound;
    match c {
      case CreateCall(name, size) =>
        var ok;
        ok, n := CreateFile(fs, name, size, m);
        reply := Reply(ok, []);
      case RemoveCall(name) =>
        var ok;
        ok, n := RemoveFile(fs, name, m);
        reply := Reply(ok, []);
      case WriteCall(name, position, data) =>
        var ok;
        ok, n := WriteFile(fs, name, position, data, m);
        reply := Reply(ok, []);
      case ReadCall(name, position, count) =>
        var ok, bytes := ReadFile(fs, name, position, count, m);
        n := m;
        reply := Reply(ok, bytes);
    }
  }

  /** Formats a disk, whatever it held, and serves any sequence of calls. Each gets the answer that the map
      from names to bytes gives, and the disk holds the last such map. Its description is what the same
      operations make of the description of an empty file system, and it is sound: its bitmap marks exactly
      the sectors its headers and directory account for. */
  method Session(disk: SynchDisk, calls: seq<Call>) returns (replies: seq<Reply>, ghost last: Files)
    requires disk.Valid() && forall c :: c in calls ==> Allowed(c)
    modifies disk
    ensures Sound(disk.sectors) && View(disk.sectors) == Run(Formatted(), Operations(calls))
    ensures IsSession(map[], calls, replies, last) && Holds(disk.sectors, last)
  {
    hide Holds, View, Apply, Key, Answers, Inv, IsSession, Formatted, Operations, Run, Mounted, Allowed;
    var fs := new FileSystem.Format(disk);
    replies, last := [], map[];
    FormattedHolds(disk.sectors);
    for k := 0 to |calls|
      invariant fresh(fs) && fs.disk == disk && fs.Valid()
      invariant View(disk.sectors) == Run(Formatted(), Operations(calls[..k]))
      invariant IsSession(map[], calls[..k], replies, last) && Holds(disk.sectors, last)
    {
      assert calls[..k + 1] == calls[..k] + [calls[k]];
      OperationsOn(calls[..k], calls[k]);
      var reply;
      ghost var next;
      reply, next := Serve(fs, calls[k], last);
      SessionOn(map[], calls[..k], replies, last, calls[k], reply, next);
      replies, last := replies + [reply], next;
    }
    assert calls[..|calls|] == calls;
  }

  lemma FormattedHolds(d: seq<Sector>)
    requires Readable(d) && View(d) == Formatted()
    ensures Holds(d, map[]) && Run(Formatted(), Operations([])) == View(d) && IsSession(map[], [], [], map[])
  {
    hide View, Content, Formatted;
    forall key: seq<Byte> ensures Content(d, key) == None {
      FormattedContents(d, key);
    }
  }

  /** The byte at a: of the data, if the data lies over it. */
  function Covering(file: seq<Byte>, position: nat, data: seq<Byte>, a: nat): Byte
    requires a < |file|
  {
    if position <= a < position + |data| then data[a - position] else file[a]
  }

  /** What is read is what was last written: a read after a write of the same file sees the data over
      what was there, as far as the file goes. */
  lemma ReadAfterWrite(m: Files, name: Name, position: nat, data: seq<Byte>, n: Files, written: Reply,
                       from: nat, count: nat, read: Reply)
    requires Answers(m, WriteCall(name, position, data), written, n) && Answers(n, ReadCall(name, from, count), read, n)
    requires written.ok
    ensures read.ok && |n[Key(name)]| == |m[Key(name)]|
    ensures forall k :: 0 <= k < |read.bytes| ==>
      from + k < |m[Key(name)]| && read.bytes[k] == Covering(m[Key(name)], position, data, from + k)
    ensures |read.bytes| == Clamp(count, from, |m[Key(name)]|)
  {
    hide Key;
  }
}
