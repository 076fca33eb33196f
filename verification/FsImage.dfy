/** fs_save and fs_load: the disk image of a node table, and the round trip through it. */
module FsImage {
  import opened Bytes
  import opened Results
  import opened FsTree
  import opened FsPath
  import opened SectorStream
  import opened Strings
  import Heap
  import Memory
  import Pages

  const FS_START: nat := 2048
  const FS_VERSION: word32 := 1
  const FS_MAGIC: seq<byte> := [71, 79, 80, 72, 69, 82, 70, 83]  // "GOPHERFS"
  const RECORD: nat := 52

  // ------------------------------------------------------------------
  // Writing
  // ------------------------------------------------------------------

  // Tables an image can be taken of: int and uint32_t fields fit.
  ghost predicate Storable(t: Table) {
    Shape(t) && |t| < 0x8000_0000
  }

  // FsOnDiskRecord, preceded by the node's index
  function Record(n: Node): (r: seq<byte>)
    requires |n.name| < MAX_NAME && -1 <= n.parent < 0x8000_0000 && n.size < U32
    ensures |r| == RECORD
  {
    n.name + Zeros(MAX_NAME - |n.name|) + [if n.isDir then 1 else 0, 0, 0, 0]
    + Le32(Unsigned(n.parent)) + Le32(if n.isDir then 0 else n.size) + Le32(n.ctime) + Le32(n.mtime)
  }

  ghost predicate RecordOk(n: Node) {
    n.live ==> |n.name| < MAX_NAME && -1 <= n.parent < 0x8000_0000 && n.size < U32 && n.size == |n.data|
  }

  lemma StorableRecords(t: Table)
    requires Storable(t)
    ensures forall i :: 0 <= i < |t| ==> RecordOk(t[i])
  {
    forall i | 0 <= i < |t| && t[i].live
      ensures RecordOk(t[i])
    {
      assert DataOk(t[i]);
      if i > 0 {
        assert Linked(t, i);
      }
    }
  }

  ghost function Records(t: Table, i: nat): seq<byte>
    requires i <= |t| < 0x8000_0000 && forall k :: 0 <= k < |t| ==> RecordOk(t[k])
    decreases |t| - i
  {
    if i == |t| then []
    else
      assert RecordOk(t[i]);
      (if t[i].live then Le32(i) + Record(t[i]) else []) + Records(t, i + 1)
  }

  predicate HasData(n: Node) {
    n.live && !n.isDir && n.size > 0
  }

  ghost function Contents(t: Table, i: nat): seq<byte>
    requires i <= |t|
    decreases |t| - i
  {
    if i == |t| then []
    else (if HasData(t[i]) then t[i].data else []) + Contents(t, i + 1)
  }

  function CountLive(t: Table, i: nat): (n: nat)
    requires i <= |t|
    ensures n <= |t| - i
    decreases |t| - i
  {
    if i == |t| then 0 else (if t[i].live then 1 else 0) + CountLive(t, i + 1)
  }

  function DataBytes(t: Table, i: nat): nat
    requires i <= |t|
    decreases |t| - i
  {
    if i == |t| then 0 else (if t[i].live && !t[i].isDir then t[i].size else 0) + DataBytes(t, i + 1)
  }

  /** The bytes fs_save puts on the disk: header, records in index order, file contents. */
  ghost function Image(t: Table): seq<byte>
    requires Storable(t)
  {
    StorableRecords(t);
    Header(CountLive(t, 0), DataBytes(t, 0) % U32) + Records(t, 0) + Contents(t, 0)
  }

  function Header(numNodes: word32, dataBytes: word32): (h: seq<byte>)
    ensures |h| == 20
  {
    FS_MAGIC + Le32(FS_VERSION) + Le32(numNodes) + Le32(dataBytes)
  }

  method WriteHeader(s: WriteStream, numNodes: word32, dataBytes: word32)
    requires s.Valid() && s.pos < SECTOR && s.log == []
    modifies s, s.buf, s.disk
    ensures s.Valid() && s.pos < SECTOR && s.log == Header(numNodes, dataBytes)
  {
    s.Write(FS_MAGIC);
    s.Write(Le32(FS_VERSION));
    s.Write(Le32(numNodes));
    s.Write(Le32(dataBytes));
  }

  lemma AddMod(a: nat, b: nat)
    ensures (a % U32 + b) % U32 == (a + b) % U32
  {
    assert a + b == a % U32 + b + a / U32 * U32;
  }

  // The three loops of fs_save
  method CountNodes(files: array<Node>) returns (numNodes: nat, dataBytes: word32)
    ensures numNodes == CountLive(files[..], 0)
    ensures dataBytes == DataBytes(files[..], 0) % U32
  {
    ghost var t := files[..];
    numNodes, dataBytes := 0, 0;
    ghost var total: nat := 0;
    for i := 0 to files.Length
      invariant numNodes + CountLive(t, i) == CountLive(t, 0)
      invariant dataBytes == total % U32 && total + DataBytes(t, i) == DataBytes(t, 0)
    {
      if files[i].live {
        numNodes := numNodes + 1;
        if !files[i].isDir {
          AddMod(total, files[i].size);
          dataBytes := (dataBytes + files[i].size) % U32;
          total := total + files[i].size;
        }
      }
    }
  }

  method WriteRecord(s: WriteStream, i: word32, n: Node)
    requires s.Valid() && s.pos < SECTOR && n.live && RecordOk(n)
    modifies s, s.buf, s.disk
    ensures s.Valid() && s.pos < SECTOR && s.log == old(s.log) + (Le32(i) + Record(n))
  {
    s.Write(Le32(i));
    s.Write(Record(n));
  }

  method WriteRecords(files: array<Node>, s: WriteStream)
    requires s.Valid() && s.pos < SECTOR && files.Length < 0x8000_0000
    requires forall k :: 0 <= k < files.Length ==> RecordOk(files[..][k])
    requires files as object != s.buf as object
    modifies s, s.buf, s.disk
    ensures s.Valid() && s.pos < SECTOR && s.log == old(s.log) + Records(files[..], 0)
    ensures files[..] == old(files[..])
  {
    ghost var t := files[..];
    for i := 0 to files.Length
      invariant s.Valid() && s.pos < SECTOR && files[..] == t
      invariant s.log + Records(t, i) == old(s.log) + Records(t, 0)
    {
      assert RecordOk(t[i]);
      ghost var was := s.log;
      if files[i].live {
        WriteRecord(s, i, files[i]);
      }
      Regroup(was, if t[i].live then Le32(i) + Record(t[i]) else [], Records(t, i + 1));
    }
  }

  lemma Regroup(a: seq<byte>, b: seq<byte>, c: seq<byte>)
    ensures a + (b + c) == a + b + c && a + [] == a
  {
  }

  method WriteContents(files: array<Node>, s: WriteStream)
    requires s.Valid() && s.pos < SECTOR
    requires forall k :: 0 <= k < files.Length ==> RecordOk(files[..][k])
    requires files as object != s.buf as object
    modifies s, s.buf, s.disk
    ensures s.Valid() && s.pos < SECTOR && s.log == old(s.log) + Contents(files[..], 0)
    ensures files[..] == old(files[..])
  {
    ghost var t := files[..];
    for i := 0 to files.Length
      invariant s.Valid() && s.pos < SECTOR && files[..] == t
      invariant s.log + Contents(t, i) == old(s.log) + Contents(t, 0)
    {
      ghost var was := s.log;
      if files[i].live && !files[i].isDir && files[i].size > 0 {
        s.Write(files[i].data);
      }
      Regroup(was, if HasData(t[i]) then t[i].data else [], Contents(t, i + 1));
    }
  }

  // Header, records and contents, in this order
  method WriteImage(files: array<Node>, s: WriteStream)
    requires Storable(files[..]) && s.Valid() && s.log == [] && s.pos < SECTOR && files as object != s.buf as object
    modifies s, s.buf, s.disk
    ensures s.Valid() && s.pos < SECTOR && s.log == Image(files[..]) && files[..] == old(files[..])
  {
    StorableRecords(files[..]);
    var numNodes, dataBytes := CountNodes(files);
    WriteHeader(s, numNodes, dataBytes);
    WriteRecords(files, s);
    WriteContents(files, s);
  }

  // The image written from its first sector to the padding of its last
  method PutImage(files: array<Node>, disk: Disk)
    requires Storable(files[..]) && disk.Valid()
    modifies disk
    ensures disk.Valid() && disk.bytes == Overlay(old(disk.bytes), FS_START * SECTOR, Padded(Image(files[..])))
  {
    var s := new WriteStream(disk, FS_START);
    WriteImage(files, s);
    s.Close();
  }

  method Save(files: array<Node>, disk: Disk, present: bool) returns (code: Code)
    requires Storable(files[..]) && disk.Valid()
    modifies disk
    ensures disk.Valid()
    ensures code == if present then Ok else ENoSys
    ensures disk.bytes == if present
                          then Overlay(old(disk.bytes), FS_START * SECTOR, Padded(Image(files[..])))
                          else old(disk.bytes)
  {
    if !present {
      return ENoSys;
    }
    PutImage(files, disk);
    return Ok;
  }

  // ------------------------------------------------------------------
  // Reading
  // ------------------------------------------------------------------

  // What fs_load leaves behind: its result, the node table, and how much of the region is used.
  datatype Loaded = Loaded(code: Code, table: Table, used: word32)

  function Decode(rec: seq<byte>): Node
    requires |rec| == RECORD
  {
    Node(CName(rec[..32]), rec[32] != 0, Signed(FromLe32(rec[36..40])), FromLe32(rec[40..44]),
         FromLe32(rec[44..48]), FromLe32(rec[48..52]), [], true)
  }

  // `left` records starting at byte `at` of the disk
  function ReadRecords(t: Table, b: seq<byte>, at: nat, left: nat, used: word32): (l: Loaded)
    ensures |l.table| == |t|
    decreases left
  {
    if left == 0 then Loaded(Ok, t, used)
    else if at + 4 + RECORD > |b| then Loaded(EInval, t, used)
    else
      var idx := Signed(FromLe32(b[at..at + 4]));
      if idx < 0 || idx >= |t| then Loaded(EInval, t, used)
      else
        var t1 := if idx == 0 then t else t[idx := Decode(b[at + 4..at + 4 + RECORD])];
        ReadRecords(t1, b, at + 4 + RECORD, left - 1, used)
  }

  // Contents of file i, allocated from a region of which `used` of `capacity` bytes are taken
  function ReadFile(t: Table, b: seq<byte>, at: nat, i: nat, used: word32, capacity: nat): (l: Loaded)
    requires i < |t|
    ensures |l.table| == |t|
  {
    match Heap.RegionBump(used, capacity, t[i].size)
    case Full => Loaded(ENoMem, t, used)
    case Taken(_, used') =>
      if at + t[i].size > |b| then Loaded(EInval, t, used')
      else Loaded(Ok, t[i := t[i].(data := b[at..at + t[i].size])], used')
  }

  // Contents of the files from index i on
  function ReadContents(t: Table, b: seq<byte>, at: nat, i: nat, used: word32, capacity: nat): (l: Loaded)
    requires i <= |t|
    ensures |l.table| == |t|
    decreases |t| - i
  {
    if i == |t| then Loaded(Ok, t, used)
    else if !HasData(t[i]) then ReadContents(t, b, at, i + 1, used, capacity)
    else
      var l := ReadFile(t, b, at, i, used, capacity);
      if l.code != Ok then l else ReadContents(l.table, b, at + t[i].size, i + 1, l.used, capacity)
  }

  function RecordsEnd(at: nat, count: nat): nat {
    at + 20 + count * (4 + RECORD)
  }

  // What fs_load makes of the first 20 bytes
  function HeaderCode(b: seq<byte>, at: nat): Code {
    if at + 8 > |b| then ENoEnt
    else if b[at..at + 8] != FS_MAGIC || at + 20 > |b| || FromLe32(b[at + 8..at + 12]) != FS_VERSION then EInval
    else Ok
  }

  function LoadNodes(n: nat, b: seq<byte>, at: nat, numNodes: nat, used: word32, capacity: nat): (l: Loaded)
    requires n > 0
    ensures |l.table| == n
  {
    var l := ReadRecords(Fresh(n), b, at + 20, numNodes, used);
    if l.code != Ok then l else ReadContents(l.table, b, RecordsEnd(at, numNodes), 0, used, capacity)
  }

  /** fs_load on a disk holding b, with the image expected at byte `at`. */
  function Load(t: Table, b: seq<byte>, at: nat, used: word32, capacity: nat): (l: Loaded)
    requires |t| > 0
    ensures |l.table| == |t|
  {
    if HeaderCode(b, at) != Ok then Loaded(HeaderCode(b, at), t, used)
    else
      var numNodes := FromLe32(b[at + 12..at + 16]);
      if numNodes > |t| then Loaded(EInval, t, used) else LoadNodes(|t|, b, at, numNodes, used, capacity)
  }

  // A 32-bit field; the disk holds b and byte `at` comes next.
  method ReadWord(s: ReadStream, ghost b: seq<byte>, ghost at: nat) returns (ok: bool, w: word32)
    requires s.Valid() && s.At() == at && s.disk.bytes == b
    modifies s, s.buf
    ensures ok == (at + 4 <= |b|)
    ensures ok ==> s.Valid() && s.At() == at + 4 && w == FromLe32(b[at..at + 4])
  {
    var bytes;
    ok, bytes := s.Read(4);
    w := if ok then FromLe32(bytes) else 0;
  }

  // One index and the record after it
  method ReadRecord(s: ReadStream, ghost b: seq<byte>, ghost at: nat) returns (ok: bool, idx: int, rec: seq<byte>)
    requires s.Valid() && s.At() == at && s.disk.bytes == b
    modifies s, s.buf
    ensures ok == (at + 4 + RECORD <= |b|)
    ensures ok ==> s.Valid() && s.At() == at + 4 + RECORD
    ensures ok ==> idx == Signed(FromLe32(b[at..at + 4])) && rec == b[at + 4..at + 4 + RECORD]
  {
    var w;
    ok, w := ReadWord(s, b, at);
    if !ok {
      return false, 0, [];
    }
    ok, rec := s.Read(RECORD);
    idx := Signed(w);
  }

  // One round of fs_load's first loop
  method OneRecord(files: array<Node>, s: ReadStream, ghost t: Table, ghost b: seq<byte>, ghost at: nat)
    returns (code: Code)
    requires s.Valid() && files.Length > 0 && files as object != s.buf as object
    requires files[..] == t && s.At() == at && s.disk.bytes == b
    modifies files, s, s.buf
    ensures files.Length == |t| && code in {Ok, EInval}
    ensures code == Ok ==> s.Valid() && s.At() == at + 4 + RECORD && Follows(t, b, at, files[..])
    ensures code != Ok ==> files[..] == t && NoRecord(t, b, at)
  {
    var ok, idx, rec := ReadRecord(s, b, at);
    if !ok || idx < 0 || idx >= files.Length {
      return EInval;
    }
    if idx != 0 {
      files[idx] := Decode(rec);
    }
    return Ok;
  }

  // There is no usable record at byte `at`.
  ghost predicate NoRecord(t: Table, b: seq<byte>, at: nat) {
    at + 4 + RECORD > |b| || !(0 <= Signed(FromLe32(b[at..at + 4])) < |t|)
  }

  // t' is t with the record at byte `at` read in.
  ghost predicate Follows(t: Table, b: seq<byte>, at: nat, t': Table) {
    && !NoRecord(t, b, at)
    && var idx := Signed(FromLe32(b[at..at + 4]));
       t' == if idx == 0 then t else t[idx := Decode(b[at + 4..at + 4 + RECORD])]
  }

  lemma ReadsOne(t: Table, b: seq<byte>, at: nat, t': Table, left: nat, used: word32)
    requires left > 0
    ensures NoRecord(t, b, at) ==> ReadRecords(t, b, at, left, used) == Loaded(EInval, t, used)
    ensures Follows(t, b, at, t') ==>
      ReadRecords(t, b, at, left, used) == ReadRecords(t', b, at + 4 + RECORD, left - 1, used)
  {
  }

  // What reading the records comes to, when `left` of them, from byte `at` on, are still to be read
  // into t, unless reading has ended with another code than Ok
  ghost predicate RestGives(goal: Loaded, code: Code, t: Table, b: seq<byte>, at: nat, left: int, used: word32) {
    if code == Ok then left >= 0 && goal == ReadRecords(t, b, at, left, used) else goal == Loaded(code, t, used)
  }

  method NextRecord(files: array<Node>, s: ReadStream, ghost goal: Loaded, ghost b: seq<byte>, ghost at: nat,
                    ghost left: int, ghost used: word32)
    returns (code: Code, ghost next: nat, ghost rest: int)
    requires s.Valid() && files.Length > 0 && files as object != s.buf as object
    requires s.At() == at && s.disk.bytes == b && left > 0 && RestGives(goal, Ok, files[..], b, at, left, used)
    modifies files, s, s.buf
    ensures next == at + 4 + RECORD && rest == left - 1 && (code == Ok ==> s.Valid() && s.At() == next)
    ensures RestGives(goal, code, files[..], b, next, rest, used)
  {
    ghost var t := files[..];
    next, rest := at + 4 + RECORD, left - 1;
    code := OneRecord(files, s, t, b, at);
    ReadsOne(t, b, at, files[..], left, used);
  }

  // The two loops of fs_load; the first leaves the region's `used` alone.
  method ReadRecordsLoop(files: array<Node>, s: ReadStream, ghost b: seq<byte>, ghost from: nat, numNodes: nat,
                         ghost used: word32)
    returns (code: Code)
    requires s.Valid() && s.At() == from && s.disk.bytes == b && files as object != s.buf as object
    requires files.Length > 0
    modifies files, s, s.buf
    ensures Loaded(code, files[..], used) == ReadRecords(old(files[..]), b, from, numNodes, used)
    ensures code == Ok ==> s.Valid() && s.At() == from + numNodes * (4 + RECORD)
  {
    ghost var at: nat, left: int := from, numNodes;
    ghost var goal := ReadRecords(files[..], b, at, numNodes, used);
    var k := 0;
    code := Ok;
    assert RestGives(goal, code, files[..], b, at, left, used);
    while k < numNodes && code == Ok
      invariant 0 <= k <= numNodes && left == numNodes - k
      invariant code == Ok ==> s.Valid() && s.At() == at == from + k * (4 + RECORD)
      invariant RestGives(goal, code, files[..], b, at, left, used)
      decreases numNodes - k
    {
      code, at, left := NextRecord(files, s, goal, b, at, left, used);
      k := k + 1;
    }
    assert left == 0 || code != Ok;
  }

  // The region fs_load allocates from; it lies in the arena.
  ghost predicate RegionOk(r: Memory.Region)
    reads r
  {
    r.Valid() && Heap.Capacity(r.pages) < U32
  }

  // One file's contents
  method OneFile(files: array<Node>, s: ReadStream, ghost b: seq<byte>, ghost at: nat, i: nat, r: Memory.Region)
    returns (code: Code)
    requires s.Valid() && s.At() == at && s.disk.bytes == b && files as object != s.buf as object
    requires RegionOk(r) && i < files.Length && HasData(files[i])
    modifies files, s, s.buf, r`used
    ensures RegionOk(r)
    ensures Loaded(code, files[..], r.used)
            == ReadFile(old(files[..]), b, at, i, old(r.used), Heap.Capacity(r.pages))
    ensures code == Ok ==> s.Valid() && s.At() == at + old(files[i].size)
  {
    var addr := r.Alloc(files[i].size);
    if addr == 0 {
      return ENoMem;
    }
    var ok, data := s.Read(files[i].size);
    if !ok {
      return EInval;
    }
    files[i] := files[i].(data := data);
    return Ok;
  }

  method ReadContentsLoop(files: array<Node>, s: ReadStream, ghost b: seq<byte>, ghost from: nat, r: Memory.Region)
    returns (code: Code)
    requires s.Valid() && s.At() == from && s.disk.bytes == b && files as object != s.buf as object && RegionOk(r)
    modifies files, s, s.buf, r`used
    ensures RegionOk(r)
    ensures Loaded(code, files[..], r.used)
            == ReadContents(old(files[..]), b, from, 0, old(r.used), Heap.Capacity(r.pages))
  {
    ghost var at: nat, capacity := from, Heap.Capacity(r.pages);
    ghost var goal := ReadContents(files[..], b, from, 0, r.used, capacity);
    var i := 0;
    code := Ok;
    while i < files.Length && code == Ok
      invariant 0 <= i <= files.Length && RegionOk(r)
      invariant code == Ok ==> s.Valid() && s.At() == at
      invariant goal == if code == Ok then ReadContents(files[..], b, at, i, r.used, capacity)
                        else Loaded(code, files[..], r.used)
      decreases files.Length - i
    {
      if files[i].live && !files[i].isDir && files[i].size > 0 {
        ghost var size: nat := files[i].size;
        code := OneFile(files, s, b, at, i, r);
        at := at + size;
      }
      i := i + 1;
    }
  }

  // The version, the number of nodes and the number of data bytes, from byte `at` on
  method ReadCounts(s: ReadStream, ghost b: seq<byte>, ghost at: nat) returns (code: Code, numNodes: word32)
    requires s.Valid() && s.At() == at && s.disk.bytes == b
    modifies s, s.buf
    ensures code == if at + 12 > |b| || FromLe32(b[at..at + 4]) != FS_VERSION then EInval else Ok
    ensures code == Ok ==> s.Valid() && s.At() == at + 12 && numNodes == FromLe32(b[at + 4..at + 8])
  {
    numNodes := 0;
    var version, size;
    var ok;
    ok, version := ReadWord(s, b, at);
    if ok {
      ok, numNodes := ReadWord(s, b, at + 4);
    }
    if ok {
      ok, size := ReadWord(s, b, at + 8);
    }
    code := if !ok || version != FS_VERSION then EInval else Ok;
  }

  method ReadHeader(s: ReadStream, ghost b: seq<byte>, ghost at: nat) returns (code: Code, numNodes: word32)
    requires s.Valid() && s.At() == at && s.disk.bytes == b
    modifies s, s.buf
    ensures code == HeaderCode(b, at)
    ensures code == Ok ==> s.Valid() && s.At() == at + 20 && numNodes == FromLe32(b[at + 12..at + 16])
  {
    var ok, magic := s.Read(8);
    if !ok {
      return ENoEnt, 0;
    }
    if magic != FS_MAGIC {
      return EInval, 0;
    }
    code, numNodes := ReadCounts(s, b, at + 8);
  }

  /** fs_load */
  method LoadFrom(files: array<Node>, disk: Disk, present: bool, r: Memory.Region?) returns (code: Code)
    requires files.Length > 0 && disk.Valid() && (r != null ==> RegionOk(r))
    modifies files, if r == null then {} else {r}
    ensures r != null ==> RegionOk(r)
    ensures if !present || r == null then code == (if present then EInval else ENoSys) && files[..] == old(files[..])
            else Loaded(code, files[..], r.used)
                 == Load(old(files[..]), disk.bytes, FS_START * SECTOR, old(r.used), Heap.Capacity(r.pages))
    ensures r != null && !present ==> r.used == old(r.used)
  {
    if !present {
      return ENoSys;
    }
    if r == null {
      return EInval;
    }
    var s := new ReadStream(disk, FS_START);
    var numNodes;
    code, numNodes := ReadHeader(s, disk.bytes, FS_START * SECTOR);
    if code != Ok {
      return code;
    }
    if numNodes > files.Length {
      return EInval;
    }
    Reset(files);
    code := NodesFrom(files, s, disk.bytes, FS_START * SECTOR, numNodes, r);
  }

  method NodesFrom(files: array<Node>, s: ReadStream, ghost b: seq<byte>, ghost at: nat, numNodes: nat,
                   r: Memory.Region)
    returns (code: Code)
    requires s.Valid() && s.At() == at + 20 && s.disk.bytes == b
    requires RegionOk(r) && files.Length > 0 && files as object != s.buf as object
    requires files[..] == Fresh(files.Length)
    modifies files, s, s.buf, r`used
    ensures RegionOk(r)
    ensures Loaded(code, files[..], r.used)
            == LoadNodes(files.Length, b, at, numNodes, old(r.used), Heap.Capacity(r.pages))
  {
    code := ReadRecordsLoop(files, s, b, at + 20, numNodes, r.used);
    if code == Ok {
      code := ReadContentsLoop(files, s, b, RecordsEnd(at, numNodes), r);
    }
  }

  // fs_init
  method Reset(files: array<Node>)
    requires files.Length > 0
    modifies files
    ensures files[..] == Fresh(files.Length)
  {
    for i := 0 to files.Length
      invariant forall k :: 0 <= k < i ==> files[k] == if k == 0 then ROOT_NODE else BLANK
    {
      files[i] := if i == 0 then ROOT_NODE else BLANK;
    }
  }

  // ------------------------------------------------------------------
  // The round trip
  // ------------------------------------------------------------------

  // A node as it comes back: free slots come back blank.
  function Restored(n: Node): Node {
    if n.live then n else BLANK
  }

  function RestoredTable(t: Table): (r: Table)
    ensures |r| == |t|
  {
    seq(|t|, i requires 0 <= i < |t| => Restored(t[i]))
  }

  // Bytes of region needed for the contents of the files from index i on
  function RoomNeeded(t: Table, i: nat): nat
    requires i <= |t|
    decreases |t| - i
  {
    if i == |t| then 0 else (if HasData(t[i]) then Heap.Align8(t[i].size) else 0) + RoomNeeded(t, i + 1)
  }

  // Where the fields of a record lie
  lemma RecordFields(n: Node)
    requires n.live && RecordOk(n)
    ensures var r := Record(n);
            && Holds(r, 0, n.name + Zeros(MAX_NAME - |n.name|)) && Holds(r, 32, [if n.isDir then 1 else 0, 0, 0, 0])
            && Holds(r, 36, Le32(Unsigned(n.parent))) && Holds(r, 40, Le32(if n.isDir then 0 else n.size))
            && Holds(r, 44, Le32(n.ctime)) && Holds(r, 48, Le32(n.mtime))
  {
    var name, kind := n.name + Zeros(MAX_NAME - |n.name|), [if n.isDir then 1 else 0, 0, 0, 0];
    var parent, size := Le32(Unsigned(n.parent)), Le32(if n.isDir then 0 else n.size);
    var ctime, mtime, r := Le32(n.ctime), Le32(n.mtime), Record(n);
    assert r == name + kind + parent + size + ctime + mtime;
    HoldsParts(r, 0, name + kind + parent + size + ctime, mtime);
    HoldsParts(r, 0, name + kind + parent + size, ctime);
    HoldsParts(r, 0, name + kind + parent, size);
    HoldsParts(r, 0, name + kind, parent);
    HoldsParts(r, 0, name, kind);
  }

  lemma DecodeRecord(n: Node)
    requires n.live && RecordOk(n) && 0 !in n.name && (n.isDir ==> n.size == 0)
    ensures Decode(Record(n)) == n.(data := [])
  {
    var r := Record(n);
    RecordFields(n);
    CNameOfPadded(n.name, MAX_NAME - |n.name|);
    assert r[..32] == r[0..32] && r[32] == r[32..36][0];
    Le32RoundTrip(Unsigned(n.parent));
    Le32RoundTrip(n.size);
    Le32RoundTrip(n.ctime);
    Le32RoundTrip(n.mtime);
  }

  // Loading got as far as the records of the nodes below i.
  function Headers(t: Table, i: nat): (r: Table)
    requires i <= |t|
    ensures |r| == |t|
  {
    seq(|t|, k requires 0 <= k < |t| =>
      if k == 0 then ROOT_NODE else if k < i && t[k].live then t[k].(data := []) else BLANK)
  }

  // What a node must be like for its record and contents to tell all about it
  ghost predicate Savable(n: Node) {
    RecordOk(n) && (n.live ==> 0 !in n.name && (n.isDir ==> n.size == 0))
  }

  lemma StorableNodes(t: Table)
    requires Storable(t)
    ensures forall i :: 0 <= i < |t| ==> Savable(t[i]) && RecordOk(t[i])
  {
    StorableRecords(t);
    forall i | 0 <= i < |t| && t[i].live
      ensures Savable(t[i])
    {
      assert DataOk(t[i]) && RecordOk(t[i]);
      if i > 0 {
        assert Linked(t, i);
      }
    }
  }

  // Reading in the record of node i takes the table one node further.
  lemma HeadersGrow(t: Table, i: nat)
    requires i < |t| && t[0] == ROOT_NODE && Savable(t[i])
    ensures t[i].live && i > 0 ==> Headers(t, i + 1) == Headers(t, i)[i := Decode(Record(t[i]))]
    ensures !t[i].live || i == 0 ==> Headers(t, i + 1) == Headers(t, i)
  {
    if t[i].live && i > 0 {
      DecodeRecord(t[i]);
    }
  }

  // One live node's record is read back into its place.
  lemma OneRecordLoads(t: Table, b: seq<byte>, at: nat, i: nat, used: word32)
    requires i < |t| < 0x8000_0000 && t[0] == ROOT_NODE && t[i].live && Savable(t[i])
    requires Holds(b, at, Le32(i) + Record(t[i]))
    ensures ReadRecords(Headers(t, i), b, at, CountLive(t, i), used)
            == ReadRecords(Headers(t, i + 1), b, at + 4 + RECORD, CountLive(t, i + 1), used)
  {
    HoldsParts(b, at, Le32(i), Record(t[i]));
    Le32RoundTrip(i);
    HeadersGrow(t, i);
  }

  lemma NoRecordLoads(t: Table, b: seq<byte>, at: nat, i: nat, used: word32)
    requires i < |t| && t[0] == ROOT_NODE && !t[i].live && Savable(t[i])
    ensures ReadRecords(Headers(t, i), b, at, CountLive(t, i), used)
            == ReadRecords(Headers(t, i + 1), b, at, CountLive(t, i + 1), used)
  {
    HeadersGrow(t, i);
  }

  // The records from i on, at byte `at`, of which that of node i is the first if it is live
  lemma RecordsStep(t: Table, b: seq<byte>, at: nat, i: nat)
    requires i < |t| < 0x8000_0000 && forall k :: 0 <= k < |t| ==> RecordOk(t[k])
    requires Holds(b, at, Records(t, i))
    ensures RecordOk(t[i])
    ensures !t[i].live ==> Holds(b, at, Records(t, i + 1))
    ensures t[i].live ==> Holds(b, at, Le32(i) + Record(t[i])) && Holds(b, at + 4 + RECORD, Records(t, i + 1))
  {
    assert RecordOk(t[i]);
    HoldsParts(b, at, if t[i].live then Le32(i) + Record(t[i]) else [], Records(t, i + 1));
  }

  lemma {:induction false} RecordsLoad(t: Table, b: seq<byte>, at: nat, i: nat, used: word32, l: Loaded)
    requires 0 < |t| < 0x8000_0000 && i <= |t| && t[0] == ROOT_NODE
    requires forall k :: 0 <= k < |t| ==> Savable(t[k]) && RecordOk(t[k])
    requires Holds(b, at, Records(t, i)) && l == ReadRecords(Headers(t, i), b, at, CountLive(t, i), used)
    ensures l == Loaded(Ok, Headers(t, |t|), used)
    decreases |t| - i
  {
    if i == |t| {
    } else {
      RecordsStep(t, b, at, i);
      if !t[i].live {
        NoRecordLoads(t, b, at, i, used);
        RecordsLoad(t, b, at, i + 1, used, l);
      } else {
        OneRecordLoads(t, b, at, i, used);
        RecordsLoad(t, b, at + 4 + RECORD, i + 1, used, l);
      }
    }
  }

  // Loading has filled in the files below i.
  function Filled(t: Table, i: nat): (r: Table)
    requires i <= |t|
    ensures |r| == |t|
  {
    seq(|t|, k requires 0 <= k < |t| =>
      if !t[k].live then BLANK else if k < i then t[k] else t[k].(data := []))
  }

  // A region of the arena with `used` of `capacity` bytes taken
  predicate InArena(used: word32, capacity: nat) {
    used <= capacity <= Pages.ARENA_PAGES * Pages.PAGE_SIZE
  }

  // Sizes of files never make region_alloc wrap.
  lemma FileFits(used: word32, capacity: nat, size: word32)
    requires InArena(used, capacity) && size <= MAX_FILE_SIZE
    ensures Heap.RegionBump(used, capacity, size)
            == if used + Heap.Align8(size) > capacity then Heap.Full else Heap.Taken(used, used + Heap.Align8(size))
  {
  }

  // What loading the contents comes to
  ghost predicate ContentsLoaded(t: Table, i: nat, used: word32, capacity: nat, l: Loaded)
    requires i <= |t|
  {
    if used + RoomNeeded(t, i) <= capacity
    then l.code == Ok && l.table == RestoredTable(t) && l.used == used + RoomNeeded(t, i)
    else l.code == ENoMem
  }

  // The contents from i on, at byte `at`, of which those of node i are the first if it has any
  lemma ContentsStep(t: Table, b: seq<byte>, at: nat, i: nat)
    requires i < |t| && Holds(b, at, Contents(t, i))
    ensures !HasData(t[i]) ==> Holds(b, at, Contents(t, i + 1))
    ensures HasData(t[i]) ==> Holds(b, at, t[i].data) && Holds(b, at + |t[i].data|, Contents(t, i + 1))
  {
    HoldsParts(b, at, if HasData(t[i]) then t[i].data else [], Contents(t, i + 1));
  }

  lemma OneFileLoads(t: Table, b: seq<byte>, at: nat, i: nat, used: word32, capacity: nat)
    requires i < |t| && HasData(t[i]) && Savable(t[i]) && DataOk(t[i]) && Holds(b, at, t[i].data)
    requires InArena(used, capacity)
    ensures used + Heap.Align8(t[i].size) <= capacity ==>
      ReadContents(Filled(t, i), b, at, i, used, capacity)
      == ReadContents(Filled(t, i + 1), b, at + |t[i].data|, i + 1, used + Heap.Align8(t[i].size), capacity)
    ensures used + Heap.Align8(t[i].size) > capacity ==>
      ReadContents(Filled(t, i), b, at, i, used, capacity).code == ENoMem
  {
    FileFits(used, capacity, t[i].size);
    assert Filled(t, i + 1) == Filled(t, i)[i := t[i]];
    assert Filled(t, i)[i].(data := t[i].data) == t[i];
  }

  lemma NoFileLoads(t: Table, b: seq<byte>, at: nat, i: nat, used: word32, capacity: nat)
    requires i < |t| && !HasData(t[i]) && DataOk(t[i])
    ensures ReadContents(Filled(t, i), b, at, i, used, capacity)
            == ReadContents(Filled(t, i + 1), b, at, i + 1, used, capacity)
  {
    assert Filled(t, i + 1) == Filled(t, i);
  }

  lemma {:induction false} ContentsLoad(
    t: Table, b: seq<byte>, at: nat, i: nat, used: word32, capacity: nat, l: Loaded)
    requires i <= |t| && InArena(used, capacity)
    requires forall k :: 0 <= k < |t| ==> Savable(t[k]) && DataOk(t[k])
    requires Holds(b, at, Contents(t, i)) && l == ReadContents(Filled(t, i), b, at, i, used, capacity)
    ensures ContentsLoaded(t, i, used, capacity, l)
    decreases |t| - i
  {
    if i == |t| {
      assert Filled(t, i) == RestoredTable(t);
    } else {
      assert Savable(t[i]) && DataOk(t[i]);
      ContentsStep(t, b, at, i);
      if !HasData(t[i]) {
        NoFileLoads(t, b, at, i, used, capacity);
        ContentsLoad(t, b, at, i + 1, used, capacity, l);
      } else {
        OneFileLoads(t, b, at, i, used, capacity);
        if used + Heap.Align8(t[i].size) <= capacity {
          ContentsLoad(t, b, at + |t[i].data|, i + 1, used + Heap.Align8(t[i].size), capacity, l);
        }
      }
    }
  }

  lemma {:induction false} RecordsLength(t: Table, i: nat)
    requires i <= |t| < 0x8000_0000 && forall k :: 0 <= k < |t| ==> RecordOk(t[k])
    ensures |Records(t, i)| == CountLive(t, i) * (4 + RECORD)
    decreases |t| - i
  {
    if i == |t| {
    } else {
      assert RecordOk(t[i]);
      RecordsLength(t, i + 1);
    }
  }

  // The header is read back; loading continues with the records.
  lemma HeaderLoads(t0: Table, b: seq<byte>, at: nat, count: word32, bytes: word32, used: word32, capacity: nat)
    requires Holds(b, at, Header(count, bytes)) && 0 < |t0| && count <= |t0|
    ensures Load(t0, b, at, used, capacity) == LoadNodes(|t0|, b, at, count, used, capacity)
  {
    var head := Header(count, bytes);
    SliceOfSlice(b, at, head, 0, 8);
    SliceOfSlice(b, at, head, 8, 12);
    SliceOfSlice(b, at, head, 12, 16);
    assert head[0..8] == FS_MAGIC && head[8..12] == Le32(FS_VERSION) && head[12..16] == Le32(count);
    Le32RoundTrip(FS_VERSION);
    Le32RoundTrip(count);
  }

  lemma ImageParts(t: Table, b: seq<byte>, at: nat, head: seq<byte>)
    requires Storable(t) && Holds(b, at, Image(t))
    requires forall i :: 0 <= i < |t| ==> RecordOk(t[i])
    requires head == Header(CountLive(t, 0), DataBytes(t, 0) % U32)
    ensures Holds(b, at, head) && Holds(b, at + 20, Records(t, 0))
    ensures Holds(b, at + 20 + |Records(t, 0)|, Contents(t, 0))
  {
    HoldsParts(b, at, head + Records(t, 0), Contents(t, 0));
    HoldsParts(b, at, head, Records(t, 0));
  }

  // Loading from where an image lies
  lemma ImageLoads(t: Table, t0: Table, b: seq<byte>, at: nat, used: word32, capacity: nat)
    requires Storable(t) && |t0| == |t| && Holds(b, at, Image(t)) && InArena(used, capacity)
    ensures ContentsLoaded(t, 0, used, capacity, Load(t0, b, at, used, capacity))
  {
    StorableNodes(t);
    StorableRecords(t);
    var count: word32, bytes: word32 := CountLive(t, 0), DataBytes(t, 0) % U32;
    ImageParts(t, b, at, Header(count, bytes));
    HeaderLoads(t0, b, at, count, bytes, used, capacity);
    NodesLoad(t, b, at, used, capacity);
  }

  lemma NodesLoad(t: Table, b: seq<byte>, at: nat, used: word32, capacity: nat)
    requires InArena(used, capacity)
    requires Storable(t) && forall i :: 0 <= i < |t| ==> RecordOk(t[i])
    requires Holds(b, at + 20, Records(t, 0)) && Holds(b, at + 20 + |Records(t, 0)|, Contents(t, 0))
    ensures ContentsLoaded(t, 0, used, capacity, LoadNodes(|t|, b, at, CountLive(t, 0), used, capacity))
  {
    StorableNodes(t);
    assert Headers(t, 0) == Fresh(|t|);
    RecordsLoad(t, b, at + 20, 0, used, ReadRecords(Fresh(|t|), b, at + 20, CountLive(t, 0), used));
    RecordsLength(t, 0);
    RootIsFilled(t);
    ContentsLoad(t, b, RecordsEnd(at, CountLive(t, 0)), 0, used, capacity,
                 LoadNodes(|t|, b, at, CountLive(t, 0), used, capacity));
  }

  lemma RootIsFilled(t: Table)
    requires |t| > 0 && t[0] == ROOT_NODE
    ensures Headers(t, |t|) == Filled(t, 0)
  {
  }

  /** fs_save then fs_load, on a disk the image fits on: loading succeeds exactly when the
      region has room for the files rounded up to 8 bytes, and then every node is back at
      its own index with all its fields, there are no others, and exactly that room is taken. */
  lemma SaveLoadRoundTrip(t: Table, t0: Table, disk: seq<byte>, used: word32, capacity: nat)
    requires Storable(t) && |t0| == |t| && InArena(used, capacity)
    requires FS_START * SECTOR + |Padded(Image(t))| <= |disk|
    ensures var saved := Overlay(disk, FS_START * SECTOR, Padded(Image(t)));
            var l := Load(t0, saved, FS_START * SECTOR, used, capacity);
            && (l.code == Ok <==> used + RoomNeeded(t, 0) <= capacity)
            && (l.code == Ok ==> l.used == used + RoomNeeded(t, 0))
            && (l.code == Ok ==> forall i :: 0 <= i < |t| ==> l.table[i] == if t[i].live then t[i] else BLANK)
  {
    var saved, at, image := Overlay(disk, FS_START * SECTOR, Padded(Image(t))), FS_START * SECTOR, Image(t);
    assert saved[at..at + |image|] == image;
    ImageLoads(t, t0, saved, at, used, capacity);
  }

  lemma RestoredShape(t: Table)
    requires Shape(t)
    ensures Shape(RestoredTable(t))
  {
    var r := RestoredTable(t);
    forall i | 0 < i < |r| && r[i].live
      ensures Linked(r, i)
    {
      assert Linked(t, i);
    }
    assert forall i :: 0 <= i < |t| ==> DataOk(t[i]);
  }

  /** After the round trip the tree is well-formed again and every path leads where it led. */
  lemma RestoredTree(t: Table, path: seq<byte>)
    requires Tree(t)
    ensures Tree(RestoredTable(t))
    ensures Lookup(RestoredTable(t), path) == Lookup(t, path)
  {
    var r := RestoredTable(t);
    RestoredShape(t);
    forall i | 0 <= i < |r| && r[i].live
      ensures ReachesRoot(r, i)
    {
      assert ReachesRoot(t, i);
      var n: nat :| AtDepth(t, i, n);
      DepthSurvives(t, r, i, n);
    }
    if Lookup(t, path) >= 0 {
      WalkSurvives(t, r, Components(path), {});
    } else if Lookup(r, path) >= 0 {
      WalkSurvives(r, t, Components(path), {});
    }
  }
}
