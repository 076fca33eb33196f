/** The disk format of fs_save, byte by byte, and what fs_load makes of a disk that does not hold it. */
module FsDisk {
  import opened Bytes
  import opened Results
  import opened FsTree
  import opened SectorStream
  import opened Strings
  import opened FsImage

  // ------------------------------------------------------------------
  // Where things lie in an image
  // ------------------------------------------------------------------

  // The live nodes below index i
  function Rank(t: Table, i: nat): (r: nat)
    requires i <= |t|
    ensures r <= i
  {
    if i == 0 then 0 else Rank(t, i - 1) + if t[i - 1].live then 1 else 0
  }

  // The bytes of the live files below index i
  function Before(t: Table, i: nat): nat
    requires i <= |t|
  {
    if i == 0 then 0 else Before(t, i - 1) + if t[i - 1].live && !t[i - 1].isDir then |t[i - 1].data| else 0
  }

  // The places of node i and of its contents, in an image at byte `at`
  function NodeAt(t: Table, at: nat, i: nat): nat
    requires i <= |t|
  {
    at + 20 + 56 * Rank(t, i)
  }

  function DataAt(t: Table, at: nat, i: nat): nat
    requires i <= |t|
  {
    at + 20 + 56 * Rank(t, |t|) + Before(t, i)
  }

  // The 56 bytes of node i at byte `at`: its index and its fields, the root's parent as all ones
  ghost predicate NodeWritten(b: seq<byte>, at: nat, i: word32, n: Node) {
    && at + 56 <= |b| && |n.name| < 32 && n.parent < 0x8000_0000
    && Holds(b, at, Le32(i))
    && Holds(b, at + 4, n.name + Zeros(32 - |n.name|))
    && Holds(b, at + 36, [if n.isDir then 1 else 0, 0, 0, 0])
    && Holds(b, at + 40, Le32(if n.parent < 0 then 0xFFFF_FFFF else n.parent))
    && Holds(b, at + 44, Le32(if n.isDir then 0 else n.size))
    && Holds(b, at + 48, Le32(n.ctime)) && Holds(b, at + 52, Le32(n.mtime))
  }

  // "GOPHERFS", version 1
  ghost predicate Ours(b: seq<byte>, at: nat) {
    Holds(b, at, [71, 79, 80, 72, 69, 82, 70, 83]) && Holds(b, at + 8, [1, 0, 0, 0])
  }

  // Behind it the numbers of nodes and of data bytes
  ghost predicate HeaderWritten(b: seq<byte>, at: nat, nodes: word32, bytes: nat) {
    && Ours(b, at) && Holds(b, at + 12, Le32(nodes)) && Holds(b, at + 16, Le32(bytes % 0x1_0000_0000))
  }

  lemma {:induction false} CountsAgree(t: Table, i: nat)
    requires i <= |t| && forall k :: 0 <= k < |t| ==> RecordOk(t[k])
    ensures Rank(t, i) + CountLive(t, i) == Rank(t, |t|)
    ensures Before(t, i) + DataBytes(t, i) == Before(t, |t|)
    decreases |t| - i
  {
    if i == |t| {
    } else {
      assert RecordOk(t[i]);
      CountsAgree(t, i + 1);
    }
  }

  lemma HeaderPlaces(b: seq<byte>, at: nat, nodes: word32, bytes: nat)
    requires Holds(b, at, Header(nodes, bytes % U32))
    ensures HeaderWritten(b, at, nodes, bytes)
  {
    var total: word32 := bytes % U32;
    HoldsParts(b, at, FS_MAGIC + Le32(FS_VERSION) + Le32(nodes), Le32(total));
    HoldsParts(b, at, FS_MAGIC + Le32(FS_VERSION), Le32(nodes));
    HoldsParts(b, at, FS_MAGIC, Le32(FS_VERSION));
    assert Le32(FS_VERSION) == [1, 0, 0, 0];
  }

  lemma HoldsWithin(b: seq<byte>, at: nat, r: seq<byte>, off: nat, x: seq<byte>)
    requires Holds(b, at, r) && Holds(r, off, x)
    ensures Holds(b, at + off, x)
  {
    SliceOfSlice(b, at, r, off, off + |x|);
  }

  lemma NodePlaces(b: seq<byte>, at: nat, i: word32, n: Node)
    requires n.live && RecordOk(n) && Holds(b, at, Le32(i) + Record(n))
    ensures NodeWritten(b, at, i, n)
  {
    var r := Record(n);
    HoldsParts(b, at, Le32(i), r);
    RecordFields(n);
    HoldsWithin(b, at + 4, r, 0, n.name + Zeros(MAX_NAME - |n.name|));
    HoldsWithin(b, at + 4, r, 32, [if n.isDir then 1 else 0, 0, 0, 0]);
    HoldsWithin(b, at + 4, r, 36, Le32(Unsigned(n.parent)));
    HoldsWithin(b, at + 4, r, 40, Le32(if n.isDir then 0 else n.size));
    HoldsWithin(b, at + 4, r, 44, Le32(n.ctime));
    HoldsWithin(b, at + 4, r, 48, Le32(n.mtime));
  }

  // Records of the nodes from i on, at byte `at`; that of node j at byte `there`
  lemma {:induction false} NodesPlaced(t: Table, b: seq<byte>, at: nat, i: nat, j: nat, there: nat)
    requires i <= j < |t| < 0x8000_0000 && t[j].live && forall k :: 0 <= k < |t| ==> RecordOk(t[k])
    requires Holds(b, at, Records(t, i)) && there == at + 56 * (Rank(t, j) - Rank(t, i))
    ensures NodeWritten(b, there, j, t[j])
    decreases j - i
  {
    RecordsStep(t, b, at, i);
    if i == j {
      NodePlaces(b, at, j, t[j]);
    } else {
      NodesPlaced(t, b, if t[i].live then at + 56 else at, i + 1, j, there);
    }
  }

  lemma {:induction false} DataPlaced(t: Table, b: seq<byte>, at: nat, i: nat, j: nat, there: nat)
    requires i <= j < |t| && HasData(t[j]) && forall k :: 0 <= k < |t| ==> RecordOk(t[k])
    requires Holds(b, at, Contents(t, i)) && there == at + Before(t, j) - Before(t, i)
    ensures Holds(b, there, t[j].data)
    decreases j - i
  {
    ContentsStep(t, b, at, i);
    if i < j {
      var next := if HasData(t[i]) then at + |t[i].data| else at;
      BeforeStep(t, i);
      DataPlaced(t, b, next, i + 1, j, there);
    }
  }

  lemma BeforeStep(t: Table, i: nat)
    requires i < |t| && forall k :: 0 <= k < |t| ==> RecordOk(t[k])
    ensures Before(t, i + 1) == Before(t, i) + if HasData(t[i]) then |t[i].data| else 0
  {
    assert RecordOk(t[i]);
  }

  ghost predicate NodesLaid(t: Table, b: seq<byte>, at: nat)
    requires |t| < 0x8000_0000
  {
    forall j :: 0 <= j < |t| ==> NodeLaid(t, b, at, j)
  }

  ghost predicate NodeLaid(t: Table, b: seq<byte>, at: nat, j: nat)
    requires j < |t| < 0x8000_0000
  {
    t[j].live ==> NodeWritten(b, NodeAt(t, at, j), j, t[j])
  }

  ghost predicate DataLaid(t: Table, b: seq<byte>, at: nat) {
    forall j :: 0 <= j < |t| && t[j].live && !t[j].isDir && t[j].data != [] ==>
      Holds(b, DataAt(t, at, j), t[j].data)
  }

  lemma OneNodeLaid(t: Table, b: seq<byte>, at: nat, from: nat, j: nat, there: nat)
    requires j < |t| < 0x8000_0000 && t[j].live && forall k :: 0 <= k < |t| ==> RecordOk(t[k])
    requires from == at + 20 && Holds(b, from, Records(t, 0)) && there == NodeAt(t, at, j)
    ensures NodeWritten(b, there, j, t[j])
  {
    RankFromStart(t, at, from, j, there);
    NodesPlaced(t, b, from, 0, j, there);
  }

  lemma RankFromStart(t: Table, at: nat, from: nat, j: nat, there: nat)
    requires j <= |t| && from == at + 20 && there == NodeAt(t, at, j)
    ensures there == from + 56 * (Rank(t, j) - Rank(t, 0))
  {
  }

  lemma NodesAreLaid(t: Table, b: seq<byte>, at: nat)
    requires |t| < 0x8000_0000 && forall k :: 0 <= k < |t| ==> RecordOk(t[k])
    requires Holds(b, at + 20, Records(t, 0))
    ensures NodesLaid(t, b, at)
  {
    forall j | 0 <= j < |t|
      ensures NodeLaid(t, b, at, j)
    {
      if t[j].live {
        OneNodeLaid(t, b, at, at + 20, j, NodeAt(t, at, j));
      }
    }
  }

  lemma DataIsLaid(t: Table, b: seq<byte>, at: nat, start: nat)
    requires forall k :: 0 <= k < |t| ==> RecordOk(t[k])
    requires start == DataAt(t, at, 0) && Holds(b, start, Contents(t, 0))
    ensures DataLaid(t, b, at)
  {
    forall j | 0 <= j < |t| && t[j].live && !t[j].isDir && t[j].data != []
      ensures Holds(b, DataAt(t, at, j), t[j].data)
    {
      assert RecordOk(t[j]);
      DataPlaced(t, b, start, 0, j, DataAt(t, at, j));
    }
  }

  /** What fs_save leaves on the disk, for every node table: from byte 1048576 on the header; behind
      it 56 bytes for each live node, in index order, with every field at its place; behind those
      the contents of the files, in the same order. Everything before is as it was. */
  lemma SavedLayout(t: Table, disk: seq<byte>, saved: seq<byte>)
    requires Storable(t) && FS_START * SECTOR + |Padded(Image(t))| <= |disk|
    requires saved == Overlay(disk, FS_START * SECTOR, Padded(Image(t)))
    ensures |saved| == |disk| && saved[..1048576] == disk[..1048576]
    ensures Rank(t, |t|) < 0x1_0000_0000 && HeaderWritten(saved, 1048576, Rank(t, |t|), Before(t, |t|))
    ensures |t| < 0x8000_0000 && NodesLaid(t, saved, 1048576) && DataLaid(t, saved, 1048576)
  {
    StorableRecords(t);
    CountsAgree(t, 0);
    ImageOnDisk(disk, saved, Image(t));
    ImageIsLaid(t, saved, 1048576, Rank(t, |t|), Before(t, |t|), DataAt(t, 1048576, 0));
  }

  lemma ImageIsLaid(t: Table, b: seq<byte>, at: nat, nodes: word32, bytes: nat, start: nat)
    requires Storable(t) && Holds(b, at, Image(t)) && forall k :: 0 <= k < |t| ==> RecordOk(t[k])
    requires nodes == Rank(t, |t|) == CountLive(t, 0) && bytes == Before(t, |t|) == DataBytes(t, 0)
    requires start == DataAt(t, at, 0)
    ensures HeaderWritten(b, at, nodes, bytes) && NodesLaid(t, b, at) && DataLaid(t, b, at)
  {
    ImageSplits(t, b, at, nodes, bytes % U32, start);
    HeaderPlaces(b, at, nodes, bytes);
    NodesAreLaid(t, b, at);
    DataIsLaid(t, b, at, start);
  }

  lemma RecordsSpan(t: Table, nodes: nat, records: seq<byte>)
    requires |t| < 0x8000_0000 && forall k :: 0 <= k < |t| ==> RecordOk(t[k])
    requires nodes == CountLive(t, 0) && records == Records(t, 0)
    ensures |records| == 56 * nodes
  {
    RecordsLength(t, 0);
  }

  lemma ThreePlaces(b: seq<byte>, at: nat, head: seq<byte>, records: seq<byte>, contents: seq<byte>, start: nat)
    requires Holds(b, at, head + records + contents) && |head| == 20 && start == at + 20 + |records|
    ensures Holds(b, at, head) && Holds(b, at + 20, records) && Holds(b, start, contents)
  {
    HoldsParts(b, at, head + records, contents);
    HoldsParts(b, at, head, records);
  }

  lemma ImageSplits(t: Table, b: seq<byte>, at: nat, nodes: word32, bytes: word32, start: nat)
    requires Storable(t) && Holds(b, at, Image(t)) && forall k :: 0 <= k < |t| ==> RecordOk(t[k])
    requires nodes == CountLive(t, 0) && bytes == DataBytes(t, 0) % U32 && start == at + 20 + 56 * nodes
    ensures Holds(b, at, Header(nodes, bytes)) && Holds(b, at + 20, Records(t, 0)) && Holds(b, start, Contents(t, 0))
  {
    RecordsSpan(t, nodes, Records(t, 0));
    ThreePlaces(b, at, Header(nodes, bytes), Records(t, 0), Contents(t, 0), start);
  }

  lemma ImageOnDisk(disk: seq<byte>, saved: seq<byte>, image: seq<byte>)
    requires FS_START * SECTOR + |Padded(image)| <= |disk|
    requires saved == Overlay(disk, FS_START * SECTOR, Padded(image))
    ensures |saved| == |disk| && saved[..1048576] == disk[..1048576] && Holds(saved, 1048576, image)
  {
    assert saved[1048576..1048576 + |image|] == image;
  }

  // ------------------------------------------------------------------
  // A disk without an image
  // ------------------------------------------------------------------

  /** fs_load on any disk: one too short for the magic gives ENOENT; another magic, another version
      than 1, a cut-off header or more nodes than the table holds give EINVAL; and in all these
      cases table and region are untouched. Past them the table was reset: the root is the fresh
      one whatever the disk says. */
  lemma ForeignDisk(t: Table, b: seq<byte>, used: word32, capacity: nat, l: Loaded)
    requires |t| > 0 && l == Load(t, b, FS_START * SECTOR, used, capacity)
    ensures |b| < 1048576 + 8 ==> l == Loaded(ENoEnt, t, used)
    ensures |b| >= 1048576 + 8 && !(|b| >= 1048576 + 20 && Ours(b, 1048576)) ==> l == Loaded(EInval, t, used)
    ensures forall n: word32 :: n > |t| && Holds(b, 1048576 + 12, Le32(n)) && |b| >= 1048576 + 20 ==>
              l == Loaded(EInval, t, used)
    ensures l.table == t || l.table[0] == ROOT_NODE
  {
    var at := 1048576;
    if |b| >= at + 20 {
      if FromLe32(b[at + 8..at + 12]) == FS_VERSION {
        OneIs(b[at + 8..at + 12]);
      }
      forall n: word32 | n > |t| && Holds(b, at + 12, Le32(n))
        ensures l == Loaded(EInval, t, used)
      {
        Le32RoundTrip(n);
      }
    }
    if l.table != t {
      var count := FromLe32(b[at + 12..at + 16]);
      RootStays(Fresh(|t|), b, at + 20, count, used);
      RootKept(ReadRecords(Fresh(|t|), b, at + 20, count, used).table, b, RecordsEnd(at, count), 0, used, capacity);
    }
  }

  lemma OneIs(b: seq<byte>)
    requires |b| == 4 && FromLe32(b) == 1
    ensures b == [1, 0, 0, 0]
  {
  }

  lemma {:induction false} RootStays(t: Table, b: seq<byte>, at: nat, left: nat, used: word32)
    requires |t| > 0
    ensures ReadRecords(t, b, at, left, used).table[0] == t[0]
    decreases left
  {
    if left == 0 || NoRecord(t, b, at) {
    } else {
      var idx := Signed(FromLe32(b[at..at + 4]));
      var t1 := if idx == 0 then t else t[idx := Decode(b[at + 4..at + 4 + RECORD])];
      RootStays(t1, b, at + 4 + RECORD, left - 1, used);
    }
  }

  lemma {:induction false} RootKept(t: Table, b: seq<byte>, at: nat, i: nat, used: word32, capacity: nat)
    requires i <= |t| && |t| > 0 && !HasData(t[0])
    ensures ReadContents(t, b, at, i, used, capacity).table[0] == t[0]
    decreases |t| - i
  {
    if i == |t| {
    } else if !HasData(t[i]) {
      RootKept(t, b, at, i + 1, used, capacity);
    } else {
      var l := ReadFile(t, b, at, i, used, capacity);
      if l.code == Ok {
        RootKept(l.table, b, at + t[i].size, i + 1, l.used, capacity);
      }
    }
  }

  // ------------------------------------------------------------------
  // Any disk with the header of an image
  // ------------------------------------------------------------------

  // The index in record k, and whether the record is whole and the index one of the table's n
  function IndexOf(b: seq<byte>, at: nat, k: nat): int
    requires at + 56 * k + 4 <= |b|
  {
    Signed(FromLe32(b[at + 56 * k..at + 56 * k + 4]))
  }

  predicate RecordGood(b: seq<byte>, at: nat, k: nat, n: nat) {
    at + 56 * k + 56 <= |b| && 0 <= IndexOf(b, at, k) < n
  }

  // The node a record describes, without contents
  function Described(b: seq<byte>, at: nat, k: nat): Node
    requires at + 56 * k + 56 <= |b|
  {
    Decode(b[at + 56 * k + 4..at + 56 * k + 56])
  }

  lemma NextRecords(b: seq<byte>, at: nat, next: nat, k: nat, n: nat)
    requires next == at + 56
    ensures RecordGood(b, next, k, n) <==> RecordGood(b, at, k + 1, n)
    ensures RecordGood(b, next, k, n) ==>
              IndexOf(b, next, k) == IndexOf(b, at, k + 1) && Described(b, next, k) == Described(b, at, k + 1)
  {
    assert next + 56 * k == at + 56 * (k + 1);
  }

  predicate AllGood(b: seq<byte>, at: nat, count: nat, n: nat) {
    forall k :: 0 <= k < count ==> RecordGood(b, at, k, n)
  }

  lemma AllGoodStep(b: seq<byte>, at: nat, next: nat, count: nat, n: nat)
    requires count > 0 && next == at + 56
    ensures AllGood(b, at, count, n) <==> RecordGood(b, at, 0, n) && AllGood(b, next, count - 1, n)
  {
    if AllGood(b, at, count, n) {
      forall k | 0 <= k < count - 1
        ensures RecordGood(b, next, k, n)
      {
        NextRecords(b, at, next, k, n);
        assert RecordGood(b, at, k + 1, n);
      }
    }
    if RecordGood(b, at, 0, n) && AllGood(b, next, count - 1, n) {
      forall k | 0 <= k < count
        ensures RecordGood(b, at, k, n)
      {
        if k > 0 {
          NextRecords(b, at, next, k - 1, n);
          assert RecordGood(b, next, k - 1, n);
        }
      }
    }
  }

  // The table with the first record read in; the root's is skipped.
  function AfterFirst(t: Table, b: seq<byte>, at: nat): (t': Table)
    requires RecordGood(b, at, 0, |t|)
    ensures |t'| == |t|
  {
    if IndexOf(b, at, 0) == 0 then t else t[IndexOf(b, at, 0) := Described(b, at, 0)]
  }

  lemma FirstRead(t: Table, b: seq<byte>, at: nat, left: nat, used: word32)
    requires left > 0
    ensures ReadRecords(t, b, at, left, used) ==
              if RecordGood(b, at, 0, |t|) then ReadRecords(AfterFirst(t, b, at), b, at + 56, left - 1, used)
              else Loaded(EInval, t, used)
  {
  }

  /** Reading the records succeeds exactly if all are whole and their indices in the table. */
  lemma {:induction false} RecordsReadIff(t: Table, b: seq<byte>, at: nat, left: nat, used: word32)
    ensures ReadRecords(t, b, at, left, used).code == if AllGood(b, at, left, |t|) then Ok else EInval
    decreases left
  {
    if left == 0 {
    } else {
      FirstRead(t, b, at, left, used);
      AllGoodStep(b, at, at + 56, left, |t|);
      if RecordGood(b, at, 0, |t|) {
        RecordsReadIff(AfterFirst(t, b, at), b, at + 56, left - 1, used);
      }
    }
  }

  // Record k is the last for node i.
  ghost predicate LastFor(b: seq<byte>, at: nat, count: nat, n: nat, k: nat, i: nat) {
    && k < count && RecordGood(b, at, k, n) && IndexOf(b, at, k) == i
    && forall j :: k < j < count ==> RecordGood(b, at, j, n) && IndexOf(b, at, j) != i
  }

  // No record is for node i.
  ghost predicate NoneFor(b: seq<byte>, at: nat, count: nat, n: nat, i: nat) {
    forall j :: 0 <= j < count ==> RecordGood(b, at, j, n) && IndexOf(b, at, j) != i
  }

  lemma NoneForRest(b: seq<byte>, at: nat, next: nat, count: nat, n: nat, i: nat)
    requires count > 0 && next == at + 56
    requires forall j :: 0 < j < count ==> RecordGood(b, at, j, n) && IndexOf(b, at, j) != i
    ensures NoneFor(b, next, count - 1, n, i)
  {
    forall j | 0 <= j < count - 1
      ensures RecordGood(b, next, j, n) && IndexOf(b, next, j) != i
    {
      NextRecords(b, at, next, j, n);
      assert RecordGood(b, at, j + 1, n);
    }
  }

  lemma {:induction false} Untouched(t: Table, b: seq<byte>, at: nat, left: nat, used: word32, i: nat)
    requires i < |t| && (i == 0 || NoneFor(b, at, left, |t|, i))
    ensures ReadRecords(t, b, at, left, used).table[i] == t[i]
    decreases left
  {
    if left == 0 {
    } else {
      FirstRead(t, b, at, left, used);
      if RecordGood(b, at, 0, |t|) {
        if i > 0 {
          assert IndexOf(b, at, 0) != i;
          NoneForRest(b, at, at + 56, left, |t|, i);
        }
        Untouched(AfterFirst(t, b, at), b, at + 56, left - 1, used, i);
      }
    }
  }

  // The first record is the last for its node.
  lemma FirstWins(t: Table, size: nat, b: seq<byte>, at: nat, left: nat, used: word32, i: nat, l: Loaded, n: Node)
    requires |t| == size && 0 < i < size && LastFor(b, at, left, size, 0, i) && n == Described(b, at, 0)
    requires l == ReadRecords(t, b, at, left, used)
    ensures i < |l.table| && l.table[i] == n
  {
    FirstRead(t, b, at, left, used);
    RestLeaves(t, size, b, at, at + 56, left, used, i, n, l);
  }

  lemma RestLeaves(t: Table, size: nat, b: seq<byte>, at: nat, next: nat, left: nat, used: word32, i: nat, n: Node,
                   l: Loaded)
    requires |t| == size && 0 < i < size && LastFor(b, at, left, size, 0, i) && next == at + 56
    requires n == Described(b, at, 0) && l == ReadRecords(AfterFirst(t, b, at), b, next, left - 1, used)
    ensures i < |l.table| && l.table[i] == n
  {
    NoneForRest(b, at, next, left, size, i);
    Untouched(AfterFirst(t, b, at), b, next, left - 1, used, i);
  }

  // The first k records being good, reading comes to what lies behind them.
  lemma {:induction false} ReadsOn(t: Table, b: seq<byte>, at: nat, left: nat, used: word32, k: nat, there: nat)
    returns (t': Table)
    requires AllGood(b, at, k, |t|) && k <= left && there == at + 56 * k
    ensures |t'| == |t| && ReadRecords(t, b, at, left, used) == ReadRecords(t', b, there, left - k, used)
    decreases k
  {
    if k == 0 {
      t' := t;
    } else {
      var next := at + 56;
      AllGoodStep(b, at, next, k, |t|);
      FirstRead(t, b, at, left, used);
      t' := ReadsOn(AfterFirst(t, b, at), b, next, left - 1, used, k - 1, there);
    }
  }

  lemma ShiftRecords(b: seq<byte>, at: nat, there: nat, k: nat, j: nat, n: nat)
    requires there == at + 56 * k
    ensures RecordGood(b, there, j, n) <==> RecordGood(b, at, k + j, n)
    ensures RecordGood(b, there, j, n) ==>
              IndexOf(b, there, j) == IndexOf(b, at, k + j) && Described(b, there, j) == Described(b, at, k + j)
  {
    assert there + 56 * j == at + 56 * (k + j);
  }

  lemma ShiftLast(b: seq<byte>, at: nat, there: nat, count: nat, n: nat, k: nat, i: nat)
    requires LastFor(b, at, count, n, k, i) && there == at + 56 * k
    ensures LastFor(b, there, count - k, n, 0, i) && Described(b, there, 0) == Described(b, at, k)
  {
    ShiftRecords(b, at, there, k, 0, n);
    forall j | 0 < j < count - k
      ensures RecordGood(b, there, j, n) && IndexOf(b, there, j) != i
    {
      ShiftRecords(b, at, there, k, j, n);
      assert RecordGood(b, at, k + j, n);
    }
  }

  // Record k, at byte `there`, is the last for node i.
  lemma ThatRecordWins(t: Table, size: nat, b: seq<byte>, at: nat, there: nat, left: nat, rest: nat, used: word32,
                       k: nat, i: nat, l: Loaded, n: Node)
    requires |t| == size && 0 < i < size && AllGood(b, at, k, size) && there == at + 56 * k && left == k + rest
    requires LastFor(b, there, rest, size, 0, i) && n == Described(b, there, 0)
    requires l == ReadRecords(t, b, at, left, used)
    ensures i < |l.table| && l.table[i] == n
  {
    var t' := ReadsOn(t, b, at, left, used, k, there);
    FirstWins(t', size, b, there, rest, used, i, l, n);
  }

  /** A node comes to be what the last record for it describes. */
  lemma LastRecordWins(t: Table, b: seq<byte>, at: nat, left: nat, used: word32, k: nat, i: nat, l: Loaded)
    requires AllGood(b, at, left, |t|) && 0 < i < |t| && LastFor(b, at, left, |t|, k, i)
    requires l == ReadRecords(t, b, at, left, used)
    ensures i < |l.table| && l.table[i] == Described(b, at, k)
  {
    var there := at + 56 * k;
    ShiftLast(b, at, there, left, |t|, k, i);
    ThatRecordWins(t, |t|, b, at, there, left, left - k, used, k, i, l, Described(b, at, k));
  }

  // What the 56 bytes at `at` say of a node, field by field: anything but 0 marks a directory, the
  // name ends at its NUL.
  function Told(b: seq<byte>, at: nat): Node
    requires at + 56 <= |b|
  {
    Node(CName(b[at + 4..at + 36]), b[at + 36] != 0, Signed(FromLe32(b[at + 40..at + 44])),
         FromLe32(b[at + 44..at + 48]), FromLe32(b[at + 48..at + 52]), FromLe32(b[at + 52..at + 56]), [], true)
  }

  lemma ToldIsDecoded(b: seq<byte>, at: nat, rec: seq<byte>)
    requires at + 56 <= |b| && rec == b[at + 4..at + 56]
    ensures Decode(rec) == Told(b, at)
  {
    SliceOfSlice(b, at + 4, rec, 0, 32);
    SliceOfSlice(b, at + 4, rec, 36, 40);
    SliceOfSlice(b, at + 4, rec, 40, 44);
    SliceOfSlice(b, at + 4, rec, 44, 48);
    SliceOfSlice(b, at + 4, rec, 48, 52);
    assert rec[..32] == rec[0..32] && rec[32] == b[at + 36];
  }

  // Contents aside
  function Bare(n: Node): Node {
    n.(data := [])
  }

  lemma {:induction false} OnlyContents(t: Table, b: seq<byte>, at: nat, j: nat, used: word32, capacity: nat, i: nat)
    requires j <= |t| && i < |t|
    ensures Bare(ReadContents(t, b, at, j, used, capacity).table[i]) == Bare(t[i])
    ensures !HasData(t[i]) ==> ReadContents(t, b, at, j, used, capacity).table[i] == t[i]
    decreases |t| - j
  {
    if j == |t| {
    } else if !HasData(t[j]) {
      OnlyContents(t, b, at, j + 1, used, capacity, i);
    } else {
      var l := ReadFile(t, b, at, j, used, capacity);
      if l.code == Ok {
        OnlyContents(l.table, b, at + t[j].size, j + 1, l.used, capacity, i);
      }
    }
  }

  // The disk has the header of an image of `count` nodes.
  ghost predicate Headed(b: seq<byte>, at: nat, count: word32) {
    |b| >= at + 20 && Ours(b, at) && Holds(b, at + 12, Le32(count))
  }

  lemma HeadedLoads(t: Table, b: seq<byte>, at: nat, count: word32, used: word32, capacity: nat)
    requires 0 < |t| && count <= |t| && Headed(b, at, count)
    ensures Load(t, b, at, used, capacity) == LoadNodes(|t|, b, at, count, used, capacity)
  {
    Le32RoundTrip(count);
    assert b[at + 8..at + 12] == [1, 0, 0, 0];
  }

  /** fs_load on any disk with the header of an image: a record that is cut off or names no slot of the
      table is EINVAL and takes nothing of the region; otherwise, whatever becomes of the contents,
      every node but the root is what the last record for it tells, or blank without one. */
  lemma AnyImage(t: Table, b: seq<byte>, count: word32, used: word32, capacity: nat, l: Loaded)
    requires 0 < |t| && count <= |t| && Headed(b, 1048576, count)
    requires l == Load(t, b, FS_START * SECTOR, used, capacity)
    ensures !AllGood(b, 1048596, count, |t|) ==> l.code == EInval && l.used == used
    ensures AllGood(b, 1048596, count, |t|) ==>
              && (forall k: nat, i: nat :: 0 < i < |t| && LastFor(b, 1048596, count, |t|, k, i) ==>
                    Bare(l.table[i]) == Told(b, 1048596 + 56 * k))
              && (forall i: nat :: 0 < i < |t| && NoneFor(b, 1048596, count, |t|, i) ==> l.table[i] == BLANK)
  {
    var at, empty := 1048596, Fresh(|t|);
    HeadedLoads(t, b, 1048576, count, used, capacity);
    RecordsReadIff(empty, b, at, count, used);
    var r := ReadRecords(empty, b, at, count, used);
    if AllGood(b, at, count, |t|) {
      forall k: nat, i: nat | 0 < i < |t| && LastFor(b, at, count, |t|, k, i)
        ensures Bare(l.table[i]) == Told(b, at + 56 * k)
      {
        LastRecordWins(empty, b, at, count, used, k, i, r);
        ToldIsDecoded(b, at + 56 * k, b[at + 56 * k + 4..at + 56 * k + 56]);
        OnlyContents(r.table, b, RecordsEnd(1048576, count), 0, used, capacity, i);
      }
      forall i: nat | 0 < i < |t| && NoneFor(b, at, count, |t|, i)
        ensures l.table[i] == BLANK
      {
        Untouched(empty, b, at, count, used, i);
        OnlyContents(r.table, b, RecordsEnd(1048576, count), 0, used, capacity, i);
      }
    } else {
      FailKeepsUsed(empty, b, at, count, used);
    }
  }

  lemma {:induction false} FailKeepsUsed(t: Table, b: seq<byte>, at: nat, left: nat, used: word32)
    ensures ReadRecords(t, b, at, left, used).used == used
    decreases left
  {
    if left == 0 {
    } else {
      FirstRead(t, b, at, left, used);
      if RecordGood(b, at, 0, |t|) {
        FailKeepsUsed(AfterFirst(t, b, at), b, at + 56, left - 1, used);
      }
    }
  }
}
