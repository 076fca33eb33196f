/** The public operations of filesystem.c as functions on the node table, and what every
    run of them keeps. */
module FsOps {
  import opened Bytes
  import opened Results
  import opened FsTree
  import opened FsPath
  import Heap
  import Pages

  // Result of splitting a path into (parent directory, leaf); parent is -1 on failure.
  datatype Split = Split(table: Table, parent: int, leaf: seq<byte>)

  // `node` is the node created or found, -1 if there is none.
  datatype Outcome = Outcome(table: Table, code: Code, node: int)

  function NewDir(slot: Node, name: seq<byte>, parent: int, now: word32): Node {
    slot.(live := true, isDir := true, parent := parent, name := name, ctime := now, mtime := now)
  }

  function NewFile(name: seq<byte>, parent: int, now: word32): Node {
    Node(name, false, parent, 0, now, now, [], true)
  }

  function SplitNames(t: Table, cur: int, names: seq<seq<byte>>, create: bool, now: word32): (s: Split)
    requires 0 <= cur < |t| && names != []
    ensures |s.table| == |t| && -1 <= s.parent < |t|
    decreases |names|
  {
    if |names| == 1 then Split(t, cur, names[0])
    else
      var next := FindChild(t, cur, names[0]);
      if next < 0 then
        if !create then Split(t, -1, [])
        else
          var slot := FreeSlot(t);
          if slot < 0 then Split(t, -1, [])
          else SplitNames(t[slot := NewDir(t[slot], names[0], cur, now)], slot, names[1..], create, now)
      else if !t[next].isDir then Split(t, -1, [])
      else SplitNames(t, next, names[1..], create, now)
  }

  function SplitParent(t: Table, path: seq<byte>, create: bool, now: word32): (s: Split)
    requires |t| > 0
    ensures |s.table| == |t| && -1 <= s.parent < |t|
  {
    if Components(path) == [] then Split(t, -1, []) else SplitNames(t, 0, Components(path), create, now)
  }

  function Create(t: Table, path: seq<byte>, now: word32): (o: Outcome)
    requires |t| > 0
    ensures |o.table| == |t|
  {
    var s := SplitParent(t, path, true, now);
    if s.parent < 0 then Outcome(s.table, EInval, -1)
    else
      var found := FindChild(s.table, s.parent, s.leaf);
      if found >= 0 then
        if s.table[found].isDir then Outcome(s.table, EInval, -1)
        else Outcome(s.table[found := s.table[found].(size := 0, data := [], mtime := now)], Ok, found)
      else
        var slot := FreeSlot(s.table);
        if slot < 0 then Outcome(s.table, ENoSpc, -1)
        else Outcome(s.table[slot := NewFile(s.leaf, s.parent, now)], Ok, slot)
  }

  function Mkdir(t: Table, path: seq<byte>, now: word32): (o: Outcome)
    requires |t| > 0
    ensures |o.table| == |t|
  {
    var s := SplitParent(t, path, true, now);
    if s.parent < 0 then Outcome(s.table, EInval, -1)
    else if FindChild(s.table, s.parent, s.leaf) >= 0 then Outcome(s.table, EInval, -1)
    else
      var slot := FreeSlot(s.table);
      if slot < 0 then Outcome(s.table, ENoSpc, -1)
      else Outcome(s.table[slot := NewDir(s.table[slot], s.leaf, s.parent, now)], Ok, slot)
  }

  predicate HasChild(t: Table, dir: int) {
    exists k :: 0 <= k < |t| && t[k].live && t[k].parent == dir
  }

  function Rmdir(t: Table, path: seq<byte>): (o: Outcome)
    requires |t| > 0
    ensures |o.table| == |t|
  {
    var i := Lookup(t, path);
    if i < 0 || i == 0 || !t[i].isDir then Outcome(t, EInval, -1)
    else if HasChild(t, i) then Outcome(t, EBusy, -1)
    else Outcome(t[i := t[i].(live := false)], Ok, i)
  }

  function Delete(t: Table, path: seq<byte>): (o: Outcome)
    requires |t| > 0
    ensures |o.table| == |t|
  {
    var i := Lookup(t, path);
    if i < 0 || i == 0 then Outcome(t, ENoEnt, -1)
    else if t[i].isDir then Outcome(t, EInval, -1)
    else Outcome(t[i := t[i].(live := false, size := 0, data := [])], Ok, i)
  }

  /** Appending to the node a FileEntry pointer designates (-1 for NULL); `granted` says
      whether the region had room for the grown copy. */
  function Append(t: Table, f: int, data: seq<byte>, granted: bool, now: word32): (o: Outcome)
    ensures |o.table| == |t|
  {
    if !(0 <= f < |t|) || !t[f].live || t[f].isDir then Outcome(t, EInval, -1)
    else if t[f].size + |data| > MAX_FILE_SIZE then Outcome(t, ENoSpc, -1)
    else if !granted then Outcome(t, ENoMem, -1)
    else Outcome(t[f := t[f].(data := t[f].data + data, size := t[f].size + |data|, mtime := now)], Ok, f)
  }

  // The outcome, and how much of the region is used afterwards
  datatype Appended = Appended(outcome: Outcome, used: word32)

  /** fs_append with the copy allocated from a region of which `used` of `capacity` bytes are
      taken: region_alloc is asked only once the other checks have passed. */
  function AppendFrom(t: Table, f: int, data: seq<byte>, used: word32, capacity: nat, now: word32): (a: Appended)
    ensures |a.outcome.table| == |t|
  {
    if !(0 <= f < |t|) || !t[f].live || t[f].isDir || t[f].size + |data| > MAX_FILE_SIZE then
      Appended(Append(t, f, data, false, now), used)
    else
      match Heap.RegionBump(used, capacity, t[f].size + |data|)
      case Full => Appended(Append(t, f, data, false, now), used)
      case Taken(_, used') => Appended(Append(t, f, data, true, now), used')
  }

  /** An append succeeds exactly for a live file within the size limit, if the region, which lies
      in the arena, has room for the whole grown file rounded up to 8 bytes: the old copy's room
      is not used again. */
  lemma AppendSucceedsIff(t: Table, f: int, data: seq<byte>, used: word32, capacity: nat, now: word32)
    requires used <= capacity <= Pages.ARENA_PAGES * Pages.PAGE_SIZE
    ensures var a := AppendFrom(t, f, data, used, capacity, now);
            if !(0 <= f < |t| && t[f].live && !t[f].isDir) then a.outcome.code == EInval && a.used == used
            else if t[f].size + |data| > MAX_FILE_SIZE then a.outcome.code == ENoSpc && a.used == used
            else
              var need := (t[f].size + |data| + 7) / 8 * 8;
              && a.outcome.code == (if used + need <= capacity then Ok else ENoMem)
              && a.used == (if used + need <= capacity then used + need else used)
  {
  }

  function Moved(n: Node, parent: int, name: seq<byte>, now: word32): Node {
    n.(parent := parent, name := name, mtime := now)
  }

  function Rename(t: Table, oldPath: seq<byte>, newPath: seq<byte>, now: word32): (o: Outcome)
    requires |t| > 0
    ensures |o.table| == |t|
  {
    var i := Lookup(t, oldPath);
    if i < 0 || i == 0 then Outcome(t, ENoEnt, -1)
    else
      var s := SplitParent(t, newPath, true, now);
      if s.parent < 0 then Outcome(s.table, EInval, -1)
      else if FindChild(s.table, s.parent, s.leaf) >= 0 then Outcome(s.table, EInval, -1)
      else Outcome(s.table[i := Moved(s.table[i], s.parent, s.leaf, now)], Ok, i)
  }

  datatype Op =
    | OpCreate(path: seq<byte>)
    | OpMkdir(path: seq<byte>)
    | OpRmdir(path: seq<byte>)
    | OpDelete(path: seq<byte>)
    | OpAppend(node: int, bytes: seq<byte>, granted: bool)
    | OpRename(path: seq<byte>, newPath: seq<byte>)

  function Apply(t: Table, op: Op, now: word32): (o: Outcome)
    requires |t| > 0
    ensures |o.table| == |t|
  {
    match op
    case OpCreate(path) => Create(t, path, now)
    case OpMkdir(path) => Mkdir(t, path, now)
    case OpRmdir(path) => Rmdir(t, path)
    case OpDelete(path) => Delete(t, path)
    case OpAppend(f, data, granted) => Append(t, f, data, granted, now)
    case OpRename(path, newPath) => Rename(t, path, newPath, now)
  }

  // Paths are C strings: no NUL inside.
  predicate CString(op: Op) {
    && (op.OpAppend? || 0 !in op.path)
    && (op.OpRename? ==> 0 !in op.newPath)
  }

  // The destination lies strictly below the source, as a list of names.
  predicate IntoItself(oldPath: seq<byte>, newPath: seq<byte>) {
    var p, q := Components(oldPath), Components(newPath);
    |p| < |q| && p == q[..|p|]
  }

  // ------------------------------------------------------------------
  // Splitting a path
  // ------------------------------------------------------------------

  // t' is t with some directories added.
  ghost predicate OnlyDirsAdded(t: Table, t': Table) {
    && |t'| == |t|
    && forall k :: 0 <= k < |t| ==> t'[k] == t[k] || (!t[k].live && t'[k].live && t'[k].isDir)
  }

  lemma NewDirInTree(t: Table, slot: int, name: seq<byte>, parent: int, now: word32)
    requires Tree(t) && 0 < slot < |t| && !t[slot].live
    requires 0 <= parent < |t| && t[parent].live && t[parent].isDir && GoodName(name)
    requires FindChild(t, parent, name) == -1
    ensures Tree(t[slot := NewDir(t[slot], name, parent, now)])
  {
    assert DataOk(t[slot]);
    AddNode(t, slot, NewDir(t[slot], name, parent, now));
  }

  // One step into a missing directory: it is created in slot, below cur.
  lemma StepIntoNew(t: Table, cur: int, done: seq<seq<byte>>, name: seq<byte>, slot: int, now: word32)
    requires Tree(t) && 0 <= cur < |t| && t[cur].live && t[cur].isDir && Walk(t, 0, done) == cur
    requires GoodName(name) && FindChild(t, cur, name) == -1 && 0 < slot < |t| && !t[slot].live
    ensures var t1 := t[slot := NewDir(t[slot], name, cur, now)];
            Tree(t1) && Walk(t1, 0, done + [name]) == slot && OnlyDirsAdded(t, t1)
  {
    var t1 := t[slot := NewDir(t[slot], name, cur, now)];
    NewDirInTree(t, slot, name, cur, now);
    WalkSurvives(t, t1, done, {});
    WalkToChild(t1, slot, done);
  }

  lemma StepIntoOld(t: Table, cur: int, done: seq<seq<byte>>, name: seq<byte>)
    requires Shape(t) && 0 <= cur < |t| && Walk(t, 0, done) == cur && FindChild(t, cur, name) >= 0
    ensures Walk(t, 0, done + [name]) == FindChild(t, cur, name) > 0
  {
    assert (done + [name])[..|done|] == done;
    WalkSnoc(t, done + [name]);
  }

  // `done` names lead to cur, `names` are still to be split: the split went well.
  ghost predicate SplitWell(t: Table, done: seq<seq<byte>>, names: seq<seq<byte>>, s: Split)
    requires names != []
  {
    && Tree(s.table) && OnlyDirsAdded(t, s.table)
    && (s.parent >= 0 ==>
          && s.leaf == names[|names| - 1]
          && Walk(s.table, 0, done + names[..|names| - 1]) == s.parent < |s.table|
          && s.table[s.parent].live && s.table[s.parent].isDir)
  }

  lemma SplitWellStep(t: Table, t1: Table, done: seq<seq<byte>>, names: seq<seq<byte>>, s: Split)
    requires |names| > 1 && OnlyDirsAdded(t, t1)
    requires SplitWell(t1, done + [names[0]], names[1..], s)
    ensures SplitWell(t, done, names, s)
  {
    var rest := names[1..];
    assert done + [names[0]] + rest[..|rest| - 1] == done + names[..|names| - 1];
  }

  lemma {:induction false} SplitNamesKeeps(
    t: Table, cur: int, done: seq<seq<byte>>, names: seq<seq<byte>>, now: word32, s: Split)
    requires Tree(t) && 0 <= cur < |t| && t[cur].live && t[cur].isDir
    requires names != [] && Walk(t, 0, done) == cur
    requires forall k :: 0 <= k < |names| ==> GoodName(names[k])
    requires s == SplitNames(t, cur, names, true, now)
    ensures SplitWell(t, done, names, s)
    decreases |names|
  {
    var next := FindChild(t, cur, names[0]);
    var slot := FreeSlot(t);
    if |names| == 1 {
      assert done + names[..0] == done;
    } else if next < 0 && slot >= 0 {
      var t1 := t[slot := NewDir(t[slot], names[0], cur, now)];
      StepIntoNew(t, cur, done, names[0], slot, now);
      SplitNamesKeeps(t1, slot, done + [names[0]], names[1..], now, s);
      SplitWellStep(t, t1, done, names, s);
    } else if next >= 0 && t[next].isDir {
      StepIntoOld(t, cur, done, names[0]);
      SplitNamesKeeps(t, next, done + [names[0]], names[1..], now, s);
      SplitWellStep(t, t, done, names, s);
    }
  }

  // s is the table after the directories of a path with these names were found or made, its
  // parent the node the directory part denotes.
  ghost predicate SplitFor(t: Table, names: seq<seq<byte>>, s: Split) {
    && Tree(s.table) && OnlyDirsAdded(t, s.table)
    && names != [] && s.leaf == names[|names| - 1] && GoodName(s.leaf)
    && Walk(s.table, 0, names[..|names| - 1]) == s.parent && 0 <= s.parent < |s.table|
    && s.table[s.parent].live && s.table[s.parent].isDir
  }

  /** Splitting a path keeps the tree, adds nothing but directories, and on success the
      directory part of the path denotes the returned parent. */
  lemma SplitKeeps(t: Table, path: seq<byte>, now: word32)
    requires Tree(t) && 0 !in path
    ensures var s := SplitParent(t, path, true, now);
            && Tree(s.table) && OnlyDirsAdded(t, s.table)
            && (s.parent >= 0 ==> SplitFor(t, Components(path), s))
  {
    var names := Components(path);
    ComponentsGood(path);
    if names != [] {
      SplitNamesKeeps(t, 0, [], names, now, SplitParent(t, path, true, now));
      assert [] + names[..|names| - 1] == names[..|names| - 1];
    }
  }
}
