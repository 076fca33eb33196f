/** Exactly when the filesystem's creating operations succeed, with which error they fail, and what
    they leave alone: in terms of how much of the path exists and how many slots are free. */
module FsOutcomes {
  import opened Bytes
  import opened Results
  import opened FsTree
  import opened FsPath
  import opened FsOps

  // ------------------------------------------------------------------
  // How much of a path exists
  // ------------------------------------------------------------------

  /** How many of the names, from the first on, denote a node below cur. */
  function Known(t: Table, cur: int, names: seq<seq<byte>>): (k: nat)
    requires 0 <= cur < |t|
    ensures k <= |names| && Walk(t, cur, names[..k]) >= 0
    ensures k < |names| ==> Walk(t, cur, names[..k + 1]) < 0
    ensures k == |names| ==> Walk(t, cur, names) >= 0
    decreases |names|
  {
    if names == [] then 0
    else
      var next := FindChild(t, cur, names[0]);
      if next < 0 then 0
      else
        var k := Known(t, next, names[1..]);
        PrefixStep(t, cur, names, k);
        PrefixStep(t, cur, names, if k < |names| - 1 then k + 1 else k);
        k + 1
  }

  lemma PrefixStep(t: Table, cur: int, names: seq<seq<byte>>, k: nat)
    requires 0 <= cur < |t| && k < |names|
    ensures Walk(t, cur, names[..k + 1]) ==
              var next := FindChild(t, cur, names[0]); if next < 0 then -1 else Walk(t, next, names[1..][..k])
  {
    assert names[..k + 1] == [names[0]] + names[1..][..k];
    WalkCons(t, cur, names[0], names[1..][..k]);
  }

  /** No file stands where a directory is needed. */
  ghost predicate Clear(t: Table, cur: int, names: seq<seq<byte>>)
    requires 0 <= cur < |t|
  {
    forall j :: 0 <= j < |names| ==> DirOrNothing(t, Walk(t, cur, names[..j]))
  }

  predicate DirOrNothing(t: Table, i: int)
    requires -1 <= i < |t|
  {
    i >= 0 ==> t[i].isDir
  }

  lemma ClearStep(t: Table, cur: int, names: seq<seq<byte>>)
    requires 0 <= cur < |t| && |names| > 1 && t[cur].isDir && FindChild(t, cur, names[0]) >= 0
    ensures Clear(t, cur, names) <==> Clear(t, FindChild(t, cur, names[0]), names[1..])
  {
    var next, rest := FindChild(t, cur, names[0]), names[1..];
    forall j | 0 <= j < |rest|
      ensures Walk(t, next, rest[..j]) == Walk(t, cur, names[..j + 1])
    {
      PrefixStep(t, cur, names, j);
    }
    if Clear(t, cur, names) {
      forall j | 0 <= j < |rest|
        ensures DirOrNothing(t, Walk(t, next, rest[..j]))
      {
        assert DirOrNothing(t, Walk(t, cur, names[..j + 1]));
      }
    }
    if Clear(t, next, rest) {
      forall j | 0 <= j < |names|
        ensures DirOrNothing(t, Walk(t, cur, names[..j]))
      {
        if j > 0 {
          assert DirOrNothing(t, Walk(t, next, rest[..j - 1]));
        }
      }
    }
  }

  // Nothing of the names but cur exists, so nothing stands in the way.
  lemma ClearOfNothing(t: Table, cur: int, names: seq<seq<byte>>)
    requires 0 <= cur < |t| && names != [] && t[cur].isDir && (|names| == 1 || FindChild(t, cur, names[0]) < 0)
    ensures Clear(t, cur, names)
  {
    forall j | 0 <= j < |names|
      ensures DirOrNothing(t, Walk(t, cur, names[..j]))
    {
      if j > 0 {
        PrefixStep(t, cur, names, j - 1);
      }
    }
  }

  lemma FileInTheWay(t: Table, cur: int, names: seq<seq<byte>>)
    requires 0 <= cur < |t| && |names| > 1
    requires FindChild(t, cur, names[0]) >= 0 && !t[FindChild(t, cur, names[0])].isDir
    ensures !Clear(t, cur, names)
  {
    PrefixStep(t, cur, names, 0);
    assert !DirOrNothing(t, Walk(t, cur, names[..1]));
  }

  // ------------------------------------------------------------------
  // Free slots
  // ------------------------------------------------------------------

  function FreeSlots(t: Table): set<int> {
    set i | 1 <= i < |t| && !t[i].live
  }

  function Free(t: Table): nat {
    |FreeSlots(t)|
  }

  lemma SlotTaken(t: Table, slot: int, node: Node)
    requires 0 < slot < |t| && !t[slot].live && node.live
    ensures Free(t[slot := node]) == Free(t) - 1
  {
    assert FreeSlots(t[slot := node]) == FreeSlots(t) - {slot};
  }

  lemma NoSlot(t: Table)
    requires |t| > 0
    ensures FreeSlot(t) < 0 <==> Free(t) == 0
  {
    if FreeSlot(t) < 0 {
      assert FreeSlots(t) == {};
    } else {
      assert FreeSlot(t) in FreeSlots(t);
    }
  }

  // ------------------------------------------------------------------
  // Splitting
  // ------------------------------------------------------------------

  // t' is t with directories added, all of them dated now.
  ghost predicate NewDirs(t: Table, t': Table, now: word32) {
    && |t'| == |t|
    && forall j :: 0 <= j < |t| ==>
         t'[j] == t[j] || (!t[j].live && t'[j].live && t'[j].isDir && t'[j].ctime == t'[j].mtime == now)
  }

  // Below a new directory there is nothing.
  lemma NothingBelow(t: Table, slot: int, node: Node, name: seq<byte>)
    requires Shape(t) && 0 < slot < |t| && !t[slot].live && node.parent != slot
    ensures FindChild(t[slot := node], slot, name) == -1
  {
    var t' := t[slot := node];
    forall k | 0 <= k < |t|
      ensures !IsChild(t'[k], slot, name)
    {
      if 0 < k && k != slot && t[k].live {
        assert Linked(t, k);
      }
    }
  }

  // A split that has to make all directories: as many slots as directories are needed.
  ghost predicate SplitMakes(t: Table, dirs: nat, s: Split, leaf: seq<byte>, now: word32) {
    && NewDirs(t, s.table, now)
    && (s.parent >= 0 <==> Free(t) >= dirs)
    && (s.parent >= 0 ==>
          s.leaf == leaf && Free(s.table) == Free(t) - dirs && FindChild(s.table, s.parent, leaf) == -1)
    && (s.parent < 0 ==> Free(s.table) == 0)
  }

  lemma {:induction false} SplitNew(t: Table, cur: int, names: seq<seq<byte>>, now: word32, s: Split)
    requires Tree(t) && 0 <= cur < |t| && t[cur].live && t[cur].isDir && names != []
    requires forall k :: 0 <= k < |names| ==> GoodName(names[k])
    requires FindChild(t, cur, names[0]) < 0 && s == SplitNames(t, cur, names, true, now)
    ensures SplitMakes(t, |names| - 1, s, names[|names| - 1], now)
    decreases |names|
  {
    var slot := FreeSlot(t);
    NoSlot(t);
    if |names| > 1 && slot >= 0 {
      var dir := NewDir(t[slot], names[0], cur, now);
      NewDirInTree(t, slot, names[0], cur, now);
      NothingBelow(t, slot, dir, names[1]);
      SlotTaken(t, slot, dir);
      SplitNew(t[slot := dir], slot, names[1..], now, s);
    }
  }

  // What a split does: nothing if a file stands in the way; else it makes what is missing of the
  // directories, and finds of the leaf what was there.
  ghost predicate SplitDoes(t: Table, cur: int, names: seq<seq<byte>>, s: Split, now: word32)
    requires 0 <= cur < |t| && names != []
  {
    var k, up := Known(t, cur, names), |names| - 1;
    if !Clear(t, cur, names) then s.parent < 0 && s.table == t
    else if k >= up then
      && s.table == t && s.leaf == names[up] && s.parent == Walk(t, cur, names[..up]) >= 0
      && FindChild(t, s.parent, s.leaf) == (if k == |names| then Walk(t, cur, names) else -1)
    else SplitMakes(t, up - k, s, names[up], now)
  }

  lemma {:induction false} SplitExact(t: Table, cur: int, names: seq<seq<byte>>, now: word32, s: Split)
    requires Tree(t) && 0 <= cur < |t| && t[cur].live && t[cur].isDir && names != []
    requires forall k :: 0 <= k < |names| ==> GoodName(names[k])
    requires s == SplitNames(t, cur, names, true, now)
    ensures SplitDoes(t, cur, names, s, now)
    decreases |names|
  {
    var next := FindChild(t, cur, names[0]);
    if |names| == 1 {
      ClearOfNothing(t, cur, names);
      assert names[..0] == [] && names[1..] == [];
    } else if next < 0 {
      ClearOfNothing(t, cur, names);
      SplitNew(t, cur, names, now, s);
    } else if !t[next].isDir {
      FileInTheWay(t, cur, names);
    } else {
      SplitExact(t, next, names[1..], now, s);
      SplitInto(t, cur, names, next, names[1..], s, now);
    }
  }

  lemma KnownStep(t: Table, cur: int, names: seq<seq<byte>>, next: int, rest: seq<seq<byte>>)
    requires 0 <= cur < |t| && |names| > 1 && next == FindChild(t, cur, names[0]) >= 0 && rest == names[1..]
    ensures rest != [] && rest[|rest| - 1] == names[|names| - 1]
    ensures Known(t, cur, names) == Known(t, next, rest) + 1
    ensures Walk(t, cur, names) == Walk(t, next, rest)
    ensures Walk(t, cur, names[..|names| - 1]) == Walk(t, next, rest[..|rest| - 1])
  {
    PrefixStep(t, cur, names, |names| - 2);
  }

  lemma SplitStep(
    t: Table, cur: int, names: seq<seq<byte>>, next: int, rest: seq<seq<byte>>, s: Split, now: word32)
    requires 0 <= cur < |t| && 0 <= next < |t| && names != [] && rest != [] && |names| == |rest| + 1
    requires Clear(t, cur, names) <==> Clear(t, next, rest)
    requires rest[|rest| - 1] == names[|names| - 1]
    requires Known(t, cur, names) == Known(t, next, rest) + 1
    requires Walk(t, cur, names) == Walk(t, next, rest)
    requires Walk(t, cur, names[..|names| - 1]) == Walk(t, next, rest[..|rest| - 1])
    requires SplitDoes(t, next, rest, s, now)
    ensures SplitDoes(t, cur, names, s, now)
  {
  }

  lemma SplitInto(
    t: Table, cur: int, names: seq<seq<byte>>, next: int, rest: seq<seq<byte>>, s: Split, now: word32)
    requires 0 <= cur < |t| && t[cur].isDir && |names| > 1 && next == FindChild(t, cur, names[0]) >= 0
    requires rest == names[1..] && SplitDoes(t, next, rest, s, now)
    ensures SplitDoes(t, cur, names, s, now)
  {
    ClearStep(t, cur, names);
    KnownStep(t, cur, names, next, rest);
    SplitStep(t, cur, names, next, rest, s, now);
  }

  // ------------------------------------------------------------------
  // The three operations that create
  // ------------------------------------------------------------------

  // The code of an operation that puts a new node where names lead, taking `leaf` free slots beside
  // those for the directories missing; k of the names denote something.
  function CodeFor(clear: bool, names: nat, k: nat, free: nat, leaf: nat): Code
  {
    if names == 0 || !clear || k >= names then EInval
    else if free >= names - 1 - k + leaf then Ok
    else if free >= names - 1 - k then ENoSpc
    else EInval
  }

  // Node i aside, every node of t is as it was.
  ghost predicate OthersSame(t: Table, t': Table, i: int) {
    |t'| == |t| && forall j :: 0 <= j < |t| && t[j].live && j != i ==> t'[j] == t[j]
  }

  // The nodes of t' that t does not have, i aside, are directories dated now.
  ghost predicate AddedDirs(t: Table, t': Table, i: int, now: word32) {
    && |t'| == |t|
    && forall j :: 0 <= j < |t| && j != i && t'[j] != t[j] ==>
         !t[j].live && t'[j].live && t'[j].isDir && t'[j].ctime == t'[j].mtime == now
  }

  lemma SplitOutcome(t: Table, path: seq<byte>, now: word32)
    requires Tree(t) && 0 !in path
    ensures Components(path) == [] ==> SplitParent(t, path, true, now) == Split(t, -1, [])
    ensures Components(path) != [] ==>
              SplitDoes(t, 0, Components(path), SplitParent(t, path, true, now), now)
  {
    if Components(path) != [] {
      ComponentsGood(path);
      SplitExact(t, 0, Components(path), now, SplitParent(t, path, true, now));
    }
  }

  /** create succeeds exactly if the path has names, no file stands in the way, and it denotes a
      file, or nothing and there are slots for the missing directories and the file. One slot too
      few is ENOSPC, fewer EINVAL, as is a path that denotes a directory. */
  lemma CreateSucceedsIff(t: Table, path: seq<byte>, now: word32)
    requires Tree(t) && 0 !in path
    ensures var names := Components(path);
            var clear, k, i := Clear(t, 0, names), Known(t, 0, names), Walk(t, 0, names);
            Create(t, path, now).code ==
              if names != [] && clear && k == |names| && !t[i].isDir then Ok
              else CodeFor(clear, |names|, k, Free(t), 1)
  {
    var names, s := Components(path), SplitParent(t, path, true, now);
    SplitOutcome(t, path, now);
    if s.parent >= 0 {
      NoSlot(s.table);
    }
  }

  // How many directories are missing on the way to the leaf
  function Missing(names: nat, k: nat): nat {
    if k < names then names - 1 - k else 0
  }

  lemma {:induction false} WalkOfKnown(t: Table, cur: int, names: seq<seq<byte>>)
    requires 0 <= cur < |t|
    ensures Known(t, cur, names) == |names| <==> Walk(t, cur, names) >= 0
    decreases |names|
  {
    if names == [] {
    } else {
      var next := FindChild(t, cur, names[0]);
      if next >= 0 {
        WalkOfKnown(t, next, names[1..]);
      }
    }
  }

  // The table after a split: what was there is there, only directories dated now were added.
  lemma SplitLeaves(t: Table, names: seq<seq<byte>>, s: Split, now: word32)
    requires |t| > 0 && names != [] && SplitDoes(t, 0, names, s, now)
    ensures OthersSame(t, s.table, -1) && AddedDirs(t, s.table, -1, now)
    ensures s.parent >= 0 ==> |s.table| > 0 && Free(s.table) == Free(t) - Missing(|names|, Known(t, 0, names))
    ensures s.parent >= 0 ==> var i := FindChild(s.table, s.parent, s.leaf);
              if Walk(t, 0, names) >= 0 then s.table == t && i == Walk(t, 0, names) else i == -1
  {
    WalkOfKnown(t, 0, names);
  }

  // A new node in a free slot of the table t1 a split of t left
  lemma LeafPut(t: Table, t1: Table, slot: int, node: Node, now: word32)
    requires OthersSame(t, t1, -1) && AddedDirs(t, t1, -1, now)
    requires 0 < slot < |t1| && !t1[slot].live && node.live
    ensures var t' := t1[slot := node];
            OthersSame(t, t', slot) && AddedDirs(t, t', slot, now) && !t[slot].live && Free(t') == Free(t1) - 1
  {
    SlotTaken(t1, slot, node);
  }

  // What an operation that makes a new node leaves: `missing` directories and the node, both dated
  // now, in slots that were free.
  ghost predicate LeafAdded(t: Table, t': Table, node: int, missing: nat, now: word32) {
    && 0 <= node < |t| && OthersSame(t, t', node) && AddedDirs(t, t', node, now)
    && !t[node].live && t'[node].live && t'[node].ctime == t'[node].mtime == now
    && Free(t') == Free(t) - missing - 1
  }

  // A split, and a leaf put where nothing was
  lemma SplitAndPut(t: Table, names: seq<seq<byte>>, s: Split, slot: int, node: Node, now: word32)
    requires |t| > 0 && names != [] && SplitDoes(t, 0, names, s, now) && s.parent >= 0
    requires 0 < slot < |s.table| && !s.table[slot].live && node.live && node.ctime == node.mtime == now
    ensures LeafAdded(t, s.table[slot := node], slot, Missing(|names|, Known(t, 0, names)), now)
  {
    SplitLeaves(t, names, s, now);
    LeafPut(t, s.table, slot, node, now);
  }

  /** What create leaves: an existing file is emptied and dated, a new one is made with both dates
      set; beside it only missing directories are made, and every other node is untouched. */
  lemma CreateLeaves(t: Table, path: seq<byte>, now: word32, o: Outcome, names: seq<seq<byte>>)
    requires Tree(t) && 0 !in path && o == Create(t, path, now) && names == Components(path)
    ensures o.code != Ok ==> OthersSame(t, o.table, -1) && AddedDirs(t, o.table, -1, now)
    ensures o.code == Ok ==>
              var i := Walk(t, 0, names);
              if i >= 0 then o.node == i && o.table == t[i := t[i].(size := 0, data := [], mtime := now)]
              else LeafAdded(t, o.table, o.node, Missing(|names|, Known(t, 0, names)), now)
  {
    var s := SplitParent(t, path, true, now);
    SplitOutcome(t, path, now);
    if names != [] {
      SplitLeaves(t, names, s, now);
      if o.code == Ok && Walk(t, 0, names) < 0 {
        SplitAndPut(t, names, s, o.node, NewFile(s.leaf, s.parent, now), now);
      }
    }
  }

  /** mkdir succeeds exactly if the path has names, no file stands in the way, it denotes nothing
      yet, and there are slots for all that is missing. */
  lemma MkdirSucceedsIff(t: Table, path: seq<byte>, now: word32)
    requires Tree(t) && 0 !in path
    ensures var names := Components(path);
            Mkdir(t, path, now).code == CodeFor(Clear(t, 0, names), |names|, Known(t, 0, names), Free(t), 1)
  {
    var names, s := Components(path), SplitParent(t, path, true, now);
    SplitOutcome(t, path, now);
    WalkOfKnown(t, 0, names);
    if s.parent >= 0 {
      NoSlot(s.table);
    }
  }

  lemma MkdirLeaves(t: Table, path: seq<byte>, now: word32, o: Outcome, names: seq<seq<byte>>)
    requires Tree(t) && 0 !in path && o == Mkdir(t, path, now) && names == Components(path)
    ensures o.code != Ok ==> OthersSame(t, o.table, -1) && AddedDirs(t, o.table, -1, now)
    ensures o.code == Ok ==> LeafAdded(t, o.table, o.node, Missing(|names|, Known(t, 0, names)), now)
  {
    var s := SplitParent(t, path, true, now);
    SplitOutcome(t, path, now);
    if names != [] {
      SplitLeaves(t, names, s, now);
      if o.code == Ok {
        SplitAndPut(t, names, s, o.node, NewDir(s.table[o.node], s.leaf, s.parent, now), now);
      }
    }
  }

  /** rename fails with ENOENT exactly if the old path denotes nothing or the root; it succeeds
      exactly if further the new path has names, no file stands in its way, it denotes nothing yet,
      and there are slots for the missing directories. Into itself is no obstacle. */
  lemma RenameSucceedsIff(t: Table, oldPath: seq<byte>, newPath: seq<byte>, now: word32)
    requires Tree(t) && 0 !in newPath
    ensures var names := Components(newPath);
            Rename(t, oldPath, newPath, now).code ==
              if Lookup(t, oldPath) <= 0 then ENoEnt
              else CodeFor(Clear(t, 0, names), |names|, Known(t, 0, names), Free(t), 0)
  {
    SplitOutcome(t, newPath, now);
    WalkOfKnown(t, 0, Components(newPath));
  }

  lemma SplitAndMove(t: Table, names: seq<seq<byte>>, s: Split, i: int, now: word32)
    requires |t| > 0 && names != [] && SplitDoes(t, 0, names, s, now) && s.parent >= 0 && 0 < i < |t| && t[i].live
    ensures s.leaf == names[|names| - 1]
    ensures |s.table| == |t|
    ensures var t' := s.table[i := Moved(s.table[i], s.parent, s.leaf, now)];
            && OthersSame(t, t', i) && AddedDirs(t, t', i, now)
            && t'[i] == t[i].(parent := s.parent, name := s.leaf, mtime := now)
            && Free(t') == Free(t) - Missing(|names|, Known(t, 0, names))
  {
    SplitLeaves(t, names, s, now);
    assert FreeSlots(s.table[i := Moved(s.table[i], s.parent, s.leaf, now)]) == FreeSlots(s.table);
  }

  /** What rename leaves: one node with a new parent, name and date, directories in free slots, and
      everything else as it was. */
  lemma RenameLeaves(t: Table, oldPath: seq<byte>, newPath: seq<byte>, now: word32, o: Outcome)
    requires Tree(t) && 0 !in newPath && o == Rename(t, oldPath, newPath, now)
    ensures o.code != Ok ==> OthersSame(t, o.table, -1) && AddedDirs(t, o.table, -1, now)
    ensures o.code == Ok ==>
              var i, names := Lookup(t, oldPath), Components(newPath);
              && o.node == i > 0 && OthersSame(t, o.table, i) && AddedDirs(t, o.table, i, now)
              && o.table[i] == t[i].(parent := o.table[i].parent, name := names[|names| - 1], mtime := now)
              && Free(o.table) == Free(t) - Missing(|names|, Known(t, 0, names))
  {
    var i, names, s := Lookup(t, oldPath), Components(newPath), SplitParent(t, newPath, true, now);
    SplitOutcome(t, newPath, now);
    if names != [] {
      SplitLeaves(t, names, s, now);
      if o.code == Ok {
        WalkDepth(t, Components(oldPath));
        SplitAndMove(t, names, s, i, now);
      }
    }
  }
}
