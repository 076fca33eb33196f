/** What the filesystem's public operations promise, one by one and over every run. */
module FsLaws {
  import opened Bytes
  import opened Results
  import opened FsTree
  import opened FsPath
  import opened FsOps

  // Every path that resolves in t resolves to the same node in t'.
  ghost predicate KeepsPaths(t: Table, t': Table)
    requires 0 < |t| == |t'|
  {
    forall q :: Lookup(t, q) >= 0 ==> Lookup(t', q) == Lookup(t, q)
  }

  // Exactly the paths that denoted node i stop resolving; all others are unmoved.
  ghost predicate ForgetsPaths(t: Table, t': Table, i: int)
    requires 0 < |t| == |t'|
  {
    forall q :: Lookup(t', q) == if Lookup(t, q) == i then -1 else Lookup(t, q)
  }

  lemma PathsSurvive(t: Table, t': Table)
    requires Shape(t) && Shape(t') && KeepsNodes(t, t', {})
    ensures KeepsPaths(t, t')
  {
    forall q | Lookup(t, q) >= 0
      ensures Lookup(t', q) == Lookup(t, q)
    {
      WalkSurvives(t, t', Components(q), {});
    }
  }

  // ------------------------------------------------------------------
  // Creating
  // ------------------------------------------------------------------

  lemma LastSplits(names: seq<seq<byte>>)
    requires names != []
    ensures names == names[..|names| - 1] + [names[|names| - 1]]
  {
  }

  // After the leaf was put in `slot`, the whole path leads there.
  lemma LeafResolves(t: Table, t': Table, names: seq<seq<byte>>, slot: int)
    requires Shape(t) && Shape(t') && names != [] && KeepsNodes(t, t', {})
    requires 0 < slot < |t'| && t'[slot].live && t'[slot].name == names[|names| - 1]
    requires Walk(t, 0, names[..|names| - 1]) == t'[slot].parent
    ensures Walk(t', 0, names) == slot
  {
    var up := names[..|names| - 1];
    LastSplits(names);
    assert Linked(t', slot);
    WalkSurvives(t, t', up, {});
    WalkToChild(t', slot, up);
  }

  // A new node is put below the parent found, under the leaf's name.
  lemma LeafAdded(t: Table, names: seq<seq<byte>>, s: Split, slot: int, node: Node)
    requires Tree(t) && SplitFor(t, names, s) && FindChild(s.table, s.parent, s.leaf) == -1
    requires 0 < slot < |s.table| && !s.table[slot].live
    requires node.live && node.parent == s.parent && node.name == s.leaf && DataOk(node)
    ensures var t' := s.table[slot := node]; Tree(t') && Walk(t', 0, names) == slot && KeepsPaths(t, t')
  {
    var t' := s.table[slot := node];
    AddNode(s.table, slot, node);
    LeafResolves(s.table, t', names, slot);
    PathsSurvive(t, t');
  }

  // The node found under the leaf's name gets new contents.
  lemma LeafChanged(t: Table, names: seq<seq<byte>>, s: Split, node: Node)
    requires Tree(t) && SplitFor(t, names, s) && FindChild(s.table, s.parent, s.leaf) >= 0
    requires var leaf := s.table[FindChild(s.table, s.parent, s.leaf)];
             && node.live && node.isDir == leaf.isDir && node.parent == leaf.parent && node.name == leaf.name
             && DataOk(node)
    ensures var found := FindChild(s.table, s.parent, s.leaf);
            var t' := s.table[found := node];
            Tree(t') && Walk(t', 0, names) == found > 0 && KeepsPaths(t, t')
  {
    var found := FindChild(s.table, s.parent, s.leaf);
    var t' := s.table[found := node];
    ChangeContents(s.table, found, node);
    LeafResolves(s.table, t', names, found);
    PathsSurvive(t, t');
  }

  /** create keeps the tree; on success the path denotes the returned node, an empty file;
      whatever the outcome, every path that resolved still resolves to the same node. */
  lemma CreateResolves(t: Table, path: seq<byte>, now: word32)
    requires Tree(t) && 0 !in path
    ensures var o := Create(t, path, now);
            o.code == Ok ==>
              && Lookup(o.table, path) == o.node > 0
              && o.table[o.node].live && !o.table[o.node].isDir && o.table[o.node].data == []
    ensures var t' := Create(t, path, now).table; Tree(t') && KeepsPaths(t, t')
  {
    var s, o := SplitParent(t, path, true, now), Create(t, path, now);
    SplitKeeps(t, path, now);
    if o.code != Ok {
      PathsSurvive(t, s.table);
    } else if FindChild(s.table, s.parent, s.leaf) < 0 {
      LeafAdded(t, Components(path), s, o.node, NewFile(s.leaf, s.parent, now));
    } else {
      LeafChanged(t, Components(path), s, s.table[o.node].(size := 0, data := [], mtime := now));
    }
  }

  // A free slot is nobody's parent.
  lemma FreeHasNoChild(t: Table, slot: int, node: Node)
    requires Shape(t) && 0 < slot < |t| && !t[slot].live && node.parent != slot
    ensures !HasChild(t[slot := node], slot)
  {
    forall k | 0 <= k < |t| && k != slot && t[k].live
      ensures t[k].parent != slot
    {
      if k > 0 {
        assert Linked(t, k);
      }
    }
  }

  /** The same for mkdir: the path denotes the new directory, which has no children. */
  lemma MkdirResolves(t: Table, path: seq<byte>, now: word32)
    requires Tree(t) && 0 !in path
    ensures var o := Mkdir(t, path, now);
            o.code == Ok ==>
              && Lookup(o.table, path) == o.node > 0
              && o.table[o.node].live && o.table[o.node].isDir && !HasChild(o.table, o.node)
    ensures var t' := Mkdir(t, path, now).table; Tree(t') && KeepsPaths(t, t')
  {
    var s, o := SplitParent(t, path, true, now), Mkdir(t, path, now);
    SplitKeeps(t, path, now);
    if o.code != Ok {
      PathsSurvive(t, s.table);
    } else {
      var dir := NewDir(s.table[o.node], s.leaf, s.parent, now);
      assert DataOk(s.table[o.node]);
      LeafAdded(t, Components(path), s, o.node, dir);
      FreeHasNoChild(s.table, o.node, dir);
    }
  }

  // ------------------------------------------------------------------
  // Removing
  // ------------------------------------------------------------------

  // Nothing is reached through a childless node.
  lemma LeafIsNotPassed(t: Table, p: seq<seq<byte>>, leaf: int, k: nat)
    requires Shape(t) && k < |p| && Walk(t, 0, p) >= 0
    requires forall j :: 0 <= j < |t| && t[j].live ==> t[j].parent != leaf
    ensures Walk(t, 0, p[..k]) != leaf
  {
    assert p == p[..k] + p[k..];
    WalkAppend(t, 0, p[..k], p[k..]);
  }

  lemma RemovalResolves(t: Table, t': Table, leaf: int, p: seq<seq<byte>>)
    requires Tree(t) && Tree(t') && 0 < leaf < |t| == |t'| && t' == t[leaf := t'[leaf]]
    requires t[leaf].live && !t'[leaf].live
    requires forall j :: 0 <= j < |t| && t[j].live ==> t[j].parent != leaf
    ensures Walk(t', 0, p) == if Walk(t, 0, p) == leaf then -1 else Walk(t, 0, p)
  {
    if Walk(t', 0, p) >= 0 {
      WalkDepth(t', p);
      WalkSurvives(t', t, p, {});
    } else if Walk(t, 0, p) >= 0 && Walk(t, 0, p) != leaf {
      forall k | 0 < k <= |p|
        ensures Walk(t, 0, p[..k]) !in {leaf}
      {
        if k < |p| {
          LeafIsNotPassed(t, p, leaf, k);
        } else {
          assert p[..k] == p;
        }
      }
      WalkSurvives(t, t', p, {leaf});
    }
  }

  /** delete and rmdir: success means the path denoted a file (an empty directory other than
      the root); afterwards exactly the paths denoting that node stop resolving. */
  lemma DeleteResolves(t: Table, path: seq<byte>)
    requires Tree(t)
    ensures Tree(Delete(t, path).table)
    ensures var o := Delete(t, path);
            if Lookup(t, path) > 0 && !t[Lookup(t, path)].isDir then
              o.code == Ok && ForgetsPaths(t, o.table, Lookup(t, path))
            else o.table == t && o.code == if Lookup(t, path) > 0 then EInval else ENoEnt
  {
    var i, o := Lookup(t, path), Delete(t, path);
    if i > 0 && !t[i].isDir {
      WalkDepth(t, Components(path));
      FilesAreLeaves(t, i);
      RemoveNode(t, i, o.table[i]);
      forall q
        ensures Lookup(o.table, q) == if Lookup(t, q) == i then -1 else Lookup(t, q)
      {
        RemovalResolves(t, o.table, i, Components(q));
      }
    }
  }

  lemma RmdirResolves(t: Table, path: seq<byte>)
    requires Tree(t)
    ensures Tree(Rmdir(t, path).table)
    ensures var i, o := Lookup(t, path), Rmdir(t, path);
            if i > 0 && t[i].isDir && !HasChild(t, i) then
              o.code == Ok && ForgetsPaths(t, o.table, i)
            else o.table == t && o.code == if i > 0 && t[i].isDir then EBusy else EInval
  {
    var i, o := Lookup(t, path), Rmdir(t, path);
    if i > 0 && t[i].isDir && !HasChild(t, i) {
      WalkDepth(t, Components(path));
      assert DataOk(t[i]);
      RemoveNode(t, i, o.table[i]);
      forall q
        ensures Lookup(o.table, q) == if Lookup(t, q) == i then -1 else Lookup(t, q)
      {
        RemovalResolves(t, o.table, i, Components(q));
      }
    }
  }

  /** append grows one file at its end and dates it, touches no other node and moves no path. */
  lemma AppendKeeps(t: Table, f: int, data: seq<byte>, granted: bool, now: word32)
    requires Tree(t)
    ensures var o := Append(t, f, data, granted, now);
            && Tree(o.table)
            && KeepsPaths(t, o.table)
            && (o.code == Ok ==>
                  && o.table[f].data == t[f].data + data && o.table[f].mtime == now && o.table[f].ctime == t[f].ctime
                  && forall j :: 0 <= j < |t| && j != f ==> o.table[j] == t[j])
            && (o.code != Ok ==> o.table == t)
  {
    var o := Append(t, f, data, granted, now);
    if o.code == Ok {
      assert DataOk(t[f]);
      ChangeContents(t, f, o.table[f]);
    }
    PathsSurvive(t, o.table);
  }

  // ------------------------------------------------------------------
  // Renaming
  // ------------------------------------------------------------------

  // The situation when rename moves node i, found under p, to the name q: t is the table
  // after the destination directories were made.
  ghost predicate Moving(t: Table, i: int, p: seq<seq<byte>>, q: seq<seq<byte>>) {
    && Tree(t) && q != [] && GoodName(q[|q| - 1])
    && Walk(t, 0, p) == i && 0 < i < |t|
    && var np := Walk(t, 0, q[..|q| - 1]);
       0 <= np && t[np].live && t[np].isDir && FindChild(t, np, q[|q| - 1]) == -1
  }

  function AfterMove(t: Table, i: int, q: seq<seq<byte>>, now: word32): Table
    requires 0 <= i < |t| && q != []
  {
    t[i := Moved(t[i], Walk(t, 0, q[..|q| - 1]), q[|q| - 1], now)]
  }

  lemma MoveKeepsShape(t: Table, i: int, p: seq<seq<byte>>, q: seq<seq<byte>>, now: word32)
    requires Moving(t, i, p, q)
    ensures Shape(AfterMove(t, i, q, now)) && t[i].live
  {
    var t', np, leaf := AfterMove(t, i, q, now), Walk(t, 0, q[..|q| - 1]), q[|q| - 1];
    WalkDepth(t, p);
    assert DataOk(t[i]);
    forall k | 0 < k < |t'| && t'[k].live
      ensures Linked(t', k)
    {
      assert Linked(t, k);
    }
    forall j, k | 0 <= j < k < |t'| && t'[j].live && t'[k].live && t'[j].parent == t'[k].parent
      ensures t'[j].name != t'[k].name
    {
      assert !IsChild(t[j], np, leaf) && !IsChild(t[k], np, leaf);
    }
  }

  // If the destination is not below i, no prefix of the way there is i.
  lemma WayAvoids(t: Table, i: int, p: seq<seq<byte>>, q: seq<seq<byte>>, k: nat)
    requires Moving(t, i, p, q) && !(|p| < |q| && p == q[..|p|]) && k < |q|
    ensures Walk(t, 0, q[..k]) != i
  {
    if Walk(t, 0, q[..k]) == i {
      PathIsUnique(t, q[..k], p);
    }
  }

  lemma DestinationSurvives(t: Table, i: int, p: seq<seq<byte>>, q: seq<seq<byte>>, now: word32)
    requires Moving(t, i, p, q) && !(|p| < |q| && p == q[..|p|])
    ensures Walk(AfterMove(t, i, q, now), 0, q[..|q| - 1]) == Walk(t, 0, q[..|q| - 1])
  {
    var up := q[..|q| - 1];
    MoveKeepsShape(t, i, p, q, now);
    forall k | 0 < k <= |up|
      ensures Walk(t, 0, up[..k]) !in {i}
    {
      assert up[..k] == q[..k];
      WayAvoids(t, i, p, q, k);
    }
    WalkSurvives(t, AfterMove(t, i, q, now), up, {i});
  }

  lemma {:induction false} RerootedDepth(t: Table, t': Table, i: int, j: int, n: nat)
    requires AtDepth(t, j, n) && |t'| == |t| && 0 < i < |t| && t'[i].live
    requires forall k :: 0 <= k < |t| && k != i ==> t'[k] == t[k]
    requires ReachesRoot(t', t'[i].parent)
    ensures ReachesRoot(t', j)
    decreases n
  {
    if j == i {
      var m: nat :| AtDepth(t', t'[i].parent, m);
      assert AtDepth(t', i, m + 1);
    } else if n == 0 {
      assert AtDepth(t', 0, 0);
    } else {
      RerootedDepth(t, t', i, t[j].parent, n - 1);
      var m: nat :| AtDepth(t', t[j].parent, m);
      assert AtDepth(t', j, m + 1);
    }
  }

  lemma MoveOutsideKeepsRooted(t: Table, i: int, p: seq<seq<byte>>, q: seq<seq<byte>>, now: word32)
    requires Moving(t, i, p, q) && !(|p| < |q| && p == q[..|p|])
    ensures Rooted(AfterMove(t, i, q, now))
  {
    var t' := AfterMove(t, i, q, now);
    MoveKeepsShape(t, i, p, q, now);
    DestinationSurvives(t, i, p, q, now);
    WalkDepth(t', q[..|q| - 1]);
    forall j | 0 <= j < |t'| && t'[j].live
      ensures ReachesRoot(t', j)
    {
      assert ReachesRoot(t, j);
      var n: nat :| AtDepth(t, j, n);
      RerootedDepth(t, t', i, j, n);
    }
  }

  lemma PrefixWalks(t: Table, names: seq<seq<byte>>, k: nat)
    requires |t| > 0 && Walk(t, 0, names) >= 0 && k <= |names|
    ensures Walk(t, 0, names[..k]) >= 0
  {
    assert names == names[..k] + names[k..];
    WalkAppend(t, 0, names[..k], names[k..]);
  }

  lemma ChildOfPrefix(t: Table, way: seq<seq<byte>>)
    requires |t| > 0 && way != [] && Walk(t, 0, way) >= 0
    ensures t[Walk(t, 0, way)].live && t[Walk(t, 0, way)].parent == Walk(t, 0, way[..|way| - 1]) >= 0
  {
    WalkSnoc(t, way);
  }

  // Before the move, the node k names down the way has the one k - 1 names down as parent.
  lemma OneUpTheWay(t: Table, i: int, p: seq<seq<byte>>, q: seq<seq<byte>>, k: nat)
    requires Moving(t, i, p, q) && |p| < |q| && p == q[..|p|] && |p| <= k < |q|
    ensures Walk(t, 0, q[..k]) > 0
    ensures k == |p| ==> Walk(t, 0, q[..k]) == i
    ensures k > |p| ==> Walk(t, 0, q[..k]) != i && t[Walk(t, 0, q[..k])].parent == Walk(t, 0, q[..k - 1])
  {
    var way := q[..k];
    assert q[..|q| - 1][..k] == way;
    PrefixWalks(t, q[..|q| - 1], k);
    assert p != [];
    ChildOfPrefix(t, way);
    assert way[..k - 1] == q[..k - 1];
    if k > |p| && Walk(t, 0, way) == i {
      PathIsUnique(t, way, p);
    }
  }

  // After the move, one level up on the circle the nodes on the way from i to its new parent form.
  function Round(p: seq<seq<byte>>, q: seq<seq<byte>>, k: nat): nat
    requires |p| <= k < |q|
  {
    if k == |p| then |q| - 1 else k - 1
  }

  lemma OneRound(t: Table, i: int, p: seq<seq<byte>>, q: seq<seq<byte>>, now: word32, k: nat)
    requires Moving(t, i, p, q) && |p| < |q| && p == q[..|p|] && |p| <= k < |q|
    ensures var w := Walk(t, 0, q[..k]);
            w > 0 && AfterMove(t, i, q, now)[w].parent == Walk(t, 0, q[..Round(p, q, k)])
  {
    OneUpTheWay(t, i, p, q, k);
  }

  // Parent links never lead from a set they stay in to a root outside it.
  lemma {:induction false} ClosedIsCutOff(t: Table, circle: set<int>, j: int, n: nat)
    requires j in circle && 0 !in circle
    requires forall k :: k in circle && 0 <= k < |t| ==> t[k].parent in circle
    ensures !AtDepth(t, j, n)
    decreases n
  {
    if n == 0 || !(0 < j < |t|) {
    } else {
      ClosedIsCutOff(t, circle, t[j].parent, n - 1);
    }
  }

  lemma MoveInsideCutsOff(t: Table, i: int, p: seq<seq<byte>>, q: seq<seq<byte>>, now: word32)
    requires Moving(t, i, p, q) && |p| < |q| && p == q[..|p|]
    ensures !ReachesRoot(AfterMove(t, i, q, now), i)
  {
    var t' := AfterMove(t, i, q, now);
    var circle := set k: nat | |p| <= k < |q| :: Walk(t, 0, q[..k]);
    forall w | w in circle
      ensures w > 0 && (w < |t'| ==> t'[w].parent in circle)
    {
      var k: nat :| |p| <= k < |q| && w == Walk(t, 0, q[..k]);
      OneRound(t, i, p, q, now, k);
      var up := Round(p, q, k);
      assert Walk(t, 0, q[..up]) in circle;
    }
    assert Walk(t, 0, q[..|p|]) in circle;
    forall n: nat
      ensures !AtDepth(t', i, n)
    {
      ClosedIsCutOff(t', circle, i, n);
    }
  }

  lemma RenameIsMove(t: Table, oldPath: seq<byte>, newPath: seq<byte>, now: word32)
    requires Tree(t) && 0 !in newPath && Rename(t, oldPath, newPath, now).code == Ok
    ensures var t1, i := SplitParent(t, newPath, true, now).table, Lookup(t, oldPath);
            && Moving(t1, i, Components(oldPath), Components(newPath))
            && OnlyDirsAdded(t, t1)
            && Rename(t, oldPath, newPath, now).table == AfterMove(t1, i, Components(newPath), now)
  {
    SplitKeeps(t, newPath, now);
    WalkSurvives(t, SplitParent(t, newPath, true, now).table, Components(oldPath), {});
  }

  /** rename has no guard against moving a directory below itself. A successful rename keeps
      the tree exactly when the old path's components are not a proper prefix of the new
      path's; a failed one always keeps it. */
  lemma RenameKeepsTreeIff(t: Table, oldPath: seq<byte>, newPath: seq<byte>, now: word32)
    requires Tree(t) && 0 !in newPath
    ensures var o := Rename(t, oldPath, newPath, now);
            && Shape(o.table)
            && (Tree(o.table) <==> !(o.code == Ok && IntoItself(oldPath, newPath)))
  {
    var o := Rename(t, oldPath, newPath, now);
    SplitKeeps(t, newPath, now);
    if o.code == Ok {
      var t1, i := SplitParent(t, newPath, true, now).table, Lookup(t, oldPath);
      var p, q := Components(oldPath), Components(newPath);
      RenameIsMove(t, oldPath, newPath, now);
      MoveKeepsShape(t1, i, p, q, now);
      if IntoItself(oldPath, newPath) {
        MoveInsideCutsOff(t1, i, p, q, now);
      } else {
        MoveOutsideKeepsRooted(t1, i, p, q, now);
      }
    }
  }

  /** Below itself a directory really can be moved: in a table holding only the directory a,
      renaming /a to /a/b succeeds and leaves a unreachable. */
  lemma RenameCanCutOff()
    ensures exists t: Table ::
      && Tree(t)
      && Rename(t, [SLASH, 97], [SLASH, 97, SLASH, 98], 0).code == Ok
      && !ReachesRoot(Rename(t, [SLASH, 97], [SLASH, 97, SLASH, 98], 0).table, 1)
  {
    var a: seq<byte>, b: seq<byte> := [97], [98];
    var from: seq<byte>, to: seq<byte> := [SLASH, 97], [SLASH, 97, SLASH, 98];
    var now: word32 := 0;
    var t0 := Fresh(2);
    FreshIsTree(2);
    var dir := NewDir(BLANK, a, 0, now);
    AddNode(t0, 1, dir);
    var t: Table := t0[1 := dir];
    Components1(97);
    Components2(97, 98);
    assert IsChild(t[1], 0, a) && !IsChild(t[0], 0, a);
    assert [a][1..] == [] && [a, b][1..] == [b];
    assert Walk(t, 0, [a]) == 1;
    var o := Rename(t, from, to, now);
    assert SplitNames(t, 0, [a, b], true, now) == Split(t, 1, b);
    assert FindChild(t, 1, b) == -1;
    assert o.code == Ok;
    RenameIsMove(t, from, to, now);
    assert [a, b][..1] == [a];
    MoveInsideCutsOff(t, 1, [a], [a, b], now);
  }

  lemma Components1(x: byte)
    requires x != SLASH
    ensures Components([SLASH, x]) == [[x]]
  {
    ScanIsComponents([SLASH, x]);
    assert [SLASH, x][1..] == [x];
    var e: seq<byte> := [];
    assert [x][1..] == e && e + [x] == [x];
    assert Scan([x], e) == Scan(e, [x]);
  }

  lemma Components2(x: byte, y: byte)
    requires x != SLASH && y != SLASH
    ensures Components([SLASH, x, SLASH, y]) == [[x], [y]]
  {
    var e: seq<byte> := [];
    ScanIsComponents([SLASH, x, SLASH, y]);
    assert [SLASH, x, SLASH, y][1..] == [x, SLASH, y];
    assert [x, SLASH, y][1..] == [SLASH, y];
    assert [SLASH, y][1..] == [y];
    assert [y][1..] == e;
    assert e + [x] == [x] && e + [y] == [y];
    assert Scan([y], e) == [[y]];
    assert Scan([SLASH, y], [x]) == [[x]] + Scan([y], e);
  }

  // The path other starts with all the names of path.
  predicate Through(path: seq<byte>, other: seq<byte>) {
    var p, q := Components(path), Components(other);
    |p| <= |q| && p == q[..|p|]
  }

  /** After a successful rename that keeps the tree, the new path denotes the moved node and
      the old one nothing. */
  lemma RenameResolves(t: Table, oldPath: seq<byte>, newPath: seq<byte>, now: word32)
    requires Tree(t) && 0 !in newPath && !IntoItself(oldPath, newPath)
    requires Rename(t, oldPath, newPath, now).code == Ok
    ensures var t' := Rename(t, oldPath, newPath, now).table;
            Lookup(t', newPath) == Lookup(t, oldPath) && Lookup(t', oldPath) == -1
  {
    var t', i := Rename(t, oldPath, newPath, now).table, Lookup(t, oldPath);
    var t1, p, q := SplitParent(t, newPath, true, now).table, Components(oldPath), Components(newPath);
    RenameIsMove(t, oldPath, newPath, now);
    NewPathLeads(t1, i, p, q, now);
    OldPathIsGone(t1, i, p, q, now);
  }

  lemma NewPathLeads(t: Table, i: int, p: seq<seq<byte>>, q: seq<seq<byte>>, now: word32)
    requires Moving(t, i, p, q) && !(|p| < |q| && p == q[..|p|])
    ensures Walk(AfterMove(t, i, q, now), 0, q) == i
  {
    MoveKeepsShape(t, i, p, q, now);
    DestinationSurvives(t, i, p, q, now);
    var t', up, leaf := AfterMove(t, i, q, now), q[..|q| - 1], q[|q| - 1];
    LastSplits(q);
    assert t'[i].live && t'[i].parent == Walk(t', 0, up) && t'[i].name == leaf;
    WalkToChild(t', i, up);
  }

  /** Every path that does not go through the renamed node leads where it led, even when the
      rename moved a directory below itself. */
  lemma RenameLeavesOthers(t: Table, oldPath: seq<byte>, newPath: seq<byte>, now: word32, other: seq<byte>)
    requires Tree(t) && 0 !in newPath && Rename(t, oldPath, newPath, now).code == Ok
    requires Lookup(t, other) >= 0 && !Through(oldPath, other)
    ensures Lookup(Rename(t, oldPath, newPath, now).table, other) == Lookup(t, other)
  {
    var t1 := SplitParent(t, newPath, true, now).table;
    RenameIsMove(t, oldPath, newPath, now);
    UnrelatedSurvives(t, t1, Lookup(t, oldPath), Components(oldPath), Components(newPath), Components(other), now);
  }

  lemma OldPathIsGone(t: Table, i: int, p: seq<seq<byte>>, q: seq<seq<byte>>, now: word32)
    requires Moving(t, i, p, q)
    ensures Walk(AfterMove(t, i, q, now), 0, p) == -1
  {
    var t', up, leaf := AfterMove(t, i, q, now), p[..|p| - 1], p[|p| - 1];
    WalkSnoc(t, p);
    WalkSnoc(t', p);
    MoveLeaves(t, i, p, q, up, now);
    MoveKeepsShape(t, i, p, q, now);
    var home := Walk(t, 0, up);
    assert IsChild(t[i], home, leaf);
    forall k | 0 <= k < |t'|
      ensures !IsChild(t'[k], home, leaf)
    {
    }
  }

  // No node on the way of names that do not start with all of p is the one p denotes.
  lemma OthersAvoid(t: Table, i: int, p: seq<seq<byte>>, other: seq<seq<byte>>, k: nat)
    requires Tree(t) && Walk(t, 0, p) == i && 0 < i && k <= |other|
    requires !(|p| <= |other| && p == other[..|p|])
    ensures Walk(t, 0, other[..k]) != i
  {
    if Walk(t, 0, other[..k]) == i {
      PathIsUnique(t, other[..k], p);
    }
  }

  lemma UnrelatedSurvives(
    t: Table, t1: Table, i: int, p: seq<seq<byte>>, q: seq<seq<byte>>, other: seq<seq<byte>>, now: word32)
    requires Tree(t) && OnlyDirsAdded(t, t1) && Moving(t1, i, p, q) && Walk(t, 0, other) >= 0
    requires !(|p| <= |other| && p == other[..|p|])
    ensures Walk(AfterMove(t1, i, q, now), 0, other) == Walk(t, 0, other)
  {
    WalkSurvives(t, t1, other, {});
    MoveLeaves(t1, i, p, q, other, now);
  }

  lemma MoveLeaves(t: Table, i: int, p: seq<seq<byte>>, q: seq<seq<byte>>, other: seq<seq<byte>>, now: word32)
    requires Moving(t, i, p, q) && Walk(t, 0, other) >= 0
    requires !(|p| <= |other| && p == other[..|p|])
    ensures Walk(AfterMove(t, i, q, now), 0, other) == Walk(t, 0, other)
  {
    MoveKeepsShape(t, i, p, q, now);
    forall k | 0 < k <= |other|
      ensures Walk(t, 0, other[..k]) !in {i}
    {
      OthersAvoid(t, i, p, other, k);
    }
    WalkSurvives(t, AfterMove(t, i, q, now), other, {i});
  }

  // ------------------------------------------------------------------
  // Runs
  // ------------------------------------------------------------------

  // The operation renames something, with success, to below itself.
  predicate MovesIntoItself(t: Table, op: Op, now: word32)
    requires |t| > 0
  {
    op.OpRename? && IntoItself(op.path, op.newPath) && Apply(t, op, now).code == Ok
  }

  lemma StepKeepsTree(t: Table, op: Op, now: word32)
    requires Tree(t) && CString(op) && !op.OpRename?
    ensures Tree(Apply(t, op, now).table)
  {
    match op
    case OpCreate(path) => CreateResolves(t, path, now);
    case OpMkdir(path) => MkdirResolves(t, path, now);
    case OpRmdir(path) => RmdirResolves(t, path);
    case OpDelete(path) => DeleteResolves(t, path);
    case OpAppend(f, data, granted) => AppendKeeps(t, f, data, granted, now);
  }

  lemma StepKeepsTreeIff(t: Table, op: Op, now: word32)
    requires Tree(t) && CString(op)
    ensures Tree(Apply(t, op, now).table) <==> !MovesIntoItself(t, op, now)
  {
    if op.OpRename? {
      RenameKeepsTreeIff(t, op.path, op.newPath, now);
    } else {
      StepKeepsTree(t, op, now);
    }
  }

  function RunAll(t: Table, ops: seq<(Op, word32)>): (t': Table)
    requires |t| > 0
    ensures |t'| == |t|
    decreases |ops|
  {
    if ops == [] then t else RunAll(Apply(t, ops[0].0, ops[0].1).table, ops[1..])
  }

  // No step of the run succeeds in renaming something to below itself.
  predicate Acyclic(t: Table, ops: seq<(Op, word32)>)
    requires |t| > 0
    decreases |ops|
  {
    ops == [] || (!MovesIntoItself(t, ops[0].0, ops[0].1) && Acyclic(Apply(t, ops[0].0, ops[0].1).table, ops[1..]))
  }

  // The table is a tree before the run and after each of its steps.
  ghost predicate TreeThroughout(t: Table, ops: seq<(Op, word32)>)
    requires |t| > 0
    decreases |ops|
  {
    Tree(t) && (ops == [] || TreeThroughout(Apply(t, ops[0].0, ops[0].1).table, ops[1..]))
  }

  /** Over every run of public operations, failing ones included, the tree invariant holds
      throughout exactly if no rename to below itself succeeds. */
  lemma {:induction false} RunKeepsTreeIff(t: Table, ops: seq<(Op, word32)>)
    requires Tree(t)
    requires forall k :: 0 <= k < |ops| ==> CString(ops[k].0)
    ensures TreeThroughout(t, ops) <==> Acyclic(t, ops)
    decreases |ops|
  {
    if ops == [] {
    } else {
      StepKeepsTreeIff(t, ops[0].0, ops[0].1);
      if !MovesIntoItself(t, ops[0].0, ops[0].1) {
        RunKeepsTreeIff(Apply(t, ops[0].0, ops[0].1).table, ops[1..]);
      }
    }
  }

  /** The tree invariant holds after every such run, from fs_init on. */
  lemma {:induction false} RunKeepsTree(t: Table, ops: seq<(Op, word32)>)
    requires Tree(t) && Acyclic(t, ops)
    requires forall k :: 0 <= k < |ops| ==> CString(ops[k].0)
    ensures Tree(RunAll(t, ops))
    decreases |ops|
  {
    if ops == [] {
    } else {
      StepKeepsTreeIff(t, ops[0].0, ops[0].1);
      RunKeepsTree(Apply(t, ops[0].0, ops[0].1).table, ops[1..]);
    }
  }
}
