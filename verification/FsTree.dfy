/** The node table of filesystem.c: a tree of files and directories kept in a flat
    array, each node naming its parent by index. */
module FsTree {
  import opened Bytes

  const MAX_FILES: nat := 256
  const MAX_FILE_SIZE: nat := 64 * 1024
  const MAX_NAME: nat := 32
  const SLASH: byte := 47

  // One FileEntry. A name is the bytes before the terminating NUL; `data` is what the
  // data pointer addresses ([] for NULL).
  datatype Node = Node(
    name: seq<byte>,
    isDir: bool,
    parent: int,
    size: word32,
    ctime: word32,
    mtime: word32,
    data: seq<byte>,
    live: bool)

  type Table = seq<Node>

  const BLANK: Node := Node([], false, 0, 0, 0, 0, [], false)
  const ROOT_NODE: Node := Node([SLASH], true, -1, 0, 0, 0, [], true)

  predicate IsChild(n: Node, parent: int, name: seq<byte>) {
    n.live && n.parent == parent && n.name == name
  }

  /** The lowest-numbered live child of `parent` called `name`, from index i on; -1 if none. */
  function FindChildFrom(t: Table, parent: int, name: seq<byte>, i: nat): (r: int)
    requires i <= |t|
    ensures r == -1 || (i <= r < |t| && IsChild(t[r], parent, name))
    ensures forall k :: i <= k < |t| && (r == -1 || k < r) ==> !IsChild(t[k], parent, name)
    decreases |t| - i
  {
    if i == |t| then -1
    else if IsChild(t[i], parent, name) then i
    else FindChildFrom(t, parent, name, i + 1)
  }

  function FindChild(t: Table, parent: int, name: seq<byte>): (r: int)
    ensures r == -1 || (0 <= r < |t| && IsChild(t[r], parent, name))
    ensures forall k :: 0 <= k < |t| && (r == -1 || k < r) ==> !IsChild(t[k], parent, name)
  {
    FindChildFrom(t, parent, name, 0)
  }

  /** The lowest free slot other than the root's; -1 when the table is full. */
  function FreeSlotFrom(t: Table, i: nat): (r: int)
    requires i <= |t|
    ensures r == -1 || (i <= r < |t| && !t[r].live)
    ensures forall k :: i <= k < |t| && (r == -1 || k < r) ==> t[k].live
    decreases |t| - i
  {
    if i == |t| then -1 else if !t[i].live then i else FreeSlotFrom(t, i + 1)
  }

  function FreeSlot(t: Table): (r: int)
    requires |t| > 0
    ensures r == -1 || (0 < r < |t| && !t[r].live)
    ensures r == -1 ==> forall k :: 1 <= k < |t| ==> t[k].live
  {
    FreeSlotFrom(t, 1)
  }

  // ------------------------------------------------------------------
  // The tree invariant
  // ------------------------------------------------------------------

  ghost predicate GoodName(name: seq<byte>) {
    0 < |name| < MAX_NAME && SLASH !in name && 0 !in name
  }

  // Node i hangs from a live directory under a legal name.
  ghost predicate Linked(t: Table, i: int)
    requires 0 <= i < |t|
  {
    && 0 <= t[i].parent < |t|
    && t[t[i].parent].live && t[t[i].parent].isDir
    && GoodName(t[i].name)
  }

  // Following parent links n times from i arrives at the root, over live nodes.
  ghost predicate AtDepth(t: Table, i: int, n: nat)
    decreases n
  {
    if n == 0 then i == 0
    else 0 < i < |t| && t[i].live && AtDepth(t, t[i].parent, n - 1)
  }

  ghost predicate ReachesRoot(t: Table, i: int) {
    exists n: nat :: AtDepth(t, i, n)
  }

  ghost predicate UniqueSiblings(t: Table) {
    forall i, j :: 0 <= i < j < |t| && t[i].live && t[j].live && t[i].parent == t[j].parent
      ==> t[i].name != t[j].name
  }

  // Sizes agree with contents, and slots that are free or directories hold no data.
  ghost predicate DataOk(n: Node) {
    n.size == |n.data| && n.size <= MAX_FILE_SIZE && ((n.live && !n.isDir) || n.size == 0)
  }

  // Everything in the invariant but reachability.
  ghost predicate Shape(t: Table) {
    && |t| > 0
    && t[0] == ROOT_NODE
    && (forall i :: 0 < i < |t| && t[i].live ==> Linked(t, i))
    && UniqueSiblings(t)
    && (forall i :: 0 <= i < |t| ==> DataOk(t[i]))
  }

  ghost predicate Rooted(t: Table) {
    forall i :: 0 <= i < |t| && t[i].live ==> ReachesRoot(t, i)
  }

  /** The invariant every public operation keeps. */
  ghost predicate Tree(t: Table) {
    Shape(t) && Rooted(t)
  }

  function Fresh(n: nat): (t: Table)
    requires n > 0
    ensures |t| == n
  {
    seq(n, i => if i == 0 then ROOT_NODE else BLANK)
  }

  lemma FreshIsTree(n: nat)
    requires n > 0
    ensures Tree(Fresh(n))
  {
    var t := Fresh(n);
    assert AtDepth(t, 0, 0);
    assert forall i :: 0 < i < |t| ==> !t[i].live;
  }

  // In a well-shaped table a child is determined by its parent and name.
  lemma ChildIsUnique(t: Table, i: int)
    requires Shape(t) && 0 < i < |t| && t[i].live
    ensures FindChild(t, t[i].parent, t[i].name) == i
  {
    var r := FindChild(t, t[i].parent, t[i].name);
    assert IsChild(t[i], t[i].parent, t[i].name);
  }

  // ------------------------------------------------------------------
  // What adding, changing and removing one node does to the tree
  // ------------------------------------------------------------------

  lemma {:induction false} DepthSurvives(t: Table, t': Table, i: int, n: nat)
    requires AtDepth(t, i, n) && |t'| == |t|
    requires forall k :: 0 < k < |t| && t[k].live ==> t'[k].live && t'[k].parent == t[k].parent
    ensures AtDepth(t', i, n)
    decreases n
  {
    if n == 0 {
    } else {
      DepthSurvives(t, t', t[i].parent, n - 1);
    }
  }

  lemma AddNodeShape(t: Table, slot: int, node: Node)
    requires Shape(t) && 0 < slot < |t| && !t[slot].live
    requires node.live && 0 <= node.parent < |t| && t[node.parent].live && t[node.parent].isDir
    requires GoodName(node.name) && DataOk(node)
    requires FindChild(t, node.parent, node.name) == -1
    ensures Shape(t[slot := node])
  {
    var t' := t[slot := node];
    forall i | 0 < i < |t'| && t'[i].live
      ensures Linked(t', i)
    {
      if i != slot {
        assert Linked(t, i);
      }
    }
    forall i, j | 0 <= i < j < |t'| && t'[i].live && t'[j].live && t'[i].parent == t'[j].parent
      ensures t'[i].name != t'[j].name
    {
      assert !IsChild(t[i], node.parent, node.name) && !IsChild(t[j], node.parent, node.name);
    }
  }

  lemma AddNodeRooted(t: Table, slot: int, node: Node)
    requires Rooted(t) && 0 < slot < |t| && !t[slot].live
    requires node.live && 0 <= node.parent < |t| && t[node.parent].live
    ensures Rooted(t[slot := node])
  {
    var t' := t[slot := node];
    forall i | 0 <= i < |t'| && t'[i].live
      ensures ReachesRoot(t', i)
    {
      var j := if i == slot then node.parent else i;
      assert ReachesRoot(t, j);
      var n: nat :| AtDepth(t, j, n);
      DepthSurvives(t, t', j, n);
      if i == slot {
        assert AtDepth(t', slot, n + 1);
      }
    }
  }

  lemma AddNode(t: Table, slot: int, node: Node)
    requires Tree(t) && 0 < slot < |t| && !t[slot].live
    requires node.live && 0 <= node.parent < |t| && t[node.parent].live && t[node.parent].isDir
    requires GoodName(node.name) && DataOk(node)
    requires FindChild(t, node.parent, node.name) == -1
    ensures Tree(t[slot := node])
  {
    AddNodeShape(t, slot, node);
    AddNodeRooted(t, slot, node);
  }

  // A node is an ancestor of nothing when no live node has it as a parent.
  lemma {:induction false} DepthWithoutLeaf(t: Table, t': Table, gone: int, i: int, n: nat)
    requires AtDepth(t, i, n) && |t'| == |t| && i != gone && gone != 0
    requires forall k :: 0 <= k < |t| && t[k].live ==> t[k].parent != gone
    requires forall k :: 0 < k < |t| && k != gone ==> t'[k] == t[k]
    ensures AtDepth(t', i, n)
    decreases n
  {
    if n == 0 {
    } else {
      DepthWithoutLeaf(t, t', gone, t[i].parent, n - 1);
    }
  }

  lemma RemoveNode(t: Table, gone: int, node: Node)
    requires Tree(t) && 0 < gone < |t|
    requires forall k :: 0 <= k < |t| && t[k].live ==> t[k].parent != gone
    requires !node.live && DataOk(node)
    ensures Tree(t[gone := node])
  {
    var t' := t[gone := node];
    forall i | 0 < i < |t'| && t'[i].live
      ensures Linked(t', i)
    {
      assert Linked(t, i);
    }
    forall i | 0 <= i < |t'| && t'[i].live
      ensures ReachesRoot(t', i)
    {
      assert ReachesRoot(t, i);
      var n :| AtDepth(t, i, n);
      DepthWithoutLeaf(t, t', gone, i, n);
    }
  }

  // Files have no children.
  lemma FilesAreLeaves(t: Table, f: int)
    requires Shape(t) && 0 < f < |t| && !t[f].isDir
    ensures forall k :: 0 <= k < |t| && t[k].live ==> t[k].parent != f
  {
    forall k | 0 <= k < |t| && t[k].live
      ensures t[k].parent != f
    {
      if k > 0 {
        assert Linked(t, k);
      }
    }
  }

  lemma ChangeContents(t: Table, f: int, node: Node)
    requires Tree(t) && 0 < f < |t| && t[f].live && DataOk(node)
    requires node.live && node.isDir == t[f].isDir && node.parent == t[f].parent && node.name == t[f].name
    ensures Tree(t[f := node])
  {
    var t' := t[f := node];
    forall i | 0 < i < |t'| && t'[i].live
      ensures Linked(t', i)
    {
      assert Linked(t, i);
    }
    forall i | 0 <= i < |t'| && t'[i].live
      ensures ReachesRoot(t', i)
    {
      assert ReachesRoot(t, i);
      var n :| AtDepth(t, i, n);
      DepthSurvives(t, t', i, n);
    }
  }
}
