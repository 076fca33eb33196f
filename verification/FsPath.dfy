/** Paths: how a path string denotes a list of names, and how a list of names denotes a
    node. */
module FsPath {
  import opened Bytes
  import opened FsTree

  // ------------------------------------------------------------------
  // The names in a path
  // ------------------------------------------------------------------

  // The stretches between slashes, empty ones included.
  function Chunks(path: seq<byte>): (r: seq<seq<byte>>)
    ensures |r| > 0
  {
    if path == [] then [[]]
    else
      var rest := Chunks(path[1..]);
      if path[0] == SLASH then [[]] + rest else [[path[0]] + rest[0]] + rest[1..]
  }

  // A name keeps what fits in MAX_NAME bytes with its NUL.
  function Cut(s: seq<byte>): (r: seq<byte>)
  {
    if |s| < MAX_NAME then s else s[..MAX_NAME - 1]
  }

  function Names(chunks: seq<seq<byte>>): seq<seq<byte>>
  {
    if chunks == [] then []
    else if chunks[0] == [] then Names(chunks[1..])
    else [Cut(chunks[0])] + Names(chunks[1..])
  }

  /** What a path means: its non-empty components, each cut to 31 characters. */
  function Components(path: seq<byte>): seq<seq<byte>>
  {
    Names(Chunks(path))
  }

  /** The names a character-by-character scan still has to deliver when `acc` is the
      component collected so far. */
  function Scan(path: seq<byte>, acc: seq<byte>): seq<seq<byte>>
  {
    if path == [] then (if acc == [] then [] else [acc])
    else if path[0] == SLASH then (if acc == [] then [] else [acc]) + Scan(path[1..], [])
    else Scan(path[1..], if |acc| < MAX_NAME - 1 then acc + [path[0]] else acc)
  }

  // What is left to deliver behind position i of the path, where a component ends
  ghost function ScanAfter(path: seq<byte>, i: nat): seq<seq<byte>>
    requires i <= |path|
  {
    if i == |path| then [] else Scan(path[i + 1..], [])
  }

  /** One turn of a scanning loop at position i. */
  lemma ScanAt(path: seq<byte>, i: nat, acc: seq<byte>)
    requires i <= |path|
    ensures i == |path| || path[i] == SLASH ==>
              Scan(path[i..], acc) == if acc == [] then ScanAfter(path, i) else [acc] + ScanAfter(path, i)
    ensures i < |path| && path[i] != SLASH ==>
              Scan(path[i..], acc) == Scan(path[i + 1..], if |acc| < MAX_NAME - 1 then acc + [path[i]] else acc)
  {
    if i < |path| {
      assert path[i..][1..] == path[i + 1..];
    }
  }

  lemma NamesCons(x: seq<byte>, rest: seq<seq<byte>>)
    ensures Names([x] + rest) == (if x == [] then [] else [Cut(x)]) + Names(rest)
  {
    assert ([x] + rest)[1..] == rest;
  }

  lemma {:induction false} ScanSplits(path: seq<byte>, acc: seq<byte>)
    ensures Scan(path, Cut(acc)) == Names([acc + Chunks(path)[0]] + Chunks(path)[1..])
    decreases path
  {
    NamesCons(acc + Chunks(path)[0], Chunks(path)[1..]);
    if path == [] {
      assert acc + Chunks(path)[0] == acc;
    } else if path[0] == SLASH {
      var rest := Chunks(path[1..]);
      ScanSplits(path[1..], []);
      assert [] + rest[0] == rest[0] && [rest[0]] + rest[1..] == rest;
      assert acc + Chunks(path)[0] == acc && Chunks(path)[1..] == rest;
    } else {
      var c, rest := path[0], Chunks(path[1..]);
      ScanSplits(path[1..], acc + [c]);
      NamesCons(acc + [c] + rest[0], rest[1..]);
      assert acc + Chunks(path)[0] == acc + [c] + rest[0];
      assert Cut(acc + [c]) == if |Cut(acc)| < MAX_NAME - 1 then Cut(acc) + [c] else Cut(acc);
    }
  }

  /** The scan delivers exactly the path's components. */
  lemma ScanIsComponents(path: seq<byte>)
    ensures Scan(path, []) == Components(path)
  {
    ScanSplits(path, []);
    var r := Chunks(path);
    assert [] + r[0] == r[0];
    assert [[] + r[0]] + r[1..] == r;
  }

  // The names with a slash before each
  function Joined(names: seq<seq<byte>>): (p: seq<byte>)
    ensures p == [] || p[0] == SLASH
  {
    if names == [] then [] else [SLASH] + names[0] + Joined(names[1..])
  }

  lemma {:induction false} ChunkFirst(x: seq<byte>, rest: seq<byte>)
    requires SLASH !in x && (rest == [] || rest[0] == SLASH)
    ensures Chunks(x + rest) == [x] + Chunks(rest)[1..]
    decreases |x|
  {
    if x == [] {
      assert x + rest == rest && Chunks(rest)[0] == [];
    } else {
      ChunkFirst(x[1..], rest);
      assert (x + rest)[1..] == x[1..] + rest && x == [x[0]] + x[1..];
    }
  }

  // Slashes in front do not matter.
  lemma SlashIgnored(path: seq<byte>)
    ensures Components([SLASH] + path) == Components(path)
  {
    assert ([SLASH] + path)[1..] == path;
    NamesCons([], Chunks(path));
  }

  /** A path written as names with slashes between has these names as its components, each cut to its
      first 31 bytes. */
  lemma {:induction false} JoinedComponents(names: seq<seq<byte>>)
    requires forall k :: 0 <= k < |names| ==> names[k] != [] && SLASH !in names[k]
    ensures |Components(Joined(names))| == |names|
    ensures forall k :: 0 <= k < |names| ==>
              Components(Joined(names))[k] == if |names[k]| <= 31 then names[k] else names[k][..31]
    decreases |names|
  {
    if names == [] {
    } else {
      var x, rest := names[0], Joined(names[1..]);
      JoinedComponents(names[1..]);
      assert Joined(names) == [SLASH] + (x + rest);
      SlashIgnored(x + rest);
      ChunkFirst(x, rest);
      NamesCons(x, Chunks(rest)[1..]);
      RestComponents(rest);
      assert forall k :: 0 < k < |names| ==> names[k] == names[1..][k - 1];
    }
  }

  lemma RestComponents(rest: seq<byte>)
    requires rest == [] || rest[0] == SLASH
    ensures Names(Chunks(rest)[1..]) == Components(rest)
  {
    assert Chunks(rest)[0] == [];
  }

  lemma {:induction false} ScanGood(path: seq<byte>, acc: seq<byte>)
    requires 0 !in path && 0 !in acc && SLASH !in acc && |acc| < MAX_NAME
    ensures forall k :: 0 <= k < |Scan(path, acc)| ==> GoodName(Scan(path, acc)[k])
    decreases path
  {
    if path == [] {
    } else {
      if path[0] == SLASH {
        ScanGood(path[1..], []);
      } else {
        ScanGood(path[1..], if |acc| < MAX_NAME - 1 then acc + [path[0]] else acc);
      }
    }
  }

  /** Components are legal node names. */
  lemma ComponentsGood(path: seq<byte>)
    requires 0 !in path
    ensures forall k :: 0 <= k < |Components(path)| ==> GoodName(Components(path)[k])
  {
    ScanGood(path, []);
    ScanIsComponents(path);
  }

  // ------------------------------------------------------------------
  // The node a list of names denotes
  // ------------------------------------------------------------------

  function Walk(t: Table, cur: int, names: seq<seq<byte>>): (r: int)
    requires 0 <= cur < |t|
    ensures -1 <= r < |t|
    decreases |names|
  {
    if names == [] then cur
    else
      var next := FindChild(t, cur, names[0]);
      if next < 0 then -1 else Walk(t, next, names[1..])
  }

  /** The node a path denotes, -1 for none; the empty path denotes nothing. */
  function Lookup(t: Table, path: seq<byte>): (r: int)
    requires |t| > 0
    ensures -1 <= r < |t|
  {
    if path == [] then -1 else Walk(t, 0, Components(path))
  }

  lemma {:induction false} WalkAppend(t: Table, cur: int, p: seq<seq<byte>>, q: seq<seq<byte>>)
    requires 0 <= cur < |t|
    ensures Walk(t, cur, p + q) == var mid := Walk(t, cur, p); if mid < 0 then -1 else Walk(t, mid, q)
    decreases p
  {
    if p == [] {
      assert p + q == q;
    } else {
      assert (p + q)[1..] == p[1..] + q;
      var next := FindChild(t, cur, p[0]);
      if next >= 0 {
        WalkAppend(t, next, p[1..], q);
      }
    }
  }

  lemma WalkCons(t: Table, cur: int, x: seq<byte>, rest: seq<seq<byte>>)
    requires 0 <= cur < |t|
    ensures Walk(t, cur, [x] + rest) == var next := FindChild(t, cur, x); if next < 0 then -1 else Walk(t, next, rest)
  {
    assert ([x] + rest)[1..] == rest;
  }

  lemma WalkSnoc(t: Table, p: seq<seq<byte>>)
    requires |t| > 0 && p != []
    ensures Walk(t, 0, p) == var up := Walk(t, 0, p[..|p| - 1]);
                             if up < 0 then -1 else FindChild(t, up, p[|p| - 1])
  {
    var last := p[|p| - 1];
    assert p == p[..|p| - 1] + [last];
    WalkAppend(t, 0, p[..|p| - 1], [last]);
    assert forall c :: 0 <= c < |t| ==> Walk(t, c, []) == c;
  }

  // Walking down k names lands k levels below the root, on a live node.
  lemma {:induction false} WalkDepth(t: Table, p: seq<seq<byte>>)
    requires Shape(t) && Walk(t, 0, p) >= 0
    ensures AtDepth(t, Walk(t, 0, p), |p|) && t[Walk(t, 0, p)].live
    decreases |p|
  {
    if p == [] {
    } else {
      WalkSnoc(t, p);
      WalkDepth(t, p[..|p| - 1]);
    }
  }

  /** No two different lists of names denote the same node. */
  lemma {:induction false} PathIsUnique(t: Table, p: seq<seq<byte>>, q: seq<seq<byte>>)
    requires Shape(t) && Walk(t, 0, p) == Walk(t, 0, q) >= 0
    ensures p == q
    decreases |p|
  {
    if p == [] || q == [] {
      WalkDepth(t, p);
      WalkDepth(t, q);
    } else {
      WalkSnoc(t, p);
      WalkSnoc(t, q);
      PathIsUnique(t, p[..|p| - 1], q[..|q| - 1]);
      assert p == p[..|p| - 1] + [p[|p| - 1]];
    }
  }

  // One more name leads from a node's parent to the node.
  lemma WalkToChild(t: Table, i: int, up: seq<seq<byte>>)
    requires Shape(t) && 0 < i < |t| && t[i].live && Walk(t, 0, up) == t[i].parent
    ensures Walk(t, 0, up + [t[i].name]) == i
  {
    var p := up + [t[i].name];
    assert p[..|p| - 1] == up;
    WalkSnoc(t, p);
    assert Linked(t, i);
    ChildIsUnique(t, i);
  }

  lemma {:induction false} PathAtDepth(t: Table, i: int, n: nat) returns (p: seq<seq<byte>>)
    requires Shape(t) && AtDepth(t, i, n)
    ensures Walk(t, 0, p) == i && |p| == n
    decreases n
  {
    if n == 0 {
      p := [];
    } else {
      var up := PathAtDepth(t, t[i].parent, n - 1);
      WalkToChild(t, i, up);
      p := up + [t[i].name];
    }
  }

  /** In a well-formed tree every live node is denoted by some list of names (and, by
      PathIsUnique, by exactly one). */
  lemma EveryNodeHasAPath(t: Table, i: int) returns (p: seq<seq<byte>>)
    requires Tree(t) && 0 <= i < |t| && t[i].live
    ensures Walk(t, 0, p) == i
  {
    assert ReachesRoot(t, i);
    var n: nat :| AtDepth(t, i, n);
    p := PathAtDepth(t, i, n);
  }

  // t' keeps the parent and name of every live node of t, the ones in `except` aside.
  ghost predicate KeepsNodes(t: Table, t': Table, except: set<int>) {
    && |t'| == |t|
    && forall k :: 0 <= k < |t| && t[k].live && k !in except ==>
         t'[k].live && t'[k].parent == t[k].parent && t'[k].name == t[k].name
  }

  // Names that resolve keep resolving to the same node while the nodes on the way stay.
  lemma {:induction false} WalkSurvives(t: Table, t': Table, p: seq<seq<byte>>, except: set<int>)
    requires Shape(t) && UniqueSiblings(t') && KeepsNodes(t, t', except)
    requires Walk(t, 0, p) >= 0
    requires forall k :: 0 < k <= |p| ==> Walk(t, 0, p[..k]) !in except
    ensures Walk(t', 0, p) == Walk(t, 0, p)
    decreases |p|
  {
    if p == [] {
    } else {
      var up := p[..|p| - 1];
      WalkSnoc(t, p);
      WalkSnoc(t', p);
      forall k | 0 < k <= |up|
        ensures Walk(t, 0, up[..k]) !in except
      {
        assert up[..k] == p[..k];
      }
      WalkSurvives(t, t', up, except);
      assert p[..|p|] == p;
      var u, i := Walk(t, 0, up), Walk(t, 0, p);
      assert IsChild(t'[i], u, p[|p| - 1]);
    }
  }
}
