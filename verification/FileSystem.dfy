/** filesystem.c's in-memory half: the node table as an array changed in place. Each method
    is proved against the function of the same name in FsOps. */
module FileSystem {
  import opened Bytes
  import opened Results
  import opened FsTree
  import opened FsPath
  import Ops = FsOps
  import Heap
  import Memory

  class FileTable {
    const files: array<Node>

    // fs_init
    constructor ()
      ensures fresh(files) && files.Length == MAX_FILES
      ensures files[..] == Fresh(MAX_FILES)
    {
      files := new Node[MAX_FILES](i => if i == 0 then ROOT_NODE else BLANK);
    }

    method AllocNode() returns (r: int)
      requires files.Length > 0
      ensures r == FreeSlot(files[..])
    {
      var i := 1;
      while i < files.Length
        invariant 1 <= i <= files.Length
        invariant FreeSlotFrom(files[..], i) == FreeSlot(files[..])
      {
        if !files[i].live {
          return i;
        }
        i := i + 1;
      }
      return -1;
    }

    method ChildOf(parent: int, name: seq<byte>) returns (r: int)
      ensures r == FindChild(files[..], parent, name)
    {
      var i := 0;
      while i < files.Length
        invariant 0 <= i <= files.Length
        invariant FindChildFrom(files[..], parent, name, i) == FindChild(files[..], parent, name)
      {
        if files[i].live && files[i].parent == parent && files[i].name == name {
          return i;
        }
        i := i + 1;
      }
      return -1;
    }

    // fs_resolve: one pass over the characters, collecting a component at a time
    method Resolve(path: seq<byte>) returns (r: int)
      requires files.Length > 0
      ensures r == Lookup(files[..], path)
    {
      ghost var t := files[..];
      ghost var goal := Walk(t, 0, Components(path));
      ScanIsComponents(path);
      if path == [] {
        return -1;
      }
      var cur := 0;
      if path == [SLASH] {
        return 0;
      }
      var component: seq<byte> := [];
      var i := 0;
      while true
        invariant 0 <= i <= |path| && 0 <= cur < files.Length
        invariant Walk(t, cur, Scan(path[i..], component)) == goal
        decreases |path| - i
      {
        ScanAt(path, i, component);
        if i == |path| || path[i] == SLASH {
          ghost var later := ScanAfter(path, i);
          if |component| > 0 {
            WalkCons(t, cur, component, later);
            var next := ChildOf(cur, component);
            if next < 0 {
              return -1;
            }
            cur := next;
            component := [];
          }
          assert Walk(t, cur, later) == goal;
          if i == |path| {
            break;
          }
        } else if |component| < MAX_NAME - 1 {
          component := component + [path[i]];
        }
        i := i + 1;
      }
      return cur;
    }

    // fs_split_parent: like Resolve, one component behind, making missing directories
    method SplitParent(path: seq<byte>, create: bool, now: word32) returns (parent: int, leaf: seq<byte>)
      requires files.Length > 0
      modifies files
      ensures Ops.Split(files[..], parent, leaf) == Ops.SplitParent(old(files[..]), path, create, now)
    {
      ScanIsComponents(path);
      ghost var goal := Ops.SplitParent(files[..], path, create, now);
      if path == [] {
        return -1, [];
      }
      var cur := 0;
      var component: seq<byte>, last: seq<byte>, pending := [], [], false;
      var i := 0;
      ghost var rest := Components(path);
      assert rest == Held(pending, last) + Scan(path[i..], component);
      while true
        invariant 0 <= i <= |path| && 0 <= cur < files.Length
        invariant rest == Held(pending, last) + Scan(path[i..], component)
        invariant goal == SplitFrom(files[..], cur, rest, create, now)
        decreases |path| - i
      {
        ScanAt(path, i, component);
        if i == |path| || path[i] == SLASH {
          ghost var later := ScanAfter(path, i);
          if |component| > 0 {
            assert rest == Held(pending, last) + [component] + later;
            if pending {
              var next := ChildOf(cur, last);
              if next < 0 {
                if !create {
                  return -1, [];
                }
                var slot := AllocNode();
                if slot < 0 {
                  return -1, [];
                }
                files[slot] := Ops.NewDir(files[slot], last, cur, now);
                next := slot;
              } else if !files[next].isDir {
                return -1, [];
              }
              cur := next;
              rest := rest[1..];
            }
            last, pending, component := component, true, [];
            assert rest == Held(pending, last) + later;
          }
          if i == |path| {
            assert rest == Held(pending, last);
            assert goal == SplitFrom(files[..], cur, rest, create, now);
            break;
          }
        } else if |component| < MAX_NAME - 1 {
          component := component + [path[i]];
        }
        i := i + 1;
      }
      if !pending {
        return -1, [];
      }
      assert |rest| == 1 && rest[0] == last;
      return cur, last;
    }

    // fs_create; `node` is the index behind the returned pointer
    method Create(path: seq<byte>, now: word32) returns (code: Code, node: int)
      requires files.Length > 0
      modifies files
      ensures Ops.Outcome(files[..], code, node) == Ops.Create(old(files[..]), path, now)
    {
      var parent, leaf := SplitParent(path, true, now);
      if parent < 0 {
        return EInval, -1;
      }
      var existing := ChildOf(parent, leaf);
      if existing >= 0 {
        if files[existing].isDir {
          return EInval, -1;
        }
        files[existing] := files[existing].(size := 0);
        files[existing] := files[existing].(data := []);
        files[existing] := files[existing].(mtime := now);
        return Ok, existing;
      }
      var slot := AllocNode();
      if slot < 0 {
        return ENoSpc, -1;
      }
      files[slot] := files[slot].(name := leaf, isDir := false, parent := parent);
      files[slot] := files[slot].(size := 0, data := []);
      files[slot] := files[slot].(live := true, ctime := now, mtime := now);
      return Ok, slot;
    }

    // fs_mkdir
    method Mkdir(path: seq<byte>, now: word32) returns (code: Code, ghost node: int)
      requires files.Length > 0
      modifies files
      ensures Ops.Outcome(files[..], code, node) == Ops.Mkdir(old(files[..]), path, now)
    {
      var parent, leaf := SplitParent(path, true, now);
      if parent < 0 {
        return EInval, -1;
      }
      var existing := ChildOf(parent, leaf);
      if existing >= 0 {
        return EInval, -1;
      }
      var slot := AllocNode();
      if slot < 0 {
        return ENoSpc, -1;
      }
      files[slot] := files[slot].(name := leaf, isDir := true, parent := parent);
      files[slot] := files[slot].(live := true, ctime := now, mtime := now);
      return Ok, slot;
    }

    // fs_rmdir
    method Rmdir(path: seq<byte>) returns (code: Code, ghost node: int)
      requires files.Length > 0
      modifies files
      ensures Ops.Outcome(files[..], code, node) == Ops.Rmdir(old(files[..]), path)
    {
      var idx := Resolve(path);
      if idx < 0 || idx == 0 || !files[idx].isDir {
        return EInval, -1;
      }
      ghost var t := files[..];
      for i := 0 to files.Length
        invariant files[..] == t
        invariant forall k :: 0 <= k < i ==> !(t[k].live && t[k].parent == idx)
      {
        if files[i].live && files[i].parent == idx {
          assert t[i].live && t[i].parent == idx;
          return EBusy, -1;
        }
      }
      files[idx] := files[idx].(live := false);
      return Ok, idx;
    }

    // fs_delete
    method Delete(path: seq<byte>) returns (code: Code, ghost node: int)
      requires files.Length > 0
      modifies files
      ensures Ops.Outcome(files[..], code, node) == Ops.Delete(old(files[..]), path)
    {
      var idx := Resolve(path);
      if idx < 0 || idx == 0 {
        return ENoEnt, -1;
      }
      if files[idx].isDir {
        return EInval, -1;
      }
      files[idx] := files[idx].(live := false);
      files[idx] := files[idx].(size := 0, data := []);
      return Ok, idx;
    }

    // fs_append, its larger copy allocated from region r
    method Append(f: int, data: seq<byte>, r: Memory.Region, now: word32) returns (code: Code, ghost node: int)
      requires files.Length > 0 && r.Valid() && Heap.Capacity(r.pages) < U32
      modifies files, r`used
      ensures r.Valid()
      ensures var a := Ops.AppendFrom(old(files[..]), f, data, old(r.used), Heap.Capacity(r.pages), now);
              Ops.Outcome(files[..], code, node) == a.outcome && r.used == a.used
    {
      if f < 0 || f >= files.Length || !files[f].live || files[f].isDir {
        return EInval, -1;
      }
      if files[f].size + |data| > MAX_FILE_SIZE {
        return ENoSpc, -1;
      }
      var addr := r.Alloc(files[f].size + |data|);
      if addr == 0 {
        return ENoMem, -1;
      }
      var grown := files[f].data + data;
      files[f] := files[f].(data := grown);
      files[f] := files[f].(size := files[f].size + |data|);
      files[f] := files[f].(mtime := now);
      return Ok, f;
    }

    // fs_rename
    method Rename(oldPath: seq<byte>, newPath: seq<byte>, now: word32) returns (code: Code, ghost node: int)
      requires files.Length > 0
      modifies files
      ensures Ops.Outcome(files[..], code, node) == Ops.Rename(old(files[..]), oldPath, newPath, now)
    {
      var idx := Resolve(oldPath);
      if idx < 0 || idx == 0 {
        return ENoEnt, -1;
      }
      var newParent, leaf := SplitParent(newPath, true, now);
      if newParent < 0 {
        return EInval, -1;
      }
      var existing := ChildOf(newParent, leaf);
      if existing >= 0 {
        return EInval, -1;
      }
      files[idx] := files[idx].(parent := newParent);
      files[idx] := files[idx].(name := leaf);
      files[idx] := files[idx].(mtime := now);
      return Ok, idx;
    }
  }

  ghost function Held(pending: bool, last: seq<byte>): seq<seq<byte>> {
    if pending then [last] else []
  }

  ghost function SplitFrom(t: Table, cur: int, names: seq<seq<byte>>, create: bool, now: word32): Ops.Split
    requires 0 <= cur < |t|
  {
    if names == [] then Ops.Split(t, -1, []) else Ops.SplitNames(t, cur, names, create, now)
  }
}
