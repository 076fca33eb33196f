/** paging.c: one page table per ring-3 process over the first 32 MB, plus the kernel's own. */
module Paging {
  import opened Bytes

  const FRAME: nat := 4096
  const NUM_PAGE_TABLES: nat := 8
  const PAGES_PER_TABLE: nat := 1024
  const NUM_PAGES: nat := NUM_PAGE_TABLES * PAGES_PER_TABLE
  const MAX_ADDR_SPACES: nat := 8

  // A page-table entry (always present): frame number, PTE_RW, PTE_US. The entry of virtual
  // page p stands at index p of a table, that is at tables[p / 1024][p % 1024].
  datatype Pte = Pte(frame: nat, rw: bool, us: bool)

  type Table = t: seq<Pte> | |t| == NUM_PAGES witness seq(NUM_PAGES, p requires p >= 0 => Pte(p, true, false))

  datatype Space = Space(inUse: bool, table: Table)

  // The range of shared code every new space may execute
  datatype SharedCode = SharedCode(start: word32, size: word32)

  /** fill_identity: every page maps to itself, writable, for the supervisor only. */
  function Identity(): Table {
    seq(NUM_PAGES, p requires p >= 0 => Pte(p, true, false))
  }

  function FirstPage(start: word32): nat {
    start / FRAME
  }

  // One past the last page touched by [start, start + size), in 32-bit arithmetic
  function EndPage(start: word32, size: word32): nat {
    (start + size + FRAME - 1) % U32 / FRAME
  }

  /** grant_in: PTE_US of every page touched by the range becomes `user`; nothing else moves. */
  function WithAccess(t: Table, start: word32, size: word32, user: bool): Table {
    seq(NUM_PAGES, p requires 0 <= p < NUM_PAGES =>
      if FirstPage(start) <= p < EndPage(start, size) then t[p].(us := user) else t[p])
  }

  function NewTable(code: SharedCode): Table {
    if code.size > 0 then WithAccess(Identity(), code.start, code.size, true) else Identity()
  }

  function FreeHandle(spaces: seq<Space>, i: nat): (r: int)
    requires i <= |spaces|
    ensures r == -1 || (i <= r < |spaces| && !spaces[r].inUse)
    ensures forall k :: i <= k < |spaces| && (r == -1 || k < r) ==> spaces[k].inUse
    decreases |spaces| - i
  {
    if i == |spaces| then -1 else if !spaces[i].inUse then i else FreeHandle(spaces, i + 1)
  }

  // The spaces after paging_new_address_space, and the handle (-1: none left)
  datatype NewSpace = NewSpace(spaces: seq<Space>, handle: int)

  function OpenSpace(spaces: seq<Space>, code: SharedCode): (r: NewSpace)
    ensures |r.spaces| == |spaces| && -1 <= r.handle < |spaces|
  {
    var i := FreeHandle(spaces, 0);
    if i < 0 then NewSpace(spaces, -1) else NewSpace(spaces[i := Space(true, NewTable(code))], i)
  }

  /** paging_free_address_space: handles out of range are ignored. */
  function CloseSpace(spaces: seq<Space>, h: int): (r: seq<Space>)
    ensures |r| == |spaces|
  {
    if 0 <= h < |spaces| then spaces[h := spaces[h].(inUse := false)] else spaces
  }

  /** paging_map_page: redirects one page; pages past the tables are refused. */
  function MapPage(t: Table, page: nat, frame: nat, user: bool, writable: bool): Table {
    if page < NUM_PAGES then t[page := Pte(frame, writable, user)] else t
  }

  // Frame f can be reached from ring 3 through t.
  ghost predicate UserReach(t: Table, f: nat) {
    exists p :: 0 <= p < NUM_PAGES && t[p].us && t[p].frame == f
  }

  ghost predicate CodeFrame(code: SharedCode, f: nat) {
    code.size > 0 && FirstPage(code.start) <= f < EndPage(code.start, code.size)
  }

  /** A space handed out anew, recycled or not, shows ring 3 the shared code pages that the
      tables cover and nothing else: no grant or mapping of a former owner is left. */
  lemma FreshSpaceShowsOnlyCode(spaces: seq<Space>, code: SharedCode, f: nat)
    requires OpenSpace(spaces, code).handle >= 0
    ensures var r := OpenSpace(spaces, code);
            UserReach(r.spaces[r.handle].table, f) <==> f < NUM_PAGES && CodeFrame(code, f)
  {
    var t := NewTable(code);
    if f < NUM_PAGES && CodeFrame(code, f) {
      assert t[f].us && t[f].frame == f;
    }
  }

  lemma GrantReach(t: Table, start: word32, size: word32, f: nat)
    requires UserReach(WithAccess(t, start, size, true), f)
    ensures UserReach(t, f)
            || exists p :: FirstPage(start) <= p < EndPage(start, size) && p < NUM_PAGES && t[p].frame == f
  {
    var g := WithAccess(t, start, size, true);
    var p :| 0 <= p < NUM_PAGES && g[p].us && g[p].frame == f;
    assert t[p].frame == f;
  }

  // The page table of space h replaced
  function WithTable(spaces: seq<Space>, h: nat, t: Table): seq<Space>
    requires h < |spaces|
  {
    spaces[h := spaces[h].(table := t)]
  }

  class AddressSpaces {
    const spaces: array<Space>
    var kernel: Table
    var code: SharedCode

    ghost predicate Valid()
      reads this, spaces
    {
      spaces.Length < 0x8000_0000
    }

    // paging_init
    constructor ()
      ensures Valid() && fresh(spaces) && spaces.Length == MAX_ADDR_SPACES && kernel == Identity()
      ensures forall i :: 0 <= i < spaces.Length ==> !spaces[i].inUse
    {
      spaces := new Space[MAX_ADDR_SPACES](i => Space(false, Identity()));
      kernel := Identity();
      code := SharedCode(0, 0);
    }

    method FillIdentity() returns (t: Table)
      ensures t == Identity()
    {
      t := kernel;
      for pt := 0 to NUM_PAGE_TABLES
        invariant forall p :: 0 <= p < pt * PAGES_PER_TABLE ==> t[p] == Pte(p, true, false)
      {
        for i := 0 to PAGES_PER_TABLE
          invariant forall p :: 0 <= p < pt * PAGES_PER_TABLE + i ==> t[p] == Pte(p, true, false)
        {
          var page := pt * PAGES_PER_TABLE + i;
          t := t[page := Pte(page, true, false)];
        }
      }
    }

    // grant_in on one table
    static method GrantIn(table: Table, start: word32, size: word32, user: bool) returns (t: Table)
      ensures t == WithAccess(table, start, size, user)
    {
      t := table;
      var p, end := FirstPage(start), EndPage(start, size);
      while p < end
        invariant FirstPage(start) <= p && (p == FirstPage(start) || p <= end)
        invariant forall q :: 0 <= q < NUM_PAGES ==>
          t[q] == if FirstPage(start) <= q < p then table[q].(us := user) else table[q]
        decreases end - p
      {
        if p / PAGES_PER_TABLE >= NUM_PAGE_TABLES {
          break;
        }
        t := t[p := t[p].(us := user)];
        p := p + 1;
      }
      assert t == WithAccess(table, start, size, user);
    }

    // paging_new_address_space
    method New() returns (handle: int)
      requires Valid()
      modifies spaces
      ensures Valid() && NewSpace(spaces[..], handle) == OpenSpace(old(spaces[..]), code)
    {
      var i := 0;
      while i < spaces.Length
        invariant 0 <= i <= spaces.Length && spaces[..] == old(spaces[..])
        invariant FreeHandle(spaces[..], i) == FreeHandle(spaces[..], 0)
      {
        if !spaces[i].inUse {
          var t := FillIdentity();
          if code.size > 0 {
            t := GrantIn(t, code.start, code.size, true);
          }
          spaces[i] := Space(true, t);
          return i;
        }
        i := i + 1;
      }
      return -1;
    }

    // paging_free_address_space
    method Free(handle: int)
      modifies spaces
      ensures spaces[..] == CloseSpace(old(spaces[..]), handle)
    {
      if handle < 0 || handle >= spaces.Length {
        return;
      }
      spaces[handle] := spaces[handle].(inUse := false);
    }

    // paging_grant_access; a handle out of range means the kernel's table
    method GrantAccess(handle: int, start: word32, size: word32, user: bool)
      modifies this`kernel, spaces
      ensures if 0 <= handle < spaces.Length
              then kernel == old(kernel)
                   && spaces[..] == WithTable(old(spaces[..]), handle,
                                              WithAccess(old(spaces[handle]).table, start, size, user))
              else spaces[..] == old(spaces[..]) && kernel == WithAccess(old(kernel), start, size, user)
    {
      if handle < 0 || handle >= spaces.Length {
        kernel := GrantIn(kernel, start, size, user);
      } else {
        var t := GrantIn(spaces[handle].table, start, size, user);
        spaces[handle] := spaces[handle].(table := t);
      }
    }

    // paging_map_page
    method Map(handle: int, virt: word32, frame: nat, user: bool, writable: bool) returns (ok: bool)
      modifies this`kernel, spaces
      ensures ok == (virt / FRAME < NUM_PAGES)
      ensures if 0 <= handle < spaces.Length
              then kernel == old(kernel)
                   && spaces[..] == WithTable(old(spaces[..]), handle,
                                              MapPage(old(spaces[handle]).table, virt / FRAME, frame, user, writable))
              else spaces[..] == old(spaces[..]) && kernel == MapPage(old(kernel), virt / FRAME, frame, user, writable)
    {
      var page := virt / FRAME;
      if page / PAGES_PER_TABLE >= NUM_PAGE_TABLES {
        return false;
      }
      if handle < 0 || handle >= spaces.Length {
        kernel := kernel[page := Pte(frame, writable, user)];
      } else {
        spaces[handle] := spaces[handle].(table := spaces[handle].table[page := Pte(frame, writable, user)]);
      }
      return true;
    }
  }
}
