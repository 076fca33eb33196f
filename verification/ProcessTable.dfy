/** process.c's creation, loading, exit and kill as they run: tables, bitmap, page tables and
    memory changed in place, each call proved against its function in Lifetime. */
module ProcessTable {
  import opened Bytes
  import opened Results
  import opened ProcStates
  import opened Pages
  import opened Heap
  import opened Paging
  import opened Elf
  import opened Lifetime

  // One more page of a run mapped
  lemma MapRunStep(t: Table, from: nat, frame: nat, k: nat, w: bool)
    requires k < VIRT_PAGES && from < VIRT_PAGES
    ensures MapPage(MapRun(t, from, frame, k, w), (from + k) % VIRT_PAGES, frame + k, true, w)
            == MapRun(t, from, frame, k + 1, w)
  {
    var p := (from + k) % VIRT_PAGES;
    assert (p - from) % VIRT_PAGES == k;
  }

  lemma PageOfWrapped(from: nat, k: nat)
    requires from < VIRT_PAGES
    ensures (from * FRAME + k * FRAME) % U32 / FRAME == (from + k) % VIRT_PAGES
  {
    var q, r := (from + k) / VIRT_PAGES, (from + k) % VIRT_PAGES;
    assert from * FRAME + k * FRAME == q * U32 + r * FRAME;
    PageOfRest(q, r);
  }

  lemma PageOfRest(q: nat, r: nat)
    requires r < VIRT_PAGES
    ensures (q * U32 + r * FRAME) % U32 / FRAME == r
  {
    assert (q * U32 + r * FRAME) % U32 == r * FRAME;
  }

  class Kernel {
    const procs: array<Proc>
    const paging: AddressSpaces
    const alloc: PageAllocator
    const mem: array<byte>
    const arena: nat
    var current: int
    var nextPid: word32
    ghost var owner: seq<Owner>

    ghost predicate Valid()
      reads this, alloc.bitmap
    {
      |owner| == alloc.bitmap.Length && mem.Length == alloc.bitmap.Length * PAGE_SIZE
    }

    ghost function View(): (s: Sys)
      requires Valid()
      reads this, procs, paging, paging.spaces, alloc, alloc.bitmap, mem
      ensures |s.owner| == |s.bitmap|
    {
      Sys(procs[..], current, nextPid, paging.spaces[..], paging.code, arena,
          alloc.bitmap[..], alloc.hint, mem[..], owner)
    }

    // The process table at boot, over a given memory
    constructor (alloc: PageAllocator, paging: AddressSpaces, mem: array<byte>, arena: nat)
      requires mem.Length == alloc.bitmap.Length * PAGE_SIZE
      ensures Valid() && fresh(procs) && current == -1 && nextPid == 1
      ensures this.alloc == alloc && this.paging == paging && this.mem == mem && this.arena == arena
      ensures forall i :: 0 <= i < procs.Length ==> procs[i].state == Unused
      ensures procs.Length == MAX_PROCESSES
    {
      procs := new Proc[MAX_PROCESSES](_ => Proc(Unused, 0, false, 0, 0, 0));
      this.alloc := alloc;
      this.paging := paging;
      this.mem := mem;
      this.arena := arena;
      current := -1;
      nextPid := 1;
      owner := seq(alloc.bitmap.Length, k => if k == 0 then Reserved else NoOne);
    }

    method FindSlot() returns (slot: int)
      ensures slot == FreeSlot(procs[..], 0)
    {
      var i := 0;
      while i < procs.Length
        invariant 0 <= i <= procs.Length && FreeSlot(procs[..], i) == FreeSlot(procs[..], 0)
      {
        if procs[i].state == Unused {
          return i;
        }
        i := i + 1;
      }
      return -1;
    }

    // region_new on behalf of process `slot`
    method TakeRegion(slot: nat, pages: nat) returns (page: nat)
      requires Valid() && slot < procs.Length
      modifies this`owner, alloc, alloc.bitmap
      ensures Valid() && View() == WithRegion(old(View()), slot, pages).s
      ensures page == WithRegion(old(View()), slot, pages).page
    {
      ghost var before := alloc.bitmap[..];
      page := alloc.Alloc(pages);
      owner := Give(owner, before, alloc.bitmap[..], Slot(slot));
    }

    // region_destroy
    method GiveUpRegion(page: nat, pages: nat)
      requires Valid() && page + pages <= alloc.bitmap.Length
      modifies this`owner, alloc, alloc.bitmap
      ensures Valid() && View() == DropRegion(old(View()), page, pages)
    {
      alloc.Free(page, pages);
      owner := Release(owner, page, pages);
    }

    // A region for the process in `slot`, and the fields every new process gets
    method Start(slot: nat, pages: nat, ring3: bool) returns (page: nat)
      requires Valid() && slot < procs.Length
      modifies this`owner, this`nextPid, procs, alloc, alloc.bitmap
      ensures Valid() && View() == StartProc(old(View()), slot, pages, ring3).s
      ensures page == StartProc(old(View()), slot, pages, ring3).page
    {
      page := TakeRegion(slot, pages);
      procs[slot] := procs[slot].(region := page);
      if page == 0 {
        return;
      }
      procs[slot] := procs[slot].(regionPages := pages);
      procs[slot] := procs[slot].(pid := nextPid, state := Ready);
      nextPid := (nextPid + 1) % U32;
      procs[slot] := procs[slot].(ring3 := ring3);
    }

    // The process's region becomes accessible in its own space.
    method OpenRegion(space: nat, page: nat, pages: nat)
      requires Valid() && space < paging.spaces.Length
      modifies paging`kernel, paging.spaces
      ensures Valid() && View() == old(View()).(spaces := GrantRegion(old(View()), space, page, pages))
    {
      paging.GrantAccess(space, (arena + page) * FRAME % U32, pages * PAGE_SIZE % U32, true);
    }

    // proc_create; the pid of the new process is the one proc_create returned a pointer to
    method Spawn() returns (code: Code, slot: int)
      requires Valid()
      modifies this, procs, alloc, alloc.bitmap
      ensures Valid() && Created(View(), code, slot) == Create(old(View()))
    {
      slot := FindSlot();
      if slot < 0 {
        return EBusy, -1;
      }
      var page := Start(slot, RegionPages(STACK_SIZE + 4096), false);
      if page == 0 {
        return ENoMem, -1;
      }
      procs[slot] := procs[slot].(space := -1);
      return Ok, slot;
    }

    // proc_create_ring3
    method SpawnRing3(ustack: word32) returns (code: Code, slot: int)
      requires Valid() && paging.Valid()
      modifies this, procs, paging, paging.spaces, alloc, alloc.bitmap
      ensures Valid() && Created(View(), code, slot) == CreateRing3(old(View()), ustack)
    {
      slot := FindSlot();
      if slot < 0 {
        return EBusy, -1;
      }
      var pages := Ring3Pages(ustack);
      AllocFits(alloc.bitmap[..], alloc.hint, pages);
      var page := Start(slot, pages, true);
      if page == 0 {
        return ENoMem, -1;
      }
      code, slot := Attach(slot, page, pages);
    }

    // the address space of the process just put in `slot`
    method Attach(slot: nat, page: nat, pages: nat) returns (code: Code, made: int)
      requires Valid() && paging.Valid() && slot < procs.Length && page + pages <= alloc.bitmap.Length
      modifies this`owner, procs, paging, paging.spaces, alloc, alloc.bitmap
      ensures Valid() && Created(View(), code, made) == AttachSpace(old(View()), slot, page, pages)
    {
      var space := paging.New();
      if space < 0 {
        GiveUpRegion(page, pages);
        return ENoMem, -1;
      }
      procs[slot] := procs[slot].(space := space);
      OpenRegion(space, page, pages);
      return Ok, slot;
    }

    // memset and memcpy of one segment onto the n pages from `page` on
    method FillPages(file: File, ph: Phdr, page: nat, n: nat)
      requires ph.offset + ph.filesz <= file.size
      modifies mem
      ensures mem[..] == Fill(old(mem[..]), file, ph, page, n)
    {
      Put(page * PAGE_SIZE, Zeros(n * PAGE_SIZE));
      Put(page * PAGE_SIZE + Skip(ph), file.mem[ph.offset..ph.offset + ph.filesz]);
    }

    // What would fall off the end of the arena is outside this model.
    method Put(at: nat, data: seq<byte>)
      modifies mem
      ensures mem[..] == Overlay(old(mem[..]), at, data)
    {
      var i := 0;
      while i < |data| && at + i < mem.Length
        invariant 0 <= i <= |data|
        invariant forall k :: 0 <= k < mem.Length ==>
          mem[k] == if at <= k < at + i then data[k - at] else old(mem[k])
      {
        mem[at + i] := data[i];
        i := i + 1;
      }
    }

    // the paging_map_page loop of one segment
    method MapSegment(handle: nat, ph: Phdr, frame: nat, n: nat)
      requires handle < paging.spaces.Length && n <= VIRT_PAGES
      modifies paging`kernel, paging.spaces
      ensures paging.spaces[..] == old(paging.spaces[..])[handle := old(paging.spaces[handle]).(
        table := MapRun(old(paging.spaces[handle]).table, StartPage(ph), frame, n, Writable(ph)))]
    {
      ghost var sp := paging.spaces[handle];
      assert MapRun(sp.table, StartPage(ph), frame, 0, Writable(ph)) == sp.table;
      for k := 0 to n
        invariant paging.spaces[..] == old(paging.spaces[..])[handle := sp.(
          table := MapRun(sp.table, StartPage(ph), frame, k, Writable(ph)))]
      {
        PageOfWrapped(StartPage(ph), k);
        MapRunStep(sp.table, StartPage(ph), frame, k, Writable(ph));
        var _ := paging.Map(handle, (StartPage(ph) * FRAME + k * FRAME) % U32, frame + k, true, Writable(ph));
      }
    }

    // The part of the system the segment loop works on
    ghost function LoaderView(handle: nat): Loader
      requires handle < paging.spaces.Length
      reads this, paging, paging.spaces, alloc, alloc.bitmap, mem
    {
      Loader(mem[..], alloc.bitmap[..], alloc.hint, paging.spaces[handle].table)
    }

    // One turn of the segment loop
    method LoadOne(handle: nat, file: File, ph: Phdr) returns (code: Code)
      requires Valid() && handle < paging.spaces.Length
      modifies paging`kernel, paging.spaces, alloc, alloc.bitmap, mem
      ensures Valid() && Step(LoaderView(handle), code) == LoadSegment(old(LoaderView(handle)), arena, file, ph)
      ensures paging.spaces[..] == WithTable(old(paging.spaces[..]), handle, paging.spaces[handle].table)
    {
      if ph.kind != PT_LOAD {
        return Ok;
      }
      if ph.offset + ph.filesz > file.size || ph.filesz > ph.memsz {
        return EInval;
      }
      var n := NumPages(ph);
      var page := alloc.Alloc(n);
      if page == 0 {
        return ENoMem;
      }
      FillPages(file, ph, page, n);
      MapSegment(handle, ph, arena + page, n);
      return Ok;
    }

    method LoadAll(handle: nat, file: File) returns (code: Code)
      requires Valid() && handle < paging.spaces.Length && HeadersReadable(file)
      modifies paging`kernel, paging.spaces, alloc, alloc.bitmap, mem
      ensures Valid() && Step(LoaderView(handle), code) == LoadFrom(old(LoaderView(handle)), arena, file, 0)
      ensures paging.spaces[..] == WithTable(old(paging.spaces[..]), handle, paging.spaces[handle].table)
    {
      ghost var goal := LoadFrom(LoaderView(handle), arena, file, 0);
      for i := 0 to PhNum(file)
        invariant Valid() && goal == LoadFrom(LoaderView(handle), arena, file, i)
        invariant paging.spaces[..] == WithTable(old(paging.spaces[..]), handle, paging.spaces[handle].table)
      {
        code := LoadOne(handle, file, PhdrAt(file, i));
        if code != Ok {
          return;
        }
      }
      return Ok;
    }

    // proc_load_elf
    method SpawnElf(file: File, ustack: word32) returns (code: Code, slot: int)
      requires Valid() && paging.Valid() && (HeaderOk(file) ==> HeadersReadable(file))
      modifies this, procs, paging, paging.spaces, alloc, alloc.bitmap, mem
      ensures Valid() && Created(View(), code, slot) == LoadElf(old(View()), file, ustack)
    {
      if !HeaderOk(file) {
        return EInval, -1;
      }
      slot := FindSlot();
      if slot < 0 {
        return EBusy, -1;
      }
      var space := paging.New();
      if space < 0 {
        return ENoMem, -1;
      }
      code, slot := LoadAndStart(slot, space, file, ustack);
    }

    // from the segment loop on
    method LoadAndStart(slot: nat, handle: nat, file: File, ustack: word32) returns (code: Code, made: int)
      requires Valid() && HeadersReadable(file) && slot < procs.Length && handle < paging.spaces.Length
      modifies this, procs, paging`kernel, paging.spaces, alloc, alloc.bitmap, mem
      ensures Valid() && Created(View(), code, made) == LoadInto(old(View()), slot, handle, file, ustack)
    {
      ghost var s := View();
      code := LoadAll(handle, file);
      if code != Ok {
        owner := Give(owner, s.bitmap, alloc.bitmap[..], Leaked);
        paging.Free(handle);
        return code, -1;
      }
      code, made := Finish(slot, handle, ustack, s);
    }

    // after the segments; s is the system before them
    method Finish(slot: nat, handle: nat, ustack: word32, ghost s: Sys) returns (code: Code, made: int)
      requires Valid() && slot < procs.Length && handle < paging.spaces.Length
      requires |s.spaces| == paging.spaces.Length && |s.bitmap| == |s.owner| == alloc.bitmap.Length
      requires var l := LoaderView(handle);
               View() == s.(mem := l.mem, bitmap := l.bitmap, hint := l.hint,
                            spaces := s.spaces[handle := s.spaces[handle].(table := l.table)])
      modifies this, procs, paging`kernel, paging.spaces, alloc, alloc.bitmap
      ensures Valid() && Created(View(), code, made) == FinishLoad(s, slot, handle, old(LoaderView(handle)), ustack)
    {
      var pages := Ring3Pages(ustack);
      var page := TakeStack(slot, handle, pages, s, LoaderView(handle));
      if page == 0 {
        paging.Free(handle);
        return ENoMem, -1;
      }
      Complete(slot, handle, page, pages);
      return Ok, slot;
    }

    // The region's pages; l is what loading has left, s the system before the segments
    method TakeStack(slot: nat, handle: nat, pages: nat, ghost s: Sys, ghost l: Loader) returns (page: nat)
      requires Valid() && slot < procs.Length && handle < paging.spaces.Length && l == LoaderView(handle)
      requires |s.spaces| == paging.spaces.Length && |s.bitmap| == |s.owner| == alloc.bitmap.Length
      requires View() == s.(mem := l.mem, bitmap := l.bitmap, hint := l.hint,
                            spaces := s.spaces[handle := s.spaces[handle].(table := l.table)])
      modifies this`owner, procs, alloc, alloc.bitmap
      ensures var a := AllocPages(l.bitmap, l.hint, pages);
              && Valid() && page == a.page
              && View() == Loaded(s, handle, l.(bitmap := a.bitmap, hint := a.hint),
                                  if a.page == 0 then Leaked else Slot(slot))
                           .(procs := s.procs[slot := s.procs[slot].(region := a.page)])
    {
      page := alloc.Alloc(pages);
      procs[slot] := procs[slot].(region := page);
      owner := Give(owner, s.bitmap, alloc.bitmap[..], if page == 0 then Leaked else Slot(slot));
    }

    // The new process's fields, and access to its region
    method Complete(slot: nat, handle: nat, page: nat, pages: nat)
      requires Valid() && slot < procs.Length && handle < paging.spaces.Length && procs[slot].region == page
      modifies this`nextPid, procs, paging`kernel, paging.spaces
      ensures Valid() && View() == Completed(old(View()), slot, handle, page, pages)
    {
      FillSlot(slot, handle, page, pages);
      OpenRegion(handle, page, pages);
    }

    method FillSlot(slot: nat, handle: nat, page: nat, pages: nat)
      requires slot < procs.Length && procs[slot].region == page
      modifies this`nextPid, procs
      ensures nextPid == (old(nextPid) + 1) % U32
      ensures procs[..] == old(procs[..])[slot := Proc(Ready, old(nextPid), true, handle, page, pages)]
    {
      procs[slot] := procs[slot].(regionPages := pages);
      procs[slot] := procs[slot].(pid := nextPid, state := Ready);
      nextPid := (nextPid + 1) % U32;
      procs[slot] := procs[slot].(ring3 := true, space := handle);
    }

    // proc_exit up to the yield
    method ExitCurrent()
      requires Valid() && current < procs.Length
      modifies procs, paging.spaces
      ensures Valid() && View() == Exit(old(View()))
    {
      if current < 0 {
        return;
      }
      if procs[current].ring3 {
        paging.Free(procs[current].space);
        procs[current] := procs[current].(space := -1);
      }
      procs[current] := procs[current].(state := Zombie);
    }

    method ForceOut(i: nat)
      requires Valid() && i < procs.Length
      modifies procs, paging.spaces
      ensures Valid() && View() == ForceZombie(old(View()), i)
    {
      if procs[i].state == Ready || procs[i].state == Blocked {
        if procs[i].ring3 && procs[i].space >= 0 {
          paging.Free(procs[i].space);
          procs[i] := procs[i].(space := -1);
        }
        procs[i] := procs[i].(state := Zombie);
      }
    }

    method ReapSlot(i: nat)
      requires Valid() && i < procs.Length
      requires procs[i].region + procs[i].regionPages <= alloc.bitmap.Length
      modifies this`owner, procs, alloc, alloc.bitmap
      ensures Valid() && View() == Reap(old(View()), i)
    {
      if procs[i].region != 0 {
        GiveUpRegion(procs[i].region, procs[i].regionPages);
      }
      owner := Disown(owner, i);
      procs[i] := procs[i].(region := 0);
      procs[i] := procs[i].(state := Unused);
    }

    // proc_kill
    method KillPid(pid: word32) returns (ok: bool)
      requires Valid()
      requires forall i :: 0 <= i < procs.Length && procs[i].state != Unused ==>
        procs[i].region + procs[i].regionPages <= alloc.bitmap.Length
      modifies this`owner, procs, paging.spaces, alloc, alloc.bitmap
      ensures Valid() && (View(), ok) == Kill(old(View()), pid)
    {
      var i := 0;
      while i < procs.Length && !(procs[i].state != Unused && procs[i].pid == pid)
        invariant 0 <= i <= procs.Length && SlotOf(procs[..], pid, i) == SlotOf(procs[..], pid, 0)
      {
        i := i + 1;
      }
      if i == procs.Length {
        return false;
      }
      if procs[i].state == Running {
        return false;
      }
      ForceOut(i);
      ReapSlot(i);
      return true;
    }
  }
}
