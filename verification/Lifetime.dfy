/** Process lifetime (process.c): slots, address-space handles and pages, which processes
    come to own, give up and leave behind. */
module Lifetime {
  import opened Bytes
  import opened Results
  import opened ProcStates
  import opened Pages
  import opened Heap
  import opened Paging
  import opened Elf

  const MAX_PROCESSES: nat := 8
  const STACK_SIZE: nat := 16 * 1024
  const KSTACK_SIZE: nat := 4096

  // The fields of struct Process that decide ownership. region is the first arena page of
  // the process's Region, 0 for NULL.
  datatype Proc = Proc(state: ProcState, pid: word32, ring3: bool, space: int, region: nat, regionPages: nat)

  // Who a page of the arena was allocated for; Leaked pages belong to nobody any more.
  datatype Owner = NoOne | Reserved | Kernel | Slot(i: nat) | Leaked

  /** Process table, address spaces and physical pages. `arena` is the arena's first frame;
      `owner` is bookkeeping the kernel itself does not keep. */
  datatype Sys = Sys(
    procs: seq<Proc>,
    current: int,
    nextPid: word32,
    spaces: seq<Space>,
    code: SharedCode,
    arena: nat,
    bitmap: seq<bool>,
    hint: nat,
    mem: seq<byte>,
    owner: seq<Owner>)

  // Result of creating a process: its slot, or an error
  datatype Created = Created(s: Sys, code: Code, slot: int)

  function FreeSlot(procs: seq<Proc>, i: nat): (r: int)
    requires i <= |procs|
    ensures r == -1 || (i <= r < |procs| && procs[r].state == Unused)
    ensures forall k :: i <= k < |procs| && (r == -1 || k < r) ==> procs[k].state != Unused
    decreases |procs| - i
  {
    if i == |procs| then -1 else if procs[i].state == Unused then i else FreeSlot(procs, i + 1)
  }

  // Pages that became allocated between two bitmaps go to `who`.
  function Give(owner: seq<Owner>, before: seq<bool>, after: seq<bool>, who: Owner): (r: seq<Owner>)
    requires |before| == |after| == |owner|
    ensures |r| == |owner|
  {
    seq(|owner|, k requires 0 <= k < |owner| => if after[k] && !before[k] then who else owner[k])
  }

  function Release(owner: seq<Owner>, page: nat, n: nat): (r: seq<Owner>)
    ensures |r| == |owner|
  {
    seq(|owner|, k requires 0 <= k < |owner| => if page <= k < page + n then NoOne else owner[k])
  }

  // What process i leaves allocated when it is reaped (its ELF pages) belongs to nobody.
  function Disown(owner: seq<Owner>, i: nat): (r: seq<Owner>)
    ensures |r| == |owner|
  {
    seq(|owner|, k requires 0 <= k < |owner| => if owner[k] == Slot(i) then Leaked else owner[k])
  }

  function PhysAddr(s: Sys, page: nat): word32 {
    (s.arena + page) * FRAME % U32
  }

  // ------------------------------------------------------------------
  // Taking a region and an address space
  // ------------------------------------------------------------------

  // The system after region_new for process `slot`; page 0 if there was no room.
  datatype Regioned = Regioned(s: Sys, page: nat)

  function WithRegion(s: Sys, slot: nat, pages: nat): (r: Regioned)
    requires slot < |s.procs| && |s.owner| == |s.bitmap|
    ensures r.s.procs == s.procs && r.s.spaces == s.spaces
  {
    var a := AllocPages(s.bitmap, s.hint, pages);
    Regioned(s.(bitmap := a.bitmap, hint := a.hint, owner := Give(s.owner, s.bitmap, a.bitmap, Slot(slot))), a.page)
  }

  function Ring3Pages(ustack: word32): nat {
    RegionPages((KSTACK_SIZE + ustack + 8192) % U32)
  }

  // ------------------------------------------------------------------
  // The stacks in a ring-3 process's region
  // ------------------------------------------------------------------

  // The two region_alloc calls on the new region: kernel stack, then user stack
  datatype Stacks = Stacks(kernel: Bump, user: Bump)

  function StacksOf(capacity: nat, ustack: word32): Stacks {
    var kernel := RegionBump(0, capacity, KSTACK_SIZE);
    Stacks(kernel, RegionBump(if kernel.Taken? then kernel.used else 0, capacity, ustack))
  }

  // The stack of `size` bytes was granted and lies in the region's `capacity` bytes.
  predicate Inside(stack: Bump, size: nat, capacity: nat) {
    stack.Taken? && stack.offset + size <= capacity
  }

  // Both stacks lie in the region, the user's above the kernel's.
  predicate StacksInside(ustack: word32)
    requires Ring3Pages(ustack) > 0
  {
    var capacity := Capacity(Ring3Pages(ustack));
    var st := StacksOf(capacity, ustack);
    && Inside(st.kernel, KSTACK_SIZE, capacity) && Inside(st.user, ustack, capacity)
    && st.kernel.offset + KSTACK_SIZE <= st.user.offset
  }

  /** Of a region granted for both stacks this holds exactly if the size asked for, header
      included, does not wrap 32 bits. */
  lemma StacksInsideIff(ustack: word32)
    requires 0 < Ring3Pages(ustack) <= ARENA_PAGES
    ensures StacksInside(ustack) <==> KSTACK_SIZE + ustack + 8192 + REGION_HEADER < U32
  {
    var capacity := Capacity(Ring3Pages(ustack));
    if KSTACK_SIZE + ustack + 8192 < U32 {
      RegionLargeEnoughIff(KSTACK_SIZE + ustack + 8192);
    }
    if KSTACK_SIZE + ustack + 8192 + REGION_HEADER < U32 {
      assert RegionBump(0, capacity, KSTACK_SIZE) == Taken(0, KSTACK_SIZE);
      assert KSTACK_SIZE + Align8(ustack) <= capacity;
    } else {
      assert capacity < ustack;
    }
  }

  /** When it does wrap, proc_create_ring3 can still succeed with the user's stack pointer at the
      bottom of the region's free part: a stack of 2^32 - 4096 bytes is granted in three pages. */
  lemma StackSizeCanWrap()
    ensures var ustack: word32 := U32 - 4096;
            && Ring3Pages(ustack) == 3 && !StacksInside(ustack)
            && var st := StacksOf(Capacity(3), ustack);
               st.user.Taken? && (st.user.offset + ustack) % U32 == 0
  {
  }

  // The new process's own region becomes accessible in its space.
  function GrantRegion(s: Sys, handle: nat, page: nat, pages: nat): seq<Space>
    requires handle < |s.spaces|
  {
    var sp := s.spaces[handle];
    s.spaces[handle := sp.(table := WithAccess(sp.table, PhysAddr(s, page), pages * PAGE_SIZE % U32, true))]
  }

  // ------------------------------------------------------------------
  // The operations
  // ------------------------------------------------------------------

  // A region for the process in `slot`, and the fields every new process gets
  function StartProc(s: Sys, slot: nat, pages: nat, ring3: bool): (r: Regioned)
    requires slot < |s.procs| && |s.owner| == |s.bitmap|
    ensures |r.s.procs| == |s.procs|
  {
    var r := WithRegion(s, slot, pages);
    if r.page == 0 then Regioned(r.s.(procs := s.procs[slot := s.procs[slot].(region := 0)]), 0)
    else
      var p := s.procs[slot].(state := Ready, pid := s.nextPid, ring3 := ring3, region := r.page, regionPages := pages);
      Regioned(r.s.(procs := s.procs[slot := p], nextPid := (s.nextPid + 1) % U32), r.page)
  }

  // proc_create
  function Create(s: Sys): Created
    requires |s.owner| == |s.bitmap|
  {
    var slot := FreeSlot(s.procs, 0);
    if slot < 0 then Created(s, EBusy, -1)
    else
      var r := StartProc(s, slot, RegionPages(STACK_SIZE + 4096), false);
      if r.page == 0 then Created(r.s, ENoMem, -1)
      else Created(r.s.(procs := r.s.procs[slot := r.s.procs[slot].(space := -1)]), Ok, slot)
  }

  // proc_create_ring3, with its failure branch as written: the slot stays READY there
  function CreateRing3(s: Sys, ustack: word32): Created
    requires |s.owner| == |s.bitmap|
  {
    var slot := FreeSlot(s.procs, 0);
    if slot < 0 then Created(s, EBusy, -1)
    else
      var r := StartProc(s, slot, Ring3Pages(ustack), true);
      if r.page == 0 then Created(r.s, ENoMem, -1) else AttachSpace(r.s, slot, r.page, Ring3Pages(ustack))
  }

  // The last part of proc_create_ring3: an address space for the process in `slot`
  function AttachSpace(s: Sys, slot: nat, page: nat, pages: nat): Created
    requires slot < |s.procs|
  {
    var ns := OpenSpace(s.spaces, s.code);
    if ns.handle < 0 then Created(DropRegion(s, page, pages), ENoMem, -1)
    else
      var s1 := s.(spaces := ns.spaces, procs := s.procs[slot := s.procs[slot].(space := ns.handle)]);
      Created(s1.(spaces := GrantRegion(s1, ns.handle, page, pages)), Ok, slot)
  }

  function DropRegion(s: Sys, page: nat, pages: nat): Sys {
    if page + pages <= |s.bitmap| then
      var a := FreePages(s.bitmap, s.hint, page, pages);
      s.(bitmap := a.bitmap, hint := a.hint, owner := Release(s.owner, page, pages))
    else s
  }

  // proc_load_elf
  function LoadElf(s: Sys, file: File, ustack: word32): Created
    requires |s.owner| == |s.bitmap| && (HeaderOk(file) ==> HeadersReadable(file))
  {
    if !HeaderOk(file) then Created(s, EInval, -1)
    else
      var slot := FreeSlot(s.procs, 0);
      if slot < 0 then Created(s, EBusy, -1)
      else
        var ns := OpenSpace(s.spaces, s.code);
        if ns.handle < 0 then Created(s, ENoMem, -1)
        else LoadInto(s.(spaces := ns.spaces), slot, ns.handle, file, ustack)
  }

  // The segments of the file loaded into space `handle`
  function Segments(s: Sys, handle: nat, file: File): (st: Step)
    requires handle < |s.spaces| && HeadersReadable(file)
    ensures |st.l.bitmap| == |s.bitmap|
  {
    LoadFrom(Loader(s.mem, s.bitmap, s.hint, s.spaces[handle].table), s.arena, file, 0)
  }

  // The system with the loader's work in it, the pages taken belonging to `who`
  function Loaded(s: Sys, handle: nat, l: Loader, who: Owner): (s': Sys)
    requires handle < |s.spaces| && |l.bitmap| == |s.bitmap| == |s.owner|
    ensures |s'.owner| == |s'.bitmap| && |s'.spaces| == |s.spaces|
  {
    s.(mem := l.mem, bitmap := l.bitmap, hint := l.hint,
       spaces := s.spaces[handle := s.spaces[handle].(table := l.table)],
       owner := Give(s.owner, s.bitmap, l.bitmap, who))
  }

  // proc_load_elf from the segment loop on; s has the new space open
  function LoadInto(s: Sys, slot: nat, handle: nat, file: File, ustack: word32): Created
    requires slot < |s.procs| && handle < |s.spaces| && HeadersReadable(file) && |s.owner| == |s.bitmap|
  {
    var st := Segments(s, handle, file);
    if st.code != Ok then
      var s1 := Loaded(s, handle, st.l, Leaked);
      Created(s1.(spaces := CloseSpace(s1.spaces, handle)), st.code, -1)
    else FinishLoad(s, slot, handle, st.l, ustack)
  }

  // after the segments: the region, and the process itself
  function FinishLoad(s: Sys, slot: nat, handle: nat, l: Loader, ustack: word32): Created
    requires slot < |s.procs| && handle < |s.spaces| && |l.bitmap| == |s.owner| == |s.bitmap|
  {
    var pages := Ring3Pages(ustack);
    var a := AllocPages(l.bitmap, l.hint, pages);
    if a.page == 0 then
      var s1 := Loaded(s, handle, l.(bitmap := a.bitmap, hint := a.hint), Leaked);
      Created(s1.(spaces := CloseSpace(s1.spaces, handle), procs := s.procs[slot := s.procs[slot].(region := 0)]),
              ENoMem, -1)
    else
      var s1 := Loaded(s, handle, l.(bitmap := a.bitmap, hint := a.hint), Slot(slot));
      Created(Completed(s1, slot, handle, a.page, pages), Ok, slot)
  }

  // A loaded process made READY, its region accessible in its space
  function Completed(s: Sys, slot: nat, handle: nat, page: nat, pages: nat): Sys
    requires slot < |s.procs| && handle < |s.spaces|
  {
    var p := Proc(Ready, s.nextPid, true, handle, page, pages);
    s.(procs := s.procs[slot := p], nextPid := (s.nextPid + 1) % U32, spaces := GrantRegion(s, handle, page, pages))
  }

  lemma {:induction false} AllocFits(b: seq<bool>, hint: nat, n: nat)
    ensures AllocPages(b, hint, n).page != 0 ==> 0 < n && AllocPages(b, hint, n).page + n <= |b|
    decreases hint
  {
    if FirstFit(b, hint, n) >= 0 || hint == 0 {
    } else {
      AllocFits(b, 0, n);
    }
  }

  /** The stacks of a process created for ring 3, from an entry point or from a file, lie in its
      own region exactly if the size asked for, header included, does not wrap 32 bits. */
  lemma OwnStacksIff(s: Sys, c: Created, file: File, ustack: word32)
    requires |s.owner| == |s.bitmap| <= ARENA_PAGES && c.code == Ok
    requires c == CreateRing3(s, ustack)
             || ((HeaderOk(file) ==> HeadersReadable(file)) && c == LoadElf(s, file, ustack))
    ensures 0 <= c.slot < |c.s.procs| && c.s.procs[c.slot].regionPages == Ring3Pages(ustack) > 0
    ensures StacksInside(ustack) <==> KSTACK_SIZE + ustack + 8192 + REGION_HEADER < U32
  {
    var n := Ring3Pages(ustack);
    if c == CreateRing3(s, ustack) {
      AllocFits(s.bitmap, s.hint, n);
    } else {
      var ns := OpenSpace(s.spaces, s.code);
      var l := Segments(s.(spaces := ns.spaces), ns.handle, file).l;
      AllocFits(l.bitmap, l.hint, n);
    }
    StacksInsideIff(ustack);
  }

  // proc_exit up to the yield
  function Exit(s: Sys): Sys {
    if !(0 <= s.current < |s.procs|) then s
    else
      var p := s.procs[s.current];
      if p.ring3 then
        s.(spaces := CloseSpace(s.spaces, p.space), procs := s.procs[s.current := p.(space := -1, state := Zombie)])
      else s.(procs := s.procs[s.current := p.(state := Zombie)])
  }

  function SlotOf(procs: seq<Proc>, pid: word32, i: nat): (r: int)
    requires i <= |procs|
    ensures r == -1 || (i <= r < |procs| && procs[r].state != Unused && procs[r].pid == pid)
    decreases |procs| - i
  {
    if i == |procs| then -1
    else if procs[i].state != Unused && procs[i].pid == pid then i
    else SlotOf(procs, pid, i + 1)
  }

  // proc_kill's first half: a process that is READY or BLOCKED is forced out
  function ForceZombie(s: Sys, i: nat): Sys
    requires i < |s.procs|
  {
    var p := s.procs[i];
    if p.state != Ready && p.state != Blocked then s
    else if p.ring3 && p.space >= 0 then
      s.(spaces := CloseSpace(s.spaces, p.space), procs := s.procs[i := p.(space := -1, state := Zombie)])
    else s.(procs := s.procs[i := p.(state := Zombie)])
  }

  // and its second: the region is destroyed and the slot is free again
  function Reap(s: Sys, i: nat): Sys
    requires i < |s.procs|
  {
    var p := s.procs[i];
    var d := if p.region != 0 then DropRegion(s, p.region, p.regionPages) else s;
    d.(procs := s.procs[i := p.(region := 0, state := Unused)], owner := Disown(d.owner, i))
  }

  // proc_kill
  function Kill(s: Sys, pid: word32): (r: (Sys, bool)) {
    var i := SlotOf(s.procs, pid, 0);
    if i < 0 || s.procs[i].state == Running then (s, false) else (Reap(ForceZombie(s, i), i), true)
  }

  // Pages for the kernel itself: region_new and page_alloc outside this file, pools
  function KernelTake(s: Sys, n: nat): Sys
    requires |s.owner| == |s.bitmap|
  {
    var a := AllocPages(s.bitmap, s.hint, n);
    s.(bitmap := a.bitmap, hint := a.hint, owner := Give(s.owner, s.bitmap, a.bitmap, Kernel))
  }

  // and given back
  function KernelGive(s: Sys, page: nat, n: nat): Sys {
    DropRegion(s, page, n)
  }

  // The scheduler moves a live process between READY, RUNNING and BLOCKED and picks `current`.
  function Reschedule(s: Sys, i: nat, st: ProcState, current: int): Sys
    requires i < |s.procs|
  {
    s.(procs := s.procs[i := s.procs[i].(state := st)], current := current)
  }
}
