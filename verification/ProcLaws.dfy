/** What creating, ending and killing a process do, one call at a time, in terms of slots, pids,
    pages and address spaces. */
module ProcLaws {
  import opened Bytes
  import opened Results
  import opened ProcStates
  import opened Pages
  import opened Paging
  import opened Lifetime
  import opened Isolation

  predicate AllTaken(s: Sys) {
    forall k :: 0 <= k < |s.procs| ==> s.procs[k].state != Unused
  }

  // The lowest unused slot is a READY process with the next pid; no other slot changed.
  predicate Made(s: Sys, c: Created, ring3: bool) {
    && 0 <= c.slot < |s.procs| == |c.s.procs|
    && s.procs[c.slot].state == Unused && (forall k :: 0 <= k < c.slot ==> s.procs[k].state != Unused)
    && (forall k :: 0 <= k < |s.procs| && k != c.slot ==> c.s.procs[k] == s.procs[k])
    && c.s.procs[c.slot].state == Ready && c.s.procs[c.slot].ring3 == ring3
    && c.s.procs[c.slot].pid == s.nextPid && c.s.nextPid == (s.nextPid + 1) % 0x1_0000_0000
    && c.s.current == s.current
  }

  // There is room for a run of n pages somewhere.
  predicate RoomFor(b: seq<bool>, n: nat) {
    exists k: nat :: k + n <= |b| && FreeRun(b, k, n)
  }

  lemma GrantedIffRoom(b: seq<bool>, hint: nat, n: nat)
    requires 0 < |b| && b[0] && n > 0
    ensures AllocPages(b, hint, n).page != 0 <==> RoomFor(b, n)
  {
    AllocSoundAndComplete(b, hint, n);
  }

  /** proc_create fails exactly if every slot is taken or there are no six free pages in a row; it
      touches no address space. */
  lemma CreateOutcome(s: Sys, c: Created)
    requires Inv(s) && c == Create(s)
    ensures c.code == if AllTaken(s) then EBusy else if RoomFor(s.bitmap, 6) then Ok else ENoMem
    ensures c.code == Ok ==> Made(s, c, false) && c.s.procs[c.slot].regionPages == 6 && c.s.spaces == s.spaces
    ensures c.code != Ok ==> forall k :: 0 <= k < |s.procs| ==> c.s.procs[k].state == s.procs[k].state
  {
    GrantedIffRoom(s.bitmap, s.hint, 6);
  }

  // The region of both stacks
  function RegionNeed(ustack: word32): nat {
    (4096 + ustack + 8192 + 24 + 4095) / 4096
  }

  lemma CreateRing3Code(s: Sys, ustack: word32)
    requires Inv(s) && 4096 + ustack + 8192 + 24 + 4095 < U32
    ensures CreateRing3(s, ustack).code
            == if AllTaken(s) then EBusy else if RoomFor(s.bitmap, RegionNeed(ustack)) then Ok else ENoMem
  {
    NeedIsRing3Pages(ustack);
    CreateRing3Branches(s, ustack);
    GrantedIffRoom(s.bitmap, s.hint, RegionNeed(ustack));
    if FreeSlot(s.procs, 0) >= 0 {
      SpaceForEverySlot(s.procs, s.spaces, s.code);
    }
  }

  lemma NeedIsRing3Pages(ustack: word32)
    requires 4096 + ustack + 8192 + 24 + 4095 < U32
    ensures Ring3Pages(ustack) == RegionNeed(ustack)
  {
  }

  lemma CreateRing3Branches(s: Sys, ustack: word32)
    requires |s.owner| == |s.bitmap|
    ensures CreateRing3(s, ustack).code
            == if FreeSlot(s.procs, 0) < 0 then EBusy
               else if AllocPages(s.bitmap, s.hint, Ring3Pages(ustack)).page == 0 then ENoMem
               else if OpenSpace(s.spaces, s.code).handle < 0 then ENoMem else Ok
  {
  }

  lemma CreateRing3Made(s: Sys, ustack: word32, c: Created)
    requires |s.owner| == |s.bitmap| && 4096 + ustack + 8192 + 24 + 4095 < U32
    requires c == CreateRing3(s, ustack) && c.code == Ok
    ensures Made(s, c, true) && c.s.procs[c.slot].regionPages == RegionNeed(ustack) && |c.s.spaces| == |s.spaces|
    ensures var h := c.s.procs[c.slot].space;
            && 0 <= h < |s.spaces| && !s.spaces[h].inUse && c.s.spaces[h].inUse
            && forall k :: 0 <= k < |s.spaces| && k != h ==> c.s.spaces[k] == s.spaces[k]
  {
    NeedIsRing3Pages(ustack);
  }

  /** proc_create_ring3, for stacks of a size that does not wrap, fails exactly if every slot is
      taken or there is no room for the region; it takes one address space nobody held. */
  lemma CreateRing3Outcome(s: Sys, ustack: word32, c: Created)
    requires Inv(s) && 4096 + ustack + 8192 + 24 + 4095 < U32 && c == CreateRing3(s, ustack)
    ensures c.code == if AllTaken(s) then EBusy else if RoomFor(s.bitmap, RegionNeed(ustack)) then Ok else ENoMem
    ensures c.code == Ok ==>
      && Made(s, c, true) && c.s.procs[c.slot].regionPages == RegionNeed(ustack) && |c.s.spaces| == |s.spaces|
      && var h := c.s.procs[c.slot].space;
         && 0 <= h < |s.spaces| && !s.spaces[h].inUse && c.s.spaces[h].inUse
         && forall k :: 0 <= k < |s.spaces| && k != h ==> c.s.spaces[k] == s.spaces[k]
  {
    CreateRing3Code(s, ustack);
    if c.code == Ok {
      CreateRing3Made(s, ustack, c);
    }
  }

  // The pages a grant opens, for a run of frames that does not wrap
  lemma GrantOpens(s: Sys, t: Table, page: nat, pages: nat, k: nat)
    requires (s.arena + page + pages) * FRAME + FRAME <= U32 && k < pages && s.arena + page + k < NUM_PAGES
    ensures var p := s.arena + page + k;
            WithAccess(t, PhysAddr(s, page), pages * PAGE_SIZE % U32, true)[p] == t[p].(us := true)
  {
    assert PhysAddr(s, page) == (s.arena + page) * FRAME && pages * PAGE_SIZE % U32 == pages * PAGE_SIZE;
    PagesOfRun(s.arena + page, pages);
  }

  lemma PagesOfRun(first: nat, n: nat)
    requires (first + n) * FRAME + FRAME <= U32
    ensures FirstPage(first * FRAME) == first && EndPage(first * FRAME, n * FRAME) == first + n
  {
    assert first * FRAME + n * FRAME == (first + n) * FRAME;
    assert ((first + n) * FRAME + FRAME - 1) / FRAME == first + n;
  }

  /** The process made by proc_create_ring3 can use its own region: below 32 MB every page of it is
      open to ring 3 and is the frame of the same number. */
  lemma OwnRegionOpen(s: Sys, ustack: word32, c: Created, k: nat)
    requires Inv(s) && c == CreateRing3(s, ustack) && c.code == Ok
    requires 0 <= c.slot < |c.s.procs| && k < c.s.procs[c.slot].regionPages
    requires s.arena + c.s.procs[c.slot].region + k < NUM_PAGES
    ensures var p := s.arena + c.s.procs[c.slot].region + k;
            TableOf(c.s, c.slot)[p].us && TableOf(c.s, c.slot)[p].frame == p
  {
    var pages := Ring3Pages(ustack);
    var a := AllocPages(s.bitmap, s.hint, pages);
    AllocFits(s.bitmap, s.hint, pages);
    GrantOpens(s, NewTable(s.code), a.page, pages, k);
  }

  // ------------------------------------------------------------------
  // Ending
  // ------------------------------------------------------------------

  // Only slot i and the space it held differ; that space, if any, is no longer in use.
  predicate OnlyEnds(s: Sys, s': Sys, i: nat, space: int)
    requires i < |s.procs|
  {
    && |s'.procs| == |s.procs| && (forall k :: 0 <= k < |s.procs| && k != i ==> s'.procs[k] == s.procs[k])
    && |s'.spaces| == |s.spaces|
    && (forall h :: 0 <= h < |s.spaces| && h != space ==> s'.spaces[h] == s.spaces[h])
    && (0 <= space < |s.spaces| ==> !s'.spaces[space].inUse)
    && s'.current == s.current && s'.nextPid == s.nextPid && s'.mem == s.mem
  }

  /** proc_exit: the current process, and nobody else, is a zombie that holds no space any more; it
      keeps its region until it is reaped. */
  lemma ExitOutcome(s: Sys)
    requires Inv(s) && 0 <= s.current && s.procs[s.current].state == Running
    ensures var s', p := Exit(s), s.procs[s.current];
            && OnlyEnds(s, s', s.current, if p.ring3 then p.space else -1)
            && s'.procs[s.current].state == Zombie && (p.ring3 ==> s'.procs[s.current].space == -1)
            && s'.procs[s.current].region == p.region && s'.procs[s.current].pid == p.pid
            && s'.bitmap == s.bitmap
  {
  }

  // i is the lowest slot in use with this pid.
  predicate Named(s: Sys, pid: word32, i: nat) {
    && i < |s.procs| && s.procs[i].state != Unused && s.procs[i].pid == pid
    && forall k :: 0 <= k < i ==> s.procs[k].state == Unused || s.procs[k].pid != pid
  }

  lemma NamedIsFound(s: Sys, pid: word32, i: nat)
    requires Named(s, pid, i)
    ensures SlotOf(s.procs, pid, 0) == i
  {
    NamedFrom(s.procs, pid, 0, i);
  }

  lemma {:induction false} NamedFrom(procs: seq<Proc>, pid: word32, from: nat, i: nat)
    requires from <= i < |procs| && procs[i].state != Unused && procs[i].pid == pid
    requires forall k :: from <= k < i ==> procs[k].state == Unused || procs[k].pid != pid
    ensures SlotOf(procs, pid, from) == i
    decreases i - from
  {
    if from == i {
    } else {
      NamedFrom(procs, pid, from + 1, i);
    }
  }

  lemma {:induction false} NobodyFound(procs: seq<Proc>, pid: word32, from: nat)
    requires from <= |procs| && forall k :: from <= k < |procs| ==> procs[k].state == Unused || procs[k].pid != pid
    ensures SlotOf(procs, pid, from) == -1
    decreases |procs| - from
  {
    if from == |procs| {
    } else {
      NobodyFound(procs, pid, from + 1);
    }
  }

  // The slot is free, its region's pages are, and so is its space if it was READY or BLOCKED (a
  // zombie gave it up before); all else is as it was.
  predicate Killed(s: Sys, s': Sys, i: nat)
    requires i < |s.procs|
  {
    var p := s.procs[i];
    && OnlyEnds(s, s', i, if p.ring3 && p.state != Zombie then p.space else -1)
    && s'.procs[i].state == Unused && s'.procs[i].region == 0
    && |s'.bitmap| == |s.bitmap|
    && forall k :: 0 <= k < |s.bitmap| ==>
         s'.bitmap[k] == (s.bitmap[k] && !(p.region <= k < p.region + p.regionPages))
  }

  lemma ReapsSlot(s: Sys, i: nat)
    requires Inv(s) && i < |s.procs| && s.procs[i].state in {Ready, Blocked, Zombie}
    ensures Killed(s, Reap(ForceZombie(s, i), i), i)
  {
    assert OwnRegion(s.procs, s.owner, i);
  }

  /** proc_kill returns true exactly if the process with this pid - the one in the lowest slot, if
      pids came round - is READY, BLOCKED or a ZOMBIE. Then exactly that process is gone, with its
      region's pages and its space free; otherwise nothing changes. */
  lemma KillOutcome(s: Sys, pid: word32)
    requires Inv(s)
    ensures Kill(s, pid).1 <==> exists i: nat :: Named(s, pid, i) && s.procs[i].state in {Ready, Blocked, Zombie}
    ensures forall i: nat :: Named(s, pid, i) && Kill(s, pid).1 ==> Killed(s, Kill(s, pid).0, i)
    ensures !Kill(s, pid).1 ==> Kill(s, pid).0 == s
  {
    if i: nat :| Named(s, pid, i) {
      NamedIsFound(s, pid, i);
      if s.procs[i].state != Running {
        ReapsSlot(s, i);
      }
      forall j: nat | Named(s, pid, j)
        ensures j == i
      {
        NamedIsFound(s, pid, j);
      }
    } else {
      NobodyNamed(s, pid);
      NobodyFound(s.procs, pid, 0);
    }
  }

  lemma NobodyNamed(s: Sys, pid: word32)
    requires forall i: nat :: !Named(s, pid, i)
    ensures forall k :: 0 <= k < |s.procs| ==> s.procs[k].state == Unused || s.procs[k].pid != pid
  {
    var k := SlotOf(s.procs, pid, 0);
    if k >= 0 {
      LowestIsNamed(s, pid, k);
    } else {
      NoneFrom(s.procs, pid, 0);
    }
  }

  lemma LowestIsNamed(s: Sys, pid: word32, k: nat)
    requires k < |s.procs| && s.procs[k].state != Unused && s.procs[k].pid == pid
    ensures exists i: nat :: Named(s, pid, i)
    decreases k
  {
    if j: nat :| j < k && s.procs[j].state != Unused && s.procs[j].pid == pid {
      LowestIsNamed(s, pid, j);
    } else {
      assert Named(s, pid, k);
    }
  }

  lemma {:induction false} NoneFrom(procs: seq<Proc>, pid: word32, from: nat)
    requires from <= |procs| && SlotOf(procs, pid, from) == -1
    ensures forall k :: from <= k < |procs| ==> procs[k].state == Unused || procs[k].pid != pid
    decreases |procs| - from
  {
    if from == |procs| {
    } else {
      NoneFrom(procs, pid, from + 1);
    }
  }
}
