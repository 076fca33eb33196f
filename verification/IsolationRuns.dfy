/** The ownership invariant of Isolation over every run of process operations. */
module IsolationRuns {
  import opened Bytes
  import opened Results
  import opened ProcStates
  import opened Pages
  import opened Heap
  import opened Paging
  import opened Elf
  import opened Lifetime
  import opened Isolation

  // ------------------------------------------------------------------
  // Handles coming and going
  // ------------------------------------------------------------------

  lemma HandlesUnmoved(procs: seq<Proc>, spaces: seq<Space>, i: nat, p: Proc)
    requires HandlesOk(procs, spaces) && i < |procs|
    requires Holder(p) == Holder(procs[i]) && (Holder(p) ==> p.space == procs[i].space)
    ensures HandlesOk(procs[i := p], spaces)
  {
    var procs' := procs[i := p];
    forall h | 0 <= h < |spaces| && spaces[h].inUse
      ensures Held(procs', h)
    {
      assert Held(procs, h);
      var j :| 0 <= j < |procs| && Holder(procs[j]) && procs[j].space == h;
      assert Holder(procs'[j]) && procs'[j].space == h;
    }
  }

  lemma HandlesWithNew(procs: seq<Proc>, spaces: seq<Space>, i: nat, p: Proc, h: nat, sp: Space)
    requires HandlesOk(procs, spaces) && i < |procs| && !Holder(procs[i])
    requires h < |spaces| && !spaces[h].inUse && sp.inUse && Holder(p) && p.space == h
    ensures HandlesOk(procs[i := p], spaces[h := sp])
  {
    var procs' := procs[i := p];
    forall g | 0 <= g < |spaces| && spaces[h := sp][g].inUse
      ensures Held(procs', g)
    {
      if g == h {
        assert Holder(procs'[i]) && procs'[i].space == h;
      } else {
        assert Held(procs, g);
        var j :| 0 <= j < |procs| && Holder(procs[j]) && procs[j].space == g;
        assert Holder(procs'[j]) && procs'[j].space == g;
      }
    }
  }

  lemma HandlesWithout(procs: seq<Proc>, spaces: seq<Space>, i: nat, p: Proc)
    requires HandlesOk(procs, spaces) && i < |procs| && Holder(procs[i]) && !Holder(p)
    ensures HandlesOk(procs[i := p], CloseSpace(spaces, procs[i].space))
  {
    var procs', spaces' := procs[i := p], CloseSpace(spaces, procs[i].space);
    forall g | 0 <= g < |spaces'| && spaces'[g].inUse
      ensures Held(procs', g)
    {
      assert Held(procs, g);
      var j :| 0 <= j < |procs| && Holder(procs[j]) && procs[j].space == g;
      assert Holder(procs'[j]) && procs'[j].space == g;
    }
  }

  // ------------------------------------------------------------------
  // Tables of new processes
  // ------------------------------------------------------------------

  // A page either maps to itself or is open to the user.
  ghost predicate IdentityOrUser(t: Table) {
    forall p :: 0 <= p < NUM_PAGES ==> t[p].frame == p || t[p].us
  }

  lemma {:induction false} LoadKeepsIdentity(l: Loader, arena: nat, file: File, i: nat)
    requires HeadersReadable(file) && i <= PhNum(file) && IdentityOrUser(l.table)
    ensures IdentityOrUser(LoadFrom(l, arena, file, i).l.table)
    decreases PhNum(file) - i
  {
    if i == PhNum(file) {
    } else {
      LoadKeepsIdentity(LoadSegment(l, arena, file, PhdrAt(file, i)).l, arena, file, i + 1);
    }
  }

  lemma NewTableConfined(s: Sys, i: nat)
    ensures Confined(s, i, NewTable(s.code)) && IdentityOrUser(NewTable(s.code))
  {
    var t := NewTable(s.code);
    forall f | UserReach(t, f)
      ensures MayReach(s, i, f)
    {
      var p :| 0 <= p < NUM_PAGES && t[p].us && t[p].frame == f;
    }
  }

  // Opening its own region to a process keeps it confined.
  lemma GrantConfined(s: Sys, i: nat, t: Table, page: nat, pages: nat)
    requires Confined(s, i, t) && IdentityOrUser(t) && |s.owner| == |s.bitmap| && LayoutOk(s)
    requires page + pages <= |s.owner| && forall k :: page <= k < page + pages ==> s.owner[k] == Slot(i)
    ensures Confined(s, i, WithAccess(t, PhysAddr(s, page), pages * PAGE_SIZE % U32, true))
  {
    var start, size := PhysAddr(s, page), pages * PAGE_SIZE % U32;
    assert start == (s.arena + page) * FRAME && size == pages * PAGE_SIZE;
    assert FirstPage(start) == s.arena + page && EndPage(start, size) == s.arena + page + pages;
    forall f | UserReach(WithAccess(t, start, size, true), f)
      ensures MayReach(s, i, f)
    {
      GrantReach(t, start, size, f);
      if !UserReach(t, f) {
        var p :| FirstPage(start) <= p < EndPage(start, size) && p < NUM_PAGES && t[p].frame == f;
        assert t[p].us ==> UserReach(t, f);
      }
    }
  }

  // A table after loading reaches code and the pages taken for it.
  lemma LoadedConfined(s: Sys, i: nat, l: Loader, l': Loader)
    requires OnlyTakes(l, l', s.arena) && l.table == NewTable(s.code) && |s.owner| == |l.bitmap|
    requires forall k :: 0 <= k < |l.bitmap| && !l.bitmap[k] && l'.bitmap[k] ==> s.owner[k] == Slot(i)
    ensures Confined(s, i, l'.table)
  {
    NewTableConfined(s, i);
    forall f | UserReach(l'.table, f)
      ensures MayReach(s, i, f)
    {
      var p :| 0 <= p < NUM_PAGES && l'.table[p].us && l'.table[p].frame == f;
      if l.table[p].us && l'.table[p] == l.table[p] {
        assert UserReach(l.table, f);
      } else {
        assert TakenFrame(l, l', s.arena, f);
      }
    }
  }

  // All other processes keep their tables and pages; the new one is confined.
  lemma ReachWithNew(s: Sys, s': Sys, slot: nat, h: nat)
    requires ReachOk(s) && HandlesOk(s.procs, s.spaces) && s'.code == s.code && s'.arena == s.arena
    requires Handed(s.owner, s'.owner, Slot(slot))
    requires slot < |s.procs| && |s'.procs| == |s.procs| && |s'.spaces| == |s.spaces| && h < |s.spaces|
    requires !s.spaces[h].inUse && s'.procs[slot].space == h
    requires forall i :: 0 <= i < |s.procs| && i != slot ==> s'.procs[i] == s.procs[i]
    requires forall g :: 0 <= g < |s.spaces| && g != h ==> s'.spaces[g] == s.spaces[g]
    requires Confined(s', slot, s'.spaces[h].table)
    ensures ReachOk(s')
  {
    forall i | 0 <= i < |s'.procs| && Holder(s'.procs[i]) && 0 <= s'.procs[i].space < |s'.spaces|
      ensures Confined(s', i, s'.spaces[s'.procs[i].space].table)
    {
      if i != slot {
        ConfinedAfterHanding(s, s', i, s.spaces[s.procs[i].space].table, Slot(slot));
      }
    }
  }

  // ------------------------------------------------------------------
  // Each operation keeps the invariant
  // ------------------------------------------------------------------

  lemma KernelTakeKeeps(s: Sys, n: nat)
    requires Inv(s)
    ensures Inv(KernelTake(s, n))
  {
    var s' := KernelTake(s, n);
    AllocGives(s.bitmap, s.hint, s.owner, n, Kernel);
    RegionsAfterHanding(s.procs, s.owner, s'.owner, Kernel);
    ReachAfterHanding(s, s', Kernel);
  }

  lemma CreateKeeps(s: Sys)
    requires Inv(s)
    ensures Inv(Create(s).s)
  {
    var slot, s', pages := FreeSlot(s.procs, 0), Create(s).s, RegionPages(STACK_SIZE + 4096);
    if slot >= 0 {
      AllocGives(s.bitmap, s.hint, s.owner, pages, Slot(slot));
      var a := AllocPages(s.bitmap, s.hint, pages);
      assert s'.procs == s.procs[slot := s'.procs[slot]];
      HandlesUnmoved(s.procs, s.spaces, slot, s'.procs[slot]);
      ReachAfterHanding(s, s', Slot(slot));
      if a.page == 0 {
        RegionsUnmoved(s.procs, s.owner, slot, s'.procs[slot]);
      } else {
        RegionsWithNew(s.procs, s.owner, s'.owner, slot, s'.procs[slot]);
      }
    }
  }

  lemma RegionsUnmoved(procs: seq<Proc>, o: seq<Owner>, i: nat, p: Proc)
    requires RegionsOk(procs, o) && i < |procs| && (p.state == Unused <==> procs[i].state == Unused)
    requires p.state != Unused ==> p.region == procs[i].region && p.regionPages == procs[i].regionPages
    ensures RegionsOk(procs[i := p], o)
  {
    var procs' := procs[i := p];
    forall j | 0 <= j < |procs'| && procs'[j].state != Unused
      ensures OwnRegion(procs', o, j)
    {
      assert OwnRegion(procs, o, j);
    }
  }

  lemma CreatedRing3Space(s: Sys, ustack: word32)
    requires |s.owner| == |s.bitmap| && CreateRing3(s, ustack).code == Ok
    ensures var slot, s', pages := FreeSlot(s.procs, 0), CreateRing3(s, ustack).s, Ring3Pages(ustack);
            var a, h := AllocPages(s.bitmap, s.hint, pages), OpenSpace(s.spaces, s.code).handle;
            && 0 <= slot < |s.procs| && 0 <= h < |s.spaces| && a.page != 0
            && s'.procs == s.procs[slot := s'.procs[slot]] && s'.procs[slot].space == h
            && s'.spaces == s.spaces[h := s'.spaces[h]]
            && s'.spaces[h].table == WithAccess(NewTable(s.code), PhysAddr(s', a.page), pages * PAGE_SIZE % U32, true)
  {
  }

  lemma CreatedRing3Reach(s: Sys, ustack: word32)
    requires Inv(s) && CreateRing3(s, ustack).code == Ok
    ensures ReachOk(CreateRing3(s, ustack).s)
  {
    var slot, s', pages := FreeSlot(s.procs, 0), CreateRing3(s, ustack).s, Ring3Pages(ustack);
    var a, h := AllocPages(s.bitmap, s.hint, pages), OpenSpace(s.spaces, s.code).handle;
    CreatedRing3Space(s, ustack);
    AllocGives(s.bitmap, s.hint, s.owner, pages, Slot(slot));
    NewTableConfined(s', slot);
    GrantConfined(s', slot, NewTable(s.code), a.page, pages);
    ReachWithNew(s, s', slot, h);
  }

  lemma CreatedRing3Handles(s: Sys, ustack: word32)
    requires Inv(s) && CreateRing3(s, ustack).code == Ok
    ensures var s' := CreateRing3(s, ustack).s;
            HandlesOk(s'.procs, s'.spaces)
  {
    var slot, s' := FreeSlot(s.procs, 0), CreateRing3(s, ustack).s;
    var h := OpenSpace(s.spaces, s.code).handle;
    HandlesWithNew(s.procs, s.spaces, slot, s'.procs[slot], h, s'.spaces[h]);
    assert s'.spaces == s.spaces[h := s'.spaces[h]];
    assert s'.procs == s.procs[slot := s'.procs[slot]];
  }

  lemma CreatedRing3Pages(s: Sys, ustack: word32)
    requires Inv(s) && CreateRing3(s, ustack).code == Ok
    ensures var s' := CreateRing3(s, ustack).s;
            RegionsOk(s'.procs, s'.owner) && PagesOk(s'.bitmap, s'.owner)
  {
    var slot, s' := FreeSlot(s.procs, 0), CreateRing3(s, ustack).s;
    AllocGives(s.bitmap, s.hint, s.owner, Ring3Pages(ustack), Slot(slot));
    RegionsWithNew(s.procs, s.owner, s'.owner, slot, s'.procs[slot]);
    assert s'.procs == s.procs[slot := s'.procs[slot]];
  }

  lemma CreateRing3Keeps(s: Sys, ustack: word32)
    requires Inv(s)
    ensures Inv(CreateRing3(s, ustack).s)
  {
    var slot, s' := FreeSlot(s.procs, 0), CreateRing3(s, ustack).s;
    if CreateRing3(s, ustack).code == Ok {
      CreatedRing3Handles(s, ustack);
      CreatedRing3Pages(s, ustack);
      CreatedRing3Reach(s, ustack);
    } else if slot >= 0 {
      SpaceForEverySlot(s.procs, s.spaces, s.code);
      AllocGives(s.bitmap, s.hint, s.owner, Ring3Pages(ustack), Slot(slot));
      HandlesUnmoved(s.procs, s.spaces, slot, s'.procs[slot]);
      ReachAfterHanding(s, s', Slot(slot));
      RegionsUnmoved(s.procs, s.owner, slot, s'.procs[slot]);
    }
  }

  lemma ExitKeeps(s: Sys)
    requires Inv(s) && 0 <= s.current < |s.procs| && s.procs[s.current].state == Running
    ensures Inv(Exit(s))
  {
    var i := s.current;
    var p, p' := s.procs[i], Exit(s).procs[i];
    if p.ring3 {
      HandlesWithout(s.procs, s.spaces, i, p');
    } else {
      HandlesUnmoved(s.procs, s.spaces, i, p');
    }
    RegionsUnmoved(s.procs, s.owner, i, p');
    ReachAfterHanding(s, Exit(s), NoOne);
  }

  // Reaping process i: its region is free again, the rest of its pages is leaked.
  lemma ReapedPages(s: Sys, i: nat)
    requires Inv(s) && i < |s.procs| && s.procs[i].state != Unused
    ensures var p := s.procs[i];
            var d := DropRegion(s, p.region, p.regionPages);
            && PagesOk(d.bitmap, Disown(d.owner, i))
            && |d.bitmap| == |s.bitmap|
            && (forall k :: 0 <= k < |s.owner| && s.owner[k] != Slot(i) ==> Disown(d.owner, i)[k] == s.owner[k])
            && (forall k :: 0 <= k < |s.owner| ==> Disown(d.owner, i)[k] != Slot(i))
            && (forall k, j :: 0 <= k < |s.owner| && Disown(d.owner, i)[k] == Slot(j) ==> s.owner[k] == Slot(j))
  {
    assert OwnRegion(s.procs, s.owner, i);
  }

  lemma ReapKeepsRegions(s: Sys, s': Sys, i: nat)
    requires Inv(s) && i < |s.procs| == |s'.procs| && s'.procs == s.procs[i := s'.procs[i]]
    requires s'.procs[i].state == Unused
    requires |s'.owner| == |s.owner|
    requires forall k :: 0 <= k < |s.owner| && s.owner[k] != Slot(i) ==> s'.owner[k] == s.owner[k]
    requires forall k :: 0 <= k < |s.owner| ==> s'.owner[k] != Slot(i)
    requires forall k, j :: 0 <= k < |s.owner| && s'.owner[k] == Slot(j) ==> s.owner[k] == Slot(j)
    ensures RegionsOk(s'.procs, s'.owner)
  {
    forall j | 0 <= j < |s'.procs| && s'.procs[j].state != Unused
      ensures OwnRegion(s'.procs, s'.owner, j)
    {
      assert OwnRegion(s.procs, s.owner, j);
    }
  }

  lemma ReapKeepsReach(s: Sys, s': Sys, i: nat)
    requires Inv(s) && i < |s.procs| == |s'.procs| && s'.procs == s.procs[i := s'.procs[i]]
    requires s'.procs[i].state == Unused
    requires |s'.owner| == |s.owner| && s'.code == s.code && s'.arena == s.arena
    requires forall k :: 0 <= k < |s.owner| && s.owner[k] != Slot(i) ==> s'.owner[k] == s.owner[k]
    requires |s'.spaces| == |s.spaces| && forall h :: 0 <= h < |s.spaces| ==> s'.spaces[h].table == s.spaces[h].table
    ensures ReachOk(s')
  {
    forall j | 0 <= j < |s'.procs| && Holder(s'.procs[j]) && 0 <= s'.procs[j].space < |s'.spaces|
      ensures Confined(s', j, s'.spaces[s'.procs[j].space].table)
    {
      ConfinedAfterFreeing(s, s', j, s.spaces[s.procs[j].space].table);
    }
  }

  lemma ForceZombieKeeps(s: Sys, i: nat)
    requires Inv(s) && i < |s.procs|
    ensures Inv(ForceZombie(s, i))
  {
    var s' := ForceZombie(s, i);
    if s.procs[i].state in {Ready, Blocked} {
      if Holder(s.procs[i]) {
        HandlesWithout(s.procs, s.spaces, i, s'.procs[i]);
      } else {
        HandlesUnmoved(s.procs, s.spaces, i, s'.procs[i]);
      }
      RegionsUnmoved(s.procs, s.owner, i, s'.procs[i]);
      ReachAfterHanding(s, s', NoOne);
    }
  }

  lemma ReapKeeps(s: Sys, i: nat)
    requires Inv(s) && i < |s.procs| && s.procs[i].state == Zombie
    ensures Inv(Reap(s, i))
  {
    var s' := Reap(s, i);
    assert OwnRegion(s.procs, s.owner, i);
    ReapedPages(s, i);
    HandlesUnmoved(s.procs, s.spaces, i, s'.procs[i]);
    ReapKeepsRegions(s, s', i);
    ReapKeepsReach(s, s', i);
  }

  lemma KillKeeps(s: Sys, pid: word32)
    requires Inv(s)
    ensures Inv(Kill(s, pid).0)
  {
    var i := SlotOf(s.procs, pid, 0);
    if i >= 0 && s.procs[i].state != Running {
      ForceZombieKeeps(s, i);
      ReapKeeps(ForceZombie(s, i), i);
    }
  }

  lemma RescheduleKeeps(s: Sys, i: nat, st: ProcState, current: int)
    requires Inv(s) && i < |s.procs| && -1 <= current < |s.procs|
    requires s.procs[i].state in {Ready, Running, Blocked} && st in {Ready, Running, Blocked}
    ensures Inv(Reschedule(s, i, st, current))
  {
    var s' := Reschedule(s, i, st, current);
    HandlesUnmoved(s.procs, s.spaces, i, s'.procs[i]);
    RegionsUnmoved(s.procs, s.owner, i, s'.procs[i]);
    ReachAfterHanding(s, s', NoOne);
  }

  // The kernel gives back pages of its own; what processes own is untouched.
  lemma KernelGivePages(s: Sys, page: nat, n: nat)
    requires Inv(s) && OwnsRun(s.owner, page, n, Kernel)
    ensures var s' := KernelGive(s, page, n);
            && PagesOk(s'.bitmap, s'.owner) && |s'.bitmap| == |s.bitmap|
            && forall k :: 0 <= k < |s.owner| ==>
                 s'.owner[k] == s.owner[k] || (s.owner[k] == Kernel && s'.owner[k] == NoOne)
  {
  }

  lemma KernelGiveKeeps(s: Sys, page: nat, n: nat)
    requires Inv(s) && OwnsRun(s.owner, page, n, Kernel)
    ensures Inv(KernelGive(s, page, n))
  {
    var s' := KernelGive(s, page, n);
    KernelGivePages(s, page, n);
    forall i | 0 <= i < |s.procs| && s.procs[i].state != Unused
      ensures OwnRegion(s.procs, s'.owner, i)
    {
      assert OwnRegion(s.procs, s.owner, i);
    }
    forall i | 0 <= i < |s.procs| && Holder(s.procs[i]) && 0 <= s.procs[i].space < |s.spaces|
      ensures Confined(s', i, s.spaces[s.procs[i].space].table)
    {
      assert Confined(s, i, s.spaces[s.procs[i].space].table);
      ConfinedAfterFreeing(s, s', i, s.spaces[s.procs[i].space].table);
    }
  }

  lemma ConfinedAfterFreeing(s: Sys, s': Sys, i: nat, t: Table)
    requires Confined(s, i, t) && s'.code == s.code && s'.arena == s.arena && |s'.owner| == |s.owner|
    requires forall k :: 0 <= k < |s.owner| && s.owner[k] == Slot(i) ==> s'.owner[k] == Slot(i)
    ensures Confined(s', i, t)
  {
    forall f | UserReach(t, f)
      ensures MayReach(s', i, f)
    {
      assert MayReach(s, i, f);
    }
  }

  // ------------------------------------------------------------------
  // Loading
  // ------------------------------------------------------------------

  // The situation after the new space was opened: s0 the system before, h the handle
  ghost predicate Opened(s0: Sys, s: Sys, slot: nat, h: nat) {
    && Inv(s0) && slot == FreeSlot(s0.procs, 0) < |s0.procs|
    && OpenSpace(s0.spaces, s0.code).handle == h
    && s == s0.(spaces := OpenSpace(s0.spaces, s0.code).spaces)
  }

  // The loader at the start of the segment loop
  function Start(s: Sys, h: nat): Loader
    requires h < |s.spaces|
  {
    Loader(s.mem, s.bitmap, s.hint, s.spaces[h].table)
  }

  // Pages taken by the segments and then the region
  lemma LoadGives(s0: Sys, s: Sys, slot: nat, h: nat, file: File, pages: nat, who: Owner)
    requires Opened(s0, s, slot, h) && HeadersReadable(file) && who != NoOne
    ensures var l := Segments(s, h, file).l;
            var a := AllocPages(l.bitmap, l.hint, pages);
            && |l.bitmap| == |a.bitmap| == |s.bitmap| && |l.mem| == |s.mem|
            && PagesOk(l.bitmap, Give(s.owner, s.bitmap, l.bitmap, who))
            && Handed(s.owner, Give(s.owner, s.bitmap, l.bitmap, who), who)
            && PagesOk(a.bitmap, Give(s.owner, s.bitmap, a.bitmap, who))
            && Handed(s.owner, Give(s.owner, s.bitmap, a.bitmap, who), who)
            && (a.page != 0 ==> OwnsRun(Give(s.owner, s.bitmap, a.bitmap, who), a.page, pages, who))
  {
    var l := Segments(s, h, file).l;
    LoadOnlyTakes(Start(s, h), s.arena, file, 0);
    AllocSoundAndComplete(l.bitmap, l.hint, pages);
    GivePages(s.bitmap, s.owner, l.bitmap, who);
    GivePages(s.bitmap, s.owner, AllocPages(l.bitmap, l.hint, pages).bitmap, who);
  }

  // Giving up: the space closes again and what was taken is nobody's.
  lemma LoadFailed(s0: Sys, s: Sys, s': Sys, slot: nat, h: nat)
    requires Opened(s0, s, slot, h) && LayoutOk(s')
    requires PagesOk(s'.bitmap, s'.owner) && Handed(s.owner, s'.owner, Leaked)
    requires s'.code == s.code && s'.arena == s.arena && s'.current == s.current
    requires |s'.procs| == |s.procs|
    requires s'.procs[slot] == s.procs[slot] || s'.procs[slot] == s.procs[slot].(region := 0)
    requires s'.procs == s.procs[slot := s'.procs[slot]]
    requires |s'.spaces| == |s.spaces| && !s'.spaces[h].inUse
    requires forall g :: 0 <= g < |s.spaces| && g != h ==> s'.spaces[g] == s.spaces[g]
    ensures Inv(s')
  {
    HandlesUnmoved(s0.procs, s0.spaces, slot, s'.procs[slot]);
    forall g | 0 <= g < |s'.spaces| && s'.spaces[g].inUse
      ensures Held(s'.procs, g)
    {
      assert s0.spaces[g].inUse;
    }
    RegionsAfterHanding(s0.procs, s0.owner, s'.owner, Leaked);
    RegionsUnmoved(s0.procs, s'.owner, slot, s'.procs[slot]);
    ReachAfterHanding(s0, s', Leaked);
  }

  lemma LoadedLayout(s: Sys, h: nat, file: File, who: Owner, bitmap: seq<bool>, hint: nat)
    requires LayoutOk(s) && h < |s.spaces| && HeadersReadable(file) && |s.owner| == |s.bitmap| == |bitmap|
    ensures LayoutOk(Loaded(s, h, Segments(s, h, file).l.(bitmap := bitmap, hint := hint), who))
  {
  }

  // A segment that does not load
  lemma SegmentsFail(s0: Sys, s: Sys, slot: nat, h: nat, file: File, ustack: word32)
    requires Opened(s0, s, slot, h) && HeadersReadable(file) && Segments(s, h, file).code != Ok
    ensures Inv(LoadInto(s, slot, h, file, ustack).s)
  {
    var l, s' := Segments(s, h, file).l, LoadInto(s, slot, h, file, ustack).s;
    LoadGives(s0, s, slot, h, file, Ring3Pages(ustack), Leaked);
    LoadedLayout(s, h, file, Leaked, l.bitmap, l.hint);
    assert s'.procs == s.procs[slot := s'.procs[slot]];
    LoadFailed(s0, s, s', slot, h);
  }

  // No pages for the region
  lemma NoRegion(s0: Sys, s: Sys, slot: nat, h: nat, file: File, ustack: word32)
    requires Opened(s0, s, slot, h) && HeadersReadable(file) && Segments(s, h, file).code == Ok
    requires FinishLoad(s, slot, h, Segments(s, h, file).l, ustack).code != Ok
    ensures Inv(FinishLoad(s, slot, h, Segments(s, h, file).l, ustack).s)
  {
    var l := Segments(s, h, file).l;
    var a, s' := AllocPages(l.bitmap, l.hint, Ring3Pages(ustack)), FinishLoad(s, slot, h, l, ustack).s;
    LoadGives(s0, s, slot, h, file, Ring3Pages(ustack), Leaked);
    LoadedLayout(s, h, file, Leaked, a.bitmap, a.hint);
    assert s'.procs == s.procs[slot := s'.procs[slot]];
    LoadFailed(s0, s, s', slot, h);
  }

  lemma LoadElfFails(s0: Sys, file: File, ustack: word32)
    requires Inv(s0) && (HeaderOk(file) ==> HeadersReadable(file)) && LoadElf(s0, file, ustack).code != Ok
    ensures Inv(LoadElf(s0, file, ustack).s)
  {
    var slot := FreeSlot(s0.procs, 0);
    if HeaderOk(file) && slot >= 0 {
      SpaceForEverySlot(s0.procs, s0.spaces, s0.code);
      var h, s := OpenSpace(s0.spaces, s0.code).handle, s0.(spaces := OpenSpace(s0.spaces, s0.code).spaces);
      assert LoadElf(s0, file, ustack) == LoadInto(s, slot, h, file, ustack);
      if Segments(s, h, file).code != Ok {
        SegmentsFail(s0, s, slot, h, file, ustack);
      } else {
        NoRegion(s0, s, slot, h, file, ustack);
      }
    }
  }

  lemma LoadedTable(s0: Sys, s: Sys, s': Sys, slot: nat, h: nat, file: File, ustack: word32)
    requires Opened(s0, s, slot, h) && HeadersReadable(file)
    requires LoadInto(s, slot, h, file, ustack) == Created(s', Ok, slot)
    ensures LayoutOk(s') && Confined(s', slot, Segments(s, h, file).l.table)
    ensures IdentityOrUser(Segments(s, h, file).l.table) && |s'.owner| == |s'.bitmap|
  {
    var l, pages := Segments(s, h, file).l, Ring3Pages(ustack);
    var a := AllocPages(l.bitmap, l.hint, pages);
    LoadedLayout(s, h, file, Slot(slot), a.bitmap, a.hint);
    LoadOnlyTakes(Start(s, h), s.arena, file, 0);
    AllocSoundAndComplete(l.bitmap, l.hint, pages);
    NewTableConfined(s', slot);
    LoadKeepsIdentity(Start(s, h), s.arena, file, 0);
    LoadedConfined(s', slot, Start(s, h), l);
  }

  lemma LoadedRegion(s0: Sys, s: Sys, s': Sys, slot: nat, h: nat, file: File, ustack: word32)
    requires Opened(s0, s, slot, h) && HeadersReadable(file)
    requires LoadInto(s, slot, h, file, ustack) == Created(s', Ok, slot)
    ensures Handed(s0.owner, s'.owner, Slot(slot))
    ensures OwnsRun(s'.owner, s'.procs[slot].region, Ring3Pages(ustack), Slot(slot))
    ensures s'.procs == s0.procs[slot := s'.procs[slot]] && s'.procs[slot].space == h
  {
    LoadGives(s0, s, slot, h, file, Ring3Pages(ustack), Slot(slot));
  }

  lemma LoadedSpace(s: Sys, s': Sys, slot: nat, h: nat, file: File, ustack: word32)
    requires slot < |s.procs| && h < |s.spaces| && HeadersReadable(file) && |s.owner| == |s.bitmap|
    requires LoadInto(s, slot, h, file, ustack) == Created(s', Ok, slot)
    ensures slot < |s'.procs| && h < |s'.spaces|
    ensures s'.spaces[h].table == WithAccess(Segments(s, h, file).l.table, PhysAddr(s', s'.procs[slot].region),
                                             Ring3Pages(ustack) * PAGE_SIZE % U32, true)
    ensures s'.spaces == s.spaces[h := s'.spaces[h]]
  {
    var l, pages := Segments(s, h, file).l, Ring3Pages(ustack);
    var a := AllocPages(l.bitmap, l.hint, pages);
    var s1 := Loaded(s, h, l.(bitmap := a.bitmap, hint := a.hint), Slot(slot));
    assert s'.procs[slot].region == a.page && s'.arena == s1.arena == s.arena;
    assert s'.spaces == GrantRegion(s1, h, a.page, pages);
  }

  lemma LoadedReach(s0: Sys, s: Sys, s': Sys, slot: nat, h: nat, file: File, ustack: word32)
    requires Opened(s0, s, slot, h) && HeadersReadable(file)
    requires LoadInto(s, slot, h, file, ustack) == Created(s', Ok, slot)
    ensures LayoutOk(s') && ReachOk(s')
  {
    LoadedTable(s0, s, s', slot, h, file, ustack);
    LoadedRegion(s0, s, s', slot, h, file, ustack);
    LoadedSpace(s, s', slot, h, file, ustack);
    GrantConfined(s', slot, Segments(s, h, file).l.table, s'.procs[slot].region, Ring3Pages(ustack));
    ReachWithNew(s0, s', slot, h);
  }

  lemma LoadElfSucceeds(s0: Sys, file: File, ustack: word32)
    requires Inv(s0) && (HeaderOk(file) ==> HeadersReadable(file)) && LoadElf(s0, file, ustack).code == Ok
    ensures Inv(LoadElf(s0, file, ustack).s)
  {
    var slot, s' := FreeSlot(s0.procs, 0), LoadElf(s0, file, ustack).s;
    var h, s := OpenSpace(s0.spaces, s0.code).handle, s0.(spaces := OpenSpace(s0.spaces, s0.code).spaces);
    LoadGives(s0, s, slot, h, file, Ring3Pages(ustack), Slot(slot));
    LoadedReach(s0, s, s', slot, h, file, ustack);
    LoadedSpace(s, s', slot, h, file, ustack);
    RegionsWithNew(s0.procs, s0.owner, s'.owner, slot, s'.procs[slot]);
    HandlesWithNew(s0.procs, s0.spaces, slot, s'.procs[slot], h, s'.spaces[h]);
    assert s'.spaces == s0.spaces[h := s'.spaces[h]];
  }

  // ------------------------------------------------------------------
  // Runs
  // ------------------------------------------------------------------

  datatype Op =
    | OpCreate
    | OpCreateRing3(ustack: word32)
    | OpLoadElf(file: File, ustack: word32)
    | OpExit
    | OpKill(pid: word32)
    | OpKernelTake(pages: nat)
    | OpKernelGive(page: nat, count: nat)
    | OpReschedule(slot: nat, st: ProcState, current: int)

  // A process exits while it runs; the kernel gives back only its own pages; the scheduler
  // moves only live processes; an accepted ELF header has its program headers in the file.
  ghost predicate Legal(s: Sys, op: Op) {
    match op
    case OpLoadElf(file, _) => HeaderOk(file) ==> HeadersReadable(file)
    case OpExit => 0 <= s.current < |s.procs| && s.procs[s.current].state == Running
    case OpKernelGive(page, count) => OwnsRun(s.owner, page, count, Kernel)
    case OpReschedule(slot, st, current) =>
      && slot < |s.procs| && -1 <= current < |s.procs|
      && s.procs[slot].state in {Ready, Running, Blocked} && st in {Ready, Running, Blocked}
    case _ => true
  }

  ghost function Apply(s: Sys, op: Op): Sys
    requires Inv(s) && Legal(s, op)
  {
    match op
    case OpCreate => Create(s).s
    case OpCreateRing3(ustack) => CreateRing3(s, ustack).s
    case OpLoadElf(file, ustack) => LoadElf(s, file, ustack).s
    case OpExit => Exit(s)
    case OpKill(pid) => Kill(s, pid).0
    case OpKernelTake(pages) => KernelTake(s, pages)
    case OpKernelGive(page, count) => KernelGive(s, page, count)
    case OpReschedule(slot, st, current) => Reschedule(s, slot, st, current)
  }

  lemma StepKeepsInv(s: Sys, op: Op)
    requires Inv(s) && Legal(s, op)
    ensures Inv(Apply(s, op))
  {
    match op
    case OpCreate => CreateKeeps(s);
    case OpCreateRing3(ustack) => CreateRing3Keeps(s, ustack);
    case OpLoadElf(file, ustack) =>
      if LoadElf(s, file, ustack).code == Ok {
        LoadElfSucceeds(s, file, ustack);
      } else {
        LoadElfFails(s, file, ustack);
      }
    case OpExit => ExitKeeps(s);
    case OpKill(pid) => KillKeeps(s, pid);
    case OpKernelTake(pages) => KernelTakeKeeps(s, pages);
    case OpKernelGive(page, count) => KernelGiveKeeps(s, page, count);
    case OpReschedule(slot, st, current) => RescheduleKeeps(s, slot, st, current);
  }

  ghost predicate RunTo(s: Sys, ops: seq<Op>, s': Sys)
    requires Inv(s)
    decreases |ops|
  {
    if ops == [] then s == s'
    else Legal(s, ops[0]) && (StepKeepsInv(s, ops[0]); RunTo(Apply(s, ops[0]), ops[1..], s'))
  }

  lemma {:induction false} RunKeepsInv(s: Sys, ops: seq<Op>, s': Sys)
    requires Inv(s) && RunTo(s, ops, s')
    ensures Inv(s')
    decreases |ops|
  {
    if ops == [] {
    } else {
      StepKeepsInv(s, ops[0]);
      RunKeepsInv(Apply(s, ops[0]), ops[1..], s');
    }
  }

  // The kernel at boot: no process, no space in use, page 0 reserved
  ghost predicate AtBoot(s: Sys) {
    && LayoutOk(s) && |s.procs| <= |s.spaces| && s.current == -1
    && (forall i :: 0 <= i < |s.procs| ==> s.procs[i].state == Unused)
    && (forall h :: 0 <= h < |s.spaces| ==> !s.spaces[h].inUse)
    && 0 < |s.bitmap| == |s.owner|
    && forall k :: 0 <= k < |s.bitmap| ==> s.bitmap[k] == (k == 0) && s.owner[k] == if k == 0 then Reserved else NoOne
  }

  lemma BootInv(s: Sys)
    requires AtBoot(s)
    ensures Inv(s)
  {
  }

  /** Isolation over every run of create, load, exit and kill from boot: frames that two
      processes can both reach from ring 3 are shared code; every other reachable frame is a
      page currently allocated, to that process alone. */
  lemma IsolationOverRuns(s0: Sys, ops: seq<Op>, s: Sys, i: nat, j: nat, f: nat)
    requires AtBoot(s0) && (BootInv(s0); RunTo(s0, ops, s))
    requires i < |s.procs| && j < |s.procs| && i != j && Holder(s.procs[i]) && Holder(s.procs[j])
    requires UserReach(TableOf(s, i), f) && !CodeFrame(s.code, f)
    ensures !UserReach(TableOf(s, j), f)
    ensures |s.owner| == |s.bitmap| && s.arena <= f < s.arena + |s.owner|
    ensures s.bitmap[f - s.arena] && s.owner[f - s.arena] == Slot(i)
  {
    BootInv(s0);
    RunKeepsInv(s0, ops, s);
    ProcessesAreIsolated(s, i, j, f);
  }

  /** Over every run, proc_create_ring3 and proc_load_elf never fail for want of an address
      space once they found a process slot. */
  lemma SpacesSufficeOverRuns(s0: Sys, ops: seq<Op>, s: Sys)
    requires AtBoot(s0) && (BootInv(s0); RunTo(s0, ops, s))
    requires FreeSlot(s.procs, 0) >= 0
    ensures OpenSpace(s.spaces, s.code).handle >= 0
  {
    BootInv(s0);
    RunKeepsInv(s0, ops, s);
    SpaceForEverySlot(s.procs, s.spaces, s.code);
  }
}
