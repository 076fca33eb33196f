/** What every run of process creation, loading, exit and kill keeps: address-space handles
    match live ring-3 processes one to one, and processes reach only memory of their own. */
module Isolation {
  import opened Bytes
  import opened Results
  import opened ProcStates
  import opened Pages
  import opened Paging
  import opened Lifetime

  // ------------------------------------------------------------------
  // The invariant
  // ------------------------------------------------------------------

  // The process holds an address space.
  predicate Holder(p: Proc) {
    p.ring3 && p.state != Unused && p.state != Zombie
  }

  ghost predicate PagesOk(bitmap: seq<bool>, owner: seq<Owner>) {
    && 0 < |bitmap| == |owner| && bitmap[0] && owner[0] == Reserved
    && forall k :: 0 <= k < |bitmap| ==> (owner[k] == NoOne <==> !bitmap[k])
  }

  ghost predicate OwnRegion(procs: seq<Proc>, owner: seq<Owner>, i: int)
    requires 0 <= i < |procs|
  {
    var p := procs[i];
    && 0 < p.region && p.region + p.regionPages <= |owner|
    && forall k :: p.region <= k < p.region + p.regionPages ==> owner[k] == Slot(i)
  }

  ghost predicate RegionsOk(procs: seq<Proc>, owner: seq<Owner>) {
    && (forall i :: 0 <= i < |procs| && procs[i].state != Unused ==> OwnRegion(procs, owner, i))
    && (forall k :: 0 <= k < |owner| && owner[k].Slot? ==>
          owner[k].i < |procs| && procs[owner[k].i].state != Unused)
  }

  /** The handles in use are exactly those of live ring-3 processes, each held by one. */
  ghost predicate HandlesOk(procs: seq<Proc>, spaces: seq<Space>) {
    && |procs| <= |spaces|
    && (forall i :: 0 <= i < |procs| && Holder(procs[i]) ==>
          0 <= procs[i].space < |spaces| && spaces[procs[i].space].inUse)
    && (forall i, j :: 0 <= i < j < |procs| && Holder(procs[i]) && Holder(procs[j]) ==>
          procs[i].space != procs[j].space)
    && (forall h :: 0 <= h < |spaces| && spaces[h].inUse ==> Held(procs, h))
  }

  ghost predicate Held(procs: seq<Proc>, h: int) {
    exists i :: 0 <= i < |procs| && Holder(procs[i]) && procs[i].space == h
  }

  // Process i may reach frame f from ring 3: shared code, or an arena page of its own.
  ghost predicate MayReach(s: Sys, i: nat, f: nat) {
    CodeFrame(s.code, f)
    || (s.arena <= f < s.arena + |s.owner| && s.owner[f - s.arena] == Slot(i))
  }

  ghost predicate Confined(s: Sys, i: nat, t: Table) {
    forall f :: UserReach(t, f) ==> MayReach(s, i, f)
  }

  ghost predicate ReachOk(s: Sys) {
    forall i :: 0 <= i < |s.procs| && Holder(s.procs[i]) && 0 <= s.procs[i].space < |s.spaces| ==>
      Confined(s, i, s.spaces[s.procs[i].space].table)
  }

  // Where things lie: shared code below the arena, both within 32-bit addresses.
  ghost predicate LayoutOk(s: Sys) {
    && |s.mem| == |s.bitmap| * PAGE_SIZE
    && (s.arena + |s.bitmap|) * FRAME + FRAME <= U32
    && forall f: nat :: CodeFrame(s.code, f) ==> f < s.arena
  }

  ghost predicate Inv(s: Sys) {
    && PagesOk(s.bitmap, s.owner) && LayoutOk(s)
    && RegionsOk(s.procs, s.owner) && HandlesOk(s.procs, s.spaces) && ReachOk(s)
    && -1 <= s.current < |s.procs|
  }

  // ------------------------------------------------------------------
  // What the invariant means
  // ------------------------------------------------------------------

  // The page table process i runs ring-3 code under
  function TableOf(s: Sys, i: nat): Table
    requires i < |s.procs|
  {
    var h := s.procs[i].space;
    if 0 <= h < |s.spaces| then s.spaces[h].table else Identity()
  }

  /** Isolation: whatever two different processes can both reach from ring 3 is shared code,
      and everything else a process reaches is a page currently allocated, to it alone. */
  lemma ProcessesAreIsolated(s: Sys, i: nat, j: nat, f: nat)
    requires Inv(s) && i < |s.procs| && j < |s.procs| && i != j && Holder(s.procs[i]) && Holder(s.procs[j])
    requires UserReach(TableOf(s, i), f) && !CodeFrame(s.code, f)
    ensures !UserReach(TableOf(s, j), f)
    ensures s.arena <= f < s.arena + |s.owner| && s.bitmap[f - s.arena] && s.owner[f - s.arena] == Slot(i)
  {
    assert Confined(s, i, TableOf(s, i)) && Confined(s, j, TableOf(s, j));
    assert MayReach(s, i, f);
  }

  // ------------------------------------------------------------------
  // The pigeonhole
  // ------------------------------------------------------------------

  function Below(n: nat): (r: set<int>)
    ensures forall k :: k in r <==> 0 <= k < n
    ensures |r| == n
  {
    if n == 0 then {} else Below(n - 1) + {n - 1}
  }

  ghost predicate Hit(from: set<int>, f: map<int, int>, k: int)
    requires from <= f.Keys
  {
    exists x :: x in from && f[x] == k
  }

  // To hit every value below n takes at least n members.
  lemma {:induction false} ImageSize(from: set<int>, n: nat, f: map<int, int>)
    requires from <= f.Keys && forall k :: 0 <= k < n ==> Hit(from, f, k)
    ensures n <= |from|
    decreases n
  {
    if n == 0 {
    } else {
      assert Hit(from, f, n - 1);
      var x :| x in from && f[x] == n - 1;
      forall k | 0 <= k < n - 1
        ensures Hit(from - {x}, f, k)
      {
        assert Hit(from, f, k);
        var y :| y in from && f[y] == k;
        assert y in from - {x};
      }
      ImageSize(from - {x}, n - 1, f);
    }
  }

  lemma HolderOf(procs: seq<Proc>, spaces: seq<Space>, h: nat) returns (i: nat)
    requires HandlesOk(procs, spaces) && h < |spaces| && spaces[h].inUse
    ensures i < |procs| && procs[i].state != Unused && procs[i].space == h
  {
    assert Held(procs, h);
    i :| i < |procs| && Holder(procs[i]) && procs[i].space == h;
  }

  // With all spaces in use, the other slots hold them all.
  lemma AllHeld(procs: seq<Proc>, spaces: seq<Space>, slot: int, holders: set<int>, handleOf: map<int, int>)
    requires HandlesOk(procs, spaces) && 0 <= slot < |procs| && procs[slot].state == Unused
    requires forall h :: 0 <= h < |spaces| ==> spaces[h].inUse
    requires holders <= handleOf.Keys && forall i :: 0 <= i < |procs| && i != slot ==> i in holders
    requires forall i :: i in holders && 0 <= i < |procs| ==> handleOf[i] == procs[i].space
    ensures forall h :: 0 <= h < |spaces| ==> Hit(holders, handleOf, h)
  {
    forall h | 0 <= h < |spaces|
      ensures Hit(holders, handleOf, h)
    {
      var i := HolderOf(procs, spaces, h);
      assert i in holders && handleOf[i] == h;
    }
  }

  /** Once a process slot is free, an address space is free too, so opening one cannot fail:
      there are at least as many spaces as slots, and each one in use belongs to one slot. */
  lemma SpaceForEverySlot(procs: seq<Proc>, spaces: seq<Space>, code: SharedCode)
    requires HandlesOk(procs, spaces) && FreeSlot(procs, 0) >= 0
    ensures OpenSpace(spaces, code).handle >= 0
  {
    if FreeHandle(spaces, 0) < 0 {
      var slot := FreeSlot(procs, 0);
      var holders := Below(|procs|) - {slot};
      var handleOf := map i | i in holders :: procs[i].space;
      AllHeld(procs, spaces, slot, holders, handleOf);
      assert Below(|procs|) == holders + {slot};
      ImageSize(holders, |spaces|, handleOf);
    }
  }

  /** Hence the branch of proc_create_ring3 that would leave a READY slot without region or
      space is dead: after a failed creation the process table has no new live slot. */
  lemma NoHalfMadeProcess(s: Sys, ustack: word32)
    requires Inv(s) && CreateRing3(s, ustack).code != Ok
    ensures var s' := CreateRing3(s, ustack).s;
            |s'.procs| == |s.procs| && s'.spaces == s.spaces
            && forall i :: 0 <= i < |s.procs| ==> s'.procs[i].state == s.procs[i].state
  {
    if FreeSlot(s.procs, 0) >= 0 {
      SpaceForEverySlot(s.procs, s.spaces, s.code);
    }
  }

  // ------------------------------------------------------------------
  // Pages changing hands
  // ------------------------------------------------------------------

  // Only unowned pages got an owner, one of `who`.
  ghost predicate Handed(o: seq<Owner>, o': seq<Owner>, who: Owner) {
    |o'| == |o| && forall k :: 0 <= k < |o| ==> o'[k] == o[k] || (o[k] == NoOne && o'[k] == who)
  }

  lemma GivePages(bitmap: seq<bool>, owner: seq<Owner>, after: seq<bool>, who: Owner)
    requires PagesOk(bitmap, owner) && |after| == |bitmap| && who != NoOne
    requires forall k :: 0 <= k < |bitmap| && bitmap[k] ==> after[k]
    ensures PagesOk(after, Give(owner, bitmap, after, who))
    ensures Handed(owner, Give(owner, bitmap, after, who), who)
  {
  }

  ghost predicate OwnsRun(owner: seq<Owner>, page: nat, n: nat, who: Owner) {
    page + n <= |owner| && forall k :: page <= k < page + n ==> owner[k] == who
  }

  lemma AllocGives(bitmap: seq<bool>, hint: nat, owner: seq<Owner>, n: nat, who: Owner)
    requires PagesOk(bitmap, owner) && who != NoOne
    ensures var a := AllocPages(bitmap, hint, n);
            && PagesOk(a.bitmap, Give(owner, bitmap, a.bitmap, who))
            && Handed(owner, Give(owner, bitmap, a.bitmap, who), who)
            && (a.page == 0 ==> Give(owner, bitmap, a.bitmap, who) == owner)
            && (a.page != 0 ==> OwnsRun(Give(owner, bitmap, a.bitmap, who), a.page, n, who))
  {
    AllocSoundAndComplete(bitmap, hint, n);
    GivePages(bitmap, owner, AllocPages(bitmap, hint, n).bitmap, who);
  }

  // Regions stay owned, and no slot owns pages it should not, when unowned pages go to
  // nobody in particular.
  lemma RegionsAfterHanding(procs: seq<Proc>, o: seq<Owner>, o': seq<Owner>, who: Owner)
    requires RegionsOk(procs, o) && Handed(o, o', who) && !who.Slot?
    ensures RegionsOk(procs, o')
  {
    forall i | 0 <= i < |procs| && procs[i].state != Unused
      ensures OwnRegion(procs, o', i)
    {
      assert OwnRegion(procs, o, i);
    }
  }

  // A new process with its region
  lemma RegionsWithNew(procs: seq<Proc>, o: seq<Owner>, o': seq<Owner>, slot: nat, p: Proc)
    requires RegionsOk(procs, o) && slot < |procs| && procs[slot].state == Unused && p.state != Unused
    requires Handed(o, o', Slot(slot))
    requires 0 < p.region && p.region + p.regionPages <= |o|
    requires forall k :: p.region <= k < p.region + p.regionPages ==> o'[k] == Slot(slot)
    ensures RegionsOk(procs[slot := p], o')
  {
    var procs' := procs[slot := p];
    forall i | 0 <= i < |procs'| && procs'[i].state != Unused
      ensures OwnRegion(procs', o', i)
    {
      if i != slot {
        assert OwnRegion(procs, o, i);
      }
    }
  }

  lemma ConfinedAfterHanding(s: Sys, s': Sys, i: nat, t: Table, who: Owner)
    requires Confined(s, i, t) && s'.code == s.code && s'.arena == s.arena && Handed(s.owner, s'.owner, who)
    ensures Confined(s', i, t)
  {
    forall f | UserReach(t, f)
      ensures MayReach(s', i, f)
    {
      assert MayReach(s, i, f);
    }
  }

  // Same processes and spaces as far as holders are concerned
  lemma ReachAfterHanding(s: Sys, s': Sys, who: Owner)
    requires ReachOk(s) && s'.code == s.code && s'.arena == s.arena && Handed(s.owner, s'.owner, who)
    requires |s'.procs| == |s.procs| && |s'.spaces| == |s.spaces|
    requires forall i :: 0 <= i < |s.procs| && Holder(s'.procs[i]) ==>
      Holder(s.procs[i]) && s'.procs[i].space == s.procs[i].space
    requires forall i :: 0 <= i < |s.procs| && Holder(s'.procs[i]) && 0 <= s'.procs[i].space < |s.spaces| ==>
      s'.spaces[s'.procs[i].space].table == s.spaces[s.procs[i].space].table
    ensures ReachOk(s')
  {
    forall i | 0 <= i < |s'.procs| && Holder(s'.procs[i]) && 0 <= s'.procs[i].space < |s'.spaces|
      ensures Confined(s', i, s'.spaces[s'.procs[i].space].table)
    {
      ConfinedAfterHanding(s, s', i, s.spaces[s.procs[i].space].table, who);
    }
  }
}
