/** When the allocators refuse: for every call, exactly which states give nothing, stated on what is
    live and what is free before the call. */
module HeapLaws {
  import opened Bytes
  import opened Options
  import opened Pages
  import opened Heap
  import opened HeapRuns

  // ------------------------------------------------------------------
  // kmalloc
  // ------------------------------------------------------------------

  // No n pages in a row are free anywhere.
  ghost predicate NoRun(bitmap: seq<bool>, n: nat) {
    forall page: nat :: !FreeRun(bitmap, page, n)
  }

  // Pool k is the first whose slots hold size bytes.
  predicate Fits(pools: seq<Pool>, size: nat, k: nat) {
    k < |pools| && size <= pools[k].slotSize && forall j :: 0 <= j < k ==> pools[j].slotSize < size
  }

  // The i-th piece of the 16384 bytes of a pool
  function Piece(p: Pool, i: nat): Block {
    Block(p.base * 4096 + i * p.slotSize, p.slotSize)
  }

  // Pool k has nothing left: every piece of its pages is live, or it has no pages and no four in a
  // row are free.
  ghost predicate Exhausted(s: State, k: nat)
    requires k < |s.core.pools|
  {
    var p := s.core.pools[k];
    if p.base != 0 then p.slotSize > 0 && forall i :: 0 <= i < 16384 / p.slotSize ==> Live(s, Piece(p, i))
    else NoRun(s.core.bitmap, 4)
  }

  lemma FitsIsClass(pools: seq<Pool>, size: nat, k: nat)
    requires Fits(pools, size, k) || (k == |pools| && NoneFits(pools, size))
    ensures k == ClassFor(pools, size, 0)
  {
  }

  // The used flag of a slot says whether its piece is live.
  lemma FlagIsLive(s: State, k: nat, i: nat)
    requires Inv(s) && k < |s.core.pools| && i < |s.core.pools[k].used|
    ensures s.core.pools[k].used[i] <==> Live(s, Piece(s.core.pools[k], i))
  {
    var p := s.core.pools[k];
    assert SlotBlock(p, i) == Piece(p, i);
    if p.used[i] {
      assert SlotLive(p, SlotBlock(p, i));
      SlotIsLive(s, k, SlotBlock(p, i));
    } else {
      FreeSlotNotLive(s, k, i);
    }
  }

  lemma ExhaustedByFlags(s: State, k: nat)
    requires Inv(s) && k < |s.core.pools| && s.core.pools[k].slotSize > 0 && s.core.pools[k].base != 0
    ensures var used := s.core.pools[k].used;
            Exhausted(s, k) <==> forall i :: 0 <= i < |used| ==> used[i]
  {
    var p := s.core.pools[k];
    assert PoolOk(p);
    assert |p.used| == 16384 / p.slotSize;
    forall i | 0 <= i < |p.used|
      ensures p.used[i] <==> Live(s, Piece(p, i))
    {
      FlagIsLive(s, k, i);
    }
  }

  lemma SlotsPositive(slotSize: nat)
    requires 0 < slotSize <= POOL_BYTES
    ensures SlotCount(slotSize) > 0
  {
  }

  // pool_alloc on pool k, with or without pages
  lemma PoolRefusesIff(s: State, k: nat)
    requires Inv(s) && k < |s.core.pools| && s.core.pools[k].slotSize > 0
    ensures PoolAlloc(s.core, k).addr == 0 <==> Exhausted(s, k)
  {
    var p := s.core.pools[k];
    BackingDoesNotPanic(s, k);
    var e := EnsureBacking(s.core, k);
    if p.base != 0 {
      ExhaustedByFlags(s, k);
    } else {
      AllocSoundAndComplete(s.core.bitmap, s.core.hint, POOL_PAGES);
      if e.addr != 0 {
        SlotsPositive(p.slotSize);
        assert !e.core.pools[k].used[0];
        assert FreeRun(s.core.bitmap, AllocPages(s.core.bitmap, s.core.hint, POOL_PAGES).page, POOL_PAGES);
      }
    }
  }

  /** kmalloc hands out nothing if no class is large enough; and where k is the smallest class that
      fits, exactly if k has every piece of its pages live, or no pages while no four in a row are
      free. Otherwise it hands out a block of that class. */
  lemma KmallocRefusesIff(s: State, size: nat, k: nat)
    requires Inv(s) && SizesOk(s.core.pools)
    requires Fits(s.core.pools, size, k) || (k == |s.core.pools| && NoneFits(s.core.pools, size))
    ensures AllocObject(s, size).out == None <==> k == |s.core.pools| || Exhausted(s, k)
    ensures AllocObject(s, size).out.Some? ==> AllocObject(s, size).out.value.size == s.core.pools[k].slotSize
  {
    FitsIsClass(s.core.pools, size, k);
    if k < |s.core.pools| {
      PoolRefusesIff(s, k);
      SameSizes(s.core, k);
    }
  }

  predicate NoneFits(pools: seq<Pool>, size: nat) {
    forall k :: 0 <= k < |pools| ==> pools[k].slotSize < size
  }

  lemma SameSizes(c: Core, k: nat)
    requires k < |c.pools| && c.pools[k].slotSize > 0
    ensures var c' := PoolAlloc(c, k).core;
            |c'.pools| == |c.pools| && forall j :: 0 <= j < |c.pools| ==> c'.pools[j].slotSize == c.pools[j].slotSize
  {
  }

  // ------------------------------------------------------------------
  // Pages and regions
  // ------------------------------------------------------------------

  /** page_alloc hands out nothing exactly if none were asked for or no run that long is free. */
  lemma PagesRefusedIff(s: State, n: nat)
    requires Inv(s)
    ensures Apply(s, PageAlloc(n)).out == None <==> n == 0 || NoRun(s.core.bitmap, n)
  {
    AllocSoundAndComplete(s.core.bitmap, s.core.hint, n);
    if AllocPages(s.core.bitmap, s.core.hint, n).page != 0 {
      assert FreeRun(s.core.bitmap, AllocPages(s.core.bitmap, s.core.hint, n).page, n);
    }
  }

  lemma PagesNeeded(capacity: word32, pages: nat)
    requires capacity + 24 + 4095 < U32 && pages * 4096 - 4096 < capacity + 24 <= pages * 4096
    ensures RegionPages(capacity) == pages
  {
  }

  /** region_new with a size that does not wrap takes the fewest pages that hold the header and the
      bytes asked for, and fails exactly if no run of that many is free. */
  lemma RegionMadeIff(s: State, capacity: word32, pages: nat) returns (page: nat)
    requires Inv(s) && capacity + 24 + 4095 < U32
    requires pages * 4096 - 4096 < capacity + 24 <= pages * 4096
    ensures page == 0 <==> NoRun(s.core.bitmap, pages)
    ensures var s' := Apply(s, RegionNew(capacity)).s;
            if page == 0 then s'.extents == s.extents
            else page !in s.extents && s'.extents == s.extents[page := Extent(pages, Reg(0, []))]
  {
    PagesNeeded(capacity, pages);
    AllocSoundAndComplete(s.core.bitmap, s.core.hint, pages);
    page := AllocPages(s.core.bitmap, s.core.hint, pages).page;
    if page != 0 {
      assert FreeRun(s.core.bitmap, page, pages);
      FreshPagesApart(s, page, pages);
    }
  }

  lemma RoundedUp(size: word32, rounded: nat)
    requires size + 7 < U32 && rounded % 8 == 0 && size <= rounded < size + 8
    ensures Align8(size) == rounded
  {
  }

  /** region_alloc fails exactly if the size, rounded up to eight bytes, does not fit behind what is
      taken; otherwise the block starts there. */
  lemma ChunkRefusedIff(s: State, page: nat, size: word32, rounded: nat)
    requires Inv(s) && Legal(s, RegionAlloc(page, size))
    requires rounded % 8 == 0 && size <= rounded < size + 8
    ensures var e := s.extents[page];
            Apply(s, RegionAlloc(page, size)).out ==
              if e.kind.used + rounded > e.pages * 4096 - 24 then None
              else Some(Block(page * 4096 + 24 + e.kind.used, rounded))
  {
    assert ExtentOk(s, page);
    RoundedUp(size, rounded);
    BumpExact(s.extents[page].kind.used, Capacity(s.extents[page].pages), size, rounded);
  }

  lemma BumpExact(used: word32, capacity: nat, size: word32, rounded: nat)
    requires used <= capacity <= ARENA_PAGES * PAGE_SIZE && used + size + 7 < U32 && Align8(size) == rounded
    requires rounded < size + 8
    ensures RegionBump(used, capacity, size) == if used + rounded > capacity then Full else Taken(used, used + rounded)
  {
  }

  // ------------------------------------------------------------------
  // Over runs
  // ------------------------------------------------------------------

  ghost predicate SameClasses(s: State, s': State) {
    && |s'.core.pools| == |s.core.pools|
    && forall k :: 0 <= k < |s.core.pools| ==> s'.core.pools[k].slotSize == s.core.pools[k].slotSize
  }

  lemma StepKeepsClasses(s: State, op: Op)
    requires Inv(s) && Legal(s, op)
    ensures SameClasses(s, Apply(s, op).s)
  {
    if op.OpKmalloc? {
      PoolsSized(s);
      var k := ClassFor(s.core.pools, op.bytes, 0);
      if k < |s.core.pools| {
        SameSizes(s.core, k);
      }
    }
  }

  lemma {:induction false} RunKeepsClasses(s: State, ops: seq<Op>, s': State)
    requires Inv(s) && RunTo(s, ops, s')
    ensures Inv(s') && SameClasses(s, s')
    decreases |ops|
  {
    if ops == [] {
    } else {
      StepKeepsInv(s, ops[0]);
      StepKeepsClasses(s, ops[0]);
      RunKeepsClasses(Apply(s, ops[0]).s, ops[1..], s');
    }
  }

  // The eight classes, 16 to 2048 bytes; class 8 stands for none.
  function Class(size: nat): (k: nat)
    ensures k <= 8
  {
    if size <= 16 then 0 else if size <= 32 then 1 else if size <= 64 then 2 else if size <= 128 then 3
    else if size <= 256 then 4 else if size <= 512 then 5 else if size <= 1024 then 6
    else if size <= 2048 then 7 else 8
  }

  lemma ClassFits(pools: seq<Pool>, size: nat)
    requires |pools| == |POOL_SIZES| && forall k :: 0 <= k < |pools| ==> pools[k].slotSize == POOL_SIZES[k]
    ensures if Class(size) < 8 then Fits(pools, size, Class(size)) else NoneFits(pools, size)
    ensures Class(size) < 8 ==> var n := pools[Class(size)].slotSize; size <= n && (n < 2 * size || n == 16)
  {
    var sizes := POOL_SIZES;
    assert sizes[0] == 16 && sizes[1] == 32 && sizes[2] == 64 && sizes[3] == 128;
    assert sizes[4] == 256 && sizes[5] == 512 && sizes[6] == 1024 && sizes[7] == 2048;
  }

  // s is where the run of legal calls ops leads from boot.
  ghost predicate FromBoot(ops: seq<Op>, s: State) {
    BootInv();
    RunTo(Boot(), ops, s)
  }

  lemma ClassesOverRuns(ops: seq<Op>, s: State)
    requires FromBoot(ops, s)
    ensures Inv(s) && SizesOk(s.core.pools) && |s.core.pools| == 8
    ensures forall k :: 0 <= k < 8 ==> s.core.pools[k].slotSize == POOL_SIZES[k]
  {
    BootInv();
    RunKeepsClasses(Boot(), ops, s);
    PoolsSized(s);
  }

  /** In every state that any run of allocator calls from boot leads to, kmalloc fails exactly for
      more than 2048 bytes and for a class that is exhausted: one whose pieces are all live, or one
      without pages while no four in a row are free. A block handed out is the tightest power of two
      from 16 on. */
  lemma KmallocOverRuns(ops: seq<Op>, s: State, size: nat)
    requires FromBoot(ops, s)
    ensures |s.core.pools| == 8 && SizesOk(s.core.pools)
    ensures var k := Class(size); AllocObject(s, size).out == None <==> k == 8 || Exhausted(s, k)
    ensures AllocObject(s, size).out.Some? ==>
              var n := AllocObject(s, size).out.value.size; size <= n && (n < 2 * size || n == 16)
  {
    ClassesOverRuns(ops, s);
    ClassFits(s.core.pools, size);
    KmallocRefusesIff(s, size, Class(size));
  }
}
