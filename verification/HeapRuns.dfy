/** Every run of page, pool, region and kmalloc/kfree calls keeps the live blocks apart. */
module HeapRuns {
  import opened Bytes
  import opened Options
  import opened Pages
  import opened Heap

  datatype Block = Block(addr: nat, size: nat)

  // What a stretch of allocated pages serves: a direct page_alloc, a region with the blocks
  // handed out from it, or pool k.
  datatype Kind = Run | Reg(used: word32, chunks: seq<Block>) | PoolPages(k: nat)

  datatype Extent = Extent(pages: nat, kind: Kind)

  // The allocators together with who holds which pages, by first page.
  datatype State = State(core: Core, extents: map<nat, Extent>)

  // ------------------------------------------------------------------
  // Live blocks
  // ------------------------------------------------------------------

  ghost predicate LiveAt(s: State, p: nat, b: Block) {
    && p in s.extents
    && match s.extents[p].kind
       case Run => b == Block(p * PAGE_SIZE, s.extents[p].pages * PAGE_SIZE)
       case Reg(_, chunks) => b in chunks
       case PoolPages(k) => k < |s.core.pools| && SlotLive(s.core.pools[k], b)
  }

  ghost predicate SlotLive(p: Pool, b: Block) {
    exists i :: 0 <= i < |p.used| && p.used[i] && b == SlotBlock(p, i)
  }

  function SlotBlock(p: Pool, i: nat): Block {
    Block(p.base * PAGE_SIZE + i * p.slotSize, p.slotSize)
  }

  ghost predicate Live(s: State, b: Block) {
    exists p :: LiveAt(s, p, b)
  }

  ghost predicate Apart(x: Block, y: Block) {
    x.addr + x.size <= y.addr || y.addr + y.size <= x.addr
  }

  // b lies inside the stretch of pages
  ghost predicate Within(b: Block, page: nat, pages: nat) {
    page * PAGE_SIZE <= b.addr && b.addr + b.size <= (page + pages) * PAGE_SIZE
  }

  // ------------------------------------------------------------------
  // The invariant
  // ------------------------------------------------------------------

  ghost predicate PoolOk(p: Pool) {
    && 0 < p.slotSize <= POOL_BYTES
    && |p.used| == (if p.base == 0 then 0 else SlotCount(p.slotSize))
  }

  // The blocks of a region in order, each starting where the one before ended.
  ghost predicate ChunksOk(chunks: seq<Block>, from: nat, to: nat)
    decreases |chunks|
  {
    if chunks == [] then from == to
    else
      var last := chunks[|chunks| - 1];
      last.addr + last.size == to && from <= last.addr && ChunksOk(chunks[..|chunks| - 1], from, last.addr)
  }

  ghost predicate ExtentOk(s: State, p: nat)
    requires p in s.extents
  {
    var e := s.extents[p];
    && 0 < p && 0 < e.pages && p + e.pages <= |s.core.bitmap|
    && (forall k :: p <= k < p + e.pages ==> s.core.bitmap[k])
    && match e.kind
       case Run => true
       case Reg(used, chunks) =>
         && used <= Capacity(e.pages)
         && ChunksOk(chunks, p * PAGE_SIZE + REGION_HEADER, p * PAGE_SIZE + REGION_HEADER + used)
       case PoolPages(k) =>
         && k < |s.core.pools| && s.core.pools[k].base == p && e.pages == POOL_PAGES
  }

  function UnbackedBytes(pools: seq<Pool>, k: nat): nat
    requires k <= |pools|
    requires forall j :: 0 <= j < |pools| ==> pools[j].slotSize > 0
    decreases |pools| - k
  {
    if k == |pools| then 0
    else (if pools[k].base == 0 then BitmapBytes(pools[k].slotSize) else 0) + UnbackedBytes(pools, k + 1)
  }

  ghost predicate CoreOk(c: Core) {
    && 0 < |c.bitmap| <= ARENA_PAGES && c.bitmap[0]
    && (forall k :: 0 <= k < |c.pools| ==> PoolOk(c.pools[k]))
    && c.boot + UnbackedBytes(c.pools, 0) <= BOOTSTRAP_BYTES
  }

  ghost predicate Inv(s: State) {
    && CoreOk(s.core)
    && (forall p :: p in s.extents ==> ExtentOk(s, p))
    && (forall p, q :: p in s.extents && q in s.extents && p < q ==> p + s.extents[p].pages <= q)
    && (forall k :: 0 <= k < |s.core.pools| && s.core.pools[k].base != 0 ==>
          s.core.pools[k].base in s.extents && s.extents[s.core.pools[k].base].kind == PoolPages(k))
  }

  // ------------------------------------------------------------------
  // What the invariant gives
  // ------------------------------------------------------------------

  lemma {:induction false} ChunksApart(chunks: seq<Block>, from: nat, to: nat)
    requires ChunksOk(chunks, from, to)
    ensures from <= to
    ensures forall i :: 0 <= i < |chunks| ==> from <= chunks[i].addr && chunks[i].addr + chunks[i].size <= to
    ensures forall i, j :: 0 <= i < j < |chunks| ==> chunks[i].addr + chunks[i].size <= chunks[j].addr
    decreases |chunks|
  {
    if chunks == [] {
    } else {
      var init := chunks[..|chunks| - 1];
      ChunksApart(init, from, chunks[|chunks| - 1].addr);
      assert forall i :: 0 <= i < |init| ==> init[i] == chunks[i];
    }
  }

  lemma SlotFits(p: Pool, i: nat)
    requires PoolOk(p) && i < |p.used|
    ensures i * p.slotSize + p.slotSize <= POOL_BYTES
  {
    MulMonotone(i + 1, SlotCount(p.slotSize), p.slotSize);
  }

  lemma LiveIsWithin(s: State, p: nat, b: Block)
    requires Inv(s) && LiveAt(s, p, b)
    ensures Within(b, p, s.extents[p].pages)
  {
    assert ExtentOk(s, p);
    match s.extents[p].kind
    case Run =>
    case Reg(used, chunks) =>
      ChunksApart(chunks, p * PAGE_SIZE + REGION_HEADER, p * PAGE_SIZE + REGION_HEADER + used);
    case PoolPages(k) =>
      var pool := s.core.pools[k];
      var i :| 0 <= i < |pool.used| && pool.used[i] && b == SlotBlock(pool, i);
      SlotFits(pool, i);
  }

  lemma SlotsApart(p: Pool, i: nat, j: nat)
    requires i < j
    ensures i * p.slotSize + p.slotSize <= j * p.slotSize
  {
    MulMonotone(i + 1, j, p.slotSize);
  }

  lemma SameExtentApart(s: State, p: nat, x: Block, y: Block)
    requires Inv(s) && LiveAt(s, p, x) && LiveAt(s, p, y) && x != y
    ensures Apart(x, y)
  {
    assert ExtentOk(s, p);
    match s.extents[p].kind
    case Run =>
    case Reg(used, chunks) =>
      ChunksApart(chunks, p * PAGE_SIZE + REGION_HEADER, p * PAGE_SIZE + REGION_HEADER + used);
    case PoolPages(k) =>
      var pool := s.core.pools[k];
      var i :| 0 <= i < |pool.used| && pool.used[i] && x == SlotBlock(pool, i);
      var j :| 0 <= j < |pool.used| && pool.used[j] && y == SlotBlock(pool, j);
      if i < j {
        SlotsApart(pool, i, j);
      } else {
        SlotsApart(pool, j, i);
      }
  }

  lemma LiveInArena(s: State, x: Block)
    requires Inv(s) && Live(s, x)
    ensures PAGE_SIZE <= x.addr && x.addr + x.size <= ARENA_PAGES * PAGE_SIZE
  {
    var p :| LiveAt(s, p, x);
    LiveIsWithin(s, p, x);
    assert ExtentOk(s, p);
  }

  /** Distinct live blocks never overlap, and all lie in the arena past the reserved page. */
  lemma LiveBlocksApart(s: State, x: Block, y: Block)
    requires Inv(s) && Live(s, x) && Live(s, y) && x != y
    ensures Apart(x, y)
    ensures PAGE_SIZE <= x.addr && x.addr + x.size <= ARENA_PAGES * PAGE_SIZE
  {
    var p :| LiveAt(s, p, x);
    var q :| LiveAt(s, q, y);
    LiveInArena(s, x);
    LiveIsWithin(s, p, x);
    LiveIsWithin(s, q, y);
    assert ExtentOk(s, p) && ExtentOk(s, q);
    if p == q {
      SameExtentApart(s, p, x, y);
    }
  }

  // ------------------------------------------------------------------
  // The operations
  // ------------------------------------------------------------------

  datatype Op =
    | PageAlloc(n: nat)
    | PageFree(page: nat)
    | RegionNew(capacity: word32)
    | RegionAlloc(page: nat, size: word32)
    | RegionDestroy(page: nat)
    | OpKmalloc(bytes: nat)
    | OpKfree(addr: nat)

  // Result of an operation: the new state and the block handed out, if any.
  datatype Done = Done(s: State, out: Option<Block>, panic: bool)

  function NewExtent(s: State, n: nat, kind: Kind): Done {
    var a := AllocPages(s.core.bitmap, s.core.hint, n);
    var core := s.core.(bitmap := a.bitmap, hint := a.hint);
    if a.page == 0 then Done(s.(core := core), None, false)
    else Done(State(core, s.extents[a.page := Extent(n, kind)]), Some(Block(a.page * PAGE_SIZE, n * PAGE_SIZE)), false)
  }

  function DropExtent(s: State, page: nat): Done
    requires page in s.extents && page + s.extents[page].pages <= |s.core.bitmap|
  {
    var a := FreePages(s.core.bitmap, s.core.hint, page, s.extents[page].pages);
    Done(State(s.core.(bitmap := a.bitmap, hint := a.hint), s.extents - {page}), None, false)
  }

  function AllocInRegion(s: State, page: nat, size: word32): Done
    requires page in s.extents && s.extents[page].kind.Reg? && s.extents[page].pages > 0
  {
    var e := s.extents[page];
    match RegionBump(e.kind.used, Capacity(e.pages), size)
    case Full => Done(s, None, false)
    case Taken(offset, used) =>
      var b := Block(page * PAGE_SIZE + REGION_HEADER + offset, Align8(size));
      Done(s.(extents := s.extents[page := e.(kind := Reg(used, e.kind.chunks + [b]))]), Some(b), false)
  }

  function AllocObject(s: State, size: nat): Done
    requires SizesOk(s.core.pools)
  {
    var k := ClassFor(s.core.pools, size, 0);
    var g := Kmalloc(s.core, size);
    // the pages a pool took on first use are its extent from now on
    var extents := if k < |s.core.pools| && s.core.pools[k].base == 0 && g.core.pools[k].base != 0
                   then s.extents[g.core.pools[k].base := Extent(POOL_PAGES, PoolPages(k))] else s.extents;
    if g.addr == 0 || k == |s.core.pools| then Done(State(g.core, extents), None, g.panic)
    else Done(State(g.core, extents), Some(Block(g.addr, g.core.pools[k].slotSize)), g.panic)
  }

  // The caller frees only what it holds: its own page runs and regions, live kmalloc blocks;
  // and asks a region for no size that, rounded and added, wraps 32 bits.
  ghost predicate Legal(s: State, op: Op) {
    match op
    case PageAlloc(n) => true
    case PageFree(page) => page in s.extents && s.extents[page].kind.Run?
    case RegionNew(_) => true
    case RegionAlloc(page, size) =>
      page in s.extents && s.extents[page].kind.Reg? && s.extents[page].kind.used + size + 7 < U32
    case RegionDestroy(page) => page in s.extents && s.extents[page].kind.Reg?
    case OpKmalloc(_) => true
    case OpKfree(addr) =>
      addr == 0 || exists k :: 0 <= k < |s.core.pools| && AddrLive(s.core.pools[k], addr)
  }

  ghost predicate AddrLive(p: Pool, addr: nat) {
    SlotLive(p, Block(addr, p.slotSize))
  }

  ghost function Apply(s: State, op: Op): Done
    requires Inv(s) && Legal(s, op)
  {
    match op
    case PageAlloc(n) => NewExtent(s, n, Run)
    case PageFree(page) => assert ExtentOk(s, page); DropExtent(s, page)
    case RegionNew(capacity) =>
      var d := NewExtent(s, RegionPages(capacity), Reg(0, []));
      d.(out := None)
    case RegionAlloc(page, size) => assert ExtentOk(s, page); AllocInRegion(s, page, size)
    case RegionDestroy(page) => assert ExtentOk(s, page); DropExtent(s, page)
    case OpKmalloc(size) => assert forall k :: 0 <= k < |s.core.pools| ==> PoolOk(s.core.pools[k]); AllocObject(s, size)
    case OpKfree(addr) => Done(s.(core := Kfree(s.core, addr)), None, false)
  }

  // ------------------------------------------------------------------
  // Each operation keeps the invariant
  // ------------------------------------------------------------------

  // Freshly allocated pages belong to nobody yet.
  lemma FreshPagesApart(s: State, page: nat, n: nat)
    requires Inv(s) && n > 0 && FreeRun(s.core.bitmap, page, n)
    ensures page !in s.extents
    ensures forall q :: q in s.extents ==> q + s.extents[q].pages <= page || page + n <= q
  {
    forall q | q in s.extents
      ensures q + s.extents[q].pages <= page || page + n <= q
    {
      assert ExtentOk(s, q);
      var taken := s.core.bitmap[if q <= page then page else q];
    }
  }

  // An extent is unharmed while its pages stay allocated and its pool keeps its base.
  lemma ExtentStays(s: State, s': State, p: nat)
    requires p in s.extents && ExtentOk(s, p) && p in s'.extents && s'.extents[p] == s.extents[p]
    requires |s'.core.bitmap| == |s.core.bitmap|
    requires forall k :: p <= k < p + s.extents[p].pages ==> s'.core.bitmap[k]
    requires |s'.core.pools| == |s.core.pools|
    requires var kind := s.extents[p].kind; kind.PoolPages? ==> s'.core.pools[kind.k].base == s.core.pools[kind.k].base
    ensures ExtentOk(s', p)
  {
  }

  // Taking free pages for a new extent
  lemma TakenInv(s: State, s': State, page: nat, n: nat, kind: Kind, hint: nat)
    requires Inv(s) && 0 < page && 0 < n && FreeRun(s.core.bitmap, page, n)
    requires kind == Run || (kind == Reg(0, []) && n * PAGE_SIZE >= REGION_HEADER)
    requires s'.core == s.core.(bitmap := Mark(s.core.bitmap, page, n, true), hint := hint)
    requires s'.extents == s.extents[page := Extent(n, kind)]
    ensures Inv(s')
  {
    FreshPagesApart(s, page, n);
    forall p | p in s.extents
      ensures ExtentOk(s', p)
    {
      assert ExtentOk(s, p);
      ExtentStays(s, s', p);
    }
    assert ExtentOk(s', page);
  }

  // Only the hint moved.
  lemma HintMovedInv(s: State, hint: nat)
    requires Inv(s)
    ensures Inv(s.(core := s.core.(hint := hint)))
  {
    forall p | p in s.extents
      ensures ExtentOk(s.(core := s.core.(hint := hint)), p)
    {
      assert ExtentOk(s, p);
    }
  }

  lemma NewExtentInv(s: State, n: nat, kind: Kind)
    requires Inv(s) && (kind == Run || (kind == Reg(0, []) && n * PAGE_SIZE >= REGION_HEADER))
    ensures Inv(NewExtent(s, n, kind).s)
    ensures NewExtent(s, n, kind).out.Some? ==> n > 0
  {
    var a, s' := AllocPages(s.core.bitmap, s.core.hint, n), NewExtent(s, n, kind).s;
    AllocSoundAndComplete(s.core.bitmap, s.core.hint, n);
    if a.page != 0 {
      TakenInv(s, s', a.page, n, kind, a.hint);
    } else {
      HintMovedInv(s, a.hint);
      assert s' == s.(core := s.core.(hint := a.hint));
    }
  }

  // Pages still free hold nothing of a live block.
  lemma FreshPagesHoldNothing(s: State, page: nat, n: nat, b: Block)
    requires Inv(s) && n > 0 && FreeRun(s.core.bitmap, page, n) && Live(s, b)
    ensures Apart(Block(page * PAGE_SIZE, n * PAGE_SIZE), b)
  {
    var p :| LiveAt(s, p, b);
    LiveIsWithin(s, p, b);
    FreshPagesApart(s, page, n);
  }

  /** The pages handed out are apart from every block live before the call. */
  lemma NewExtentApart(s: State, n: nat, kind: Kind, b: Block)
    requires Inv(s) && Live(s, b)
    ensures var d := NewExtent(s, n, kind); d.out.Some? ==> Apart(d.out.value, b)
  {
    var a := AllocPages(s.core.bitmap, s.core.hint, n);
    AllocSoundAndComplete(s.core.bitmap, s.core.hint, n);
    if a.page != 0 {
      FreshPagesHoldNothing(s, a.page, n, b);
    }
  }

  lemma NewExtentLive(s: State, n: nat, kind: Kind, b: Block)
    requires Inv(s) && (kind == Run || kind == Reg(0, []))
    ensures var d := NewExtent(s, n, kind);
            && (Live(d.s, b) <==> Live(s, b) || (kind == Run && d.out == Some(b)))
            && (d.out.Some? && Live(s, b) ==> Apart(d.out.value, b))
  {
    var a, d := AllocPages(s.core.bitmap, s.core.hint, n), NewExtent(s, n, kind);
    AllocSoundAndComplete(s.core.bitmap, s.core.hint, n);
    if a.page != 0 {
      FreshPagesApart(s, a.page, n);
    }
    if p :| LiveAt(s, p, b) {
      assert LiveAt(d.s, p, b);
      NewExtentApart(s, n, kind, b);
    }
    if kind == Run && d.out == Some(b) {
      assert LiveAt(d.s, a.page, b);
    } else if p :| LiveAt(d.s, p, b) {
      assert LiveAt(s, p, b);
    }
  }

  lemma DropExtentInv(s: State, page: nat)
    requires Inv(s) && page in s.extents && !s.extents[page].kind.PoolPages?
    requires page + s.extents[page].pages <= |s.core.bitmap|
    ensures Inv(DropExtent(s, page).s)
  {
    var s' := DropExtent(s, page).s;
    forall p | p in s'.extents
      ensures ExtentOk(s', p)
    {
      assert ExtentOk(s, p) && ExtentOk(s, page);
      ExtentStays(s, s', p);
    }
  }

  lemma DropExtentKeeps(s: State, page: nat)
    requires Inv(s) && page in s.extents && !s.extents[page].kind.PoolPages?
    requires page + s.extents[page].pages <= |s.core.bitmap|
    ensures Inv(DropExtent(s, page).s)
    ensures forall b :: Live(DropExtent(s, page).s, b) <==> exists p :: p != page && LiveAt(s, p, b)
  {
    var s' := DropExtent(s, page).s;
    DropExtentInv(s, page);
    forall b
      ensures Live(s', b) <==> exists p :: p != page && LiveAt(s, p, b)
    {
      if p :| p != page && LiveAt(s, p, b) {
        assert LiveAt(s', p, b);
      }
      if p :| LiveAt(s', p, b) {
        assert LiveAt(s, p, b);
      }
    }
  }

  lemma AllocInRegionInv(s: State, page: nat, size: word32)
    requires Inv(s) && page in s.extents && s.extents[page].kind.Reg? && s.extents[page].pages > 0
    requires s.extents[page].kind.used + size + 7 < U32
    ensures var d := AllocInRegion(s, page, size);
            Inv(d.s) && (d.out.Some? ==> d.out.value.size >= size)
  {
    assert ExtentOk(s, page);
    var e, d := s.extents[page], AllocInRegion(s, page, size);
    if d.out.Some? {
      RegionBumpSoundIff(e.kind.used, Capacity(e.pages), size);
      var chunks := e.kind.chunks + [d.out.value];
      assert chunks[..|chunks| - 1] == e.kind.chunks;
      assert ExtentOk(d.s, page);
    }
    forall p | p in s.extents && p != page
      ensures ExtentOk(d.s, p)
    {
      assert ExtentOk(s, p);
      ExtentStays(s, d.s, p);
    }
  }

  // A block of a region lies in the region's extent, behind the blocks handed out before.
  lemma ChunkIsNew(s: State, page: nat, size: word32, b: Block)
    requires Inv(s) && page in s.extents && s.extents[page].kind.Reg? && s.extents[page].pages > 0
    requires s.extents[page].kind.used + size + 7 < U32 && Live(s, b)
    ensures var d := AllocInRegion(s, page, size); d.out.Some? ==> Apart(d.out.value, b)
  {
    var e, d := s.extents[page], AllocInRegion(s, page, size);
    assert ExtentOk(s, page);
    if d.out.Some? {
      var p :| LiveAt(s, p, b);
      RegionBumpSoundIff(e.kind.used, Capacity(e.pages), size);
      LiveIsWithin(s, p, b);
      if p == page {
        ChunksApart(e.kind.chunks, page * PAGE_SIZE + REGION_HEADER, page * PAGE_SIZE + REGION_HEADER + e.kind.used);
      }
    }
  }

  lemma AllocInRegionLive(s: State, page: nat, size: word32, b: Block)
    requires page in s.extents && s.extents[page].kind.Reg? && s.extents[page].pages > 0
    ensures var d := AllocInRegion(s, page, size);
            && (Live(d.s, b) <==> Live(s, b) || d.out == Some(b))
            && (Inv(s) && s.extents[page].kind.used + size + 7 < U32 && d.out.Some? && Live(s, b) ==>
                  Apart(d.out.value, b))
  {
    var d := AllocInRegion(s, page, size);
    if Inv(s) && s.extents[page].kind.used + size + 7 < U32 && Live(s, b) {
      ChunkIsNew(s, page, size, b);
    }
    if p :| LiveAt(s, p, b) {
      assert LiveAt(d.s, p, b);
    }
    if d.out == Some(b) {
      assert LiveAt(d.s, page, b);
    } else if p :| LiveAt(d.s, p, b) {
      assert LiveAt(s, p, b);
    }
  }

  // Setting the used flag of slot i of pool k
  function WithSlot(s: State, k: nat, i: nat, v: bool): State
    requires k < |s.core.pools| && i < |s.core.pools[k].used|
  {
    var p := s.core.pools[k];
    s.(core := s.core.(pools := s.core.pools[k := p.(used := p.used[i := v])]))
  }

  lemma {:induction false} SameUnbacked(x: seq<Pool>, y: seq<Pool>, k: nat)
    requires |x| == |y| && k <= |x|
    requires forall j :: 0 <= j < |x| ==> x[j].slotSize == y[j].slotSize > 0
    requires forall j :: k <= j < |x| ==> x[j].base == y[j].base
    ensures UnbackedBytes(x, k) == UnbackedBytes(y, k)
    decreases |x| - k
  {
    if k == |x| {
    } else {
      SameUnbacked(x, y, k + 1);
    }
  }

  lemma WithSlotInv(s: State, k: nat, i: nat, v: bool)
    requires Inv(s) && k < |s.core.pools| && i < |s.core.pools[k].used|
    ensures Inv(WithSlot(s, k, i, v))
  {
    var s' := WithSlot(s, k, i, v);
    assert PoolOk(s.core.pools[k]);
    assert forall j :: 0 <= j < |s.core.pools| && j != k ==>
      s'.core.pools[j] == s.core.pools[j] && PoolOk(s.core.pools[j]);
    SameUnbacked(s.core.pools, s'.core.pools, 0);
    forall p | p in s'.extents
      ensures ExtentOk(s', p)
    {
      assert ExtentOk(s, p);
    }
  }

  lemma SlotLiveAfter(p: Pool, i: nat, v: bool, b: Block)
    requires i < |p.used| && p.slotSize > 0
    ensures SlotLive(p.(used := p.used[i := v]), b) <==>
            if b == SlotBlock(p, i) then v else SlotLive(p, b)
  {
    var p' := p.(used := p.used[i := v]);
    if j :| 0 <= j < |p.used| && p.used[j] && b == SlotBlock(p, j) {
      if j != i {
        assert p'.used[j] && b == SlotBlock(p', j);
      }
    }
    if j :| 0 <= j < |p'.used| && p'.used[j] && b == SlotBlock(p', j) {
      if j != i {
        SlotsApart(p, if j < i then j else i, if j < i then i else j);
        assert p.used[j] && b == SlotBlock(p, j);
      }
    }
    if v && b == SlotBlock(p, i) {
      assert p'.used[i] && b == SlotBlock(p', i);
    }
  }

  // Extents other than the pool's own hold what they held, and none of the pool's slots.
  lemma OtherExtent(s: State, k: nat, i: nat, v: bool, p: nat, b: Block)
    requires Inv(s) && k < |s.core.pools| && i < |s.core.pools[k].used| && p != s.core.pools[k].base
    ensures LiveAt(WithSlot(s, k, i, v), p, b) <==> LiveAt(s, p, b)
    ensures LiveAt(s, p, b) ==> b != SlotBlock(s.core.pools[k], i)
  {
    if p in s.extents {
      assert ExtentOk(s, p);
    }
    if LiveAt(s, p, b) {
      NotThePools(s, k, i, p, b);
    }
  }

  lemma NotThePools(s: State, k: nat, i: nat, p: nat, b: Block)
    requires Inv(s) && k < |s.core.pools| && i < |s.core.pools[k].used| && p != s.core.pools[k].base
    requires LiveAt(s, p, b)
    ensures b != SlotBlock(s.core.pools[k], i)
  {
    var pool := s.core.pools[k];
    assert PoolOk(pool);
    LiveIsWithin(s, p, b);
    SlotIsWithin(pool, i);
    assert ExtentOk(s, pool.base);
    ApartDiffer(b, p, s.extents[p].pages, SlotBlock(pool, i), pool.base, POOL_PAGES);
  }

  lemma SlotIsWithin(p: Pool, i: nat)
    requires PoolOk(p) && i < |p.used|
    ensures Within(SlotBlock(p, i), p.base, POOL_PAGES) && SlotBlock(p, i).size > 0
  {
    SlotFits(p, i);
  }

  lemma ApartDiffer(x: Block, p: nat, n: nat, y: Block, q: nat, m: nat)
    requires Within(x, p, n) && Within(y, q, m) && y.size > 0 && (p + n <= q || q + m <= p)
    ensures x != y
  {
  }

  lemma WithSlotLive(s: State, k: nat, i: nat, v: bool, b: Block)
    requires Inv(s) && k < |s.core.pools| && i < |s.core.pools[k].used|
    ensures Live(WithSlot(s, k, i, v), b) <==>
            if b == SlotBlock(s.core.pools[k], i) then v else Live(s, b)
  {
    var s', pool := WithSlot(s, k, i, v), s.core.pools[k];
    assert PoolOk(pool);
    SlotLiveAfter(pool, i, v, b);
    assert s.extents[pool.base].kind == PoolPages(k);
    assert LiveAt(s', pool.base, b) <==> SlotLive(s'.core.pools[k], b);
    assert LiveAt(s, pool.base, b) <==> SlotLive(pool, b);
    forall p: nat | p != pool.base
      ensures LiveAt(s', p, b) <==> LiveAt(s, p, b)
      ensures LiveAt(s, p, b) ==> b != SlotBlock(pool, i)
    {
      OtherExtent(s, k, i, v, p, b);
    }
  }

  // Pool k with its pages, as EnsureBacking leaves it
  function WithBacking(s: State, k: nat): State
    requires k < |s.core.pools| && s.core.pools[k].slotSize > 0
  {
    var g := EnsureBacking(s.core, k);
    State(g.core, if s.core.pools[k].base == 0 && g.core.pools[k].base != 0
                  then s.extents[g.core.pools[k].base := Extent(POOL_PAGES, PoolPages(k))] else s.extents)
  }

  lemma {:induction false} UnbackedAfter(pools: seq<Pool>, k: nat, p: Pool, j: nat)
    requires k < |pools| && j <= |pools|
    requires forall i :: 0 <= i < |pools| ==> pools[i].slotSize > 0
    requires pools[k].base == 0 && p.base != 0 && p.slotSize == pools[k].slotSize
    ensures UnbackedBytes(pools[k := p], j) + (if j <= k then BitmapBytes(p.slotSize) else 0)
            == UnbackedBytes(pools, j)
    decreases |pools| - j
  {
    if j == |pools| {
    } else {
      UnbackedAfter(pools, k, p, j + 1);
    }
  }

  /** The bootstrap arena never runs out: every pool's bitmap was accounted for. */
  lemma BackingDoesNotPanic(s: State, k: nat)
    requires Inv(s) && k < |s.core.pools|
    ensures PoolOk(s.core.pools[k])
    ensures !EnsureBacking(s.core, k).panic
    ensures CoreOk(WithBacking(s, k).core)
  {
    var pools, p := s.core.pools, s.core.pools[k];
    assert forall j :: 0 <= j < |pools| ==> PoolOk(pools[j]);
    AllocSoundAndComplete(s.core.bitmap, s.core.hint, POOL_PAGES);
    if p.base == 0 {
      UnbackedAfter(pools, k, p.(base := 1), 0);
      BackedCore(s, k);
    }
  }

  lemma BackedCore(s: State, k: nat)
    requires Inv(s) && k < |s.core.pools| && PoolOk(s.core.pools[k]) && s.core.pools[k].base == 0
    requires !EnsureBacking(s.core, k).panic
    ensures CoreOk(EnsureBacking(s.core, k).core)
  {
    var pools, g := s.core.pools, EnsureBacking(s.core, k);
    AllocSoundAndComplete(s.core.bitmap, s.core.hint, POOL_PAGES);
    assert forall j :: 0 <= j < |pools| ==> PoolOk(pools[j]);
    if g.addr != 0 {
      UnbackedAfter(pools, k, g.core.pools[k], 0);
      assert g.core.pools == pools[k := g.core.pools[k]];
    }
  }

  lemma WithBackingInv(s: State, k: nat)
    requires Inv(s) && k < |s.core.pools| && s.core.pools[k].slotSize > 0
    ensures Inv(WithBacking(s, k))
  {
    BackingDoesNotPanic(s, k);
    AllocSoundAndComplete(s.core.bitmap, s.core.hint, POOL_PAGES);
    if s.core.pools[k].base == 0 && AllocPages(s.core.bitmap, s.core.hint, POOL_PAGES).page != 0 {
      NewBackingInv(s, k);
    } else {
      assert WithBacking(s, k).extents == s.extents && WithBacking(s, k).core.pools == s.core.pools;
      assert WithBacking(s, k).core.bitmap == s.core.bitmap;
      forall p | p in s.extents
        ensures ExtentOk(WithBacking(s, k), p)
      {
        assert ExtentOk(s, p);
      }
    }
  }

  lemma NewBackingInv(s: State, k: nat)
    requires Inv(s) && k < |s.core.pools| && s.core.pools[k].slotSize > 0 && s.core.pools[k].base == 0
    requires AllocPages(s.core.bitmap, s.core.hint, POOL_PAGES).page != 0
    requires !EnsureBacking(s.core, k).panic && CoreOk(WithBacking(s, k).core)
    ensures Inv(WithBacking(s, k))
  {
    var s', a := WithBacking(s, k), AllocPages(s.core.bitmap, s.core.hint, POOL_PAGES);
    AllocSoundAndComplete(s.core.bitmap, s.core.hint, POOL_PAGES);
    FreshPagesApart(s, a.page, POOL_PAGES);
    assert s'.extents == s.extents[a.page := Extent(POOL_PAGES, PoolPages(k))];
    forall p | p in s'.extents
      ensures ExtentOk(s', p)
    {
      if p != a.page {
        assert ExtentOk(s, p);
        ExtentStays(s, s', p);
      }
    }
  }

  lemma WithBackingLive(s: State, k: nat, b: Block)
    requires Inv(s) && k < |s.core.pools| && s.core.pools[k].slotSize > 0
    ensures Live(WithBacking(s, k), b) <==> Live(s, b)
  {
    BackingDoesNotPanic(s, k);
    AllocSoundAndComplete(s.core.bitmap, s.core.hint, POOL_PAGES);
    var a, s' := AllocPages(s.core.bitmap, s.core.hint, POOL_PAGES), WithBacking(s, k);
    if s.core.pools[k].base == 0 && a.page != 0 {
      FreshPagesApart(s, a.page, POOL_PAGES);
      assert s'.core.pools == s.core.pools[k := s'.core.pools[k]] && s'.core.pools[k].base == a.page;
      assert forall i :: 0 <= i < |s'.core.pools[k].used| ==> !s'.core.pools[k].used[i];
      NewBackingLive(s, s', k, a.page, b);
    } else {
      assert s'.extents == s.extents && s'.core.pools == s.core.pools;
      SameExtentsLive(s, s', b);
    }
  }

  lemma SameExtentsLive(s: State, s': State, b: Block)
    requires s'.extents == s.extents && s'.core.pools == s.core.pools
    ensures Live(s', b) <==> Live(s, b)
  {
    if p :| LiveAt(s, p, b) {
      assert LiveAt(s', p, b);
    }
    if p :| LiveAt(s', p, b) {
      assert LiveAt(s, p, b);
    }
  }

  // A pool's new pages hold no live block, and the other extents what they held.
  lemma NewBackingLive(s: State, s': State, k: nat, page: nat, b: Block)
    requires Inv(s) && k < |s.core.pools| && s.core.pools[k].base == 0 && page !in s.extents
    requires |s'.core.pools| == |s.core.pools| && s'.core.pools == s.core.pools[k := s'.core.pools[k]]
    requires s'.extents == s.extents[page := Extent(POOL_PAGES, PoolPages(k))]
    requires forall i :: 0 <= i < |s'.core.pools[k].used| ==> !s'.core.pools[k].used[i]
    ensures Live(s', b) <==> Live(s, b)
  {
    if p :| LiveAt(s, p, b) {
      assert ExtentOk(s, p);
      assert LiveAt(s', p, b);
    }
    if p :| LiveAt(s', p, b) {
      if p in s.extents {
        assert ExtentOk(s, p);
        assert LiveAt(s, p, b);
      }
    }
  }

  // A slot that is free is no live block.
  lemma FreeSlotNotLive(s: State, k: nat, i: nat)
    requires Inv(s) && k < |s.core.pools| && i < |s.core.pools[k].used| && !s.core.pools[k].used[i]
    ensures !Live(s, SlotBlock(s.core.pools[k], i))
  {
    var pool := s.core.pools[k];
    WithSlotLive(s, k, i, false, SlotBlock(pool, i));
    assert pool.used[i := false] == pool.used;
    assert s.core.pools[k := pool] == s.core.pools;
    assert WithSlot(s, k, i, false) == s;
  }

  // Taking a free slot of a pool that has its pages
  lemma TakeSlot(s: State, k: nat, i: nat)
    requires Inv(s) && k < |s.core.pools| && i < |s.core.pools[k].used| && !s.core.pools[k].used[i]
    ensures var s', x := WithSlot(s, k, i, true), SlotBlock(s.core.pools[k], i);
            Inv(s') && !Live(s, x) && Adds(s, s', x)
  {
    FreeSlotNotLive(s, k, i);
    WithSlotInv(s, k, i, true);
    forall b
      ensures Live(WithSlot(s, k, i, true), b) <==> Live(s, b) || b == SlotBlock(s.core.pools[k], i)
    {
      WithSlotLive(s, k, i, true, b);
    }
  }

  // Exactly the block x became live.
  ghost predicate Adds(s: State, s': State, x: Block) {
    forall b :: Live(s', b) <==> Live(s, b) || b == x
  }

  ghost predicate SameLive(s: State, s': State) {
    forall b :: Live(s', b) <==> Live(s, b)
  }

  lemma BackingKeeps(s: State, k: nat)
    requires Inv(s) && k < |s.core.pools| && s.core.pools[k].slotSize > 0
    ensures Inv(WithBacking(s, k)) && SameLive(s, WithBacking(s, k))
  {
    WithBackingInv(s, k);
    forall b
      ensures Live(WithBacking(s, k), b) <==> Live(s, b)
    {
      WithBackingLive(s, k, b);
    }
  }

  /** kmalloc: no panic; a block handed out is new, large enough, and the only change to what
      is live. */
  lemma AllocObjectKeeps(s: State, size: nat)
    requires Inv(s) && SizesOk(s.core.pools)
    ensures var d := AllocObject(s, size);
            && !d.panic && Inv(d.s)
            && (d.out.Some? ==> d.out.value.size >= size && !Live(s, d.out.value) && Adds(s, d.s, d.out.value))
            && (d.out.None? ==> SameLive(s, d.s))
  {
    var k := ClassFor(s.core.pools, size, 0);
    if k < |s.core.pools| {
      BackingDoesNotPanic(s, k);
      BackingKeeps(s, k);
      var s1 := WithBacking(s, k);
      var i := FirstUnused(s1.core.pools[k].used, 0);
      if EnsureBacking(s.core, k).addr != 0 && i >= 0 {
        TakeSlot(s1, k, i);
        TakenIsAllocated(s, size, k, i);
      } else {
        assert AllocObject(s, size).s == s1;
      }
    }
  }

  lemma TakenIsAllocated(s: State, size: nat, k: nat, i: nat)
    requires Inv(s) && SizesOk(s.core.pools) && k == ClassFor(s.core.pools, size, 0) < |s.core.pools|
    requires !EnsureBacking(s.core, k).panic && EnsureBacking(s.core, k).addr != 0
    requires i == FirstUnused(WithBacking(s, k).core.pools[k].used, 0)
    ensures var d, s1 := AllocObject(s, size), WithBacking(s, k);
            d.s == WithSlot(s1, k, i, true) && !d.panic
            && d.out == Some(SlotBlock(s1.core.pools[k], i)) && d.out.value.size == s.core.pools[k].slotSize
  {
    assert PoolOk(WithBacking(s, k).core.pools[k]) by {
      BackingDoesNotPanic(s, k);
    }
    assert WithBacking(s, k).core.pools[k].base > 0;
  }

  // An address of a pool lies in the pool's own pages.
  lemma InOwnPages(s: State, k: nat, addr: nat)
    requires Inv(s) && k < |s.core.pools| && InPool(s.core.pools[k], addr)
    ensures var base := s.core.pools[k].base;
            && base in s.extents && s.extents[base] == Extent(POOL_PAGES, PoolPages(k))
            && base * PAGE_SIZE <= addr < (base + POOL_PAGES) * PAGE_SIZE
  {
    var p := s.core.pools[k];
    assert PoolOk(p) && ExtentOk(s, p.base);
    SlotsFit(p);
  }

  lemma SlotsFit(p: Pool)
    requires PoolOk(p)
    ensures |p.used| * p.slotSize <= POOL_BYTES
  {
    if |p.used| > 0 {
      SlotFits(p, |p.used| - 1);
    }
  }

  lemma OnePool(s: State, j: nat, k: nat, addr: nat)
    requires Inv(s) && j < |s.core.pools| && k < |s.core.pools|
    requires InPool(s.core.pools[j], addr) && InPool(s.core.pools[k], addr)
    ensures j == k
  {
    InOwnPages(s, j, addr);
    InOwnPages(s, k, addr);
  }

  lemma InOwnPool(p: Pool, i: nat)
    requires p.base != 0 && p.slotSize > 0 && i < |p.used|
    ensures InPool(p, SlotBlock(p, i).addr)
  {
    MulMonotone(i + 1, |p.used|, p.slotSize);
  }

  // The address of a slot lies in its own pool and in no other.
  lemma SlotInOnePool(s: State, k: nat, i: nat)
    requires Inv(s) && k < |s.core.pools| && i < |s.core.pools[k].used|
    ensures var addr := SlotBlock(s.core.pools[k], i).addr;
            addr != 0 && PoolOf(s.core.pools, addr, 0) == k
  {
    var p := s.core.pools[k];
    assert PoolOk(p);
    InOwnPool(p, i);
    OnePool(s, PoolOf(s.core.pools, SlotBlock(p, i).addr, 0), k, SlotBlock(p, i).addr);
  }

  lemma DivOfProduct(i: nat, n: nat)
    requires n > 0
    ensures i * n / n == i
  {
    var q := i * n / n;
    assert q * n <= i * n < q * n + n;
    if q < i {
      MulMonotone(q + 1, i, n);
    } else if q > i {
      MulMonotone(i + 1, q, n);
    }
  }

  // kfree finds the very slot a live address belongs to.
  lemma KfreeFindsSlot(s: State, k: nat, i: nat)
    requires Inv(s) && k < |s.core.pools| && i < |s.core.pools[k].used|
    ensures var addr := SlotBlock(s.core.pools[k], i).addr;
            addr != 0 && Kfree(s.core, addr) == WithSlot(s, k, i, false).core
  {
    assert PoolOk(s.core.pools[k]);
    SlotInOnePool(s, k, i);
    DivOfProduct(i, s.core.pools[k].slotSize);
  }

  ghost predicate Removes(s: State, s': State, x: Block) {
    forall b :: Live(s', b) <==> Live(s, b) && b != x
  }

  lemma KfreeKeeps(s: State, addr: nat)
    requires Inv(s) && Legal(s, OpKfree(addr))
    ensures var s' := s.(core := Kfree(s.core, addr));
            && Inv(s')
            && (addr != 0 ==> exists size :: Live(s, Block(addr, size)) && Removes(s, s', Block(addr, size)))
            && (addr == 0 ==> s' == s)
  {
    if addr != 0 {
      var k :| 0 <= k < |s.core.pools| && AddrLive(s.core.pools[k], addr);
      var p := s.core.pools[k];
      var i :| 0 <= i < |p.used| && p.used[i] && Block(addr, p.slotSize) == SlotBlock(p, i);
      KfreeFindsSlot(s, k, i);
      assert s.(core := Kfree(s.core, addr)) == WithSlot(s, k, i, false);
      ReleaseSlot(s, k, i);
    }
  }

  // Releasing a live slot
  lemma ReleaseSlot(s: State, k: nat, i: nat)
    requires Inv(s) && k < |s.core.pools| && i < |s.core.pools[k].used| && s.core.pools[k].used[i]
    ensures var s', x := WithSlot(s, k, i, false), SlotBlock(s.core.pools[k], i);
            Inv(s') && Live(s, x) && Removes(s, s', x)
  {
    var p := s.core.pools[k];
    WithSlotInv(s, k, i, false);
    assert PoolOk(p);
    assert LiveAt(s, p.base, SlotBlock(p, i));
    forall b
      ensures Live(WithSlot(s, k, i, false), b) <==> Live(s, b) && b != SlotBlock(p, i)
    {
      WithSlotLive(s, k, i, false, b);
    }
  }

  /** A freed object can be had again: right after kfree, kmalloc for the same class succeeds. */
  lemma FreedObjectIsReusable(s: State, k: nat, i: nat, size: nat)
    requires Inv(s) && k < |s.core.pools| && i < |s.core.pools[k].used| && SizesOk(s.core.pools)
    requires ClassFor(s.core.pools, size, 0) == k
    ensures var freed := Kfree(s.core, SlotBlock(s.core.pools[k], i).addr);
            SizesOk(freed.pools) && Kmalloc(freed, size).addr != 0
  {
    KfreeFindsSlot(s, k, i);
    var freed := WithSlot(s, k, i, false).core;
    assert PoolOk(s.core.pools[k]);
    assert !freed.pools[k].used[i];
    SameClass(s.core.pools, freed.pools, size, 0);
  }

  lemma {:induction false} SameClass(x: seq<Pool>, y: seq<Pool>, size: nat, k: nat)
    requires |x| == |y| && k <= |x| && forall j :: 0 <= j < |x| ==> x[j].slotSize == y[j].slotSize
    ensures ClassFor(x, size, k) == ClassFor(y, size, k)
    decreases |x| - k
  {
    if k == |x| || x[k].slotSize >= size {
    } else {
      SameClass(x, y, size, k + 1);
    }
  }

  // ------------------------------------------------------------------
  // Runs
  // ------------------------------------------------------------------

  lemma PoolsSized(s: State)
    requires Inv(s)
    ensures SizesOk(s.core.pools)
  {
    assert forall k :: 0 <= k < |s.core.pools| ==> PoolOk(s.core.pools[k]);
  }

  lemma StepKeepsInv(s: State, op: Op)
    requires Inv(s) && Legal(s, op)
    ensures Inv(Apply(s, op).s) && !Apply(s, op).panic
  {
    match op
    case PageAlloc(n) => NewExtentInv(s, n, Run);
    case PageFree(page) =>
      assert ExtentOk(s, page);
      DropExtentKeeps(s, page);
    case RegionNew(capacity) =>
      if RegionPages(capacity) > 0 {
        NewExtentInv(s, RegionPages(capacity), Reg(0, []));
      }
    case RegionAlloc(page, size) =>
      assert ExtentOk(s, page);
      AllocInRegionInv(s, page, size);
    case RegionDestroy(page) =>
      assert ExtentOk(s, page);
      DropExtentKeeps(s, page);
    case OpKmalloc(bytes) =>
      PoolsSized(s);
      AllocObjectKeeps(s, bytes);
    case OpKfree(addr) => KfreeKeeps(s, addr);
  }

  // ops is a run of legal operations leading from s to s'.
  ghost predicate RunTo(s: State, ops: seq<Op>, s': State)
    requires Inv(s)
    decreases |ops|
  {
    if ops == [] then s == s'
    else Legal(s, ops[0]) && (StepKeepsInv(s, ops[0]); RunTo(Apply(s, ops[0]).s, ops[1..], s'))
  }

  // memory_init, with no pool backed yet
  function Boot(): State {
    var pools := seq(|POOL_SIZES|, i requires 0 <= i < |POOL_SIZES| => Pool(0, POOL_SIZES[i], []));
    State(Core(seq(ARENA_PAGES, i => i == 0), 1, 0, pools), map[])
  }

  /** All eight pool bitmaps together take 2040 of the bootstrap arena's 65536 bytes. */
  lemma BootInv()
    ensures Inv(Boot()) && UnbackedBytes(Boot().core.pools, 0) == 2040
  {
    EmptyBitmaps(Boot().core.pools);
    EmptyHeapInv(Boot());
  }

  lemma EmptyBitmaps(pools: seq<Pool>)
    requires pools == Boot().core.pools
    ensures forall k :: 0 <= k < |pools| ==> PoolOk(pools[k])
    ensures forall k :: 0 <= k < |pools| ==> pools[k].base == 0
    ensures UnbackedBytes(pools, 0) == 2040
  {
    assert UnbackedBytes(pools, 8) == 0;
    assert UnbackedBytes(pools, 7) == 8;
    assert UnbackedBytes(pools, 6) == 24;
    assert UnbackedBytes(pools, 5) == 56;
    assert UnbackedBytes(pools, 4) == 120;
    assert UnbackedBytes(pools, 3) == 248;
    assert UnbackedBytes(pools, 2) == 504;
    assert UnbackedBytes(pools, 1) == 1016;
  }

  lemma EmptyHeapInv(s: State)
    requires s.extents == map[] && CoreOk(s.core)
    requires forall k :: 0 <= k < |s.core.pools| ==> s.core.pools[k].base == 0
    ensures Inv(s)
  {
  }

  lemma {:induction false} RunKeepsInv(s: State, ops: seq<Op>, s': State)
    requires Inv(s) && RunTo(s, ops, s')
    ensures Inv(s')
    decreases |ops|
  {
    if ops == [] {
    } else {
      StepKeepsInv(s, ops[0]);
      RunKeepsInv(Apply(s, ops[0]).s, ops[1..], s');
    }
  }

  // ------------------------------------------------------------------
  // What was asked for
  // ------------------------------------------------------------------

  // The size an operation asks for
  function Wanted(op: Op): nat {
    match op
    case PageAlloc(n) => n * PAGE_SIZE
    case RegionAlloc(_, size) => size
    case OpKmalloc(bytes) => bytes
    case _ => 0
  }

  // The operation frees block b: it belongs to the pages given back, or is the object named.
  ghost predicate Frees(s: State, op: Op, b: Block) {
    match op
    case PageFree(page) => LiveAt(s, page, b)
    case RegionDestroy(page) => LiveAt(s, page, b)
    case OpKfree(addr) => b.addr == addr && exists k :: 0 <= k < |s.core.pools| && SlotLive(s.core.pools[k], b)
    case _ => false
  }

  // Live afterwards is what was and is not freed, and what is handed out: large enough, and apart
  // from everything live before.
  ghost predicate HandsOut(s: State, op: Op, d: Done) {
    && (forall b :: Live(d.s, b) <==> (Live(s, b) && !Frees(s, op, b)) || d.out == Some(b))
    && (d.out.Some? ==> d.out.value.size >= Wanted(op) && New(s, d.out.value))
  }

  // x shares no byte with any live block; in particular, unless empty, it is none.
  ghost predicate New(s: State, x: Block) {
    && (forall b :: Live(s, b) ==> Apart(x, b))
    && (x.size > 0 ==> !Live(s, x))
  }

  lemma ApartIsNew(s: State, x: Block)
    requires forall b :: Live(s, b) ==> Apart(x, b)
    ensures New(s, x)
  {
    assert Live(s, x) ==> Apart(x, x);
  }

  // A block lies in its extent, and if it is empty, past the extent's first byte.
  lemma LiveIsInside(s: State, p: nat, b: Block)
    requires Inv(s) && LiveAt(s, p, b)
    ensures Within(b, p, s.extents[p].pages) && (b.size > 0 || b.addr > p * PAGE_SIZE)
  {
    LiveIsWithin(s, p, b);
    assert ExtentOk(s, p);
    match s.extents[p].kind
    case Run =>
    case Reg(used, chunks) =>
      ChunksApart(chunks, p * PAGE_SIZE + REGION_HEADER, p * PAGE_SIZE + REGION_HEADER + used);
    case PoolPages(k) => assert PoolOk(s.core.pools[k]);
  }

  lemma OneOwner(s: State, p: nat, q: nat, b: Block)
    requires Inv(s) && LiveAt(s, p, b) && LiveAt(s, q, b)
    ensures p == q
  {
    LiveIsInside(s, p, b);
    LiveIsInside(s, q, b);
  }

  lemma DropHandsOut(s: State, page: nat, op: Op)
    requires Inv(s) && page in s.extents && !s.extents[page].kind.PoolPages?
    requires page + s.extents[page].pages <= |s.core.bitmap|
    requires op == PageFree(page) || op == RegionDestroy(page)
    ensures HandsOut(s, op, DropExtent(s, page))
  {
    DropExtentKeeps(s, page);
    forall b
      ensures (exists p :: p != page && LiveAt(s, p, b)) <==> Live(s, b) && !LiveAt(s, page, b)
    {
      if p :| p != page && LiveAt(s, p, b) {
        if LiveAt(s, page, b) {
          OneOwner(s, p, page, b);
        }
      }
    }
  }

  lemma PagesHandsOut(s: State, n: nat)
    requires Inv(s)
    ensures HandsOut(s, PageAlloc(n), NewExtent(s, n, Run))
  {
    var d := NewExtent(s, n, Run);
    forall b
      ensures Live(d.s, b) <==> Live(s, b) || d.out == Some(b)
      ensures d.out.Some? && Live(s, b) ==> Apart(d.out.value, b)
    {
      NewExtentLive(s, n, Run, b);
    }
    if d.out.Some? {
      ApartIsNew(s, d.out.value);
    }
  }

  lemma RegionHandsOut(s: State, capacity: word32)
    requires Inv(s)
    ensures HandsOut(s, RegionNew(capacity), NewExtent(s, RegionPages(capacity), Reg(0, [])).(out := None))
  {
    var d := NewExtent(s, RegionPages(capacity), Reg(0, []));
    forall b
      ensures Live(d.s, b) <==> Live(s, b)
    {
      NewExtentLive(s, RegionPages(capacity), Reg(0, []), b);
    }
  }

  lemma ChunkHandsOut(s: State, page: nat, size: word32)
    requires Inv(s) && Legal(s, RegionAlloc(page, size)) && s.extents[page].pages > 0
    ensures HandsOut(s, RegionAlloc(page, size), AllocInRegion(s, page, size))
  {
    var d := AllocInRegion(s, page, size);
    AllocInRegionInv(s, page, size);
    forall b
      ensures Live(d.s, b) <==> Live(s, b) || d.out == Some(b)
      ensures d.out.Some? && Live(s, b) ==> Apart(d.out.value, b)
    {
      AllocInRegionLive(s, page, size, b);
    }
    if d.out.Some? {
      ApartIsNew(s, d.out.value);
    }
  }

  lemma ObjectHandsOut(s: State, size: nat)
    requires Inv(s) && SizesOk(s.core.pools)
    ensures HandsOut(s, OpKmalloc(size), AllocObject(s, size))
  {
    var d := AllocObject(s, size);
    AllocObjectKeeps(s, size);
    if d.out.Some? {
      forall b | Live(s, b)
        ensures Apart(d.out.value, b)
      {
        LiveBlocksApart(d.s, d.out.value, b);
      }
    }
  }

  // A live slot's block is live, and the only pool block at its address.
  lemma SlotIsLive(s: State, k: nat, b: Block)
    requires Inv(s) && k < |s.core.pools| && SlotLive(s.core.pools[k], b)
    ensures Live(s, b) && b.size > 0
  {
    var p := s.core.pools[k];
    assert PoolOk(p);
    assert LiveAt(s, p.base, b);
  }

  lemma SameSlot(s: State, j: nat, k: nat, x: Block, y: Block)
    requires Inv(s) && j < |s.core.pools| && k < |s.core.pools| && x.addr == y.addr
    requires SlotLive(s.core.pools[j], x) && SlotLive(s.core.pools[k], y)
    ensures x == y
  {
    SlotIsLive(s, j, x);
    SlotIsLive(s, k, y);
    if x != y {
      LiveBlocksApart(s, x, y);
    }
  }

  lemma KfreeHandsOut(s: State, addr: nat)
    requires Inv(s) && Legal(s, OpKfree(addr))
    ensures HandsOut(s, OpKfree(addr), Done(s.(core := Kfree(s.core, addr)), None, false))
  {
    if addr == 0 {
      forall b | Frees(s, OpKfree(0), b)
        ensures !Live(s, b)
      {
        if p :| LiveAt(s, p, b) {
          assert ExtentOk(s, p);
          LiveIsWithin(s, p, b);
        }
      }
    } else {
      var k :| 0 <= k < |s.core.pools| && AddrLive(s.core.pools[k], addr);
      var p := s.core.pools[k];
      var x := Block(addr, p.slotSize);
      var i :| 0 <= i < |p.used| && p.used[i] && x == SlotBlock(p, i);
      KfreeFindsSlot(s, k, i);
      assert s.(core := Kfree(s.core, addr)) == WithSlot(s, k, i, false);
      ReleaseSlot(s, k, i);
      forall b
        ensures Frees(s, OpKfree(addr), b) <==> b == x
      {
        if j :| 0 <= j < |s.core.pools| && SlotLive(s.core.pools[j], b) {
          if b.addr == addr {
            SameSlot(s, j, k, b, x);
          }
        }
      }
    }
  }

  lemma StepHandsOut(s: State, op: Op)
    requires Inv(s) && Legal(s, op)
    ensures HandsOut(s, op, Apply(s, op))
  {
    match op
    case PageAlloc(n) => PagesHandsOut(s, n);
    case PageFree(page) =>
      assert ExtentOk(s, page);
      DropHandsOut(s, page, op);
    case RegionNew(capacity) => RegionHandsOut(s, capacity);
    case RegionAlloc(page, size) =>
      assert ExtentOk(s, page);
      ChunkHandsOut(s, page, size);
    case RegionDestroy(page) =>
      assert ExtentOk(s, page);
      DropHandsOut(s, page, op);
    case OpKmalloc(bytes) =>
      PoolsSized(s);
      ObjectHandsOut(s, bytes);
    case OpKfree(addr) => KfreeHandsOut(s, addr);
  }

  // A request that was met and whose block was not freed since
  datatype Held = Held(block: Block, wanted: nat)

  // The books of the callers: every outstanding request, by the number of its call in the run.
  // Two calls given the same block are two entries.
  ghost function Book(s: State, ops: seq<Op>, n: nat, book: map<nat, Held>): map<nat, Held>
    requires Inv(s)
    decreases |ops|
  {
    if ops == [] || !Legal(s, ops[0]) then book
    else
      StepKeepsInv(s, ops[0]);
      Book(Apply(s, ops[0]).s, ops[1..], n + 1, Entered(s, ops[0], n, book))
  }

  // After call n: what it frees is struck out, what it hands out is entered.
  ghost function Entered(s: State, op: Op, n: nat, book: map<nat, Held>): map<nat, Held>
    requires Inv(s) && Legal(s, op)
  {
    var d := Apply(s, op);
    var kept := map k | k in book && !Frees(s, op, book[k].block) :: book[k];
    if d.out.Some? then kept[n := Held(d.out.value, Wanted(op))] else kept
  }

  // The block of one of the requests
  ghost predicate Listed(book: map<nat, Held>, b: Block) {
    exists k :: k in book && book[k].block == b
  }

  /** The outstanding requests of the first n calls hold exactly the live blocks, each at least
      as large as was asked for, and no two requests share a byte. */
  ghost predicate BookOk(s: State, n: nat, book: map<nat, Held>) {
    && (forall k :: k in book ==> k < n && book[k].wanted <= book[k].block.size)
    && (forall b :: Listed(book, b) <==> Live(s, b))
    && (forall j, k :: j in book && k in book && j != k ==> Apart(book[j].block, book[k].block))
  }

  lemma EntryKeepsListed(s: State, op: Op, n: nat, book: map<nat, Held>, b: Block)
    requires Inv(s) && Legal(s, op) && BookOk(s, n, book)
    ensures Listed(Entered(s, op, n, book), b) <==> Live(Apply(s, op).s, b)
  {
    var d, book' := Apply(s, op), Entered(s, op, n, book);
    StepHandsOut(s, op);
    if Live(s, b) && !Frees(s, op, b) {
      assert Listed(book, b);
      var k :| k in book && book[k].block == b;
      assert k in book' && book'[k].block == b;
    } else if d.out == Some(b) {
      assert n in book' && book'[n].block == b;
    }
    if k :| k in book' && book'[k].block == b {
      assert k != n ==> Listed(book, b);
    }
  }

  lemma EntryKeepsApart(s: State, op: Op, n: nat, book: map<nat, Held>, j: nat, k: nat)
    requires Inv(s) && Legal(s, op) && BookOk(s, n, book)
    requires j in Entered(s, op, n, book) && k in Entered(s, op, n, book) && j != k
    ensures Apart(Entered(s, op, n, book)[j].block, Entered(s, op, n, book)[k].block)
  {
    StepHandsOut(s, op);
    if j == n || k == n {
      var other := if j == n then k else j;
      assert other in book && Listed(book, book[other].block);
    }
  }

  lemma EntryKeepsBook(s: State, op: Op, n: nat, book: map<nat, Held>)
    requires Inv(s) && Legal(s, op) && BookOk(s, n, book)
    ensures BookOk(Apply(s, op).s, n + 1, Entered(s, op, n, book))
  {
    var book' := Entered(s, op, n, book);
    StepHandsOut(s, op);
    forall b
      ensures Listed(book', b) <==> Live(Apply(s, op).s, b)
    {
      EntryKeepsListed(s, op, n, book, b);
    }
    forall j, k | j in book' && k in book' && j != k
      ensures Apart(book'[j].block, book'[k].block)
    {
      EntryKeepsApart(s, op, n, book, j, k);
    }
  }

  lemma {:induction false} RunKeepsBook(s: State, ops: seq<Op>, s': State, n: nat, book: map<nat, Held>)
    requires Inv(s) && RunTo(s, ops, s') && BookOk(s, n, book)
    ensures BookOk(s', n + |ops|, Book(s, ops, n, book))
    decreases |ops|
  {
    if ops == [] {
    } else {
      StepKeepsInv(s, ops[0]);
      EntryKeepsBook(s, ops[0], n, book);
      RunKeepsBook(Apply(s, ops[0]).s, ops[1..], s', n + 1, Entered(s, ops[0], n, book));
    }
  }

  lemma BookOverRuns(ops: seq<Op>, s: State)
    requires (BootInv(); RunTo(Boot(), ops, s))
    ensures (BootInv(); Inv(s) && BookOk(s, |ops|, Book(Boot(), ops, 0, map[])))
  {
    BootInv();
    RunKeepsInv(Boot(), ops, s);
    assert BookOk(Boot(), 0, map[]);
    RunKeepsBook(Boot(), ops, s, 0, map[]);
  }

  /** After any run of allocator calls from boot in which callers free only what they hold, the
      outstanding requests hold exactly the live blocks, each at least as large as asked for, and
      no two requests share a byte: no block is handed out while it, or a part of it, is held.
      All lie in bounds, and a further kmalloc does not panic. */
  lemma HeapDisjointOverRuns(ops: seq<Op>, s: State, size: nat)
    requires (BootInv(); RunTo(Boot(), ops, s))
    ensures (BootInv(); BookOk(s, |ops|, Book(Boot(), ops, 0, map[])))
    ensures forall x, y :: Live(s, x) && Live(s, y) && x != y ==> Apart(x, y)
    ensures forall x :: Live(s, x) ==> PAGE_SIZE <= x.addr && x.addr + x.size <= ARENA_PAGES * PAGE_SIZE
    ensures SizesOk(s.core.pools) && !Kmalloc(s.core, size).panic
  {
    BookOverRuns(ops, s);
    forall x | Live(s, x)
      ensures PAGE_SIZE <= x.addr && x.addr + x.size <= ARENA_PAGES * PAGE_SIZE
    {
      LiveInArena(s, x);
    }
    forall x, y | Live(s, x) && Live(s, y) && x != y
      ensures Apart(x, y)
    {
      LiveBlocksApart(s, x, y);
    }
    PoolsSized(s);
    AllocObjectKeeps(s, size);
  }
}
