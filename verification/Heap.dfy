/** The allocators of memory.c above the page bitmap: pools for small objects, regions, and
    kmalloc. Addresses are byte offsets into the arena; 0 stands for NULL. */
module Heap {
  import opened Bytes
  import opened Pages

  const POOL_PAGES: nat := 4
  const POOL_BYTES: nat := POOL_PAGES * PAGE_SIZE
  const BOOTSTRAP_BYTES: nat := 64 * 1024
  const REGION_HEADER: nat := 24
  const POOL_SIZES: seq<nat> := [16, 32, 64, 128, 256, 512, 1024, 2048]

  // ALIGN(n, 8) on a 32-bit size_t
  function Align8(n: word32): (a: word32)
    ensures a % 8 == 0
    ensures n + 7 < U32 ==> n <= a < n + 8
    ensures n + 7 >= U32 ==> a == 0
  {
    (n + 7) % U32 / 8 * 8
  }

  // ------------------------------------------------------------------
  // Pools
  // ------------------------------------------------------------------

  // base is the pool's first page, 0 until it is first needed
  datatype Pool = Pool(base: nat, slotSize: nat, used: seq<bool>)

  datatype Core = Core(bitmap: seq<bool>, hint: nat, boot: nat, pools: seq<Pool>)

  // The allocator after a call, the address handed out, and whether the call panicked.
  datatype Grant = Grant(core: Core, addr: nat, panic: bool)

  function SlotCount(slotSize: nat): nat
    requires slotSize > 0
  {
    POOL_BYTES / slotSize
  }

  function BitmapBytes(slotSize: nat): (n: nat)
    requires slotSize > 0
    ensures n == (SlotCount(slotSize) + 7) / 8 * 8
  {
    (SlotCount(slotSize) + 7) / 8 * 8
  }

  /** pool_ensure_backing: pages on first use, and a used-bitmap from the bootstrap arena. */
  function EnsureBacking(c: Core, k: nat): (g: Grant)
    requires k < |c.pools| && c.pools[k].slotSize > 0
    ensures |g.core.pools| == |c.pools|
  {
    var p := c.pools[k];
    if p.base != 0 then Grant(c, p.base, false)
    else
      var a := AllocPages(c.bitmap, c.hint, POOL_PAGES);
      var c1 := c.(bitmap := a.bitmap, hint := a.hint);
      if a.page == 0 then Grant(c1, 0, false)
      else if c.boot + BitmapBytes(p.slotSize) > BOOTSTRAP_BYTES then Grant(c1, 0, true)
      else
        var backed := Pool(a.page, p.slotSize, seq(SlotCount(p.slotSize), _ => false));
        Grant(c1.(boot := c.boot + BitmapBytes(p.slotSize), pools := c.pools[k := backed]), a.page, false)
  }

  function FirstUnused(used: seq<bool>, i: nat): (r: int)
    requires i <= |used|
    ensures r == -1 || (i <= r < |used| && !used[r])
    ensures forall k :: i <= k < |used| && (r == -1 || k < r) ==> used[k]
    decreases |used| - i
  {
    if i == |used| then -1 else if !used[i] then i else FirstUnused(used, i + 1)
  }

  function PoolAlloc(c: Core, k: nat): (g: Grant)
    requires k < |c.pools| && c.pools[k].slotSize > 0
    ensures |g.core.pools| == |c.pools|
  {
    var e := EnsureBacking(c, k);
    if e.panic || e.addr == 0 then e
    else
      var p := e.core.pools[k];
      var i := FirstUnused(p.used, 0);
      if i < 0 then Grant(e.core, 0, false)
      else Grant(e.core.(pools := e.core.pools[k := p.(used := p.used[i := true])]),
                 p.base * PAGE_SIZE + i * p.slotSize, false)
  }

  // The first pool from k on whose pages contain addr; |pools| if none.
  predicate InPool(p: Pool, addr: nat) {
    p.base != 0 && p.base * PAGE_SIZE <= addr < p.base * PAGE_SIZE + |p.used| * p.slotSize
  }

  function PoolOf(pools: seq<Pool>, addr: nat, k: nat): (r: nat)
    requires k <= |pools|
    ensures k <= r <= |pools| && (r < |pools| ==> InPool(pools[r], addr))
    ensures forall j :: k <= j < r ==> !InPool(pools[j], addr)
    decreases |pools| - k
  {
    if k == |pools| then k else if InPool(pools[k], addr) then k else PoolOf(pools, addr, k + 1)
  }

  lemma SlotIndex(p: Pool, addr: nat)
    requires InPool(p, addr)
    ensures 0 < p.slotSize && 0 <= (addr - p.base * PAGE_SIZE) / p.slotSize < |p.used|
  {
    var d := addr - p.base * PAGE_SIZE;
    if p.slotSize > 0 && d / p.slotSize >= |p.used| {
      MulMonotone(|p.used|, d / p.slotSize, p.slotSize);
    }
  }

  lemma MulMonotone(a: int, b: int, c: nat)
    requires a <= b
    ensures a * c <= b * c
  {
  }

  /** pool_free: the slot containing addr becomes free; an address of no pool is ignored. */
  function PoolFree(c: Core, addr: nat): (c': Core)
    ensures |c'.pools| == |c.pools|
  {
    var k := PoolOf(c.pools, addr, 0);
    if k == |c.pools| then c
    else
      var p := c.pools[k];
      SlotIndex(p, addr);
      c.(pools := c.pools[k := p.(used := p.used[(addr - p.base * PAGE_SIZE) / p.slotSize := false])])
  }

  // The smallest size class that fits
  function ClassFor(pools: seq<Pool>, size: nat, k: nat): (r: nat)
    requires k <= |pools|
    ensures k <= r <= |pools| && (r < |pools| ==> pools[r].slotSize >= size)
    ensures forall j :: k <= j < r ==> pools[j].slotSize < size
    decreases |pools| - k
  {
    if k == |pools| then k else if pools[k].slotSize >= size then k else ClassFor(pools, size, k + 1)
  }

  predicate SizesOk(pools: seq<Pool>) {
    forall k :: 0 <= k < |pools| ==> 0 < pools[k].slotSize <= POOL_BYTES
  }

  function Kmalloc(c: Core, size: nat): (g: Grant)
    requires SizesOk(c.pools)
    ensures |g.core.pools| == |c.pools|
  {
    var k := ClassFor(c.pools, size, 0);
    if k == |c.pools| then Grant(c, 0, false) else PoolAlloc(c, k)
  }

  function Kfree(c: Core, addr: nat): Core {
    if addr == 0 then c else PoolFree(c, addr)
  }

  // ------------------------------------------------------------------
  // Regions
  // ------------------------------------------------------------------

  function RegionPages(capacity: word32): nat {
    ((capacity + REGION_HEADER) % U32 + PAGE_SIZE - 1) % U32 / PAGE_SIZE
  }

  function Capacity(pages: nat): int {
    pages * PAGE_SIZE - REGION_HEADER
  }

  /** A region that was granted is as large as asked for exactly when adding its header did
      not wrap the 32-bit size. */
  lemma RegionLargeEnoughIff(capacity: word32)
    requires 0 < RegionPages(capacity) <= ARENA_PAGES
    ensures Capacity(RegionPages(capacity)) >= capacity <==> capacity + REGION_HEADER < U32
  {
  }

  // region_alloc on a region with `used` of `capacity` bytes taken: the new `used` and the
  // offset of the block, or None.
  datatype Bump = Full | Taken(offset: nat, used: word32)

  function RegionBump(used: word32, capacity: nat, size: word32): Bump {
    var sum := (used + Align8(size)) % U32;
    if sum > capacity then Full else Taken(used, sum)
  }

  /** A granted block lies inside its region and is as large as asked for exactly when
      rounding and adding the size did not wrap. */
  lemma RegionBumpSoundIff(used: word32, capacity: nat, size: word32)
    requires used <= capacity <= ARENA_PAGES * PAGE_SIZE
    requires RegionBump(used, capacity, size).Taken?
    ensures size <= Align8(size) && used + Align8(size) <= capacity <==> used + size + 7 < U32
    ensures used + size + 7 < U32 ==> RegionBump(used, capacity, size).used == used + Align8(size)
  {
  }

  /** Both can go wrong: a region asked to hold 2^32 - 1 bytes is one page, and a block of that
      size is granted with no bytes at all. */
  lemma SizesCanWrap()
    ensures RegionPages(0xFFFF_FFFF) == 1 && Capacity(1) < 0xFFFF_FFFF
    ensures RegionBump(0, Capacity(1), 0xFFFF_FFFF) == Taken(0, 0)
  {
    assert Align8(0xFFFF_FFFF) == 0;
  }
}
