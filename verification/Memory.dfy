/** memory.c as it runs: page allocator, pools and regions changed in place, each call proved
    against its function in Heap. */
module Memory {
  import opened Bytes
  import opened Pages
  import opened Heap

  class Allocators {
    const pages: PageAllocator
    const pools: array<Pool>
    var boot: nat

    ghost predicate Valid()
      reads this, pages, pages.bitmap, pools
    {
      SizesOk(pools[..])
    }

    ghost function View(): Core
      reads this, pages, pages.bitmap, pools
    {
      Core(pages.bitmap[..], pages.hint, boot, pools[..])
    }

    constructor ()
      ensures Valid() && fresh(pages) && fresh(pages.bitmap) && fresh(pools)
      ensures pages.Valid() && pages.hint == 1 && boot == 0
      ensures pools[..] == seq(|POOL_SIZES|, i requires 0 <= i < |POOL_SIZES| => Pool(0, POOL_SIZES[i], []))
    {
      pages := new PageAllocator();
      pools := new Pool[|POOL_SIZES|](i requires 0 <= i < |POOL_SIZES| => Pool(0, POOL_SIZES[i], []));
      boot := 0;
    }

    // kmalloc_bootstrap, which panics when its arena is exhausted: the block at `at` lies in the
    // arena, behind every earlier one, is as large as asked for, and aligned.
    method Bootstrap(size: nat) returns (at: nat)
      requires boot + (size + 7) / 8 * 8 <= BOOTSTRAP_BYTES
      modifies this`boot
      ensures old(boot) <= at && at + size <= boot <= BOOTSTRAP_BYTES
      ensures old(boot) % 8 == 0 ==> at % 8 == 0 && boot % 8 == 0
      ensures boot == old(boot) + (size + 7) / 8 * 8
    {
      var rounded := (size + 7) / 8 * 8;
      at := boot;
      boot := boot + rounded;
    }

    // pool_ensure_backing
    method PoolEnsureBacking(k: nat) returns (ok: bool)
      requires Valid() && k < pools.Length && !EnsureBacking(View(), k).panic
      modifies this, pages, pages.bitmap, pools
      ensures Valid() && View() == EnsureBacking(old(View()), k).core
      ensures ok == (EnsureBacking(old(View()), k).addr != 0)
    {
      if pools[k].base != 0 {
        return true;
      }
      var page := pages.Alloc(POOL_PAGES);
      if page == 0 {
        return false;
      }
      var slots := SlotCount(pools[k].slotSize);
      var _ := Bootstrap(slots);
      pools[k] := pools[k].(base := page, used := seq(slots, _ => false));
      return true;
    }

    // pool_alloc
    method AllocFromPool(k: nat) returns (addr: nat)
      requires Valid() && k < pools.Length && !PoolAlloc(View(), k).panic
      modifies this, pages, pages.bitmap, pools
      ensures Valid() && View() == PoolAlloc(old(View()), k).core
      ensures addr == PoolAlloc(old(View()), k).addr
    {
      var ok := PoolEnsureBacking(k);
      if !ok {
        return 0;
      }
      ghost var backed := View();
      var i := 0;
      while i < |pools[k].used|
        invariant 0 <= i <= |pools[k].used| && View() == backed
        invariant FirstUnused(pools[k].used, i) == FirstUnused(pools[k].used, 0)
      {
        if !pools[k].used[i] {
          pools[k] := pools[k].(used := pools[k].used[i := true]);
          return pools[k].base * PAGE_SIZE + i * pools[k].slotSize;
        }
        i := i + 1;
      }
      return 0;
    }

    // pool_free
    method FreeToPool(addr: nat)
      requires Valid()
      modifies pools
      ensures Valid() && View() == PoolFree(old(View()), addr)
    {
      var k := 0;
      while k < pools.Length
        invariant 0 <= k <= pools.Length && pools[..] == old(pools[..])
        invariant PoolOf(pools[..], addr, k) == PoolOf(pools[..], addr, 0)
      {
        var p := pools[k];
        if p.base != 0 && p.base * PAGE_SIZE <= addr < p.base * PAGE_SIZE + |p.used| * p.slotSize {
          SlotIndex(p, addr);
          var i := (addr - p.base * PAGE_SIZE) / p.slotSize;
          pools[k] := p.(used := p.used[i := false]);
          return;
        }
        k := k + 1;
      }
    }

    // kmalloc
    method Malloc(size: nat) returns (addr: nat)
      requires Valid() && !Kmalloc(View(), size).panic
      modifies this, pages, pages.bitmap, pools
      ensures Valid() && View() == Kmalloc(old(View()), size).core
      ensures addr == Kmalloc(old(View()), size).addr
    {
      var k := 0;
      while k < pools.Length && pools[k].slotSize < size
        invariant 0 <= k <= pools.Length
        invariant ClassFor(pools[..], size, k) == ClassFor(pools[..], size, 0)
      {
        k := k + 1;
      }
      if k == pools.Length {
        return 0;
      }
      addr := AllocFromPool(k);
    }

    // kfree
    method MFree(addr: nat)
      requires Valid()
      modifies pools
      ensures Valid() && View() == Kfree(old(View()), addr)
    {
      if addr == 0 {
        return;
      }
      FreeToPool(addr);
    }
  }

  /** struct Region: a stretch of pages handed out from the front. */
  class Region {
    const page: nat
    const pages: nat
    var used: word32

    ghost predicate Valid()
      reads this
    {
      0 < page && 0 < pages && used <= Capacity(pages)
    }

    constructor (page: nat, pages: nat)
      requires 0 < page && 0 < pages
      ensures Valid() && this.page == page && this.pages == pages && used == 0
    {
      this.page := page;
      this.pages := pages;
      used := 0;
    }

    // region_new
    static method New(alloc: PageAllocator, capacity: word32) returns (r: Region?)
      requires alloc.Valid()
      modifies alloc, alloc.bitmap
      ensures var a := AllocPages(old(alloc.bitmap[..]), old(alloc.hint), RegionPages(capacity));
              && alloc.bitmap[..] == a.bitmap && alloc.hint == a.hint
              && (r == null <==> a.page == 0)
              && (r != null ==>
                    fresh(r) && r.Valid() && r.used == 0 && r.page == a.page && r.pages == RegionPages(capacity))
    {
      AllocSoundAndComplete(alloc.bitmap[..], alloc.hint, RegionPages(capacity));
      var n := ((capacity + REGION_HEADER) % U32 + PAGE_SIZE - 1) % U32 / PAGE_SIZE;
      var page := alloc.Alloc(n);
      if page == 0 {
        return null;
      }
      r := new Region(page, n);
    }

    // region_alloc: the block's arena offset, 0 when the region is full
    method Alloc(size: word32) returns (addr: nat)
      requires Valid() && Capacity(pages) < U32
      modifies this`used
      ensures Valid()
      ensures match RegionBump(old(used), Capacity(pages), size)
              case Full => addr == 0 && used == old(used)
              case Taken(offset, used') => addr == page * PAGE_SIZE + REGION_HEADER + offset && used == used'
    {
      var a := Align8(size);
      if (used + a) % U32 > Capacity(pages) {
        return 0;
      }
      addr := page * PAGE_SIZE + REGION_HEADER + used;
      used := (used + a) % U32;
    }

    // region_destroy
    method Destroy(alloc: PageAllocator)
      requires page + pages <= alloc.bitmap.Length
      modifies alloc, alloc.bitmap
      ensures var a := FreePages(old(alloc.bitmap[..]), old(alloc.hint), page, pages);
              alloc.bitmap[..] == a.bitmap && alloc.hint == a.hint
    {
      alloc.Free(page, pages);
    }
  }
}
