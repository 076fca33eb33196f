/** The physical page allocator of memory.c: a bitmap and a next-fit hint. */
module Pages {

  const ARENA_PAGES: nat := 2048
  const PAGE_SIZE: nat := 4096

  predicate FreeRun(b: seq<bool>, start: nat, n: nat) {
    start + n <= |b| && forall k :: start <= k < start + n ==> !b[k]
  }

  /** b with the n pages from `start` on set to v. */
  function Mark(b: seq<bool>, start: nat, n: nat, v: bool): (r: seq<bool>)
    requires start + n <= |b|
    ensures |r| == |b|
    ensures forall k :: 0 <= k < |b| ==> r[k] == if start <= k < start + n then v else b[k]
  {
    b[..start] + seq(n, _ => v) + b[start + n..]
  }

  /** The lowest start of a free run of n pages at or after `from`; -1 if there is none. */
  function FirstFit(b: seq<bool>, from: nat, n: nat): (r: int)
    ensures r == -1 || (from <= r && FreeRun(b, r, n))
    ensures forall s: nat :: from <= s && (r == -1 || s < r) ==> !FreeRun(b, s, n)
    decreases |b| - from
  {
    if from + n > |b| then -1
    else if FreeRun(b, from, n) then from
    else FirstFit(b, from + 1, n)
  }

  // The allocator's state after a call and the page returned, 0 for failure.
  datatype Allocation = Allocation(bitmap: seq<bool>, hint: nat, page: nat)

  /** page_alloc: next fit from the hint, then once more from the start. */
  function AllocPages(b: seq<bool>, hint: nat, n: nat): (a: Allocation)
    ensures |a.bitmap| == |b|
    decreases hint
  {
    if n == 0 then Allocation(b, hint, 0)
    else
      var s := FirstFit(b, hint, n);
      if s >= 0 then Allocation(Mark(b, s, n, true), s + n, s)
      else if hint != 0 then AllocPages(b, 0, n)
      else Allocation(b, 0, 0)
  }

  function FreePages(b: seq<bool>, hint: nat, page: nat, n: nat): (a: Allocation)
    requires page + n <= |b|
    ensures |a.bitmap| == |b|
  {
    Allocation(Mark(b, page, n, false), if page < hint then page else hint, page)
  }

  /** page_alloc is sound and complete, whatever the hint, once page 0 is reserved: a page is
      the start of a run that was wholly free and is now marked, nothing else changing; 0 for
      a positive count means no free run of that length exists anywhere. */
  lemma AllocSoundAndComplete(b: seq<bool>, hint: nat, n: nat)
    requires 0 < |b| && b[0]
    ensures var a := AllocPages(b, hint, n);
            if a.page != 0
            then n > 0 && FreeRun(b, a.page, n) && a.bitmap == Mark(b, a.page, n, true) && a.hint == a.page + n
            else a.bitmap == b && (n == 0 || forall s: nat :: !FreeRun(b, s, n))
  {
    if n > 0 && FirstFit(b, 0, n) >= 0 {
      assert FreeRun(b, FirstFit(b, 0, n), n);
    }
    if n > 0 && FirstFit(b, hint, n) >= 0 {
      assert FreeRun(b, FirstFit(b, hint, n), n);
    }
  }

  /** Which run it is: the lowest from the hint on, or if there is none there, the lowest of all. */
  lemma AllocIsNextFit(b: seq<bool>, hint: nat, n: nat, s: nat)
    requires 0 < |b| && b[0] && n > 0 && FreeRun(b, s, n)
    ensures var page := AllocPages(b, hint, n).page;
            && 0 < page
            && (if page >= hint then s >= hint ==> page <= s else s < hint && page <= s)
  {
    AllocSoundAndComplete(b, hint, n);
    if FirstFit(b, hint, n) < 0 {
      assert s < hint;
    }
  }

  /** A freed run can be had again: after page_free of n pages a request for n succeeds, and
      freeing what was just allocated restores the bitmap. */
  lemma FreedIsReusable(b: seq<bool>, hint: nat, page: nat, n: nat, hint': nat)
    requires 0 < |b| && b[0] && 0 < page && 0 < n && page + n <= |b|
    ensures AllocPages(FreePages(b, hint, page, n).bitmap, hint', n).page != 0
    ensures FreeRun(b, page, n) ==> FreePages(Mark(b, page, n, true), hint, page, n).bitmap == b
  {
    var freed := FreePages(b, hint, page, n).bitmap;
    assert FreeRun(freed, page, n);
    AllocSoundAndComplete(freed, hint', n);
  }

  class PageAllocator {
    const bitmap: array<bool>
    var hint: nat

    ghost predicate Valid()
      reads this, bitmap
    {
      0 < bitmap.Length && bitmap[0]
    }

    // memory_init
    constructor ()
      ensures Valid() && fresh(bitmap) && bitmap.Length == ARENA_PAGES && hint == 1
      ensures forall k :: 1 <= k < bitmap.Length ==> !bitmap[k]
    {
      bitmap := new bool[ARENA_PAGES](i => i == 0);
      hint := 1;
    }

    method RunIsFree(start: nat, n: nat) returns (ok: bool)
      requires start + n <= bitmap.Length
      ensures ok == FreeRun(bitmap[..], start, n)
    {
      ok := true;
      for i := 0 to n
        invariant forall k :: start <= k < start + i ==> !bitmap[k]
      {
        if bitmap[start + i] {
          return false;
        }
      }
    }

    method MarkRun(start: nat, n: nat, v: bool)
      requires start + n <= bitmap.Length
      modifies bitmap
      ensures bitmap[..] == Mark(old(bitmap[..]), start, n, v)
    {
      for i := 0 to n
        invariant forall k :: 0 <= k < bitmap.Length ==>
          bitmap[k] == if start <= k < start + i then v else old(bitmap[k])
      {
        bitmap[start + i] := v;
      }
    }

    // page_alloc; pages are counted, so the address is page * PAGE_SIZE
    method Alloc(n: nat) returns (page: nat)
      modifies this, bitmap
      ensures Allocation(bitmap[..], hint, page) == AllocPages(old(bitmap[..]), old(hint), n)
      decreases hint
    {
      if n == 0 {
        return 0;
      }
      var start := hint;
      while start + n <= bitmap.Length
        invariant hint <= start && bitmap[..] == old(bitmap[..]) && hint == old(hint)
        invariant FirstFit(bitmap[..], hint, n) == FirstFit(bitmap[..], start, n)
        decreases bitmap.Length - start
      {
        var ok := RunIsFree(start, n);
        if ok {
          MarkRun(start, n, true);
          hint := start + n;
          return start;
        }
        start := start + 1;
      }
      if hint != 0 {
        hint := 0;
        page := Alloc(n);
        return;
      }
      return 0;
    }

    // page_free, which panics on a run outside the arena
    method Free(page: nat, n: nat)
      requires page + n <= bitmap.Length
      modifies this, bitmap
      ensures Allocation(bitmap[..], hint, page) == FreePages(old(bitmap[..]), old(hint), page, n)
    {
      MarkRun(page, n, false);
      if page < hint {
        hint := page;
      }
    }
  }
}
