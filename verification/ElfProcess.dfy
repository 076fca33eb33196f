/** The memory image a process created from an ELF file starts with. */
module ElfProcess {
  import opened Bytes
  import opened Results
  import opened Pages
  import opened Paging
  import opened Elf
  import opened Lifetime
  import opened Isolation

  // mem' is mem but for the arena pages [page, page + pages).
  ghost predicate SameOutside(mem: seq<byte>, mem': seq<byte>, page: nat, pages: nat) {
    && |mem'| == |mem|
    && forall k :: 0 <= k < |mem| && !(page <= k / PAGE_SIZE < page + pages) ==> mem'[k] == mem[k]
  }

  // Granting the process its own region and writing there disturbs no segment.
  lemma RegionDisturbsNothing(
    t: Table, mem: seq<byte>, mem': seq<byte>, bitmap: seq<bool>, arena: nat, file: File, ph: Phdr,
    start: word32, size: word32, page: nat, pages: nat, va: nat)
    requires Fits(ph) && InPlace(t, mem, arena, file, ph) && Backed(t, bitmap, arena, ph)
    requires SameOutside(mem, mem', page, pages) && FreeRun(bitmap, page, pages)
    requires StartPage(ph) <= va / FRAME < StopPage(ph) && va < NUM_PAGES * FRAME
    ensures ByteInPlace(WithAccess(t, start, size, true), mem', arena, file, ph, va)
  {
    assert ByteInPlace(t, mem, arena, file, ph, va);
    var g := t[va / FRAME].frame - arena;
    assert bitmap[g];
    assert (g * PAGE_SIZE + va % FRAME) / PAGE_SIZE == g;
  }

  // The loader's state when the segments of a new process are in
  function Image(s: Sys, file: File): Loader
    requires HeadersReadable(file) && OpenSpace(s.spaces, s.code).handle >= 0
  {
    var ns := OpenSpace(s.spaces, s.code);
    LoadFrom(Loader(s.mem, s.bitmap, s.hint, ns.spaces[ns.handle].table), s.arena, file, 0).l
  }

  // What a successful load leaves: the loader's memory, its table with the region granted.
  lemma LoadedProcess(s: Sys, file: File, ustack: word32)
    requires |s.owner| == |s.bitmap| && HeadersReadable(file) && LoadElf(s, file, ustack).code == Ok
    ensures OpenSpace(s.spaces, s.code).handle >= 0
    ensures var c, l := LoadElf(s, file, ustack), Image(s, file);
            var page := AllocPages(l.bitmap, l.hint, Ring3Pages(ustack)).page;
            && 0 <= c.slot < |c.s.procs| && page != 0 && c.s.mem == l.mem
            && c.s.procs[c.slot].region == page && c.s.procs[c.slot].regionPages == Ring3Pages(ustack)
            && TableOf(c.s, c.slot)
               == WithAccess(l.table, PhysAddr(s, page), Ring3Pages(ustack) * PAGE_SIZE % U32, true)
  {
  }

  lemma SegmentsInPlace(s: Sys, file: File, ustack: word32)
    requires Inv(s) && HeadersReadable(file) && Separate(file) && LoadElf(s, file, ustack).code == Ok
    ensures OpenSpace(s.spaces, s.code).handle >= 0 && LoaderOk(Image(s, file))
    ensures AllInPlace(Image(s, file), s.arena, file, PhNum(file))
  {
    var ns := OpenSpace(s.spaces, s.code);
    var l := Loader(s.mem, s.bitmap, s.hint, ns.spaces[ns.handle].table);
    LoadOnlyTakes(l, s.arena, file, 0);
    LoadedImage(l, s.arena, file, 0, LoadFrom(l, s.arena, file, 0));
  }

  /** When proc_load_elf succeeds on a file whose loadable segments lie below 32 MB on pages
      of their own, every address of a segment's pages, read through the new process's page
      table, holds the file's byte within the segment's file part and zero elsewhere, is open
      to the user, and is writable exactly if the segment is - whatever is written to the
      process's own stacks meanwhile. */
  lemma ElfImageIsCorrect(s: Sys, file: File, ustack: word32, mem': seq<byte>, j: nat, va: nat)
    requires Inv(s) && HeadersReadable(file) && Separate(file) && LoadElf(s, file, ustack).code == Ok
    requires var c := LoadElf(s, file, ustack);
             0 <= c.slot < |c.s.procs|
             && SameOutside(c.s.mem, mem', c.s.procs[c.slot].region, c.s.procs[c.slot].regionPages)
    requires j < PhNum(file) && PhdrAt(file, j).kind == PT_LOAD
    requires StartPage(PhdrAt(file, j)) <= va / FRAME < StopPage(PhdrAt(file, j))
    ensures va < NUM_PAGES * FRAME && PhdrAt(file, j).offset + PhdrAt(file, j).filesz <= file.size
    ensures var c := LoadElf(s, file, ustack);
            ByteInPlace(TableOf(c.s, c.slot), mem', s.arena, file, PhdrAt(file, j), va)
  {
    var ph, pages := PhdrAt(file, j), Ring3Pages(ustack);
    SegmentsInPlace(s, file, ustack);
    LoadedProcess(s, file, ustack);
    var l := Image(s, file);
    var a := AllocPages(l.bitmap, l.hint, pages);
    AllocSoundAndComplete(l.bitmap, l.hint, pages);
    FittingPages(ph);
    RegionDisturbsNothing(l.table, l.mem, mem', l.bitmap, s.arena, file, ph,
                          PhysAddr(s, a.page), pages * PAGE_SIZE % U32, a.page, pages, va);
  }
}
