/** The ELF32 loader of process.c: what a file's PT_LOAD segments become in memory. */
module Elf {
  import opened Bytes
  import opened Results
  import opened Pages
  import opened Paging

  const EHDR: nat := 52
  const PHDR: nat := 32
  const PT_LOAD: nat := 1
  const VIRT_PAGES: nat := 0x10_0000  // pages of a 32-bit address space

  // ------------------------------------------------------------------
  // The file
  // ------------------------------------------------------------------

  // Memory from elf_data on, of which the first `size` bytes are the file
  datatype FileInMemory = FileInMemory(mem: seq<byte>, size: nat)

  type File = f: FileInMemory | f.size <= |f.mem| witness FileInMemory([], 0)

  function Word(b: seq<byte>, at: nat): word32
    requires at + 4 <= |b|
  {
    b[at] as int + 256 * b[at + 1] as int + 65536 * b[at + 2] as int + 16777216 * b[at + 3] as int
  }

  function Half(b: seq<byte>, at: nat): word16
    requires at + 2 <= |b|
  {
    b[at] as int + 256 * b[at + 1] as int
  }

  // e_phoff and e_phnum
  function PhOff(file: File): word32
    requires file.size >= EHDR
  {
    Word(file.mem, 28)
  }

  function PhNum(file: File): word16
    requires file.size >= EHDR
  {
    Half(file.mem, 44)
  }

  /** The checks on the ELF header, in the loader's terms. */
  predicate HeaderOk(file: File) {
    && file.size >= EHDR
    && file.mem[0] == 0x7f && file.mem[1] == 69 && file.mem[2] == 76 && file.mem[3] == 70
    && file.mem[4] == 1 && Half(file.mem, 18) == 3 && Half(file.mem, 16) == 2
    && PhOff(file) != 0 && PhNum(file) != 0
    && PhOff(file) + PhNum(file) * Half(file.mem, 42) <= file.size
  }

  // The loader steps through the table in units of 32 bytes whatever e_phentsize says, past the
  // file's end if that is smaller; the memory there must exist.
  predicate HeadersReadable(file: File) {
    file.size >= EHDR && PhOff(file) + PhNum(file) * PHDR <= |file.mem| < U32
  }

  datatype Phdr = Phdr(kind: word32, offset: word32, vaddr: word32, filesz: word32, memsz: word32, flags: word32)

  function PhdrAt(file: File, i: nat): Phdr
    requires HeadersReadable(file) && i < PhNum(file)
  {
    var at := PhOff(file) + i * PHDR;
    Phdr(Word(file.mem, at), Word(file.mem, at + 4), Word(file.mem, at + 8),
         Word(file.mem, at + 16), Word(file.mem, at + 20), Word(file.mem, at + 24))
  }

  /** With the standard header size of 32 bytes or more an accepted file is all that is read. */
  lemma StandardHeadersInFile(file: File)
    requires HeaderOk(file) && Half(file.mem, 42) >= PHDR && |file.mem| < U32
    ensures HeadersReadable(file) && PhOff(file) + PhNum(file) * PHDR <= file.size
  {
    TableGrows(PhNum(file), PHDR, Half(file.mem, 42));
  }

  lemma TableGrows(n: nat, size: nat, larger: nat)
    requires size <= larger
    ensures n * size <= n * larger
  {
    assert n * larger - n * size == n * (larger - size);
  }

  // ------------------------------------------------------------------
  // One segment
  // ------------------------------------------------------------------

  function StartPage(ph: Phdr): nat {
    ph.vaddr / FRAME
  }

  function Skip(ph: Phdr): nat {
    ph.vaddr % FRAME
  }

  // num_pages, in 32-bit arithmetic
  function NumPages(ph: Phdr): (n: nat)
    ensures n <= VIRT_PAGES
  {
    var vend := ((ph.vaddr + ph.memsz) % U32 + FRAME - 1) % U32 / FRAME * FRAME;
    (vend - StartPage(ph) * FRAME) % U32 / FRAME
  }

  predicate Writable(ph: Phdr) {
    ph.flags / 2 % 2 == 1
  }

  // Virtual pages from, from+1, ... (n of them) map to consecutive frames, for the user.
  function MapRun(t: Table, from: nat, frame: nat, n: nat, writable: bool): Table {
    seq(NUM_PAGES, p requires 0 <= p < NUM_PAGES =>
      var k := (p - from) % VIRT_PAGES;
      if k < n then Pte(frame + k, writable, true) else t[p])
  }

  // What loading works on: arena contents, page allocator, and the new process's table.
  datatype Loader = Loader(mem: seq<byte>, bitmap: seq<bool>, hint: nat, table: Table)

  datatype Step = Step(l: Loader, code: Code)

  // Arena contents after the segment was put on the n pages from `page` on
  function Fill(mem: seq<byte>, file: File, ph: Phdr, page: nat, n: nat): (r: seq<byte>)
    requires ph.offset + ph.filesz <= file.size
    ensures |r| == |mem|
  {
    Overlay(Overlay(mem, page * PAGE_SIZE, Zeros(n * PAGE_SIZE)),
            page * PAGE_SIZE + Skip(ph), file.mem[ph.offset..ph.offset + ph.filesz])
  }

  /** One turn of the segment loop; `arena` is the arena's first frame. */
  function LoadSegment(l: Loader, arena: nat, file: File, ph: Phdr): (s: Step)
    ensures |s.l.bitmap| == |l.bitmap| && |s.l.mem| == |l.mem|
  {
    if ph.kind != PT_LOAD then Step(l, Ok)
    else if ph.offset + ph.filesz > file.size || ph.filesz > ph.memsz then Step(l, EInval)
    else
      var n := NumPages(ph);
      var a := AllocPages(l.bitmap, l.hint, n);
      if a.page == 0 then Step(l.(bitmap := a.bitmap, hint := a.hint), ENoMem)
      else Step(Loader(Fill(l.mem, file, ph, a.page, n), a.bitmap, a.hint,
                       MapRun(l.table, StartPage(ph), arena + a.page, n, Writable(ph))), Ok)
  }

  function LoadFrom(l: Loader, arena: nat, file: File, i: nat): (s: Step)
    requires HeadersReadable(file) && i <= PhNum(file)
    ensures |s.l.bitmap| == |l.bitmap| && |s.l.mem| == |l.mem|
    decreases PhNum(file) - i
  {
    if i == PhNum(file) then Step(l, Ok)
    else
      var s := LoadSegment(l, arena, file, PhdrAt(file, i));
      if s.code != Ok then s else LoadFrom(s.l, arena, file, i + 1)
  }

  // ------------------------------------------------------------------
  // Allocation effects
  // ------------------------------------------------------------------

  ghost predicate LoaderOk(l: Loader) {
    0 < |l.bitmap| && l.bitmap[0] && |l.mem| == |l.bitmap| * PAGE_SIZE
  }

  // Pages are only ever taken; the table's user frames are old ones or freshly taken pages.
  ghost predicate OnlyTakes(l: Loader, l': Loader, arena: nat) {
    && |l'.bitmap| == |l.bitmap|
    && (forall k :: 0 <= k < |l.bitmap| && l.bitmap[k] ==> l'.bitmap[k])
    && forall p :: 0 <= p < NUM_PAGES && l'.table[p].us ==>
         (l.table[p].us && l'.table[p] == l.table[p]) || TakenFrame(l, l', arena, l'.table[p].frame)
  }

  ghost predicate TakenFrame(l: Loader, l': Loader, arena: nat, f: nat)
    requires |l'.bitmap| == |l.bitmap|
  {
    arena <= f < arena + |l.bitmap| && !l.bitmap[f - arena] && l'.bitmap[f - arena]
  }

  lemma SegmentOnlyTakes(l: Loader, arena: nat, file: File, ph: Phdr)
    requires LoaderOk(l)
    ensures LoaderOk(LoadSegment(l, arena, file, ph).l)
    ensures OnlyTakes(l, LoadSegment(l, arena, file, ph).l, arena)
  {
    AllocSoundAndComplete(l.bitmap, l.hint, NumPages(ph));
  }

  lemma TakesCompose(l: Loader, m: Loader, r: Loader, arena: nat)
    requires OnlyTakes(l, m, arena) && OnlyTakes(m, r, arena)
    ensures OnlyTakes(l, r, arena)
  {
  }

  lemma {:induction false} LoadOnlyTakes(l: Loader, arena: nat, file: File, i: nat)
    requires LoaderOk(l) && HeadersReadable(file) && i <= PhNum(file)
    ensures LoaderOk(LoadFrom(l, arena, file, i).l)
    ensures OnlyTakes(l, LoadFrom(l, arena, file, i).l, arena)
    decreases PhNum(file) - i
  {
    if i == PhNum(file) {
    } else {
      var s := LoadSegment(l, arena, file, PhdrAt(file, i));
      SegmentOnlyTakes(l, arena, file, PhdrAt(file, i));
      if s.code == Ok {
        LoadOnlyTakes(s.l, arena, file, i + 1);
        TakesCompose(l, s.l, LoadFrom(s.l, arena, file, i + 1).l, arena);
      }
    }
  }

  // ------------------------------------------------------------------
  // The image
  // ------------------------------------------------------------------

  // The segment's pages do not wrap and lie in the 32 MB the tables cover.
  ghost predicate Fits(ph: Phdr) {
    ph.vaddr + ph.memsz <= NUM_PAGES * FRAME
  }

  // One past the segment's last virtual page
  function StopPage(ph: Phdr): nat {
    (ph.vaddr + ph.memsz + FRAME - 1) / FRAME
  }

  lemma FittingPages(ph: Phdr)
    requires Fits(ph)
    ensures StartPage(ph) + NumPages(ph) == StopPage(ph) <= NUM_PAGES
    ensures ph.filesz <= ph.memsz ==> Skip(ph) + ph.filesz <= NumPages(ph) * FRAME
  {
    var end := ph.vaddr + ph.memsz;
    PagesCover(ph.vaddr, end);
    PagesBetween(StartPage(ph), StopPage(ph));
    assert end % U32 == end && (end + FRAME - 1) % U32 == end + FRAME - 1;
    assert NumPages(ph) == (StopPage(ph) * FRAME - StartPage(ph) * FRAME) % U32 / FRAME;
  }

  // The pages of the bytes from `from` up to `end`
  lemma PagesCover(from: nat, end: nat)
    requires from <= end <= NUM_PAGES * FRAME
    ensures from == from / FRAME * FRAME + from % FRAME
    ensures from / FRAME <= (end + FRAME - 1) / FRAME <= NUM_PAGES
    ensures end <= (end + FRAME - 1) / FRAME * FRAME
  {
  }

  lemma PagesBetween(a: nat, b: nat)
    requires a <= b <= NUM_PAGES
    ensures (b * FRAME - a * FRAME) % U32 / FRAME == b - a
  {
    assert b * FRAME - a * FRAME == (b - a) * FRAME < U32;
  }

  // What the file says byte va of a segment's pages holds
  function Expected(file: File, ph: Phdr, va: nat): byte
    requires ph.offset + ph.filesz <= file.size
  {
    if ph.vaddr <= va < ph.vaddr + ph.filesz then file.mem[ph.offset + (va - ph.vaddr)] else 0
  }

  // Virtual address va, read through the table, is byte v of page f of the arena.
  ghost predicate Reads(t: Table, mem: seq<byte>, arena: nat, va: nat, v: byte)
    requires va < NUM_PAGES * FRAME
  {
    var f := t[va / FRAME].frame;
    arena <= f && (f - arena) * PAGE_SIZE + va % FRAME < |mem| && mem[(f - arena) * PAGE_SIZE + va % FRAME] == v
  }

  // Address va of segment ph is there for the user, writable exactly if the segment is, and
  // reads what the file says.
  ghost predicate ByteInPlace(t: Table, mem: seq<byte>, arena: nat, file: File, ph: Phdr, va: nat)
    requires ph.offset + ph.filesz <= file.size && va < NUM_PAGES * FRAME
  {
    && t[va / FRAME].us && t[va / FRAME].rw == Writable(ph)
    && Reads(t, mem, arena, va, Expected(file, ph, va))
  }

  /** Segment ph is in place: so is every address of its pages. */
  ghost predicate InPlace(t: Table, mem: seq<byte>, arena: nat, file: File, ph: Phdr)
    requires Fits(ph)
  {
    && ph.offset + ph.filesz <= file.size
    && forall va :: StartPage(ph) <= va / FRAME < StopPage(ph) && 0 <= va < NUM_PAGES * FRAME ==>
         ByteInPlace(t, mem, arena, file, ph, va)
  }

  // The frames behind a segment's pages are allocated.
  ghost predicate Backed(t: Table, bitmap: seq<bool>, arena: nat, ph: Phdr)
    requires Fits(ph)
  {
    forall p :: StartPage(ph) <= p < StopPage(ph) && p < NUM_PAGES ==>
      arena <= t[p].frame < arena + |bitmap| && bitmap[t[p].frame - arena]
  }

  ghost predicate Disjoint(x: Phdr, y: Phdr) {
    StopPage(x) <= StartPage(y) || StopPage(y) <= StartPage(x)
  }

  lemma MapRunAt(t: Table, ph: Phdr, frame: nat, p: nat)
    requires Fits(ph) && p < NUM_PAGES
    ensures var t' := MapRun(t, StartPage(ph), frame, NumPages(ph), Writable(ph));
            t'[p] == if StartPage(ph) <= p < StopPage(ph)
                     then Pte(frame + (p - StartPage(ph)), Writable(ph), true) else t[p]
  {
    FittingPages(ph);
  }

  // Byte d of the segment's pages, in the arena after filling
  lemma FillAt(mem: seq<byte>, file: File, ph: Phdr, page: nat, n: nat, d: nat)
    requires ph.offset + ph.filesz <= file.size && d < n * PAGE_SIZE && (page + n) * PAGE_SIZE <= |mem|
    ensures Fill(mem, file, ph, page, n)[page * PAGE_SIZE + d]
            == if Skip(ph) <= d < Skip(ph) + ph.filesz then file.mem[ph.offset + (d - Skip(ph))] else 0
  {
  }

  lemma SegmentByteInPlace(
    t: Table, mem: seq<byte>, arena: nat, file: File, ph: Phdr, page: nat, n: nat, va: nat)
    requires Fits(ph) && n == NumPages(ph) && ph.offset + ph.filesz <= file.size && ph.filesz <= ph.memsz
    requires (page + n) * PAGE_SIZE <= |mem|
    requires StartPage(ph) <= va / FRAME < StopPage(ph) && va < NUM_PAGES * FRAME
    ensures ByteInPlace(MapRun(t, StartPage(ph), arena + page, n, Writable(ph)),
                        Fill(mem, file, ph, page, n), arena, file, ph, va)
  {
    var d := va - StartPage(ph) * FRAME;
    FittingPages(ph);
    MapRunAt(t, ph, arena + page, va / FRAME);
    assert va == va / FRAME * FRAME + va % FRAME && ph.vaddr == StartPage(ph) * FRAME + Skip(ph);
    assert (page + (va / FRAME - StartPage(ph))) * PAGE_SIZE + va % FRAME == page * PAGE_SIZE + d;
    FillAt(mem, file, ph, page, n, d);
  }

  lemma MappedInPlace(t: Table, mem: seq<byte>, arena: nat, file: File, ph: Phdr, page: nat, n: nat)
    requires Fits(ph) && n == NumPages(ph) && ph.offset + ph.filesz <= file.size && ph.filesz <= ph.memsz
    requires (page + n) * PAGE_SIZE <= |mem|
    ensures InPlace(MapRun(t, StartPage(ph), arena + page, n, Writable(ph)),
                    Fill(mem, file, ph, page, n), arena, file, ph)
  {
    forall va | StartPage(ph) <= va / FRAME < StopPage(ph) && 0 <= va < NUM_PAGES * FRAME
      ensures ByteInPlace(MapRun(t, StartPage(ph), arena + page, n, Writable(ph)),
                          Fill(mem, file, ph, page, n), arena, file, ph, va)
    {
      SegmentByteInPlace(t, mem, arena, file, ph, page, n, va);
    }
  }

  lemma MappedBacked(t: Table, bitmap: seq<bool>, arena: nat, ph: Phdr, page: nat, n: nat)
    requires Fits(ph) && n == NumPages(ph) && page + n <= |bitmap|
    ensures Backed(MapRun(t, StartPage(ph), arena + page, n, Writable(ph)), Mark(bitmap, page, n, true), arena, ph)
  {
    FittingPages(ph);
    var t' := MapRun(t, StartPage(ph), arena + page, n, Writable(ph));
    forall p | StartPage(ph) <= p < StopPage(ph) && p < NUM_PAGES
      ensures t'[p].frame == arena + page + (p - StartPage(ph))
    {
      MapRunAt(t, ph, arena + page, p);
    }
  }

  /** A segment that loads is in place afterwards. */
  lemma SegmentInPlace(l: Loader, arena: nat, file: File, ph: Phdr)
    requires LoaderOk(l) && ph.kind == PT_LOAD && Fits(ph) && LoadSegment(l, arena, file, ph).code == Ok
    ensures var l' := LoadSegment(l, arena, file, ph).l;
            InPlace(l'.table, l'.mem, arena, file, ph) && Backed(l'.table, l'.bitmap, arena, ph)
  {
    var n := NumPages(ph);
    var page := AllocPages(l.bitmap, l.hint, n).page;
    AllocSoundAndComplete(l.bitmap, l.hint, n);
    MappedInPlace(l.table, l.mem, arena, file, ph, page, n);
    MappedBacked(l.table, l.bitmap, arena, ph, page, n);
  }

  // Filling the n free pages from `page` on leaves every other page alone.
  lemma FillElsewhere(mem: seq<byte>, file: File, ph: Phdr, page: nat, n: nat, g: nat, d: nat)
    requires ph.offset + ph.filesz <= file.size && Skip(ph) + ph.filesz <= n * PAGE_SIZE
    requires !(page <= g < page + n) && d < PAGE_SIZE && g * PAGE_SIZE + d < |mem|
    ensures Fill(mem, file, ph, page, n)[g * PAGE_SIZE + d] == mem[g * PAGE_SIZE + d]
  {
  }

  lemma OtherByteStays(
    l: Loader, arena: nat, file: File, ph: Phdr, page: nat, n: nat, other: Phdr, va: nat)
    requires Fits(ph) && n == NumPages(ph) && ph.offset + ph.filesz <= file.size && ph.filesz <= ph.memsz
    requires Fits(other) && Disjoint(ph, other) && FreeRun(l.bitmap, page, n)
    requires InPlace(l.table, l.mem, arena, file, other) && Backed(l.table, l.bitmap, arena, other)
    requires StartPage(other) <= va / FRAME < StopPage(other) && va < NUM_PAGES * FRAME
    ensures ByteInPlace(MapRun(l.table, StartPage(ph), arena + page, n, Writable(ph)),
                        Fill(l.mem, file, ph, page, n), arena, file, other, va)
  {
    FittingPages(ph);
    MapRunAt(l.table, ph, arena + page, va / FRAME);
    assert ByteInPlace(l.table, l.mem, arena, file, other, va);
    var g := l.table[va / FRAME].frame - arena;
    assert l.bitmap[g];
    FillElsewhere(l.mem, file, ph, page, n, g, va % FRAME);
  }

  lemma OthersStayInPlace(l: Loader, arena: nat, file: File, ph: Phdr, page: nat, n: nat, other: Phdr)
    requires Fits(ph) && n == NumPages(ph) && ph.offset + ph.filesz <= file.size && ph.filesz <= ph.memsz
    requires Fits(other) && Disjoint(ph, other) && FreeRun(l.bitmap, page, n)
    requires InPlace(l.table, l.mem, arena, file, other) && Backed(l.table, l.bitmap, arena, other)
    ensures InPlace(MapRun(l.table, StartPage(ph), arena + page, n, Writable(ph)),
                    Fill(l.mem, file, ph, page, n), arena, file, other)
  {
    forall va | StartPage(other) <= va / FRAME < StopPage(other) && 0 <= va < NUM_PAGES * FRAME
      ensures ByteInPlace(MapRun(l.table, StartPage(ph), arena + page, n, Writable(ph)),
                          Fill(l.mem, file, ph, page, n), arena, file, other, va)
    {
      OtherByteStays(l, arena, file, ph, page, n, other, va);
    }
  }

  lemma OthersStayBacked(l: Loader, arena: nat, ph: Phdr, page: nat, n: nat, other: Phdr)
    requires Fits(ph) && n == NumPages(ph) && page + n <= |l.bitmap|
    requires Fits(other) && Disjoint(ph, other) && Backed(l.table, l.bitmap, arena, other)
    ensures Backed(MapRun(l.table, StartPage(ph), arena + page, n, Writable(ph)),
                   Mark(l.bitmap, page, n, true), arena, other)
  {
    var t' := MapRun(l.table, StartPage(ph), arena + page, n, Writable(ph));
    forall p | StartPage(other) <= p < StopPage(other) && p < NUM_PAGES
      ensures t'[p] == l.table[p]
    {
      MapRunAt(l.table, ph, arena + page, p);
    }
  }

  /** A segment in place stays in place while segments on other pages load. */
  lemma SegmentStays(l: Loader, arena: nat, file: File, ph: Phdr, other: Phdr)
    requires LoaderOk(l) && LoadSegment(l, arena, file, ph).code == Ok && Fits(other)
    requires ph.kind == PT_LOAD ==> Fits(ph) && Disjoint(ph, other)
    requires InPlace(l.table, l.mem, arena, file, other) && Backed(l.table, l.bitmap, arena, other)
    ensures var l' := LoadSegment(l, arena, file, ph).l;
            InPlace(l'.table, l'.mem, arena, file, other) && Backed(l'.table, l'.bitmap, arena, other)
  {
    if ph.kind == PT_LOAD {
      var n := NumPages(ph);
      var page := AllocPages(l.bitmap, l.hint, n).page;
      AllocSoundAndComplete(l.bitmap, l.hint, n);
      OthersStayInPlace(l, arena, file, ph, page, n, other);
      OthersStayBacked(l, arena, ph, page, n, other);
    }
  }

  // The loadable segments of the file do not wrap, lie below 32 MB and share no page.
  ghost predicate Separate(file: File)
    requires HeadersReadable(file)
  {
    && (forall j :: 0 <= j < PhNum(file) && PhdrAt(file, j).kind == PT_LOAD ==> Fits(PhdrAt(file, j)))
    && (forall j, k :: 0 <= j < k < PhNum(file) && PhdrAt(file, j).kind == PT_LOAD && PhdrAt(file, k).kind == PT_LOAD
          ==> Disjoint(PhdrAt(file, k), PhdrAt(file, j)))
  }

  ghost predicate AllInPlace(l: Loader, arena: nat, file: File, upTo: nat)
    requires HeadersReadable(file) && Separate(file) && upTo <= PhNum(file)
  {
    forall j :: 0 <= j < upTo && PhdrAt(file, j).kind == PT_LOAD ==>
      InPlace(l.table, l.mem, arena, file, PhdrAt(file, j)) && Backed(l.table, l.bitmap, arena, PhdrAt(file, j))
  }

  lemma StepInPlace(l: Loader, arena: nat, file: File, i: nat, l': Loader)
    requires LoaderOk(l) && HeadersReadable(file) && Separate(file) && i < PhNum(file)
    requires AllInPlace(l, arena, file, i) && LoadSegment(l, arena, file, PhdrAt(file, i)) == Step(l', Ok)
    ensures LoaderOk(l') && AllInPlace(l', arena, file, i + 1)
  {
    var ph := PhdrAt(file, i);
    SegmentOnlyTakes(l, arena, file, ph);
    forall j | 0 <= j < i + 1 && PhdrAt(file, j).kind == PT_LOAD
      ensures InPlace(l'.table, l'.mem, arena, file, PhdrAt(file, j))
      ensures Backed(l'.table, l'.bitmap, arena, PhdrAt(file, j))
    {
      if j < i {
        SegmentStays(l, arena, file, ph, PhdrAt(file, j));
      } else {
        SegmentInPlace(l, arena, file, ph);
      }
    }
  }

  /** When loading succeeds, every loadable segment is in place at once. */
  lemma {:induction false} LoadedImage(l: Loader, arena: nat, file: File, i: nat, done: Step)
    requires LoaderOk(l) && HeadersReadable(file) && Separate(file) && i <= PhNum(file)
    requires AllInPlace(l, arena, file, i) && done == LoadFrom(l, arena, file, i) && done.code == Ok
    ensures AllInPlace(done.l, arena, file, PhNum(file))
    decreases PhNum(file) - i
  {
    if i < PhNum(file) {
      var l' := LoadSegment(l, arena, file, PhdrAt(file, i)).l;
      StepInPlace(l, arena, file, i, l');
      LoadedImage(l', arena, file, i + 1, done);
    } else {
      assert done.l == l;
    }
  }
}
