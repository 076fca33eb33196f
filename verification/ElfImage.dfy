/** What a process loaded from a written ELF file sees, in terms of what was written: nothing here
    speaks of how the loader reads headers or computes permissions. */
module ElfImage {
  import opened Bytes
  import opened Results
  import opened ProcStates
  import opened Pages
  import opened Paging
  import opened Elf
  import opened Lifetime
  import opened Isolation
  import opened ElfProcess
  import W = ElfFile

  // ------------------------------------------------------------------
  // Reading back what was written
  // ------------------------------------------------------------------

  lemma WordHeld(b: seq<byte>, at: nat, v: word32)
    requires Holds(b, at, Le32(v))
    ensures Word(b, at) == v
  {
    Le32RoundTrip(v);
    var f := Le32(v);
    assert f == b[at..at + 4];
    assert f[0] == b[at] && f[1] == b[at + 1] && f[2] == b[at + 2] && f[3] == b[at + 3];
  }

  lemma HalfHeld(b: seq<byte>, at: nat, v: word16)
    requires Holds(b, at, Le16(v))
    ensures Half(b, at) == v
  {
    var f := Le16(v);
    assert f == b[at..at + 2];
    assert f[0] == b[at] && f[1] == b[at + 1];
  }

  lemma HeldInMemory(file: File, at: nat, s: seq<byte>)
    requires Holds(file.mem[..file.size], at, s)
    ensures Holds(file.mem, at, s)
  {
    assert file.mem[..file.size][at..at + |s|] == file.mem[at..at + |s|];
  }

  lemma EntryFields(s: W.Seg, offset: word32)
    requires |s.data| < U32
    ensures var e := W.Entry(s, offset);
            && Holds(e, 0, Le32(s.kind)) && Holds(e, 4, Le32(offset)) && Holds(e, 8, Le32(s.vaddr))
            && Holds(e, 16, Le32(|s.data|)) && Holds(e, 20, Le32(s.memsz)) && Holds(e, 24, Le32(W.Flags(s)))
  {
    var e := W.Entry(s, offset);
    assert e[0..4] == Le32(s.kind) && e[4..8] == Le32(offset) && e[8..12] == Le32(s.vaddr);
    assert e[16..20] == Le32(|s.data|) && e[20..24] == Le32(s.memsz) && e[24..28] == Le32(W.Flags(s));
  }

  lemma FieldRead(b: seq<byte>, at: nat, e: seq<byte>, off: nat, v: word32)
    requires Holds(b, at, e) && Holds(e, off, Le32(v))
    ensures at + off + 4 <= |b| && Word(b, at + off) == v
  {
    W.HoldsWithin(b, at, e, off, Le32(v));
    WordHeld(b, at + off, v);
  }

  // The header the loader reads is the one written.
  lemma EntryRead(b: seq<byte>, at: nat, s: W.Seg, offset: word32)
    requires |s.data| < U32 && Holds(b, at, W.Entry(s, offset))
    ensures at + 32 <= |b|
    ensures Word(b, at) == s.kind && Word(b, at + 4) == offset && Word(b, at + 8) == s.vaddr
    ensures Word(b, at + 16) == |s.data| && Word(b, at + 20) == s.memsz && Word(b, at + 24) == W.Flags(s)
  {
    var e := W.Entry(s, offset);
    EntryFields(s, offset);
    FieldRead(b, at, e, 0, s.kind);
    FieldRead(b, at, e, 4, offset);
    FieldRead(b, at, e, 8, s.vaddr);
    FieldRead(b, at, e, 16, |s.data|);
    FieldRead(b, at, e, 20, s.memsz);
    FieldRead(b, at, e, 24, W.Flags(s));
  }

  // The file in memory is one with these segments at these offsets.
  ghost predicate Carries(file: File, table: word32, segs: seq<W.Seg>, offs: seq<word32>) {
    0 < |segs| && |file.mem| < U32 && W.Written(file.mem[..file.size], table, segs, offs)
  }

  lemma TableRead(file: File, table: word32, segs: seq<W.Seg>, offs: seq<word32>)
    requires Carries(file, table, segs, offs)
    ensures HeadersReadable(file) && PhOff(file) == table && PhNum(file) == |segs|
  {
    HeldInMemory(file, 28, Le32(table));
    HeldInMemory(file, 44, Le16(|segs|));
    WordHeld(file.mem, 28, table);
    HalfHeld(file.mem, 44, |segs|);
    var last := |segs| - 1;
    assert W.SegWritten(file.mem[..file.size], table, segs, offs, last);
  }

  lemma SegmentRead(file: File, table: word32, segs: seq<W.Seg>, offs: seq<word32>, k: nat)
    requires Carries(file, table, segs, offs) && HeadersReadable(file) && PhOff(file) == table
    requires k < |segs| == PhNum(file)
    ensures |segs[k].data| < U32 && offs[k] + |segs[k].data| <= file.size
    ensures PhdrAt(file, k)
            == Phdr(segs[k].kind, offs[k], segs[k].vaddr, |segs[k].data|, segs[k].memsz, W.Flags(segs[k]))
    ensures file.mem[offs[k]..offs[k] + |segs[k].data|] == segs[k].data
  {
    assert W.SegWritten(file.mem[..file.size], table, segs, offs, k);
    HeldInMemory(file, table + k * 32, W.Entry(segs[k], offs[k]));
    HeldInMemory(file, offs[k], segs[k].data);
    EntryRead(file.mem, table + k * 32, segs[k], offs[k]);
  }

  // ------------------------------------------------------------------
  // The image
  // ------------------------------------------------------------------

  // First page of a segment, and one past its last
  function First(s: W.Seg): nat {
    s.vaddr / 4096
  }

  function Past(s: W.Seg): nat {
    (s.vaddr + s.memsz + 4095) / 4096
  }

  // The segments to be loaded lie below 32 MB on pages of their own.
  ghost predicate OwnPages(segs: seq<W.Seg>) {
    && (forall k :: 0 <= k < |segs| && segs[k].kind == 1 ==> segs[k].vaddr + segs[k].memsz <= 0x200_0000)
    && (forall j, k :: 0 <= j < k < |segs| && segs[j].kind == 1 && segs[k].kind == 1 ==>
          Past(segs[j]) <= First(segs[k]) || Past(segs[k]) <= First(segs[j]))
  }

  lemma OwnPagesSeparate(file: File, table: word32, segs: seq<W.Seg>, offs: seq<word32>)
    requires Carries(file, table, segs, offs) && OwnPages(segs) && HeadersReadable(file)
    ensures Separate(file)
  {
    TableRead(file, table, segs, offs);
    forall k | 0 <= k < |segs|
      ensures |segs[k].data| < U32
      ensures PhdrAt(file, k)
              == Phdr(segs[k].kind, offs[k], segs[k].vaddr, |segs[k].data|, segs[k].memsz, W.Flags(segs[k]))
    {
      SegmentRead(file, table, segs, offs, k);
    }
  }

  // What a segment puts at address va of its pages: its contents, and zeros around them
  function ByteAt(s: W.Seg, va: nat): byte {
    if s.vaddr <= va < s.vaddr + |s.data| then s.data[va - s.vaddr] else 0
  }

  // Address va, seen through the table by ring 3
  ghost predicate Sees(t: Table, mem: seq<byte>, arena: nat, va: nat, v: byte, writable: bool)
    requires va < NUM_PAGES * FRAME
  {
    var pte := t[va / 4096];
    var at := (pte.frame - arena) * 4096 + va % 4096;
    pte.us && pte.rw == writable && 0 <= at < |mem| && mem[at] == v
  }

  lemma FlagsTell(s: W.Seg)
    ensures W.Flags(s) / 2 % 2 == W.Bit(s.w)
  {
  }

  lemma InPlaceIsSeen(t: Table, mem: seq<byte>, arena: nat, file: File, g: W.Seg, offset: word32, va: nat)
    requires |g.data| < U32 && offset + |g.data| <= file.size && va < NUM_PAGES * FRAME
    requires file.mem[offset..offset + |g.data|] == g.data
    requires ByteInPlace(t, mem, arena, file, Phdr(g.kind, offset, g.vaddr, |g.data|, g.memsz, W.Flags(g)), va)
    ensures Sees(t, mem, arena, va, ByteAt(g, va), g.w)
  {
    FlagsTell(g);
    if g.vaddr <= va < g.vaddr + |g.data| {
      assert file.mem[offset..offset + |g.data|][va - g.vaddr] == g.data[va - g.vaddr];
    }
  }

  lemma LoadedIsSeen(
    s: Sys, file: File, g: W.Seg, offset: word32, ustack: word32, c: Created, mem': seq<byte>, j: nat, va: nat)
    requires Inv(s) && HeadersReadable(file) && Separate(file) && c == LoadElf(s, file, ustack) && c.code == Ok
    requires 0 <= c.slot < |c.s.procs|
    requires SameOutside(c.s.mem, mem', c.s.procs[c.slot].region, c.s.procs[c.slot].regionPages)
    requires |g.data| < U32 && offset + |g.data| <= file.size && file.mem[offset..offset + |g.data|] == g.data
    requires j < PhNum(file) && g.kind == 1 && First(g) <= va / 4096 < Past(g)
    requires PhdrAt(file, j) == Phdr(g.kind, offset, g.vaddr, |g.data|, g.memsz, W.Flags(g))
    ensures va < NUM_PAGES * FRAME
    ensures Sees(TableOf(c.s, c.slot), mem', s.arena, va, ByteAt(g, va), g.w)
  {
    ElfImageIsCorrect(s, file, ustack, mem', j, va);
    InPlaceIsSeen(TableOf(c.s, c.slot), mem', s.arena, file, g, offset, va);
  }

  /** The image of a written file: after a successful proc_load_elf every address of a loaded
      segment's pages shows the process the segment's byte, or zero outside its contents, and may
      be written exactly if the segment was written as writable - whatever is written to the
      process's own stacks meanwhile. */
  lemma WrittenImage(
    s: Sys, file: File, table: word32, segs: seq<W.Seg>, offs: seq<word32>, ustack: word32, c: Created,
    mem': seq<byte>, j: nat, va: nat)
    requires Inv(s) && Carries(file, table, segs, offs) && OwnPages(segs)
    requires (TableRead(file, table, segs, offs); c == LoadElf(s, file, ustack)) && c.code == Ok
    requires 0 <= c.slot < |c.s.procs|
    requires SameOutside(c.s.mem, mem', c.s.procs[c.slot].region, c.s.procs[c.slot].regionPages)
    requires j < |segs| && segs[j].kind == 1 && First(segs[j]) <= va / 4096 < Past(segs[j])
    ensures va < NUM_PAGES * FRAME
    ensures Sees(TableOf(c.s, c.slot), mem', s.arena, va, ByteAt(segs[j], va), segs[j].w)
  {
    TableRead(file, table, segs, offs);
    OwnPagesSeparate(file, table, segs, offs);
    SegmentRead(file, table, segs, offs, j);
    LoadedIsSeen(s, file, segs[j], offs[j], ustack, c, mem', j, va);
  }

  // ------------------------------------------------------------------
  // When loading succeeds
  // ------------------------------------------------------------------

  lemma WordHolds(b: seq<byte>, at: nat)
    requires at + 4 <= |b|
    ensures Holds(b, at, Le32(Word(b, at)))
  {
    Le32OfBytes(b[at], b[at + 1], b[at + 2], b[at + 3]);
    assert b[at..at + 4] == [b[at], b[at + 1], b[at + 2], b[at + 3]];
  }

  lemma Le32OfBytes(b0: byte, b1: byte, b2: byte, b3: byte)
    ensures Le32(b0 + 256 * b1 + 65536 * b2 + 16777216 * b3) == [b0, b1, b2, b3]
  {
    var v := b0 + 256 * b1 + 65536 * b2 + 16777216 * b3;
    assert v / 256 == b1 + 256 * b2 + 65536 * b3 && v / 65536 == b2 + 256 * b3;
  }

  lemma HalfHolds(b: seq<byte>, at: nat)
    requires at + 2 <= |b|
    ensures Holds(b, at, Le16(Half(b, at)))
  {
    assert b[at..at + 2] == [b[at], b[at + 1]];
  }

  lemma MagicHeld(b: seq<byte>)
    requires |b| >= 5
    ensures Holds(b, 0, [0x7f, 69, 76, 70, 1])
            <==> b[0] == 0x7f && b[1] == 69 && b[2] == 76 && b[3] == 70 && b[4] == 1
  {
    var f: seq<byte> := [0x7f, 69, 76, 70, 1];
    assert b[0..5] == f <==> forall k :: 0 <= k < 5 ==> b[k] == f[k];
    assert (forall k :: 0 <= k < 5 ==> b[k] == f[k])
           <==> b[0] == f[0] && b[1] == f[1] && b[2] == f[2] && b[3] == f[3] && b[4] == f[4];
  }

  // The file's bytes, without what lies behind it in memory
  function FileBytes(file: File): seq<byte> {
    file.mem[..file.size]
  }

  lemma ExecutableIsOk(file: File, table: word32, n: word16, size: word16)
    requires W.Executable(FileBytes(file), table, n, size)
    ensures HeaderOk(file)
  {
    var b := FileBytes(file);
    MagicHeld(b);
    HalfHeld(b, 16, 2);
    HalfHeld(b, 18, 3);
    HalfHeld(b, 42, size);
    HalfHeld(b, 44, n);
    WordHeld(b, 28, table);
    assert forall k :: 0 <= k < W.HEADER_SIZE ==> file.mem[k] == b[k];
  }

  // The header's fields are read from the file's own bytes.
  lemma SameHeader(file: File)
    requires file.size >= W.HEADER_SIZE
    ensures var b, m := FileBytes(file), file.mem;
            && b[0] == m[0] && b[1] == m[1] && b[2] == m[2] && b[3] == m[3] && b[4] == m[4]
            && Half(b, 16) == Half(m, 16) && Half(b, 18) == Half(m, 18) && Half(b, 42) == Half(m, 42)
            && Half(b, 44) == PhNum(file) && Word(b, 28) == PhOff(file)
  {
  }

  lemma OkIsExecutable(file: File)
    requires HeaderOk(file)
    ensures W.Executable(FileBytes(file), PhOff(file), PhNum(file), Half(file.mem, 42))
  {
    var b := FileBytes(file);
    SameHeader(file);
    MagicHeld(b);
    HalfHolds(b, 16);
    HalfHolds(b, 18);
    HalfHolds(b, 42);
    HalfHolds(b, 44);
    WordHolds(b, 28);
  }

  /** What is no 32-bit i386 executable with a program header table in the file is refused, and
      nothing is changed. */
  lemma OthersRefused(s: Sys, file: File, ustack: word32)
    requires |s.owner| == |s.bitmap| && (HeaderOk(file) ==> HeadersReadable(file))
    requires forall table, n, size :: !W.Executable(FileBytes(file), table, n, size)
    ensures LoadElf(s, file, ustack).code == EInval && LoadElf(s, file, ustack).s == s
  {
    if HeaderOk(file) {
      OkIsExecutable(file);
    }
  }

  // Pages a segment needs, and those of the region with both stacks
  function Demand(g: W.Seg): nat {
    Past(g) - First(g)
  }

  function RegionDemand(ustack: word32): nat {
    (4096 + ustack + 8192 + 24 + 4095) / 4096
  }

  // The page requests of loading from segment i on, in their order
  function Demands(segs: seq<W.Seg>, i: nat, last: nat): seq<nat>
    requires i <= |segs|
    decreases |segs| - i
  {
    if i == |segs| then [last]
    else (if segs[i].kind == 1 then [Demand(segs[i])] else []) + Demands(segs, i + 1, last)
  }

  // The page allocator meets all of these requests, one after the other.
  predicate Granted(b: seq<bool>, hint: nat, counts: seq<nat>)
    decreases |counts|
  {
    counts == []
    || (var a := AllocPages(b, hint, counts[0]); a.page != 0 && Granted(a.bitmap, a.hint, counts[1..]))
  }

  lemma GrantedCons(b: seq<bool>, hint: nat, n: nat, counts: seq<nat>)
    ensures Granted(b, hint, [n] + counts)
            <==> (var a := AllocPages(b, hint, n); a.page != 0 && Granted(a.bitmap, a.hint, counts))
  {
    assert ([n] + counts)[1..] == counts;
  }

  // Segments to be loaded have no more contents than memory and lie below 32 MB.
  ghost predicate Loadable(segs: seq<W.Seg>) {
    forall k :: 0 <= k < |segs| && segs[k].kind == 1 ==>
      |segs[k].data| <= segs[k].memsz && segs[k].vaddr + segs[k].memsz <= 0x200_0000
  }

  // One turn of the loop asks for the segment's pages and fails only for want of them.
  lemma OneGranted(l: Loader, arena: nat, file: File, ph: Phdr, n: nat)
    requires ph.kind == PT_LOAD && Fits(ph) && ph.offset + ph.filesz <= file.size && ph.filesz <= ph.memsz
    requires n == StopPage(ph) - StartPage(ph)
    ensures var st, a := LoadSegment(l, arena, file, ph), AllocPages(l.bitmap, l.hint, n);
            && st.code == (if a.page != 0 then Ok else ENoMem)
            && st.l.bitmap == a.bitmap && st.l.hint == a.hint
  {
    FittingPages(ph);
  }

  // Loading got to the region, which is granted too.
  ghost predicate AllGranted(st: Step, last: nat) {
    st.code == Ok && AllocPages(st.l.bitmap, st.l.hint, last).page != 0
  }

  lemma {:induction false} LoadGranted(
    l: Loader, arena: nat, file: File, table: word32, segs: seq<W.Seg>, offs: seq<word32>, i: nat, last: nat, st: Step)
    requires Carries(file, table, segs, offs) && Loadable(segs) && i <= |segs|
    requires HeadersReadable(file) && PhOff(file) == table && PhNum(file) == |segs| && st == LoadFrom(l, arena, file, i)
    ensures st.code in {Ok, ENoMem}
    ensures AllGranted(st, last) <==> Granted(l.bitmap, l.hint, Demands(segs, i, last))
    decreases |segs| - i
  {
    if i == |segs| {
      GrantedCons(l.bitmap, l.hint, last, []);
      assert [last] + [] == [last];
    } else {
      SegmentRead(file, table, segs, offs, i);
      var ph := PhdrAt(file, i);
      var st1 := LoadSegment(l, arena, file, ph);
      if segs[i].kind == 1 {
        OneGranted(l, arena, file, ph, Demand(segs[i]));
        GrantedCons(l.bitmap, l.hint, Demand(segs[i]), Demands(segs, i + 1, last));
      } else {
        assert [] + Demands(segs, i + 1, last) == Demands(segs, i + 1, last);
      }
      if st1.code == Ok {
        LoadGranted(st1.l, arena, file, table, segs, offs, i + 1, last, st);
      }
    }
  }

  lemma RegionDemanded(ustack: word32)
    requires 4096 + ustack + 8192 + 24 + 4095 < U32
    ensures Ring3Pages(ustack) == RegionDemand(ustack)
  {
  }

  // The outcome once slot and space are found
  lemma IntoOutcome(s: Sys, slot: nat, handle: nat, file: File, ustack: word32)
    requires slot < |s.procs| && handle < |s.spaces| && HeadersReadable(file) && |s.owner| == |s.bitmap|
    ensures var st := Segments(s, handle, file);
            LoadInto(s, slot, handle, file, ustack).code
            == if st.code != Ok then st.code else if AllGranted(st, Ring3Pages(ustack)) then Ok else ENoMem
  {
  }

  /** On a written executable with loadable segments, and stacks of a size that does not wrap,
      proc_load_elf fails exactly if every process slot is taken or the page allocator cannot meet
      the requests of the segments and the region, in this order. */
  lemma WrittenOutcome(
    s: Sys, file: File, table: word32, segs: seq<W.Seg>, offs: seq<word32>, size: word16, ustack: word32, c: Created)
    requires Inv(s) && Carries(file, table, segs, offs) && Loadable(segs)
    requires W.Executable(FileBytes(file), table, |segs|, size) && 4096 + ustack + 8192 + 24 + 4095 < U32
    requires (TableRead(file, table, segs, offs); c == LoadElf(s, file, ustack))
    ensures c.code == if forall k :: 0 <= k < |s.procs| ==> s.procs[k].state != Unused then EBusy
                      else if Granted(s.bitmap, s.hint, Demands(segs, 0, RegionDemand(ustack))) then Ok
                      else ENoMem
  {
    TableRead(file, table, segs, offs);
    ExecutableIsOk(file, table, |segs|, size);
    var slot := FreeSlot(s.procs, 0);
    if slot >= 0 {
      SpaceForEverySlot(s.procs, s.spaces, s.code);
      var ns := OpenSpace(s.spaces, s.code);
      var s1 := s.(spaces := ns.spaces);
      var st := Segments(s1, ns.handle, file);
      RegionDemanded(ustack);
      IntoOutcome(s1, slot, ns.handle, file, ustack);
      LoadGranted(Loader(s.mem, s.bitmap, s.hint, ns.spaces[ns.handle].table), s.arena, file, table, segs, offs, 0,
                  RegionDemand(ustack), st);
    }
  }

  /** What a successful load makes: the lowest unused slot becomes a READY ring-3 process with the
      next pid and a space nobody held; no other slot and no other space changes. */
  lemma LoadedFields(s: Sys, file: File, ustack: word32, c: Created)
    requires |s.owner| == |s.bitmap| && (HeaderOk(file) ==> HeadersReadable(file))
    requires c == LoadElf(s, file, ustack) && c.code == Ok
    ensures 0 <= c.slot < |s.procs| == |c.s.procs| && |c.s.spaces| == |s.spaces|
    ensures s.procs[c.slot].state == Unused && forall k :: 0 <= k < c.slot ==> s.procs[k].state != Unused
    ensures var p := c.s.procs[c.slot];
            && p.state == Ready && p.ring3 && p.pid == s.nextPid && c.s.nextPid == (s.nextPid + 1) % 0x1_0000_0000
            && 0 <= p.space < |s.spaces| && !s.spaces[p.space].inUse && c.s.spaces[p.space].inUse
            && forall h :: 0 <= h < |s.spaces| && h != p.space ==> c.s.spaces[h] == s.spaces[h]
    ensures forall k :: 0 <= k < |s.procs| && k != c.slot ==> c.s.procs[k] == s.procs[k]
    ensures c.s.current == s.current
  {
  }

  // ------------------------------------------------------------------
  // When loading fails
  // ------------------------------------------------------------------

  // Program header k asks to load contents the file does not have, or more than fit its memory.
  predicate Malformed(file: File, k: nat)
    requires HeadersReadable(file) && k < PhNum(file)
  {
    var at := PhOff(file) + k * 32;
    && Word(file.mem, at) == 1
    && (Word(file.mem, at + 4) + Word(file.mem, at + 16) > file.size
        || Word(file.mem, at + 16) > Word(file.mem, at + 20))
  }

  lemma {:induction false} LoopCodes(l: Loader, arena: nat, file: File, i: nat, st: Step)
    requires HeadersReadable(file) && i <= PhNum(file) && st == LoadFrom(l, arena, file, i)
    ensures st.code in {Ok, EInval, ENoMem}
    ensures st.code == Ok ==> forall k :: i <= k < PhNum(file) ==> !Malformed(file, k)
    ensures st.code == EInval ==> exists k :: i <= k < PhNum(file) && Malformed(file, k)
    decreases PhNum(file) - i
  {
    if i == PhNum(file) {
    } else {
      var s1 := LoadSegment(l, arena, file, PhdrAt(file, i));
      assert s1.code == EInval <==> Malformed(file, i);
      if s1.code == Ok {
        LoopCodes(s1.l, arena, file, i + 1, st);
      }
    }
  }

  /** A malformed segment is never loaded: success means that there is none, and an executable is
      EINVAL only if there is one. */
  lemma MalformedRefused(s: Sys, file: File, ustack: word32, c: Created)
    requires |s.owner| == |s.bitmap| && HeaderOk(file) && HeadersReadable(file) && c == LoadElf(s, file, ustack)
    ensures c.code == Ok ==> forall k :: 0 <= k < PhNum(file) ==> !Malformed(file, k)
    ensures c.code == EInval ==> exists k :: 0 <= k < PhNum(file) && Malformed(file, k)
  {
    var ns := OpenSpace(s.spaces, s.code);
    if FreeSlot(s.procs, 0) >= 0 && ns.handle >= 0 {
      LoopCodes(Loader(s.mem, s.bitmap, s.hint, ns.spaces[ns.handle].table), s.arena, file, 0,
                Segments(s.(spaces := ns.spaces), ns.handle, file));
    }
  }

  /** A load that fails leaves no process behind: every slot is in the state it was in, those in use
      wholly so, and the same spaces are in use, with what they had. */
  lemma FailedLoad(s: Sys, file: File, ustack: word32, c: Created)
    requires |s.owner| == |s.bitmap| && (HeaderOk(file) ==> HeadersReadable(file))
    requires c == LoadElf(s, file, ustack) && c.code != Ok
    ensures |c.s.procs| == |s.procs| && |c.s.spaces| == |s.spaces|
    ensures c.s.nextPid == s.nextPid && c.s.current == s.current
    ensures forall k :: 0 <= k < |s.procs| ==>
              c.s.procs[k].state == s.procs[k].state && (s.procs[k].state != Unused ==> c.s.procs[k] == s.procs[k])
    ensures forall h :: 0 <= h < |s.spaces| ==>
              c.s.spaces[h].inUse == s.spaces[h].inUse && (s.spaces[h].inUse ==> c.s.spaces[h] == s.spaces[h])
  {
  }

  // ------------------------------------------------------------------
  // What loading writes
  // ------------------------------------------------------------------

  // Only pages that were free are written, and those written are taken.
  ghost predicate WritesFree(mem: seq<byte>, bitmap: seq<bool>, mem': seq<byte>, bitmap': seq<bool>) {
    && |mem'| == |mem| && |bitmap'| == |bitmap| && |mem| == |bitmap| * 4096
    && (forall k :: 0 <= k < |bitmap| && bitmap[k] ==> bitmap'[k])
    && forall o :: 0 <= o < |mem| && mem'[o] != mem[o] ==> !bitmap[o / 4096] && bitmap'[o / 4096]
  }

  lemma WritesCompose(m0: seq<byte>, b0: seq<bool>, m1: seq<byte>, b1: seq<bool>, m2: seq<byte>, b2: seq<bool>)
    requires WritesFree(m0, b0, m1, b1) && WritesFree(m1, b1, m2, b2)
    ensures WritesFree(m0, b0, m2, b2)
  {
  }

  lemma SegmentWrites(l: Loader, arena: nat, file: File, ph: Phdr, l': Loader)
    requires LoaderOk(l) && l' == LoadSegment(l, arena, file, ph).l && (ph.kind == PT_LOAD ==> Fits(ph))
    ensures WritesFree(l.mem, l.bitmap, l'.mem, l'.bitmap)
  {
    var n := NumPages(ph);
    AllocSoundAndComplete(l.bitmap, l.hint, n);
    if LoadSegment(l, arena, file, ph).code == Ok && ph.kind == PT_LOAD {
      FittingPages(ph);
      FillWrites(l.mem, l.bitmap, file, ph, AllocPages(l.bitmap, l.hint, n).page, n);
    }
  }

  lemma FillWrites(mem: seq<byte>, bitmap: seq<bool>, file: File, ph: Phdr, page: nat, n: nat)
    requires |mem| == |bitmap| * 4096 && ph.offset + ph.filesz <= file.size && FreeRun(bitmap, page, n)
    requires Skip(ph) + ph.filesz <= n * 4096
    ensures WritesFree(mem, bitmap, Fill(mem, file, ph, page, n), Mark(bitmap, page, n, true))
  {
    var mem' := Fill(mem, file, ph, page, n);
    forall o | 0 <= o < |mem| && mem'[o] != mem[o]
      ensures !bitmap[o / 4096] && Mark(bitmap, page, n, true)[o / 4096]
    {
      assert page * 4096 <= o < (page + n) * 4096;
    }
  }

  lemma {:induction false} LoopWrites(l: Loader, arena: nat, file: File, i: nat, l': Loader)
    requires LoaderOk(l) && HeadersReadable(file) && i <= PhNum(file) && l' == LoadFrom(l, arena, file, i).l
    requires forall k :: 0 <= k < PhNum(file) && PhdrAt(file, k).kind == PT_LOAD ==> Fits(PhdrAt(file, k))
    ensures WritesFree(l.mem, l.bitmap, l'.mem, l'.bitmap)
    decreases PhNum(file) - i
  {
    if i == PhNum(file) {
    } else {
      var st := LoadSegment(l, arena, file, PhdrAt(file, i));
      SegmentWrites(l, arena, file, PhdrAt(file, i), st.l);
      SegmentOnlyTakes(l, arena, file, PhdrAt(file, i));
      if st.code == Ok {
        LoopWrites(st.l, arena, file, i + 1, l');
        WritesCompose(l.mem, l.bitmap, st.l.mem, st.l.bitmap, l'.mem, l'.bitmap);
      }
    }
  }

  /** Loading, whether it succeeds or not, disturbs nobody's memory: whatever is written lies in pages
      that were free, and no page comes free. */
  lemma LoadWritesFree(s: Sys, file: File, ustack: word32, c: Created)
    requires Inv(s) && (HeaderOk(file) ==> HeadersReadable(file)) && c == LoadElf(s, file, ustack)
    requires HeadersReadable(file) ==> forall k :: 0 <= k < PhNum(file) && PhdrAt(file, k).kind == 1 ==>
               PhdrAt(file, k).vaddr + PhdrAt(file, k).memsz <= 0x200_0000
    ensures WritesFree(s.mem, s.bitmap, c.s.mem, c.s.bitmap)
  {
    var ns := OpenSpace(s.spaces, s.code);
    if HeaderOk(file) && FreeSlot(s.procs, 0) >= 0 && ns.handle >= 0 {
      var l := Loader(s.mem, s.bitmap, s.hint, ns.spaces[ns.handle].table);
      var st := Segments(s.(spaces := ns.spaces), ns.handle, file);
      LoopWrites(l, s.arena, file, 0, st.l);
      LoadOnlyTakes(l, s.arena, file, 0);
      RegionTakes(s.(spaces := ns.spaces), FreeSlot(s.procs, 0), ns.handle, file, ustack, st);
    }
  }

  lemma RegionTakes(s: Sys, slot: nat, handle: nat, file: File, ustack: word32, st: Step)
    requires |s.owner| == |s.bitmap| && slot < |s.procs| && handle < |s.spaces| && HeadersReadable(file)
    requires st == Segments(s, handle, file) && LoaderOk(st.l)
    ensures var c := LoadInto(s, slot, handle, file, ustack);
            && c.s.mem == st.l.mem && |c.s.bitmap| == |st.l.bitmap|
            && forall k :: 0 <= k < |st.l.bitmap| && st.l.bitmap[k] ==> c.s.bitmap[k]
  {
    AllocSoundAndComplete(st.l.bitmap, st.l.hint, Ring3Pages(ustack));
  }
}
