/** Writing ELF32 files for the i386: header, program headers and segment contents at the byte
    offsets the format gives them. It knows nothing of the loader. */
module ElfFile {
  import opened Bytes

  const HEADER_SIZE: nat := 52
  const ENTRY_SIZE: nat := 32

  // One program header and what it describes; kind 1 is a segment to be loaded
  datatype Seg = Seg(kind: word32, vaddr: word32, data: seq<byte>, memsz: word32, r: bool, w: bool, x: bool)

  function Bit(b: bool): nat {
    if b then 1 else 0
  }

  // p_flags
  function Flags(s: Seg): word32 {
    4 * Bit(s.r) + 2 * Bit(s.w) + Bit(s.x)
  }

  // Elf32_Phdr of a segment whose contents lie at `offset`
  function Entry(s: Seg, offset: word32): (b: seq<byte>)
    requires |s.data| < U32
    ensures |b| == ENTRY_SIZE
  {
    Le32(s.kind) + Le32(offset) + Le32(s.vaddr) + Le32(s.vaddr)
    + Le32(|s.data|) + Le32(s.memsz) + Le32(Flags(s)) + Le32(4096)
  }

  // e_ident of a little-endian 32-bit file
  const IDENT: seq<byte> := [0x7f, 69, 76, 70, 1, 1, 1, 0, 0, 0, 0, 0, 0, 0, 0, 0]

  // Elf32_Ehdr of an executable with n program headers behind it
  function Header(entry: word32, n: word16): (b: seq<byte>)
    ensures |b| == HEADER_SIZE
  {
    IDENT + Le16(2) + Le16(3) + Le32(1) + Le32(entry) + Le32(HEADER_SIZE) + Le32(0) + Le32(0)
    + Le16(HEADER_SIZE) + Le16(ENTRY_SIZE) + Le16(n) + Le16(0) + Le16(0) + Le16(0)
  }

  /** b is a file with these program headers at `table`, the contents of segment k at offs[k];
      anything may lie in between and behind. */
  ghost predicate Written(b: seq<byte>, table: word32, segs: seq<Seg>, offs: seq<word32>) {
    && |offs| == |segs| < 0x1_0000
    && HEADER_SIZE <= |b| && Holds(b, 28, Le32(table)) && Holds(b, 44, Le16(|segs|))
    && forall k :: 0 <= k < |segs| ==> SegWritten(b, table, segs, offs, k)
  }

  ghost predicate SegWritten(b: seq<byte>, table: word32, segs: seq<Seg>, offs: seq<word32>, k: nat)
    requires |offs| == |segs| && k < |segs|
  {
    && |segs[k].data| < U32
    && Holds(b, table + k * ENTRY_SIZE, Entry(segs[k], offs[k])) && Holds(b, offs[k], segs[k].data)
  }

  // The fields of the ELF header the format asks for: magic, 32 bits, i386, executable, a table
  ghost predicate Executable(b: seq<byte>, table: word32, n: word16, size: word16) {
    && HEADER_SIZE <= |b| && Holds(b, 0, [0x7f, 69, 76, 70, 1]) && Holds(b, 16, Le16(2)) && Holds(b, 18, Le16(3))
    && Holds(b, 28, Le32(table)) && Holds(b, 42, Le16(size)) && Holds(b, 44, Le16(n))
    && table != 0 && n != 0 && table + n * size <= |b|
  }

  // ------------------------------------------------------------------
  // A file with the headers right behind the ELF header and the contents behind them
  // ------------------------------------------------------------------

  function Contents(segs: seq<Seg>): seq<byte> {
    if segs == [] then [] else segs[0].data + Contents(segs[1..])
  }

  // The entries of segs, the contents of the first at `offset`
  function Entries(segs: seq<Seg>, offset: nat): (b: seq<byte>)
    requires offset + |Contents(segs)| < U32
    ensures |b| == |segs| * ENTRY_SIZE
  {
    if segs == [] then []
    else
      assert |Contents(segs)| == |segs[0].data| + |Contents(segs[1..])|;
      Entry(segs[0], offset) + Entries(segs[1..], offset + |segs[0].data|)
  }

  function Offsets(segs: seq<Seg>, offset: nat): (offs: seq<word32>)
    requires offset + |Contents(segs)| < U32
    ensures |offs| == |segs|
  {
    if segs == [] then []
    else
      assert |Contents(segs)| == |segs[0].data| + |Contents(segs[1..])|;
      [offset] + Offsets(segs[1..], offset + |segs[0].data|)
  }

  function File(entry: word32, segs: seq<Seg>): seq<byte>
    requires |segs| < 0x1_0000 && HEADER_SIZE + |segs| * ENTRY_SIZE + |Contents(segs)| < U32
  {
    Header(entry, |segs|) + Entries(segs, HEADER_SIZE + |segs| * ENTRY_SIZE) + Contents(segs)
  }

  lemma HeaderFields(entry: word32, n: word16)
    ensures var h := Header(entry, n);
            && Holds(h, 0, IDENT) && Holds(h, 16, Le16(2)) && Holds(h, 18, Le16(3)) && Holds(h, 28, Le32(HEADER_SIZE))
            && Holds(h, 42, Le16(ENTRY_SIZE)) && Holds(h, 44, Le16(n))
  {
    var h := Header(entry, n);
    assert h[0..16] == IDENT;
    assert h[16..18] == Le16(2) && h[18..20] == Le16(3) && h[28..32] == Le32(HEADER_SIZE);
    assert h[42..44] == Le16(ENTRY_SIZE) && h[44..46] == Le16(n);
  }

  // What a part of b holds, b holds.
  lemma HoldsWithin(b: seq<byte>, at: nat, part: seq<byte>, off: nat, s: seq<byte>)
    requires Holds(b, at, part) && Holds(part, off, s)
    ensures Holds(b, at + off, s)
  {
    SliceOfSlice(b, at, part, off, off + |s|);
  }

  // The first segment's entry and contents, and the others'
  lemma PartsSplit(segs: seq<Seg>, offset: nat, b: seq<byte>, table: nat, next: nat, rest: nat)
    requires segs != [] && offset + |Contents(segs)| < U32
    requires next == table + ENTRY_SIZE && rest == offset + |segs[0].data|
    requires Holds(b, table, Entries(segs, offset)) && Holds(b, offset, Contents(segs))
    ensures |segs[0].data| < U32 && rest + |Contents(segs[1..])| < U32
    ensures Holds(b, table, Entry(segs[0], offset)) && Holds(b, offset, segs[0].data)
    ensures Holds(b, next, Entries(segs[1..], rest)) && Holds(b, rest, Contents(segs[1..]))
  {
    HoldsParts(b, offset, segs[0].data, Contents(segs[1..]));
    HoldsParts(b, table, Entry(segs[0], offset), Entries(segs[1..], rest));
  }

  // Entry and contents of each segment, wherever the two lists of bytes lie
  lemma {:induction false} PartsHold(
    segs: seq<Seg>, offset: nat, b: seq<byte>, table: nat, k: nat, off: word32, there: nat)
    requires offset + |Contents(segs)| < U32 && k < |segs| && off == Offsets(segs, offset)[k]
    requires Holds(b, table, Entries(segs, offset)) && Holds(b, offset, Contents(segs))
    requires there == table + k * ENTRY_SIZE
    ensures |segs[k].data| < U32
    ensures Holds(b, there, Entry(segs[k], off)) && Holds(b, off, segs[k].data)
    decreases |segs|
  {
    var next, rest := table + ENTRY_SIZE, offset + |segs[0].data|;
    PartsSplit(segs, offset, b, table, next, rest);
    if k == 0 {
    } else {
      PartsHold(segs[1..], rest, b, next, k - 1, off, there);
    }
  }

  lemma FileIsExecutable(entry: word32, segs: seq<Seg>)
    requires 0 < |segs| < 0x1_0000 && HEADER_SIZE + |segs| * ENTRY_SIZE + |Contents(segs)| < U32
    ensures Executable(File(entry, segs), HEADER_SIZE, |segs|, ENTRY_SIZE)
  {
    var b, h := File(entry, segs), Header(entry, |segs|);
    assert Holds(b, 0, h);
    HeaderFields(entry, |segs|);
    HoldsWithin(b, 0, h, 0, IDENT);
    HoldsWithin(b, 0, h, 16, Le16(2));
    HoldsWithin(b, 0, h, 18, Le16(3));
    HoldsWithin(b, 0, h, 28, Le32(HEADER_SIZE));
    HoldsWithin(b, 0, h, 42, Le16(ENTRY_SIZE));
    HoldsWithin(b, 0, h, 44, Le16(|segs|));
    assert IDENT == [0x7f, 69, 76, 70, 1] + IDENT[5..];
    HoldsParts(b, 0, [0x7f, 69, 76, 70, 1], IDENT[5..]);
  }

  lemma FileParts(entry: word32, segs: seq<Seg>)
    requires |segs| < 0x1_0000 && HEADER_SIZE + |segs| * ENTRY_SIZE + |Contents(segs)| < U32
    ensures var b, base := File(entry, segs), HEADER_SIZE + |segs| * ENTRY_SIZE;
            Holds(b, HEADER_SIZE, Entries(segs, base)) && Holds(b, base, Contents(segs))
  {
    var base := HEADER_SIZE + |segs| * ENTRY_SIZE;
    ThreeParts(Header(entry, |segs|), Entries(segs, base), Contents(segs));
  }

  lemma ThreeParts(x: seq<byte>, y: seq<byte>, z: seq<byte>)
    ensures Holds(x + y + z, |x|, y) && Holds(x + y + z, |x| + |y|, z)
  {
  }

  /** The file is an executable whose program headers and contents are where it says. */
  lemma FileIsWritten(entry: word32, segs: seq<Seg>)
    requires 0 < |segs| < 0x1_0000 && HEADER_SIZE + |segs| * ENTRY_SIZE + |Contents(segs)| < U32
    ensures var base := HEADER_SIZE + |segs| * ENTRY_SIZE;
            Written(File(entry, segs), HEADER_SIZE, segs, Offsets(segs, base))
  {
    var b, base := File(entry, segs), HEADER_SIZE + |segs| * ENTRY_SIZE;
    var offs := Offsets(segs, base);
    FileIsExecutable(entry, segs);
    FileParts(entry, segs);
    forall k | 0 <= k < |segs|
      ensures SegWritten(b, HEADER_SIZE, segs, offs, k)
    {
      PartsHold(segs, base, b, HEADER_SIZE, k, offs[k], HEADER_SIZE + k * ENTRY_SIZE);
    }
  }
}
