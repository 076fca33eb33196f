/** The byte streams filesystem.c reads and writes the disk with, one 512-byte sector at a
    time. The disk is the run of bytes its sectors make up. */
module SectorStream {
  import opened Bytes
  import opened Strings

  const SECTOR: nat := 512

  /** data zero-filled to the next sector boundary; nothing is added to a whole sector. */
  function Padded(data: seq<byte>): (r: seq<byte>)
    ensures |r| % SECTOR == 0 && |data| <= |r| < |data| + SECTOR
    ensures r[..|data|] == data && forall k :: |data| <= k < |r| ==> r[k] == 0
  {
    data + Zeros((SECTOR - |data| % SECTOR) % SECTOR)
  }

  class Disk {
    var bytes: seq<byte>

    ghost predicate Valid()
      reads this
    {
      |bytes| % SECTOR == 0
    }

    // disk_write_sector: fails past the end
    method WriteSector(lba: nat, buf: array<byte>) returns (ok: bool)
      requires Valid() && buf.Length == SECTOR
      modifies this
      ensures Valid() && bytes == Overlay(old(bytes), lba * SECTOR, buf[..])
      ensures ok == (lba * SECTOR < |bytes|)
    {
      ok := lba * SECTOR < |bytes|;
      if ok {
        ghost var was := bytes;
        bytes := bytes[..lba * SECTOR] + buf[..] + bytes[(lba + 1) * SECTOR..];
        assert bytes == Overlay(was, lba * SECTOR, buf[..]);
      } else {
        assert bytes == Overlay(bytes, lba * SECTOR, buf[..]);
      }
    }

    // disk_read_sector
    method ReadSector(lba: nat, buf: array<byte>) returns (ok: bool)
      requires Valid() && buf.Length == SECTOR
      modifies buf
      ensures ok == (lba * SECTOR < |bytes|)
      ensures ok ==> buf[..] == bytes[lba * SECTOR..lba * SECTOR + SECTOR]
    {
      ok := lba * SECTOR < |bytes|;
      if ok {
        MemCpy(buf, 0, bytes[lba * SECTOR..lba * SECTOR + SECTOR]);
      }
    }
  }

  lemma OverlayTwice(b: seq<byte>, off: nat, x: seq<byte>, y: seq<byte>)
    ensures Overlay(Overlay(b, off, x), off + |x|, y) == Overlay(b, off, x + y)
  {
  }

  // One more piece of `data`
  lemma Extend(log: seq<byte>, data: seq<byte>, i: nat, j: nat)
    requires i <= j <= |data|
    ensures log + data[..i] + data[i..j] == log + data[..j]
  {
  }

  lemma HoldsMore(b: seq<byte>, at: nat, x: seq<byte>, y: seq<byte>)
    requires x == [] || Holds(b, at, x)
    requires Holds(b, at + |x|, y)
    ensures Holds(b, at, x + y)
  {
    assert x == [] ==> x + y == y;
  }

  /** FsIoStream open for writing from sector `start` on: `log` is every byte handed to it,
      `base` the disk when it was opened. */
  class WriteStream {
    const buf: array<byte>
    const disk: Disk
    var pos: nat
    var lba: nat
    ghost const start: nat
    ghost const base: seq<byte>
    ghost var log: seq<byte>

    ghost predicate Valid()
      reads this, buf, disk
    {
      && buf.Length == SECTOR && disk.Valid()
      && pos <= SECTOR && lba >= start
      && |log| == (lba - start) * SECTOR + pos
      && log[|log| - pos..] == buf[..pos]
      && disk.bytes == Overlay(base, start * SECTOR, log[..|log| - pos])
    }

    constructor (disk: Disk, start: nat)
      requires disk.Valid()
      ensures Valid() && this.disk == disk && this.start == start && base == disk.bytes && fresh(buf)
      ensures log == [] && pos == 0
    {
      buf := new byte[SECTOR](_ => 0);
      this.disk := disk;
      pos := 0;
      lba := start;
      this.start := start;
      base := disk.bytes;
      log := [];
      new;
      assert disk.bytes == Overlay(base, start * SECTOR, []);
    }

    // The loop of io_write_flush that fills the sector up
    method PadBuffer()
      requires buf.Length == SECTOR && pos <= SECTOR
      modifies buf
      ensures buf[..] == old(buf[..pos]) + Zeros(SECTOR - pos)
    {
      for i := pos to SECTOR
        invariant buf[..pos] == old(buf[..pos])
        invariant buf[pos..i] == Zeros(i - pos)
      {
        buf[i] := 0;
      }
    }

    // A full buffer goes to the disk.
    method PutSector()
      requires Valid() && pos == SECTOR
      modifies this`pos, this`lba, disk
      ensures Valid() && pos == 0
    {
      ghost var whole, off := log[..|log| - SECTOR], start * SECTOR;
      assert whole + buf[..] == log && lba * SECTOR == off + |whole|;
      var _ := disk.WriteSector(lba, buf);
      OverlayTwice(base, off, whole, buf[..]);
      lba := lba + 1;
      pos := 0;
      assert log[..|log| - 0] == log && log[|log| - 0..] == buf[..0];
    }

    // io_write_flush
    method Flush()
      requires Valid()
      modifies this, buf, disk
      ensures Valid() && pos == 0 && log == old(log) + Zeros(if old(pos) == 0 then 0 else SECTOR - old(pos))
    {
      if pos == 0 {
        return;
      }
      ghost var was, n := log, pos;
      PadBuffer();
      log := log + Zeros(SECTOR - pos);
      pos := SECTOR;
      assert log[|log| - SECTOR..] == was[|was| - n..] + Zeros(SECTOR - n);
      assert log[..|log| - SECTOR] == was[..|was| - n];
      PutSector();
    }

    // What fits in the buffer goes there first.
    method Stash(data: seq<byte>)
      requires Valid() && pos + |data| <= SECTOR
      modifies this, buf
      ensures Valid() && pos == old(pos) + |data| && log == old(log) + data
    {
      ghost var was := log;
      MemCpy(buf, pos, data);
      pos := pos + |data|;
      log := log + data;
      assert log[|log| - pos..] == was[|was| - (pos - |data|)..] + data;
      assert log[..|log| - pos] == was[..|was| - (pos - |data|)];
    }

    /** io_write_bytes: whatever way the data is handed over, the stream is its concatenation. */
    method Write(data: seq<byte>)
      requires Valid() && pos < SECTOR
      modifies this, buf, disk
      ensures Valid() && pos < SECTOR && log == old(log) + data
    {
      ghost var was := log;
      var p := 0;
      while p < |data|
        invariant 0 <= p <= |data| && Valid() && pos < SECTOR
        invariant log == was + data[..p]
      {
        var chunk := SECTOR - pos;
        if chunk > |data| - p {
          chunk := |data| - p;
        }
        Extend(was, data, p, p + chunk);
        Stash(data[p..p + chunk]);
        p := p + chunk;
        if pos == SECTOR {
          Flush();
        }
      }
    }

    /** The last flush leaves exactly the padded stream on the disk. */
    method Close()
      requires Valid() && pos < SECTOR
      modifies this, buf, disk
      ensures disk.Valid() && disk.bytes == Overlay(base, start * SECTOR, Padded(old(log)))
    {
      Flush();
      assert log == Padded(old(log));
      assert log[..|log| - 0] == log;
    }
  }

  /** FsIoStream open for reading: the next byte to come is the one at At(). */
  class ReadStream {
    const buf: array<byte>
    const disk: Disk
    var pos: nat
    var lba: nat

    ghost predicate Valid()
      reads this, buf, disk
    {
      && buf.Length == SECTOR && disk.Valid()
      && pos <= SECTOR && lba * SECTOR + pos >= SECTOR
      && (pos < SECTOR ==>
            lba > 0 && lba * SECTOR <= |disk.bytes| && buf[..] == disk.bytes[(lba - 1) * SECTOR..lba * SECTOR])
    }

    ghost function At(): nat
      requires Valid()
      reads this, buf, disk
    {
      lba * SECTOR + pos - SECTOR
    }

    // pos 512 forces the first sector to be fetched by the first read
    constructor (disk: Disk, start: nat)
      requires disk.Valid()
      ensures Valid() && this.disk == disk && At() == start * SECTOR && fresh(buf)
    {
      buf := new byte[SECTOR](_ => 0);
      this.disk := disk;
      pos := SECTOR;
      lba := start;
    }

    // io_read_fill
    method Fill() returns (ok: bool)
      requires Valid() && pos == SECTOR
      modifies this, buf
      ensures ok == (old(At()) < |disk.bytes|)
      ensures ok ==> Valid() && At() == old(At()) && pos == 0
    {
      ok := disk.ReadSector(lba, buf);
      if !ok {
        return;
      }
      lba := lba + 1;
      pos := 0;
    }

    // What the buffer still holds comes first.
    method Drain(chunk: nat) returns (out: seq<byte>)
      requires Valid() && pos < SECTOR && pos + chunk <= SECTOR
      modifies this
      ensures Valid() && At() == old(At()) + chunk <= |disk.bytes|
      ensures |out| == chunk && Holds(disk.bytes, old(At()), out)
    {
      SliceOfSlice(disk.bytes, (lba - 1) * SECTOR, buf[..], pos, pos + chunk);
      out := buf[pos..pos + chunk];
      pos := pos + chunk;
    }

    /** io_read_bytes: the next `len` bytes of the disk, however earlier reads were cut; it
        fails exactly when they run past the last sector. */
    method Read(len: nat) returns (ok: bool, out: seq<byte>)
      requires Valid()
      modifies this, buf
      ensures ok == (len == 0 || old(At()) + len <= |disk.bytes|)
      ensures ok ==> Valid() && At() == old(At()) + len
      ensures ok && len > 0 ==> out == disk.bytes[old(At())..old(At()) + len]
      ensures ok && len == 0 ==> out == []
    {
      out := [];
      var left := len;
      ghost var b, from := disk.bytes, At();
      while left > 0
        invariant 0 <= left <= len && Valid() && At() == from + |out| && |out| == len - left
        invariant out == [] || Holds(b, from, out)
      {
        if pos >= SECTOR {
          var filled := Fill();
          if !filled {
            return false, [];
          }
        }
        var chunk := SECTOR - pos;
        if chunk > left {
          chunk := left;
        }
        var piece := Drain(chunk);
        HoldsMore(b, from, out, piece);
        out := out + piece;
        left := left - chunk;
      }
      ok := true;
    }
  }
}
