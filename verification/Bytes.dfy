/** Machine integers and their little-endian memory layout, shared by every module. */
module Bytes {

  type byte = b: int | 0 <= b < 256
  type word16 = w: int | 0 <= w < 0x1_0000
  type word32 = w: int | 0 <= w < 0x1_0000_0000

  const U32: int := 0x1_0000_0000

  // A 32-bit value as the four bytes the x86 stores it in.
  function Le32(v: word32): (b: seq<byte>)
    ensures |b| == 4
  {
    [v % 256, v / 256 % 256, v / 65536 % 256, v / 16777216]
  }

  function FromLe32(b: seq<byte>): (v: word32)
    requires |b| == 4
  {
    b[0] as int + 256 * b[1] as int + 65536 * b[2] as int + 16777216 * b[3] as int
  }

  function Le16(v: word16): (b: seq<byte>)
    ensures |b| == 2
  {
    [v % 256, v / 256]
  }

  function FromLe16(b: seq<byte>): (v: word16)
    requires |b| == 2
  {
    b[0] as int + 256 * b[1] as int
  }

  lemma Le32RoundTrip(v: word32)
    ensures FromLe32(Le32(v)) == v
  {
    assert v / 65536 == v / 256 / 256;
    assert v / 16777216 == v / 256 / 256 / 256;
  }

  /** The least significant byte comes first. */
  lemma LeastFirst(v: word32, w: word16)
    ensures var b := Le32(v);
            b[0] as int + 256 * (b[1] as int) + 65536 * (b[2] as int) + 16777216 * (b[3] as int) == v
    ensures var b := Le16(w); b[0] as int + 256 * (b[1] as int) == w
  {
    Le32RoundTrip(v);
  }

  function Zeros(n: nat): (z: seq<byte>)
    ensures |z| == n
  {
    seq(n, _ => 0)
  }

  // The value of a signed 32-bit int stored as w, and back.
  function Signed(w: word32): (v: int)
    ensures -0x8000_0000 <= v < 0x8000_0000
  {
    if w < 0x8000_0000 then w else w - U32
  }

  function Unsigned(v: int): (w: word32)
    requires -0x8000_0000 <= v < 0x8000_0000
    ensures Signed(w) == v
  {
    if v < 0 then v + U32 else v
  }

  /** b with `data` laid over it from offset off on; what falls off the end is lost. */
  function Overlay(b: seq<byte>, off: nat, data: seq<byte>): (r: seq<byte>)
    ensures |r| == |b|
  {
    seq(|b|, k requires 0 <= k < |b| => if off <= k < off + |data| then data[k - off] else b[k])
  }

  lemma SliceOfSlice(b: seq<byte>, lo: nat, part: seq<byte>, i: nat, j: nat)
    requires lo + |part| <= |b| && part == b[lo..lo + |part|] && i <= j <= |part|
    ensures part[i..j] == b[lo + i..lo + j]
  {
    assert forall k :: i <= k < j ==> part[k] == b[lo + k];
  }

  // The bytes s are found in b at offset at.
  ghost predicate Holds(b: seq<byte>, at: nat, s: seq<byte>) {
    at + |s| <= |b| && b[at..at + |s|] == s
  }

  lemma HoldsParts(b: seq<byte>, at: nat, x: seq<byte>, y: seq<byte>)
    requires Holds(b, at, x + y)
    ensures Holds(b, at, x) && Holds(b, at + |x|, y)
  {
    SliceOfSlice(b, at, x + y, 0, |x|);
    SliceOfSlice(b, at, x + y, |x|, |x| + |y|);
    assert (x + y)[0..|x|] == x && (x + y)[|x|..|x| + |y|] == y;
  }
}
