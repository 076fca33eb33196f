/** The Internet checksum of netdefs.h (section 1 of RFC 1071), in its 32-bit accumulator. */
module Checksum {
  import opened Bytes

  // ------------------------------------------------------------------
  // The exact sum and its residue
  // ------------------------------------------------------------------

  // Two bytes as a big-endian word
  function Word(high: byte, low: byte): word16 {
    high as int * 256 + low as int
  }

  /** The sum of the big-endian 16-bit words of data, an odd last byte padded with zero. */
  function WordSum(data: seq<byte>): nat {
    if data == [] then 0
    else if |data| == 1 then Word(data[0], 0)
    else Word(data[0], data[1]) + WordSum(data[2..])
  }

  /** The ones'-complement residue of a sum: in 1 .. 65535 unless the sum is zero. */
  function Residue(sum: nat): (r: word16)
    ensures r == 0 <==> sum == 0
    ensures r % 65535 == sum % 65535
  {
    if sum == 0 then 0 else (sum - 1) % 65535 + 1
  }

  // The checksum of data with `sum` already accumulated, in exact arithmetic
  function Sum16(data: seq<byte>, sum: nat): word16 {
    65535 - Residue(sum + WordSum(data))
  }

  lemma {:induction false} WordSumBound(data: seq<byte>)
    ensures WordSum(data) <= (|data| + 1) / 2 * 65535
    decreases |data|
  {
    if |data| <= 1 {
    } else {
      WordSumBound(data[2..]);
    }
  }

  /** Sums of consecutive stretches add up when the first has even length. */
  lemma {:induction false} WordSumSplits(a: seq<byte>, b: seq<byte>)
    requires |a| % 2 == 0
    ensures WordSum(a + b) == WordSum(a) + WordSum(b)
    decreases |a|
  {
    if a == [] {
      assert a + b == b;
    } else {
      WordSumSplits(a[2..], b);
      assert (a + b)[2..] == a[2..] + b;
    }
  }

  /** With an odd first stretch they need not: 1 + 1 bytes. */
  lemma OddSplitDiffers()
    ensures WordSum([1] + [1]) != WordSum([1]) + WordSum([1])
  {
    assert [1] + [1] == [1, 1];
  }

  // ------------------------------------------------------------------
  // The code
  // ------------------------------------------------------------------

  /** inet_checksum_partial: the accumulator may wrap at 2^32. */
  method Partial(data: seq<byte>, sum: word32) returns (r: word32)
    ensures r == (sum + WordSum(data)) % U32
  {
    r := sum;
    var p, len := 0, |data|;
    ghost var exact: nat := sum;
    while len > 1
      invariant 0 <= p <= |data| && p + len == |data| && r == exact % U32
      invariant exact + WordSum(data[p..]) == sum + WordSum(data)
    {
      assert data[p..][2..] == data[p + 2..];
      WrapStep(exact, Word(data[p], data[p + 1]));
      r := (r + Word(data[p], data[p + 1])) % U32;
      exact := exact + Word(data[p], data[p + 1]);
      p := p + 2;
      len := len - 2;
    }
    if len == 1 {
      WrapStep(exact, Word(data[p], 0));
      r := (r + Word(data[p], 0)) % U32;
    }
  }

  lemma WrapStep(exact: nat, w: nat)
    ensures (exact % U32 + w) % U32 == (exact + w) % U32
  {
  }

  lemma FoldStep(sum: nat)
    requires sum >= 65536
    ensures sum % 65536 + sum / 65536 < sum
    ensures Residue(sum % 65536 + sum / 65536) == Residue(sum)
  {
    var low, high := sum % 65536, sum / 65536;
    assert sum - 1 == (low + high - 1) + 65535 * high;
    assert (sum - 1) % 65535 == (low + high - 1) % 65535;
  }

  // The folding loop shared by inet_checksum and inet_checksum_finish; each turn lowers the sum.
  method Fold(sum: word32) returns (r: word16)
    ensures r == Residue(sum)
  {
    var s := sum;
    while s / 65536 != 0
      invariant Residue(s) == Residue(sum)
      decreases s
    {
      FoldStep(s);
      s := s % 65536 + s / 65536;
    }
    r := s;
  }

  // inet_checksum_finish
  method Finish(sum: word32) returns (r: word16)
    ensures r == 65535 - Residue(sum)
  {
    var f := Fold(sum);
    r := 65535 - f;
  }

  /** The accumulator never wraps for up to 65537 words, so there the method computes the
      exact checksum. */
  lemma NoWrap(data: seq<byte>, sum: nat)
    requires sum + (|data| + 1) / 2 * 65535 <= 65537 * 65535
    ensures sum + WordSum(data) < U32
  {
    WordSumBound(data);
  }

  function AllOnes(words: nat): (d: seq<byte>)
    ensures |d| == 2 * words
  {
    seq(2 * words, _ => 255)
  }

  lemma {:induction false} AllOnesSum(words: nat)
    ensures WordSum(AllOnes(words)) == words * 65535
    decreases words
  {
    if words == 0 {
    } else {
      assert AllOnes(words)[2..] == AllOnes(words - 1);
      AllOnesSum(words - 1);
    }
  }

  /** The bound is sharp: 65538 words can wrap. */
  lemma WrapsBeyond()
    ensures WordSum(AllOnes(65538)) >= U32
  {
    AllOnesSum(65538);
  }

  lemma FewWords(bytes: nat)
    requires bytes <= 2 * 65537
    ensures 0 + (bytes + 1) / 2 * 65535 <= 65537 * 65535
  {
    assert (bytes + 1) / 2 <= 65537;
  }

  // inet_checksum
  method Inet(data: seq<byte>) returns (r: word16)
    requires |data| <= 2 * 65537
    ensures r == Sum16(data, 0)
  {
    var sum := Partial(data, 0);
    FewWords(|data|);
    NoWrap(data, 0);
    assert sum == 0 + WordSum(data);
    r := Finish(sum);
  }

  // ------------------------------------------------------------------
  // Storing and verifying
  // ------------------------------------------------------------------

  // data with v stored at offset `at`, most significant byte first
  function Store16(data: seq<byte>, at: nat, v: word16): (r: seq<byte>)
    requires at + 2 <= |data|
    ensures |r| == |data|
  {
    data[at := v / 256][at + 1 := v % 256]
  }

  lemma StoredSum(data: seq<byte>, at: nat, v: word16)
    requires at % 2 == 0 && at + 2 <= |data| && data[at] == data[at + 1] == 0
    ensures WordSum(Store16(data, at, v)) == WordSum(data) + v
  {
    var a, b := data[..at], data[at + 2..];
    Around(data, at);
    Around(Store16(data, at, v), at);
    assert Store16(data, at, v)[..at] == a && Store16(data, at, v)[at + 2..] == b;
  }

  // A word's share of the sum
  lemma Around(data: seq<byte>, at: nat)
    requires at % 2 == 0 && at + 2 <= |data|
    ensures WordSum(data) == WordSum(data[..at]) + Word(data[at], data[at + 1]) + WordSum(data[at + 2..])
  {
    var a, b := data[..at], data[at + 2..];
    var w := [data[at], data[at + 1]];
    assert data == a + (w + b);
    WordSumSplits(a, w + b);
    PairSum(data[at], data[at + 1], b);
  }

  lemma PairSum(x: byte, y: byte, b: seq<byte>)
    ensures WordSum([x, y] + b) == Word(x, y) + WordSum(b)
  {
    assert ([x, y] + b)[2..] == b;
  }

  /** Which stored values verify: with the field zero the data and what precedes it sum to
      some amount, and a receiver summing everything gets checksum 0 exactly if the stored
      value is the computed checksum, up to the two ways of writing zero. */
  lemma VerifiesIff(data: seq<byte>, sum: nat, at: nat, v: word16)
    requires at % 2 == 0 && at + 2 <= |data| && data[at] == data[at + 1] == 0
    requires sum + WordSum(data) > 0
    ensures Sum16(Store16(data, at, v), sum) == 0 <==> v % 65535 == Sum16(data, sum) % 65535
  {
    StoredSum(data, at, v);
    var total := sum + WordSum(data);
    ResidueOfSum(total, v);
  }

  lemma ResidueOfSum(total: nat, v: word16)
    requires total > 0
    ensures Residue(total + v) == 65535 <==> v % 65535 == (65535 - Residue(total)) % 65535
  {
    var r: int := Residue(total);
    SameRemainder(total, r, v);
    LastResidue(total + v);
    Complements(r, v);
  }

  lemma Complements(r: int, v: int)
    requires 0 < r <= 65535 && 0 <= v <= 65535
    ensures (r + v) % 65535 == 0 <==> v % 65535 == (65535 - r) % 65535
  {
    assert r + v < 65535 ==> (r + v) % 65535 == r + v;
    assert v < 65535 ==> v % 65535 == v;
  }

  lemma LastResidue(sum: nat)
    requires sum > 0
    ensures Residue(sum) == 65535 <==> sum % 65535 == 0
  {
  }

  lemma SameRemainder(a: int, b: int, c: int)
    requires a % 65535 == b % 65535
    ensures (a + c) % 65535 == (b + c) % 65535
  {
    assert a - b == 65535 * (a / 65535 - b / 65535);
    assert a + c == b + c + 65535 * (a / 65535 - b / 65535);
  }

  /** Storing the computed checksum verifies, also when everything summed is zero. */
  lemma StoredVerifies(data: seq<byte>, sum: nat, at: nat)
    requires at % 2 == 0 && at + 2 <= |data| && data[at] == data[at + 1] == 0
    ensures Sum16(Store16(data, at, Sum16(data, sum)), sum) == 0
  {
    if sum + WordSum(data) == 0 {
      StoredSum(data, at, 65535);
    } else {
      VerifiesIff(data, sum, at, Sum16(data, sum));
    }
  }
}
