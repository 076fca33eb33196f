/** string.c: moving bytes that may overlap, and C strings in fixed buffers. */
module Strings {
  import opened Bytes

  // ------------------------------------------------------------------
  // memmove
  // ------------------------------------------------------------------

  /** s with the n bytes at src copied to dst, as they were before. */
  function Moved(s: seq<byte>, dst: nat, src: nat, n: nat): (r: seq<byte>)
    requires dst + n <= |s| && src + n <= |s|
    ensures |r| == |s|
  {
    s[..dst] + s[src..src + n] + s[dst + n..]
  }

  lemma MovedToFront(s: seq<byte>, src: nat, n: nat)
    requires src + n <= |s|
    ensures Moved(s, 0, src, n)[..n] == s[src..src + n]
  {
  }

  // The same, cell by cell, for the first or last i bytes
  ghost predicate MovedPart(now: seq<byte>, was: seq<byte>, dst: nat, src: nat, lo: nat, hi: nat)
    requires dst + hi <= |was| && src + hi <= |was|
  {
    |now| == |was|
    && forall k :: 0 <= k < |was| ==> now[k] == was[if dst + lo <= k < dst + hi then src + (k - dst) else k]
  }

  lemma AllMoved(now: seq<byte>, was: seq<byte>, dst: nat, src: nat, n: nat)
    requires dst + n <= |was| && src + n <= |was| && MovedPart(now, was, dst, src, 0, n)
    ensures now == Moved(was, dst, src, n)
  {
    var m := Moved(was, dst, src, n);
    forall k | 0 <= k < |was|
      ensures now[k] == m[k]
    {
    }
  }

  /** memmove within one buffer: forwards when moving down, backwards otherwise, so that no
      byte is overwritten before it was copied, whatever the overlap. */
  method MemMove(a: array<byte>, dst: nat, src: nat, n: nat)
    requires dst + n <= a.Length && src + n <= a.Length
    modifies a
    ensures a[..] == Moved(old(a[..]), dst, src, n)
  {
    if dst < src {
      CopyForwards(a, dst, src, n);
    } else {
      CopyBackwards(a, dst, src, n);
    }
  }

  method CopyForwards(a: array<byte>, dst: nat, src: nat, n: nat)
    requires dst < src && src + n <= a.Length
    modifies a
    ensures a[..] == Moved(old(a[..]), dst, src, n)
  {
    ghost var was := a[..];
    for i := 0 to n
      invariant MovedPart(a[..], was, dst, src, 0, i)
    {
      a[dst + i] := a[src + i];
    }
    AllMoved(a[..], was, dst, src, n);
  }

  method CopyBackwards(a: array<byte>, dst: nat, src: nat, n: nat)
    requires src <= dst && dst + n <= a.Length
    modifies a
    ensures a[..] == Moved(old(a[..]), dst, src, n)
  {
    ghost var was := a[..];
    for i := n downto 0
      invariant MovedPart(a[..], was, dst, src, i, n)
    {
      a[dst + i] := a[src + i];
    }
    AllMoved(a[..], was, dst, src, n);
  }

  // memcpy into a buffer from elsewhere
  method MemCpy(a: array<byte>, dst: nat, src: seq<byte>)
    requires dst + |src| <= a.Length
    modifies a
    ensures a[..] == old(a[..dst]) + src + old(a[dst + |src|..])
  {
    for i := 0 to |src|
      invariant a[..dst] == old(a[..dst]) && a[dst..dst + i] == src[..i]
      invariant a[dst + i..] == old(a[dst + i..])
    {
      a[dst + i] := src[i];
    }
  }

  // ------------------------------------------------------------------
  // C strings
  // ------------------------------------------------------------------

  /** The string in a buffer: the bytes before the first NUL. */
  function CName(buf: seq<byte>): (s: seq<byte>)
    ensures |s| <= |buf|
  {
    if buf == [] || buf[0] == 0 then [] else [buf[0]] + CName(buf[1..])
  }

  lemma {:induction false} CNameOfPadded(name: seq<byte>, n: nat)
    requires 0 !in name
    ensures CName(name + Zeros(n)) == name
  {
    if name != [] {
      CNameOfPadded(name[1..], n);
      assert (name + Zeros(n))[1..] == name[1..] + Zeros(n);
    } else {
      assert name + Zeros(n) == Zeros(n);
    }
  }

  lemma {:induction false} CNameIsPrefix(buf: seq<byte>)
    ensures CName(buf) == buf[..|CName(buf)|] && 0 !in CName(buf)
    ensures |CName(buf)| < |buf| ==> buf[|CName(buf)|] == 0
    decreases buf
  {
    if buf == [] || buf[0] == 0 {
    } else {
      CNameIsPrefix(buf[1..]);
    }
  }

  lemma {:induction false} CNameStops(buf: seq<byte>, n: nat)
    requires n < |buf| && buf[n] == 0 && 0 !in buf[..n]
    ensures CName(buf) == buf[..n]
    decreases n
  {
    if n == 0 {
    } else {
      assert buf[1..][..n - 1] == buf[..n][1..];
      assert buf[0] == buf[..n][0];
      CNameStops(buf[1..], n - 1);
    }
  }

  // strlen
  method StrLen(s: seq<byte>) returns (n: nat)
    requires 0 in s
    ensures n == |CName(s)| < |s|
  {
    CNameIsPrefix(s);
    Terminated(s);
    n := 0;
    while s[n] != 0
      invariant n <= |CName(s)|
      decreases |s| - n
    {
      n := n + 1;
    }
  }

  // What strncpy's two loops leave, the first having stopped after n bytes
  lemma CopiedAndPadded(dst: seq<byte>, src: seq<byte>, n: nat)
    requires n <= |dst| && n <= |src| && dst[..n] == src[..n] && forall k :: n <= k < |dst| ==> dst[k] == 0
    requires n == if |CName(src)| < |dst| then |CName(src)| else |dst|
    ensures |CName(src)| < |dst| ==>
      dst == CName(src) + Zeros(|dst| - |CName(src)|) && CName(dst) == CName(src)
    ensures |CName(src)| >= |dst| ==> dst == src[..|dst|]
  {
    var name := CName(src);
    CNameIsPrefix(src);
    if |name| < |dst| {
      assert dst == name + Zeros(|dst| - |name|);
      CNameOfPadded(name, |dst| - |name|);
    }
  }

  /** strncpy fills the whole buffer: the string cut to fit, then NULs; so a string shorter
      than the buffer is read back unchanged. */
  method StrNCpy(dst: array<byte>, src: seq<byte>)
    modifies dst
    ensures dst[..] == if |CName(src)| < dst.Length
                       then CName(src) + Zeros(dst.Length - |CName(src)|) else src[..dst.Length]
    ensures |CName(src)| < dst.Length ==> CName(dst[..]) == CName(src)
  {
    ghost var name := CName(src);
    CNameIsPrefix(src);
    var i := 0;
    while i < dst.Length && i < |src| && src[i] != 0
      invariant 0 <= i <= dst.Length && i <= |name| && dst[..i] == src[..i]
    {
      dst[i] := src[i];
      i := i + 1;
    }
    ghost var stop := i;
    while i < dst.Length
      invariant stop <= i <= dst.Length && dst[..stop] == src[..stop]
      invariant forall k :: stop <= k < i ==> dst[k] == 0
    {
      dst[i] := 0;
      i := i + 1;
    }
    CopiedAndPadded(dst[..], src, stop);
  }

  // x comes before y in the dictionary.
  ghost predicate Before(x: seq<byte>, y: seq<byte>) {
    exists i :: DiffersFirst(x, y, i)
  }

  ghost predicate DiffersFirst(x: seq<byte>, y: seq<byte>, i: int) {
    0 <= i <= |x| && i < |y| && x[..i] == y[..i] && (i == |x| || x[i] < y[i])
  }

  lemma OneOrder(x: seq<byte>, y: seq<byte>)
    ensures !(Before(x, y) && Before(y, x)) && !Before(x, x)
  {
  }

  /** strcmp on NUL-terminated buffers: zero exactly for equal strings, and otherwise of the sign
      of their order in the dictionary. */
  method StrCmp(a: seq<byte>, b: seq<byte>) returns (r: int)
    requires 0 in a && 0 in b
    ensures r == 0 <==> CName(a) == CName(b)
    ensures r < 0 <==> Before(CName(a), CName(b))
    ensures r > 0 <==> Before(CName(b), CName(a))
  {
    var i := 0;
    ghost var x, y := CName(a), CName(b);
    CNameIsPrefix(a);
    CNameIsPrefix(b);
    Terminated(a);
    Terminated(b);
    while a[i] != 0 && a[i] == b[i]
      invariant 0 <= i <= |x| && i <= |y| && a[..i] == b[..i]
      decreases |a| - i
    {
      i := i + 1;
    }
    r := a[i] as int - b[i] as int;
    Compared(a, b, i);
  }

  // Where two strings first differ, or end, decides their order.
  lemma Compared(a: seq<byte>, b: seq<byte>, i: nat)
    requires i < |a| && i < |b| && a[..i] == b[..i] && (a[i] == 0 || a[i] != b[i])
    requires i <= |CName(a)| < |a| && i <= |CName(b)| < |b|
    ensures a[i] == b[i] <==> CName(a) == CName(b)
    ensures a[i] < b[i] <==> Before(CName(a), CName(b))
    ensures a[i] > b[i] <==> Before(CName(b), CName(a))
  {
    var x, y := CName(a), CName(b);
    CNameIsPrefix(a);
    CNameIsPrefix(b);
    PrefixOfPrefix(a, |x|, i);
    PrefixOfPrefix(b, |y|, i);
    OneOrder(x, y);
    OneOrder(y, x);
    if a[i] == b[i] {
      assert |x| == i && |y| == i;
    } else if a[i] < b[i] {
      assert DiffersFirst(x, y, i);
    } else {
      assert DiffersFirst(y, x, i);
    }
  }

  lemma PrefixOfPrefix(s: seq<byte>, n: nat, i: nat)
    requires i <= n <= |s|
    ensures s[..n][..i] == s[..i]
  {
  }

  lemma {:induction false} Terminated(buf: seq<byte>)
    requires 0 in buf
    ensures |CName(buf)| < |buf|
    decreases buf
  {
    if buf[0] == 0 {
    } else {
      Terminated(buf[1..]);
    }
  }
}
