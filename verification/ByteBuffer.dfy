/**
 Byte buffers: little-endian fields, and the copying and clearing of stretches
 of bytes that the editing of an attribute block is made of.
 */
module ByteBuffer {
  type byte = b: int | 0 <= b < 256

  const MAX32: nat := 0x1_0000_0000

  function LE16(v: nat): (s: seq<byte>)
    requires v < 0x10000
    ensures |s| == 2
  {
    [v % 256, v / 256]
  }

  function LE32(v: nat): (s: seq<byte>)
    requires v < MAX32
    ensures |s| == 4
  {
    [v % 256, v / 256 % 256, v / 65536 % 256, v / 16777216]
  }

  function Get16(s: seq<byte>, at: nat): (v: nat)
    requires at + 2 <= |s|
    ensures v < 0x10000
  {
    s[at] as int + 256 * s[at + 1] as int
  }

  function Get32(s: seq<byte>, at: nat): (v: nat)
    requires at + 4 <= |s|
    ensures v < MAX32
  {
    s[at] as int + 256 * s[at + 1] as int + 65536 * s[at + 2] as int + 16777216 * s[at + 3] as int
  }

  lemma Read16(v: nat, s: seq<byte>, at: nat)
    requires v < 0x10000 && at + 2 <= |s| && s[at..at + 2] == LE16(v)
    ensures Get16(s, at) == v
  {
    assert s[at] == s[at..at + 2][0] && s[at + 1] == s[at..at + 2][1];
  }

  lemma Read32(v: nat, s: seq<byte>, at: nat)
    requires v < MAX32 && at + 4 <= |s| && s[at..at + 4] == LE32(v)
    ensures Get32(s, at) == v
  {
    var t := s[at..at + 4];
    assert s[at] == t[0] && s[at + 1] == t[1] && s[at + 2] == t[2] && s[at + 3] == t[3];
    var q := v / 256;
    assert v == 256 * q + v % 256;
    assert v / 65536 == q / 256 && v / 16777216 == q / 256 / 256;
    assert q == 256 * (q / 256) + q % 256;
    var r := q / 256;
    assert r == 256 * (r / 256) + r % 256;
  }

  function Zeros(n: nat): (s: seq<byte>)
    ensures |s| == n && forall i :: 0 <= i < n ==> s[i] == 0
  {
    if n == 0 then [] else Zeros(n - 1) + [0]
  }

  lemma ZerosAre(s: seq<byte>)
    requires forall i :: 0 <= i < |s| ==> s[i] == 0
    ensures s == Zeros(|s|)
  {
  }

  lemma ZerosSplit(m: nat, n: nat)
    ensures Zeros(m + n) == Zeros(m) + Zeros(n)
  {
  }

  /** s with the bytes from `at` on overwritten by t. */
  function Over(s: seq<byte>, at: nat, t: seq<byte>): (r: seq<byte>)
    requires at + |t| <= |s|
    ensures |r| == |s|
  {
    s[..at] + t + s[at + |t|..]
  }

  lemma OverMiddle(a: seq<byte>, b: seq<byte>, c: seq<byte>, t: seq<byte>)
    requires |t| == |b|
    ensures Over(a + b + c, |a|, t) == a + t + c
  {
    assert (a + b + c)[..|a|] == a && (a + b + c)[|a| + |b|..] == c;
  }

  /** A write inside the middle stretch. */
  lemma OverInside(a: seq<byte>, b: seq<byte>, c: seq<byte>, i: nat, t: seq<byte>)
    requires i + |t| <= |b|
    ensures Over(a + b + c, |a| + i, t) == a + Over(b, i, t) + c
  {
    var s := a + b + c;
    assert s[..|a| + i] == a + b[..i];
    assert s[|a| + i + |t|..] == b[i + |t|..] + c;
  }

  lemma Middle(a: seq<byte>, b: seq<byte>, c: seq<byte>)
    ensures (a + b + c)[|a|..|a| + |b|] == b
  {
  }

  lemma OverPointwise(s: seq<byte>, at: nat, t: seq<byte>, r: seq<byte>)
    requires at + |t| <= |s| == |r|
    requires forall j :: 0 <= j < |s| ==> r[j] == if at <= j < at + |t| then t[j - at] else s[j]
    ensures r == Over(s, at, t)
  {
  }

  /** memmove within a buffer, towards either end. */
  method MemMove(b: array<byte>, dst: nat, src: nat, n: nat)
    requires dst + n <= b.Length && src + n <= b.Length
    modifies b
    ensures b[..] == Over(old(b[..]), dst, old(b[src..src + n]))
  {
    hide Over;
    ghost var s := b[..];
    if dst <= src {
      for i := 0 to n
        invariant forall j :: dst <= j < dst + i ==> b[j] == s[src + (j - dst)]
        invariant forall j :: 0 <= j < b.Length && !(dst <= j < dst + i) ==> b[j] == s[j]
      {
        b[dst + i] := b[src + i];
      }
    } else {
      for i := n downto 0
        invariant forall j :: dst + i <= j < dst + n ==> b[j] == s[src + (j - dst)]
        invariant forall j :: 0 <= j < b.Length && !(dst + i <= j < dst + n) ==> b[j] == s[j]
      {
        b[dst + i] := b[src + i];
      }
    }
    OverPointwise(s, dst, s[src..src + n], b[..]);
  }

  method MemClear(b: array<byte>, at: nat, n: nat)
    requires at + n <= b.Length
    modifies b
    ensures b[..] == Over(old(b[..]), at, Zeros(n))
  {
    ghost var s := b[..];
    for i := 0 to n
      invariant forall j :: 0 <= j < b.Length ==> b[j] == if at <= j < at + i then 0 else s[j]
    {
      b[at + i] := 0;
    }
    assert b[..] == Over(s, at, Zeros(n));
  }

  method MemCopy(b: array<byte>, at: nat, t: seq<byte>)
    requires at + |t| <= b.Length
    modifies b
    ensures b[..] == Over(old(b[..]), at, t)
  {
    ghost var s := b[..];
    for i := 0 to |t|
      invariant forall j :: 0 <= j < b.Length ==> b[j] == if at <= j < at + i then t[j - at] else s[j]
    {
      b[at + i] := t[i];
    }
    assert b[..] == Over(s, at, t);
  }

  /** memcmp of two equally long stretches: negative, zero or positive. */
  function MemCmp(s: seq<byte>, t: seq<byte>): (r: int)
    requires |s| == |t|
    ensures r == 0 <==> s == t
  {
    if |s| == 0 then 0
    else if s[0] != t[0] then s[0] - t[0]
    else
      assert s == [s[0]] + s[1..] && t == [t[0]] + t[1..];
      MemCmp(s[1..], t[1..])
  }

  lemma {:induction false} MemCmpSwap(s: seq<byte>, t: seq<byte>)
    requires |s| == |t|
    ensures MemCmp(s, t) < 0 <==> MemCmp(t, s) > 0
  {
    if |s| > 0 {
      MemCmpSwap(s[1..], t[1..]);
    }
  }

  lemma {:induction false} MemCmpOrder(s: seq<byte>, t: seq<byte>, u: seq<byte>)
    requires |s| == |t| == |u| && MemCmp(s, t) < 0 && MemCmp(t, u) < 0
    ensures MemCmp(s, u) < 0
  {
    if |s| > 0 {
      if s[0] == t[0] && t[0] == u[0] {
        MemCmpOrder(s[1..], t[1..], u[1..]);
      }
    }
  }
}
