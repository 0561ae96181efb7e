/**
 The largest file: every block of a file within kr_max_size can be addressed,
 and its data and indirect blocks do not overflow the 32-bit count of sectors.
 */
module MaxSize {
  import opened Arith
  import opened BlockPath

  const SECTORS_MAX: nat := 0xFFFF_FFFF

  /** kr_max_size for blocks of 2^bits bytes; `maxLfs` is the limit of the page cache. */
  function MaxSize(bits: nat, maxLfs: nat): int
    requires bits >= 9
  {
    var ptrs := Pow2(bits - 2);
    var meta := 1 + (1 + ptrs) + (1 + ptrs + ptrs * ptrs);
    var upper := (SECTORS_MAX / Pow2(bits - 9) - meta) * Pow2(bits);
    var res := (NDIR_BLOCKS + ptrs + ptrs * ptrs + ptrs * ptrs * ptrs) * Pow2(bits);
    var least := if res > upper then upper else res;
    if least > maxLfs then maxLfs else least
  }

  /** The blocks that a file of that size takes up. */
  function Blocks(size: nat, bits: nat): nat {
    (size + Pow2(bits) - 1) / Pow2(bits)
  }

  /** The indirect blocks on the way to a file's first n blocks. */
  ghost function Nodes(ptrs: nat, n: nat): set<seq<nat>>
    requires ptrs >= 16
  {
    set b, l | 0 <= b < n && 0 < l < |BlockToPath(ptrs, b).offsets| :: BlockToPath(ptrs, b).offsets[..l]
  }

  ghost function Row(prefix: seq<nat>, n: nat): (r: set<seq<nat>>)
    ensures |r| <= n
  {
    if n == 0 then {} else Row(prefix, n - 1) + {prefix + [n - 1]}
  }

  /** All there can be two levels below some slot. */
  ghost function Grid(prefix: seq<nat>, m: nat, n: nat): (r: set<seq<nat>>)
    ensures |r| <= m * n
  {
    if m == 0 then {} else
      assert m * n == (m - 1) * n + n;
      Grid(prefix, m - 1, n) + Row(prefix + [m - 1], n)
  }

  lemma {:induction false} InRow(prefix: seq<nat>, i: nat, n: nat)
    requires i < n
    ensures prefix + [i] in Row(prefix, n)
    decreases n
  {
    if i < n - 1 {
      InRow(prefix, i, n - 1);
    }
  }

  lemma {:induction false} InGrid(prefix: seq<nat>, i: nat, j: nat, m: nat, n: nat)
    requires i < m && j < n
    ensures prefix + [i] + [j] in Grid(prefix, m, n)
    decreases m
  {
    if i < m - 1 {
      InGrid(prefix, i, j, m - 1, n);
    } else {
      InRow(prefix + [i], j, n);
    }
  }

  /** All indirect blocks that there can be. */
  ghost function AllNodes(ptrs: nat): set<seq<nat>> {
    {[IND_BLOCK]} + {[DIND_BLOCK]} + {[TIND_BLOCK]}
    + Row([DIND_BLOCK], ptrs) + Row([TIND_BLOCK], ptrs) + Grid([TIND_BLOCK], ptrs, ptrs)
  }

  lemma AllNodesSize(ptrs: nat)
    ensures |AllNodes(ptrs)| <= 1 + (1 + ptrs) + (1 + ptrs + ptrs * ptrs)
  {
    hide Row, Grid;
    var a: set<seq<nat>> := {[IND_BLOCK]} + {[DIND_BLOCK]} + {[TIND_BLOCK]};
    AtMost(a, Row([DIND_BLOCK], ptrs));
    AtMost(a + Row([DIND_BLOCK], ptrs), Row([TIND_BLOCK], ptrs));
    AtMost(a + Row([DIND_BLOCK], ptrs) + Row([TIND_BLOCK], ptrs), Grid([TIND_BLOCK], ptrs, ptrs));
    AtMost({[IND_BLOCK]}, {[DIND_BLOCK]});
    AtMost({[IND_BLOCK]} + {[DIND_BLOCK]}, {[TIND_BLOCK]});
  }

  lemma AtMost(a: set<seq<nat>>, b: set<seq<nat>>)
    ensures |a + b| <= |a| + |b|
  {
  }

  /** No file has more indirect blocks than one that uses all three roots. */
  lemma NodesBound(ptrs: nat, n: nat)
    requires ptrs >= 16
    ensures |Nodes(ptrs, n)| <= 1 + (1 + ptrs) + (1 + ptrs + ptrs * ptrs)
  {
    hide BlockToPath, AllNodes;
    forall p | p in Nodes(ptrs, n)
      ensures p in AllNodes(ptrs)
    {
      var b, l :| 0 <= b < n && 0 < l < |BlockToPath(ptrs, b).offsets| && p == BlockToPath(ptrs, b).offsets[..l];
      NodeKind(ptrs, b, l);
    }
    Subset(Nodes(ptrs, n), AllNodes(ptrs));
    AllNodesSize(ptrs);
  }

  lemma NodeKind(ptrs: nat, b: nat, l: nat)
    requires ptrs >= 16 && 0 < l < |BlockToPath(ptrs, b).offsets|
    ensures BlockToPath(ptrs, b).offsets[..l] in AllNodes(ptrs)
  {
    hide BlockToPath, PathToBlock, Capacity, AllNodes;
    PathOfBlock(ptrs, b);
    PrefixKind(ptrs, BlockToPath(ptrs, b).offsets, l);
  }

  lemma PrefixKind(ptrs: nat, q: seq<nat>, l: nat)
    requires ValidPath(ptrs, q) && 0 < l < |q|
    ensures q[..l] in AllNodes(ptrs)
  {
    hide Row, Grid;
    if l == 1 {
      assert q[..l] == [q[0]];
    } else if l == 2 {
      InRow([q[0]], q[1], ptrs);
      assert q[..l] == [q[0]] + [q[1]];
    } else {
      InGrid([TIND_BLOCK], q[1], q[2], ptrs, ptrs);
      assert q[..l] == [TIND_BLOCK] + [q[1]] + [q[2]];
    }
  }

  lemma {:induction false} Subset(a: set<seq<nat>>, b: set<seq<nat>>)
    requires a <= b
    ensures |a| <= |b|
    decreases |a|
  {
    if a != {} {
      var x :| x in a;
      Subset(a - {x}, b - {x});
    }
  }

  /** For 1K, 2K and 4K blocks, every file of at most kr_max_size bytes: all its
      blocks can be addressed, and data and indirect blocks together are at most
      2^32 - 1 sectors. */
  lemma WithinMaxSize(bits: nat, maxLfs: nat, size: nat)
    requires 10 <= bits <= 12 && size <= MaxSize(bits, maxLfs)
    ensures var ptrs, n := Pow2(bits - 2), Blocks(size, bits);
            && 16 <= ptrs
            && (forall b :: 0 <= b < n ==> BlockToPath(ptrs, b).offsets != [])
            && (n + |Nodes(ptrs, n)|) * Pow2(bits - 9) <= SECTORS_MAX
  {
    hide BlockToPath, Nodes;
    Powers();
    var ptrs, n := Pow2(bits - 2), Blocks(size, bits);
    NodesBound(ptrs, n);
    forall b | 0 <= b < n
      ensures BlockToPath(ptrs, b).offsets != []
    {
      PathOfBlock(ptrs, b);
    }
  }

  lemma Powers()
    ensures Pow2(1) == 2 && Pow2(2) == 4 && Pow2(3) == 8 && Pow2(8) == 256 && Pow2(9) == 512
    ensures Pow2(10) == 1024 && Pow2(11) == 2048 && Pow2(12) == 4096
  {
    assert Pow2(4) == 16 && Pow2(5) == 32 && Pow2(6) == 64 && Pow2(7) == 128;
  }

  /** It is the largest such size: it is the page cache's limit, or that of the
      blocks that can be addressed, or one block more would be too many sectors
      in a file that has all indirect blocks there can be. */
  lemma LargestSize(bits: nat, maxLfs: nat)
    requires 10 <= bits <= 12
    ensures var size, ptrs, bs := MaxSize(bits, maxLfs), Pow2(bits - 2), Pow2(bits);
            && 0 <= size <= maxLfs && size <= Capacity(ptrs) * bs
            && (|| size == maxLfs || size == Capacity(ptrs) * bs
                || (size % bs == 0 && (size / bs + 1 + 1 + (1 + ptrs) + (1 + ptrs + ptrs * ptrs)) * Pow2(bits - 9) > SECTORS_MAX))
  {
    Powers();
  }

  /** With blocks of 32K or 64K the room for indirect blocks alone exceeds the
      count of sectors: the function was not meant for these. */
  lemma NotForLargeBlocks(maxLfs: nat)
    ensures MaxSize(15, maxLfs) < 0 && MaxSize(16, maxLfs) < 0
  {
    Powers();
    assert Pow2(13) == 8192 && Pow2(14) == 16384 && Pow2(15) == 32768 && Pow2(16) == 65536;
  }
}
