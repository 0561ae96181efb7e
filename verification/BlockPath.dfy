/**
 The translation of a logical block number into the list of slots that leads
 to it in an inode's tree of block pointers, and back.
 */
module BlockPath {
  import opened Arith

  const NDIR_BLOCKS: nat := 12
  const IND_BLOCK: nat := 12
  const DIND_BLOCK: nat := 13
  const TIND_BLOCK: nat := 14
  const N_BLOCKS: nat := 15

  /** What kr_block_to_path hands back: the slots, and how many further blocks
      share all slots but the last. */
  datatype Path = Path(offsets: seq<nat>, boundary: int)

  /** `ptrs` is a power of two in the source, so its shifts and masks are the
      division and the (Euclidean) remainder below. An empty list of offsets is
      the source's depth 0. */
  function BlockToPath(ptrs: nat, block: int): (r: Path)
    requires ptrs >= 16
  {
    if block < 0 then
      Path([], 0 - 1 - block % ptrs)
    else if block < NDIR_BLOCKS then
      Path([block], NDIR_BLOCKS - 1 - block % ptrs)
    else
      var b1 := block - NDIR_BLOCKS;
      if b1 < ptrs then
        Path([IND_BLOCK, b1], ptrs - 1 - b1 % ptrs)
      else
        var b2 := b1 - ptrs;
        if b2 < ptrs * ptrs then
          DivBound(b2, ptrs, ptrs);
          Path([DIND_BLOCK, b2 / ptrs, b2 % ptrs], ptrs - 1 - b2 % ptrs)
        else
          var b3 := b2 - ptrs * ptrs;
          Digits(b3, ptrs);
          DivBound(b3, ptrs * ptrs, ptrs);
          DivBound(b3, ptrs, 0);
          if b3 / (ptrs * ptrs) < ptrs then
            Path([TIND_BLOCK, b3 / (ptrs * ptrs), (b3 / ptrs) % ptrs, b3 % ptrs],
                 ptrs - 1 - b3 % ptrs)
          else
            Path([], 0 - 1 - b3 % ptrs)
  }

  /** Number of logical blocks that have a path. */
  function Capacity(ptrs: nat): nat {
    NDIR_BLOCKS + ptrs + ptrs * ptrs + ptrs * ptrs * ptrs
  }

  /** The slot lists that name a place in the pointer tree. */
  predicate ValidPath(ptrs: nat, p: seq<nat>) {
    && 1 <= |p| <= 4
    && (if |p| == 1 then p[0] < NDIR_BLOCKS else p[0] == NDIR_BLOCKS + |p| - 2)
    && forall i :: 1 <= i < |p| ==> p[i] < ptrs
  }

  function TwoDigits(p: nat, high: nat, low: nat): nat {
    high * p + low
  }

  /** Independent reading of a slot list: the logical block it addresses. */
  function PathToBlock(ptrs: nat, p: seq<nat>): nat
    requires ValidPath(ptrs, p)
  {
    if |p| == 1 then p[0]
    else if |p| == 2 then NDIR_BLOCKS + p[1]
    else if |p| == 3 then NDIR_BLOCKS + ptrs + TwoDigits(ptrs, p[1], p[2])
    else NDIR_BLOCKS + ptrs + ptrs * ptrs + TwoDigits(ptrs, TwoDigits(ptrs, p[1], p[2]), p[3])
  }

  predicate LexLess(a: seq<nat>, b: seq<nat>) {
    |b| > 0 && (|a| == 0 || a[0] < b[0] || (a[0] == b[0] && LexLess(a[1..], b[1..])))
  }

  /** Every block below the capacity has a valid path, that path addresses the
      block, and every other number has none. */
  lemma PathOfBlock(ptrs: nat, block: int)
    requires ptrs >= 16
    ensures BlockToPath(ptrs, block).offsets != [] <==> 0 <= block < Capacity(ptrs)
    ensures 0 <= block < Capacity(ptrs) ==>
              ValidPath(ptrs, BlockToPath(ptrs, block).offsets) &&
              PathToBlock(ptrs, BlockToPath(ptrs, block).offsets) == block
  {
    if block >= NDIR_BLOCKS + ptrs {
      var b2 := block - NDIR_BLOCKS - ptrs;
      if b2 < ptrs * ptrs {
        DivBound(b2, ptrs, ptrs);
        DivMod(b2, ptrs);
      } else {
        var b3 := b2 - ptrs * ptrs;
        Digits(b3, ptrs);
        DivBound(b3, ptrs * ptrs, ptrs);
        CubeAssoc(ptrs);
      }
    } else {
      CubeAssoc(ptrs);
    }
  }

  lemma CubeAssoc(p: nat)
    ensures p * (p * p) == p * p * p >= 0
    ensures p * p >= 0
  {
  }

  /** Every valid path is the path of exactly the block it addresses. */
  lemma BlockOfPath(ptrs: nat, p: seq<nat>)
    requires ptrs >= 16 && ValidPath(ptrs, p)
    ensures PathToBlock(ptrs, p) < Capacity(ptrs)
    ensures BlockToPath(ptrs, PathToBlock(ptrs, p)).offsets == p
  {
    CubeAssoc(ptrs);
    if |p| == 3 {
      TwoDigitsBound(ptrs, p[1], p[2], ptrs);
      DivUnique(TwoDigits(ptrs, p[1], p[2]), ptrs, p[1], p[2]);
    } else if |p| == 4 {
      var y := TwoDigits(ptrs, p[1], p[2]);
      var b3 := TwoDigits(ptrs, y, p[3]);
      TwoDigitsBound(ptrs, p[1], p[2], ptrs);
      TwoDigitsBound(ptrs, y, p[3], ptrs * ptrs);
      DivUnique(y, ptrs, p[1], p[2]);
      DivUnique(b3, ptrs, y, p[3]);
      Digits(b3, ptrs);
    }
  }

  lemma TwoDigitsBound(p: nat, high: nat, low: nat, bound: nat)
    requires high < bound && low < p
    ensures TwoDigits(p, high, low) < bound * p
  {
    Weigh(p, high, low, bound, 0);
  }

  /** The translation preserves order: a smaller block has the
      lexicographically smaller path. */
  lemma PathOrder(ptrs: nat, i: nat, j: nat)
    requires ptrs >= 16 && i < Capacity(ptrs) && j < Capacity(ptrs)
    ensures i < j <==> LexLess(BlockToPath(ptrs, i).offsets, BlockToPath(ptrs, j).offsets)
  {
    PathOfBlock(ptrs, i);
    PathOfBlock(ptrs, j);
    var a, b := BlockToPath(ptrs, i).offsets, BlockToPath(ptrs, j).offsets;
    LexOrder(ptrs, a, b);
  }

  lemma LexOrder(ptrs: nat, a: seq<nat>, b: seq<nat>)
    requires ptrs >= 16 && ValidPath(ptrs, a) && ValidPath(ptrs, b)
    ensures PathToBlock(ptrs, a) < PathToBlock(ptrs, b) <==> LexLess(a, b)
  {
    BlockOfPath(ptrs, a);
    BlockOfPath(ptrs, b);
    LexUnfold(a, b);
    if |a| == |b| {
      if |a| == 3 {
        Weigh(ptrs, a[1], a[2], b[1], b[2]);
      } else if |a| == 4 {
        Weigh(ptrs, a[1], a[2], b[1], b[2]);
        Weigh(ptrs, TwoDigits(ptrs, a[1], a[2]), a[3], TwoDigits(ptrs, b[1], b[2]), b[3]);
      }
    } else {
      Band(ptrs, a);
      Band(ptrs, b);
    }
  }

  /** The four depths occupy four consecutive bands of block numbers. */
  lemma Band(ptrs: nat, p: seq<nat>)
    requires ptrs >= 16 && ValidPath(ptrs, p)
    ensures |p| == 1 ==> PathToBlock(ptrs, p) < NDIR_BLOCKS
    ensures |p| == 2 ==> NDIR_BLOCKS <= PathToBlock(ptrs, p) < NDIR_BLOCKS + ptrs
    ensures |p| == 3 ==> NDIR_BLOCKS + ptrs <= PathToBlock(ptrs, p) < NDIR_BLOCKS + ptrs + ptrs * ptrs
    ensures |p| == 4 ==> NDIR_BLOCKS + ptrs + ptrs * ptrs <= PathToBlock(ptrs, p)
  {
    CubeAssoc(ptrs);
    if |p| == 3 {
      TwoDigitsBound(ptrs, p[1], p[2], ptrs);
    }
  }

  lemma LexUnfold(a: seq<nat>, b: seq<nat>)
    requires 1 <= |a| <= 4 && 1 <= |b| <= 4
    ensures |a| != |b| && a[0] != b[0] ==> (LexLess(a, b) <==> a[0] < b[0])
    ensures |a| == |b| ==>
              (LexLess(a, b) <==>
               a[0] < b[0] || (a[0] == b[0] && |a| > 1 && (a[1] < b[1] ||
               (a[1] == b[1] && |a| > 2 && (a[2] < b[2] ||
               (a[2] == b[2] && |a| > 3 && a[3] < b[3]))))))
  {
    if |a| == |b| {
      var a1, b1 := a[1..], b[1..];
      if |a| > 1 {
        var a2, b2 := a1[1..], b1[1..];
        if |a| > 2 {
          var a3, b3 := a2[1..], b2[1..];
          if |a| > 3 {
            assert LexLess(a3, b3) <==> a3[0] < b3[0] || (a3[0] == b3[0] && LexLess(a3[1..], b3[1..]));
          }
        }
      }
    }
  }

  lemma LastOffset(ptrs: nat, block: nat)
    requires ptrs >= 16 && block < Capacity(ptrs)
    ensures var r := BlockToPath(ptrs, block);
            var n := |r.offsets|;
            n > 0 && r.boundary == (if n == 1 then NDIR_BLOCKS else ptrs) - 1 - r.offsets[n - 1]
  {
    PathOfBlock(ptrs, block);
    if block < NDIR_BLOCKS {
      DivUnique(block, ptrs, 0, block);
    } else if block < NDIR_BLOCKS + ptrs {
      DivUnique(block - NDIR_BLOCKS, ptrs, 0, block - NDIR_BLOCKS);
    }
  }

  lemma NextInSameNode(ptrs: nat, p: seq<nat>, j: nat)
    requires ValidPath(ptrs, p)
    requires p[|p| - 1] + j < (if |p| == 1 then NDIR_BLOCKS else ptrs)
    ensures ValidPath(ptrs, p[|p| - 1 := p[|p| - 1] + j])
    ensures PathToBlock(ptrs, p[|p| - 1 := p[|p| - 1] + j]) == PathToBlock(ptrs, p) + j
  {
  }

  /** The next `boundary` blocks sit in the slots right after this one in the
      same pointer block, and the block after them does not. */
  lemma BoundaryRun(ptrs: nat, block: nat, j: nat)
    requires ptrs >= 16 && block < Capacity(ptrs)
    ensures var r := BlockToPath(ptrs, block);
            var n := |r.offsets|;
            && n > 0
            && 0 <= r.boundary
            && (j <= r.boundary ==>
                  && block + j < Capacity(ptrs)
                  && BlockToPath(ptrs, block + j).offsets == r.offsets[n - 1 := r.offsets[n - 1] + j]
                  && BlockToPath(ptrs, block + j).boundary == r.boundary - j)
            && (j == r.boundary + 1 ==>
                  BlockToPath(ptrs, block + j).offsets != r.offsets[n - 1 := r.offsets[n - 1] + j])
  {
    hide BlockToPath, PathToBlock, Capacity;
    var r := BlockToPath(ptrs, block);
    var p := r.offsets;
    PathOfBlock(ptrs, block);
    LastOffset(ptrs, block);
    var q := p[|p| - 1 := p[|p| - 1] + j];
    if j <= r.boundary {
      NextInSameNode(ptrs, p, j);
      BlockOfPath(ptrs, q);
      LastOffset(ptrs, block + j);
    } else if j == r.boundary + 1 {
      PathOfBlock(ptrs, block + j);
      assert q[|p| - 1] == if |p| == 1 then NDIR_BLOCKS else ptrs;
    }
  }
}
