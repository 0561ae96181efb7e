/**
 Freeing the blocks that hang off a range of pointer slots.
 */
module FreeTree {
  import opened Allocator
  import opened Groups
  import opened Inode
  import opened PointerTree

  // ---------- the device ----------

  /** What the buffers of the device's blocks hold. */
  ghost function Words(dev: seq<array<nat>>): (w: Device)
    reads dev
    ensures |w| == |dev| && forall b :: 0 <= b < |dev| ==> w[b] == dev[b][..]
  {
    if |dev| == 0 then [] else Words(dev[..|dev| - 1]) + [dev[|dev| - 1][..]]
  }

  /** Every block has a buffer of its own, of `ptrs` words. */
  ghost predicate Buffers(dev: seq<array<nat>>, ptrs: nat, alloc: Allocator) {
    && |dev| >= alloc.geo.count
    && (forall b :: 0 <= b < |dev| ==> dev[b].Length == ptrs && dev[b] != alloc.freeCount)
    && (forall b, c :: 0 <= b < c < |dev| ==> dev[b] != dev[c])
  }

  // ---------- what may be freed ----------

  /** Blocks in use, none twice, none of the file system's own. */
  ghost predicate Releasable(alloc: Allocator, f: multiset<int>)
    reads alloc
  {
    NoDup(f) && Elems(f) <= alloc.used && Elems(f) !! alloc.meta
  }

  /** From the state `before` the blocks f were freed and charged back. */
  ghost predicate Released(used: set<int>, blocks: int, used': set<int>, blocks': int, f: multiset<int>) {
    used' == used - Elems(f) && blocks' == blocks - |f|
  }

  // ---------- data blocks ----------

  /** One more slot: its block joins the ones seen so far. */
  lemma NextSlot(w: Device, s: seq<nat>, lv: Level, lo: nat, i: nat, hi: nat)
    requires lo <= i < hi <= |s| && NoDup(Forest(w, s, lv, lo, hi))
    ensures Forest(w, s, lv, lo, i + 1) == Forest(w, s, lv, lo, i) + Tree(w, s[i], Height(lv, i))
    ensures Forest(w, s, lv, lo, i + 1) <= Forest(w, s, lv, lo, hi)
    ensures Elems(Tree(w, s[i], Height(lv, i))) !! Elems(Forest(w, s, lv, lo, i))
    ensures NoDup(Tree(w, s[i], Height(lv, i)))
    ensures s[i] == 0 ==> Forest(w, s, lv, lo, i + 1) == Forest(w, s, lv, lo, i)
  {
    hide Tree;
    ForestSplit(w, s, lv, lo, i + 1, hi);
    DataTree(w, s[i]);
    NoTree(w, Height(lv, i));
    var f, t := Forest(w, s, lv, lo, i), Tree(w, s[i], Height(lv, i));
    SubNoDup(t, Forest(w, s, lv, lo, hi));
    forall b | b in t
      ensures b !in f
    {
      assert (f + t)[b] <= Forest(w, s, lv, lo, hi)[b] <= 1;
    }
  }

  /** The blocks put by for one call of kr_free_blocks. */
  ghost predicate Pending(seen: multiset<int>, used: set<int>, blocks: int, used': set<int>, blocks': int, from: int, n: nat) {
    && Run(from, n) <= Elems(seen)
    && used' == used - (Elems(seen) - Run(from, n))
    && blocks' == blocks - (|seen| - n)
  }

  lemma PendingGrows(seen: multiset<int>, used: set<int>, blocks: int, used': set<int>, blocks': int, from: int, n: nat, nr: nat)
    requires Pending(seen, used, blocks, used', blocks', from, n)
    requires nr !in seen && nr in used && (n == 0 || from + n == nr)
    ensures Pending(seen + multiset{nr}, used, blocks, used', blocks', if n == 0 then nr else from, n + 1)
  {
    hide Run;
    assert Elems(seen + multiset{nr}) == Elems(seen) + {nr};
    assert Run(if n == 0 then nr else from, n + 1) == Run(from, n) + {nr};
  }

  lemma PendingFlushed(seen: multiset<int>, all: multiset<int>, meta: set<int>, used: set<int>, blocks: int,
                       used': set<int>, blocks': int, from: int, n: nat)
    requires Pending(seen, used, blocks, used', blocks', from, n)
    requires Elems(seen) <= Elems(all) && Elems(all) <= used && Elems(all) !! meta
    ensures Run(from, n) <= used' && Run(from, n) !! meta
    ensures Pending(seen, used, blocks, used' - Run(from, n), blocks' - n, from, 0)
    ensures Released(used, blocks, used' - Run(from, n), blocks' - n, seen)
    ensures n == 0 ==> used' - Run(from, n) == used'
  {
    hide Run;
    assert Run(from, 0) == {};
    assert used' - Run(from, n) == used - Elems(seen);
  }

  /** Free a run of blocks all of which are in use by files. */
  method FreeOwned(alloc: Allocator, inode: Inode, from: nat, count: nat)
    requires alloc.Valid() && count > 0 && Run(from, count) <= alloc.used && Run(from, count) !! alloc.meta
    modifies alloc, alloc.bitmaps, alloc.freeCount, inode`blocks
    ensures alloc.Valid() && alloc.misfrees == old(alloc.misfrees)
    ensures alloc.used == old(alloc.used) - Run(from, count) && inode.blocks == old(inode.blocks) - count
  {
    hide Run, Allocator.Valid, Allocator.Freeable;
    alloc.OwnedRunFreed(from, count);
    alloc.FreeBlocks(inode, from, count);
  }

  /** kr_free_data: runs of consecutive block numbers are freed in one go. */
  method FreeData(alloc: Allocator, inode: Inode, p: array<nat>, lo: nat, hi: nat, ghost w: Device, ghost lv: Level)
    requires alloc.Valid() && p != alloc.freeCount && lo <= hi <= p.Length
    requires forall x :: lo <= x < hi ==> Height(lv, x) == 0
    requires Releasable(alloc, Forest(w, p[..], lv, lo, hi))
    modifies p, alloc, alloc.bitmaps, alloc.freeCount, inode`blocks
    ensures alloc.Valid() && alloc.misfrees == old(alloc.misfrees)
    ensures p[..] == Cleared(old(p[..]), lo, hi)
    ensures Released(old(alloc.used), old(inode.blocks), alloc.used, inode.blocks, Forest(w, old(p[..]), lv, lo, hi))
  {
    hide Run, Allocator.Valid, Forest, Tree, Pending, Cleared;
    ghost var s, used, blocks := p[..], alloc.used, inode.blocks;
    ghost var all := Forest(w, s, lv, lo, hi);
    var from: nat, count: nat := 0, 0;
    ClearedNone(s, lo);
    NonePending(w, s, lv, lo, used, blocks);
    for i := lo to hi
      invariant alloc.Valid() && alloc.misfrees == old(alloc.misfrees)
      invariant p[..] == Cleared(s, lo, i)
      invariant Pending(Forest(w, s, lv, lo, i), used, blocks, alloc.used, inode.blocks, from, count)
    {
      NextSlot(w, s, lv, lo, i, hi);
      ClearedNext(s, lo, i);
      ghost var seen := Forest(w, s, lv, lo, i);
      DataTree(w, s[i]);
      SeenInUse(seen, Forest(w, s, lv, lo, i + 1), all, used);
      var nr := p[i];
      assert nr == p[..][i];
      if nr != 0 {
        p[i] := 0;
        if count != 0 && from != nr - count {
          PendingFlushed(seen, all, alloc.meta, used, blocks, alloc.used, inode.blocks, from, count);
          FreeOwned(alloc, inode, from, count);
          count := 0;
        }
        PendingGrows(seen, used, blocks, alloc.used, inode.blocks, from, count, nr);
        if count == 0 {
          from := nr;
        }
        count := count + 1;
      }
    }
    PendingFlushed(all, all, alloc.meta, used, blocks, alloc.used, inode.blocks, from, count);
    if count > 0 {
      FreeOwned(alloc, inode, from, count);
    }
  }

  lemma ClearedNone(s: seq<nat>, lo: nat)
    requires lo <= |s|
    ensures Cleared(s, lo, lo) == s
  {
  }

  lemma ClearedNext(s: seq<nat>, lo: nat, i: nat)
    requires lo <= i < |s|
    ensures Cleared(s, lo, i + 1) == Cleared(s, lo, i)[i := 0]
    ensures Cleared(s, lo, i)[i] == s[i]
    ensures s[i] == 0 ==> Cleared(s, lo, i + 1) == Cleared(s, lo, i)
  {
  }

  lemma NonePending(w: Device, s: seq<nat>, lv: Level, lo: nat, used: set<int>, blocks: int)
    requires lo <= |s|
    ensures Pending(Forest(w, s, lv, lo, lo), used, blocks, used, blocks, 0, 0)
  {
  }

  lemma NoTree(w: Device, h: nat)
    ensures Tree(w, 0, h) == multiset{}
  {
  }

  lemma DataTree(w: Device, nr: nat)
    ensures Tree(w, nr, 0) == if nr == 0 then multiset{} else multiset{nr}
  {
  }

  lemma SeenInUse(seen: multiset<int>, next: multiset<int>, all: multiset<int>, used: set<int>)
    requires seen <= next <= all && Elems(all) <= used
    ensures Elems(seen) <= Elems(next) <= Elems(all) && Elems(next) <= used
  {
  }

  // ---------- branches ----------

  /** Blocks outside `touched` and outside the array p keep their words. */
  ghost predicate WordsKept(dev: seq<array<nat>>, w: Device, touched: multiset<int>, p: array<nat>)
    reads dev
  {
    |w| == |dev| && forall c :: 0 <= c < |dev| && c !in touched && dev[c] != p ==> dev[c][..] == w[c]
  }

  /** What is known when the loop of kr_free_branches meets an indirect block
      nr in slot i, the blocks of the slots before it being freed already. */
  lemma BranchReady(alloc: Allocator, dev: seq<array<nat>>, ptrs: nat, p: array<nat>, w: Device, s: seq<nat>, lv: Level,
                    lo: nat, i: nat, hi: nat, used: set<int>, blocks: int, blocks': int)
    requires lo <= i < hi <= |s| && s[i] != 0
    requires alloc.Valid() && Buffers(dev, ptrs, alloc)
    requires NoDup(Forest(w, s, lv, lo, hi)) && Elems(Forest(w, s, lv, lo, hi)) <= used
    requires Elems(Forest(w, s, lv, lo, hi)) !! alloc.meta
    requires forall b :: b in used ==> b < alloc.geo.count
    requires Released(used, blocks, alloc.used, blocks', Forest(w, s, lv, lo, i))
    requires WordsKept(dev, w, Forest(w, s, lv, lo, i), p)
    requires forall c :: 0 <= c < |dev| && dev[c] == p ==> c !in Forest(w, s, lv, lo, hi)
    ensures var tree := Tree(w, s[i], Height(lv, i));
            && s[i] < |dev| && Releasable(alloc, tree)
            && Tree(Words(dev), s[i], Height(lv, i)) == tree
            && (forall c :: 0 <= c < |dev| && dev[c] == p ==> c !in tree)
  {
    hide Allocator.Valid, Forest, Tree, Words;
    var nr, h := s[i], Height(lv, i);
    NextSlot(w, s, lv, lo, i, hi);
    var tree := Tree(w, nr, h);
    RootInTree(w, nr, h);
    assert tree <= Forest(w, s, lv, lo, i + 1);
    forall b | b in tree
      ensures b in Forest(w, s, lv, lo, hi) && b in alloc.used && b !in alloc.meta && b < |dev|
    {
      assert b in Forest(w, s, lv, lo, i + 1);
      assert b in Elems(tree) && b in Elems(Forest(w, s, lv, lo, hi));
    }
    assert nr in tree;
    TreeFrame(w, Words(dev), nr, h);
  }

  lemma ReleasedMore(used: set<int>, blocks: int, used1: set<int>, blocks1: int, used2: set<int>, blocks2: int,
                     f: multiset<int>, g: multiset<int>)
    requires Released(used, blocks, used1, blocks1, f) && Released(used1, blocks1, used2, blocks2, g)
    ensures Released(used, blocks, used2, blocks2, f + g)
  {
    assert Elems(f + g) == Elems(f) + Elems(g);
  }

  /** Free an indirect block that is no longer linked, with all below it. */
  method FreeIndirect(alloc: Allocator, inode: Inode, dev: seq<array<nat>>, ptrs: nat, nr: nat, depth: nat)
    requires alloc.Valid() && Buffers(dev, ptrs, alloc)
    requires depth > 0 && 0 < nr < |dev| && Releasable(alloc, Tree(Words(dev), nr, depth))
    modifies dev, alloc, alloc.bitmaps, alloc.freeCount, inode`blocks
    ensures alloc.Valid() && alloc.misfrees == old(alloc.misfrees)
    ensures var f := old(Tree(Words(dev), nr, depth));
            && Released(old(alloc.used), old(inode.blocks), alloc.used, inode.blocks, f)
            && forall c :: 0 <= c < |dev| && c !in f ==> dev[c][..] == old(dev[c][..])
    decreases depth, 0
  {
    hide Allocator.Valid, Forest, Tree, Words, Cleared, Run, Released;
    ghost var w, used, blocks := Words(dev), alloc.used, inode.blocks;
    ghost var below := All(w, w[nr], Node(depth - 1));
    RootInTree(w, nr, depth);
    BelowReady(alloc, w, nr, depth, below);
    assert dev[nr][..] == w[nr];
    FreeBranches(alloc, inode, dev, ptrs, dev[nr], 0, ptrs, depth - 1, Node(depth - 1));
    ghost var used1, blocks1 := alloc.used, inode.blocks;
    StillUsed(used, blocks, used1, blocks1, below, nr, alloc.meta);
    FreeOwned(alloc, inode, nr, 1);
    OneReleased(used1, blocks1, nr);
    ReleasedMore(used, blocks, used1, blocks1, alloc.used, inode.blocks, below, multiset{nr});
    assert below + multiset{nr} == multiset{nr} + below;
  }

  lemma BelowReady(alloc: Allocator, w: Device, nr: nat, depth: nat, below: multiset<int>)
    requires Releasable(alloc, multiset{nr} + below)
    ensures Releasable(alloc, below) && nr !in below && nr in alloc.used && nr !in alloc.meta
  {
    var t := multiset{nr} + below;
    SubNoDup(below, t);
    assert t[nr] <= 1 && nr in t && nr in Elems(t);
    forall b | b in below
      ensures b in Elems(t)
    {
    }
  }

  lemma OneReleased(used: set<int>, blocks: int, nr: nat)
    ensures Released(used, blocks, used - Run(nr, 1), blocks - 1, multiset{nr})
  {
    assert Elems(multiset{nr}) == Run(nr, 1);
  }

  /** kr_free_branches: free everything below the slots [lo, hi) of p, all of
      height `depth`, and clear them. `p` is a block's buffer, an inode's list
      of roots, or a single slot already cut off. */
  method FreeBranches(alloc: Allocator, inode: Inode, dev: seq<array<nat>>, ptrs: nat,
                      p: array<nat>, lo: nat, hi: nat, depth: nat, ghost lv: Level)
    requires alloc.Valid() && Buffers(dev, ptrs, alloc) && p != alloc.freeCount
    requires lo <= hi <= p.Length && forall x :: lo <= x < hi ==> Height(lv, x) == depth
    requires Releasable(alloc, Forest(Words(dev), p[..], lv, lo, hi))
    requires forall c :: 0 <= c < |dev| && dev[c] == p ==> c !in Forest(Words(dev), p[..], lv, lo, hi)
    modifies p, dev, alloc, alloc.bitmaps, alloc.freeCount, inode`blocks
    ensures alloc.Valid() && alloc.misfrees == old(alloc.misfrees)
    ensures p[..] == Cleared(old(p[..]), lo, hi)
    ensures var f := old(Forest(Words(dev), p[..], lv, lo, hi));
            && Released(old(alloc.used), old(inode.blocks), alloc.used, inode.blocks, f)
            && WordsKept(dev, old(Words(dev)), f, p)
    decreases depth, 1
  {
    hide Allocator.Valid, Forest, Tree, Words, Cleared, Run, Released;
    ghost var w, s, used, blocks := Words(dev), p[..], alloc.used, inode.blocks;
    if depth == 0 {
      FreeData(alloc, inode, p, lo, hi, w, lv);
      return;
    }
    ghost var all := Forest(w, s, lv, lo, hi);
    ClearedNone(s, lo);
    NothingReleased(w, s, lv, lo, used, blocks);
    InUseBelowEnd(alloc);
    for i := lo to hi
      invariant alloc.Valid() && alloc.misfrees == old(alloc.misfrees)
      invariant p[..] == Cleared(s, lo, i)
      invariant Released(used, blocks, alloc.used, inode.blocks, Forest(w, s, lv, lo, i))
      invariant WordsKept(dev, w, Forest(w, s, lv, lo, i), p)
    {
      ClearedNext(s, lo, i);
      NextSlot(w, s, lv, lo, i, hi);
      var nr := p[i];
      assert nr == p[..][i];
      if nr != 0 {
        p[i] := 0;
        BranchReady(alloc, dev, ptrs, p, w, s, lv, lo, i, hi, used, blocks, inode.blocks);
        ghost var now, used1, blocks1 := Words(dev), alloc.used, inode.blocks;
        FreeIndirect(alloc, inode, dev, ptrs, nr, depth);
        assert p[..] == Cleared(s, lo, i + 1);
        ReleasedMore(used, blocks, used1, blocks1, alloc.used, inode.blocks,
                     Forest(w, s, lv, lo, i), Tree(w, nr, depth));
      }
    }
  }

  lemma NothingReleased(w: Device, s: seq<nat>, lv: Level, lo: nat, used: set<int>, blocks: int)
    requires lo <= |s|
    ensures Released(used, blocks, used, blocks, Forest(w, s, lv, lo, lo))
  {
  }

  lemma InUseBelowEnd(alloc: Allocator)
    requires alloc.Valid()
    ensures forall b :: b in alloc.used ==> alloc.geo.first <= b < alloc.geo.count
  {
  }

  lemma StillUsed(used1: set<int>, blocks1: int, used2: set<int>, blocks2: int, below: multiset<int>, nr: nat, meta: set<int>)
    requires Released(used1, blocks1, used2, blocks2, below) && nr in used1 && nr !in below && nr !in meta
    ensures Run(nr, 1) == {nr} && Run(nr, 1) <= used2 && Run(nr, 1) !! meta
  {
  }
}
