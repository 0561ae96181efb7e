/**
 Truncating a file: the partially cut branch is found and its top detached,
 then everything from the first block to go onwards is freed.
 */
module Truncate {
  import opened Allocator
  import opened Arith
  import opened BlockPath
  import opened Branch
  import opened CutPath
  import opened FileMap
  import opened FreeTree
  import opened Inode
  import opened PointerTree
  import opened Reservation

  /** all_zeroes: nothing in the slots [0, n). */
  method AllZeroes(p: array<nat>, n: nat) returns (r: bool)
    requires n <= p.Length
    ensures r <==> forall x :: 0 <= x < n ==> p[x] == 0
  {
    for x := 0 to n
      invariant forall y :: 0 <= y < x ==> p[y] == 0
    {
      if p[x] != 0 {
        return false;
      }
    }
    return true;
  }

  /** From (w, s) to (v, t) just the slot q[j] of the node at q[..j] was cleared. */
  ghost predicate SlotCleared(w: Device, s: seq<nat>, v: Device, t: seq<nat>, q: seq<nat>, j: nat)
    requires j < |q|
  {
    if j == 0 then
      v == w && q[0] < |s| && t == Cleared(s, q[0], q[0] + 1)
    else
      var b := Lookup(w, s, q[..j]);
      t == s && b < |w| && q[j] < |w[b]| && v == w[b := Cleared(w[b], q[j], q[j] + 1)]
  }

  /** What the search for the shared part of the branch along q leaves behind:
      the walk down to the last node that survives, and the cut-off top. Either
      the walk's last slot was moved one to the left instead of detaching
      anything, or the slot was cleared and `top` is what it held. */
  ghost predicate Found(fs: FileSystem, inode: Inode, w: Device, s: seq<nat>, v: Device, t: seq<nat>,
                        q: seq<nat>, chain: seq<Indirect>, top: nat, shifted: bool) {
    && 1 <= |chain| <= |q| && (!shifted ==> |chain| < |q|)
    && var j := |chain| - 1;
       && NothingBefore(fs.ptrs, w, s, q, j)
       && (forall i :: 0 < i <= j ==>
             0 < Lookup(w, s, q[..i]) < |fs.dev| && chain[i].p == fs.dev[Lookup(w, s, q[..i])])
       && (forall i :: 0 <= i < j ==> chain[i].slot == q[i])
       && (j > 0 ==> HasPointer(q[j], w, s, q[..j]))
       && (if shifted then
             j > 0 && top == 0 && chain[j].slot + 1 == q[j] && v == w && t == s
           else
             chain[j].slot == q[j] && top == Lookup(w, s, q[..j + 1]) && SlotCleared(w, s, v, t, q, j))
  }

  /** The walk back from level `from` to `to` met only empty slots to the left. */
  ghost predicate EmptyLeft(w: Device, s: seq<nat>, q: seq<nat>, to: nat, from: nat)
    requires from < |q|
  {
    forall i, x: nat :: to < i <= from && x < q[i] ==> Lookup(w, s, q[..i] + [x]) == 0
  }

  lemma NoneLeft(w: Device, s: seq<nat>, q: seq<nat>, m: nat)
    requires m < |q|
    ensures EmptyLeft(w, s, q, m, m)
  {
  }

  lemma MappedBefore(ptrs: nat, w: Device, s: seq<nat>, q: seq<nat>, k: nat, m: nat, j: nat)
    requires ptrs >= 16 && ValidPath(ptrs, q) && j <= m < k <= |q|
    requires forall t :: k <= t < |q| ==> q[t] == 0
    requires m < k - 1 ==> Lookup(w, s, q[..m + 1]) == 0
    requires EmptyLeft(w, s, q, j, m)
    ensures NothingBefore(ptrs, w, s, q, j)
  {
    hide Lookup;
    NothingMappedBefore(ptrs, w, s, q, k, m, j);
  }

  lemma SomethingLeft(q: seq<nat>, j: nat, w: Device, s: seq<nat>)
    requires j < |q| && HasPointer(q[j], w, s, q[..j])
    ensures q[j] > 0
  {
  }

  /** Is the node that the walk met at level j empty to the left of its slot? */
  method LeftIsEmpty(fs: FileSystem, inode: Inode, q: seq<nat>, walk: seq<Indirect>, j: nat, ghost m: nat)
    returns (empty: bool)
    requires fs.Ready() && fs.Holds(inode) && ValidPath(fs.ptrs, q) && j <= m < |walk|
    requires Chain(fs, inode, Words(fs.dev), inode.data[..], q, walk)
    ensures empty ==> j > 0
    ensures empty && EmptyLeft(Words(fs.dev), inode.data[..], q, j, m) ==>
              EmptyLeft(Words(fs.dev), inode.data[..], q, j - 1, m)
    ensures !empty && j > 0 ==> HasPointer(q[j], Words(fs.dev), inode.data[..], q[..j])
  {
    hide Forest, Tree, Words, Lookup, Allocator.Valid;
    if j == 0 {
      return false;
    }
    NodeSlot(fs, inode, q, j);
    empty := AllZeroes(walk[j].p, walk[j].slot);
    ghost var b := fs.At(inode, q[..j]);
    if empty {
      forall x: nat | x < q[j]
        ensures Lookup(Words(fs.dev), inode.data[..], q[..j] + [x]) == 0
      {
        assert fs.At(inode, q[..j] + [x]) == fs.dev[b][x];
      }
    } else {
      ghost var x: nat :| x < q[j] && fs.dev[b][x] != 0;
      assert fs.At(inode, q[..j] + [x]) == fs.dev[b][x];
    }
  }

  /** The nodes of a walk are those of the device. */
  lemma BranchNodes(fs: FileSystem, inode: Inode, w: Device, s: seq<nat>, q: seq<nat>, walk: seq<Indirect>, j: nat)
    requires Chain(fs, inode, w, s, q, walk) && j < |walk|
    ensures forall i :: 0 < i <= j ==>
              0 < Lookup(w, s, q[..i]) < |fs.dev| && walk[i].p == fs.dev[Lookup(w, s, q[..i])]
    ensures forall i :: 0 <= i <= j ==> walk[i].slot == q[i] && walk[i].key == Lookup(w, s, q[..i + 1])
  {
  }

  /** Detach what hangs off the slot that the walk met at level j. */
  method ClearOneSlot(fs: FileSystem, inode: Inode, q: seq<nat>, walk: seq<Indirect>, j: nat)
    requires fs.Ready() && fs.Holds(inode) && ValidPath(fs.ptrs, q) && j < |walk|
    requires Chain(fs, inode, Words(fs.dev), inode.data[..], q, walk)
    modifies fs.dev, inode.data
    ensures SlotCleared(old(Words(fs.dev)), old(inode.data[..]), Words(fs.dev), inode.data[..], q, j)
  {
    hide Forest, Tree, Words, Lookup, Allocator.Valid, Cleared;
    FirstSlot(fs, inode, q);
    ghost var w, s := Words(fs.dev), inode.data[..];
    if j == 0 {
      ClearedNone(s, q[0]);
      ClearedNext(s, q[0], q[0]);
      walk[0].p[walk[0].slot] := 0;
      assert Words(fs.dev) == w;
    } else {
      NodeSlot(fs, inode, q, j);
      ghost var b := fs.At(inode, q[..j]);
      assert walk[j].p == fs.dev[b];
      ClearedNone(w[b], q[j]);
      ClearedNext(w[b], q[j], q[j]);
      walk[j].p[walk[j].slot] := 0;
      assert fs.dev[b][..] == Cleared(w[b], q[j], q[j] + 1);
      assert Words(fs.dev) == w[b := Cleared(w[b], q[j], q[j] + 1)];
    }
  }

  /** The walk along q and the level j of the last node on it that survives. */
  method FindLast(fs: FileSystem, inode: Inode, n: nat, q: seq<nat>) returns (k: nat, walk: seq<Indirect>, j: nat)
    requires fs.Ready() && fs.Holds(inode) && ValidPath(fs.ptrs, q) && n == |q| >= 2
    ensures Chain(fs, inode, Words(fs.dev), inode.data[..], q, walk) && j < |walk| <= k <= n
    ensures NothingBefore(fs.ptrs, Words(fs.dev), inode.data[..], q, j)
    ensures j > 0 ==> HasPointer(q[j], Words(fs.dev), inode.data[..], q[..j])
  {
    hide Forest, Tree, Words, Lookup, Allocator.Valid, NothingBefore, HasPointer, EmptyLeft;
    ghost var w, s := Words(fs.dev), inode.data[..];
    k := n;
    while k > 1 && q[k - 1] == 0
      invariant 1 <= k <= n && forall t :: k <= t < n ==> q[t] == 0
    {
      k := k - 1;
    }
    var complete;
    walk, complete := GetBranch(fs, inode, k, q);
    var m := |walk| - 1;
    ChainHolds(fs, inode, q, walk);
    if walk[m].key == 0 && walk[m].p[walk[m].slot] != 0 {
      assert false; // only another thread could have continued the branch
    }
    j := m;
    NoneLeft(w, s, q, m);
    var empty := LeftIsEmpty(fs, inode, q, walk, j, m);
    while empty
      invariant 0 <= j <= m && EmptyLeft(w, s, q, j, m)
      invariant empty ==> j > 0 && EmptyLeft(w, s, q, j - 1, m)
      invariant !empty && j > 0 ==> HasPointer(q[j], w, s, q[..j])
      decreases j, empty
    {
      j := j - 1;
      empty := LeftIsEmpty(fs, inode, q, walk, j, m);
    }
    BranchNodes(fs, inode, w, s, q, walk, m);
    MappedBefore(fs.ptrs, w, s, q, k, m, j);
  }

  /** kr_find_shared, with no other thread about. */
  method FindShared(fs: FileSystem, inode: Inode, n: nat, q: seq<nat>)
    returns (chain: seq<Indirect>, top: nat, ghost shifted: bool)
    requires fs.Ready() && fs.Holds(inode) && ValidPath(fs.ptrs, q) && n == |q| >= 2
    modifies fs.dev, inode.data
    ensures Found(fs, inode, old(Words(fs.dev)), old(inode.data[..]), Words(fs.dev), inode.data[..], q, chain, top, shifted)
    ensures fs.Ready() // the bitmaps and counts are untouched
  {
    hide Forest, Tree, Words, Lookup, Allocator.Valid, Cleared, NothingBefore, HasPointer;
    ghost var w, s := Words(fs.dev), inode.data[..];
    var k, walk, j := FindLast(fs, inode, n, q);
    BranchNodes(fs, inode, w, s, q, walk, j);
    ChainHolds(fs, inode, q, walk);
    chain := walk[..j + 1];
    if j == k - 1 && j > 0 {
      SomethingLeft(q, j, w, s);
      chain := chain[..j] + [walk[j].(slot := walk[j].slot - 1)];
      top, shifted := 0, true;
    } else {
      top, shifted := walk[j].p[walk[j].slot], false;
      ClearOneSlot(fs, inode, q, walk, j);
    }
  }

  /** p runs through a slot that is clear at some stage of a truncation along q
      ending at level j: the slot at the end of the cut, if `top`; slots to the
      right of q at the levels from i on; and the inode's slots from there up
      to `roots`. */
  predicate Gone(q: seq<nat>, j: nat, i: nat, top: bool, roots: nat, p: seq<nat>)
    requires j < |q| && |p| > 0
  {
    || (top && InRegion(p, q[..j], q[j], q[j] + 1))
    || Swept(q, i, j, p)
    || (q[0] < p[0] < roots)
  }

  /** From (w, s) to (v, t) just the slots gone at this stage were cleared. */
  ghost predicate CutSoFar(w: Device, s: seq<nat>, v: Device, t: seq<nat>, q: seq<nat>, j: nat, i: nat, top: bool, roots: nat)
    requires j < |q|
  {
    forall p :: Inside(Root, p) ==> Lookup(v, t, p) == if Gone(q, j, i, top, roots, p) then 0 else Lookup(w, s, p)
  }

  /** The inode's books before the truncation. */
  ghost predicate Owned(fs: FileSystem, w: Device, s: seq<nat>, used: set<int>, blocks: int) {
    var m := All(w, s, Root);
    && |w| == |fs.dev| && |s| == N_BLOCKS && (forall b :: 0 <= b < |w| ==> |w[b]| == fs.ptrs)
    && NoDup(m) && Elems(m) <= used && Elems(m) !! fs.alloc.meta && blocks == |m|
  }

  /** The slot at the end of a cut, seen as a range of one slot. */
  lemma TopShare(fs: FileSystem, w: Device, s: seq<nat>, used: set<int>, blocks: int, q: seq<nat>, j: nat)
    requires fs.ptrs >= 16 && ValidPath(fs.ptrs, q) && Owned(fs, w, s, used, blocks) && j < |q|
    requires j > 0 ==> 0 < Lookup(w, s, q[..j]) < |w|
    ensures var top, h := Lookup(w, s, q[..j + 1]), |q| - 1 - j;
            && Tree(w, top, h) <= All(w, s, Root)
            && (j == 0 ==> top == s[q[0]] && Tree(w, top, h) == Forest(w, s, Root, q[0], q[0] + 1))
            && (j > 0 ==>
                  && Reach(w, s, Root, q[..j]) && Height(Root, q[0]) >= j && SlotHeight(Root, q[..j]) == h
                  && top == w[Lookup(w, s, q[..j])][q[j]]
                  && Lookup(w, s, q[..j]) !in Tree(w, top, h) && Lookup(w, s, q[..j]) in All(w, s, Root)
                  && Tree(w, top, h) == Forest(w, w[Lookup(w, s, q[..j])], Node(h), q[j], q[j] + 1))
  {
    hide Forest, Tree;
    PathInside(fs.ptrs, q, if j == 0 then 1 else j);
    if j == 0 {
      RootSlot(w, s, q[0]);
    } else {
      var r, b := q[..j], Lookup(w, s, q[..j]);
      ReachFromLookup(w, s, Root, r);
      LookupStep(w, s, Root, r, q[j]);
      assert q[..j + 1] == r + [q[j]];
      fs.RangeGone(w, s, r, q[j], q[j] + 1);
      NodeForest(w, w[b], |q| - 1 - j, q[j]);
    }
  }

  lemma NodeForest(w: Device, s: seq<nat>, h: nat, x: nat)
    requires x < |s|
    ensures Forest(w, s, Node(h), x, x + 1) == Tree(w, s[x], h)
  {
    hide Tree;
    assert Forest(w, s, Node(h), x, x) == multiset{};
  }

  /** Free the detached top of the branch. */
  method FreeTop(fs: FileSystem, inode: Inode, top: nat, depth: nat,
                 ghost w: Device, ghost s: seq<nat>, ghost q: seq<nat>, ghost j: nat)
    requires fs.Ready() && ValidPath(fs.ptrs, q) && j < |q| && |q| >= 2 && depth == |q| - 1 - j
    requires inode.data.Length == N_BLOCKS && inode.data != fs.alloc.freeCount && inode.data !in fs.dev
    requires inode.window != null ==> inode.window in fs.alloc.tree.known
    requires Owned(fs, w, s, fs.alloc.used, inode.blocks)
    requires j > 0 ==> 0 < Lookup(w, s, q[..j]) < |w|
    requires SlotCleared(w, s, Words(fs.dev), inode.data[..], q, j) && top == Lookup(w, s, q[..j + 1])
    requires top != 0 && depth > 0
    modifies fs.dev, fs.alloc, fs.alloc.bitmaps, fs.alloc.freeCount, inode`blocks
    ensures fs.Ready() && fs.Holds(inode) && fs.alloc.misfrees == old(fs.alloc.misfrees)
    ensures CutSoFar(w, s, Words(fs.dev), inode.data[..], q, j, j + 1, true, IND_BLOCK)
    ensures Shrunk(w, s, old(fs.alloc.used), Words(fs.dev), inode.data[..], fs.alloc.used)
  {
    hide Allocator.Valid, Forest, Tree, Words, Cleared, Released, Lookup, Reach, Swept;
    ghost var used, blocks := fs.alloc.used, inode.blocks;
    ghost var gone := Tree(w, top, depth);
    TopShare(fs, w, s, used, blocks, q, j);
    GoneOwned(fs, All(w, s, Root), gone);
    ghost var v := Words(fs.dev);
    TreeFrame(w, v, top, depth);
    fs.FreeDetached(inode, top, depth);
    TopFreed(fs, w, s, used, blocks, v, inode.data[..], Words(fs.dev), q, j);
    fs.StillHolds(All(w, s, Root), All(Words(fs.dev), inode.data[..], Root), gone, used, blocks, fs.alloc.used, inode.blocks);
  }

  lemma GoneOwned(fs: FileSystem, m: multiset<int>, gone: multiset<int>)
    requires NoDup(m) && Elems(m) <= fs.alloc.used && Elems(m) !! fs.alloc.meta && gone <= m
    ensures Releasable(fs.alloc, gone)
  {
    fs.GoneReleasable(m, gone);
  }

  /** The effect of detaching and freeing the top, taken together. */
  lemma TopFreed(fs: FileSystem, w: Device, s: seq<nat>, used: set<int>, blocks: int,
                 v: Device, t: seq<nat>, v': Device, q: seq<nat>, j: nat)
    requires fs.ptrs >= 16 && ValidPath(fs.ptrs, q) && Owned(fs, w, s, used, blocks) && j < |q| && |q| >= 2
    requires j > 0 ==> 0 < Lookup(w, s, q[..j]) < |w|
    requires SlotCleared(w, s, v, t, q, j) && |v'| == |v|
    requires var gone := Tree(w, Lookup(w, s, q[..j + 1]), |q| - 1 - j);
             forall c :: 0 <= c < |v| && c !in gone ==> v'[c] == v[c]
    ensures All(w, s, Root) == All(v', t, Root) + Tree(w, Lookup(w, s, q[..j + 1]), |q| - 1 - j)
    ensures forall c :: 0 <= c < |w| && c !in All(w, s, Root) ==> v'[c] == w[c]
    ensures CutSoFar(w, s, v', t, q, j, j + 1, true, IND_BLOCK)
  {
    hide Forest, Tree, Cleared, Lookup, Reach, Swept;
    TopShare(fs, w, s, used, blocks, q, j);
    if j == 0 {
      RootCut(w, v', s, q[0], q[0] + 1);
    } else {
      ClearNode(w, v', s, Root, q[..j], q[j], q[j] + 1);
    }
    forall p | Inside(Root, p)
      ensures Lookup(v', t, p) == if Gone(q, j, j + 1, true, IND_BLOCK, p) then 0 else Lookup(w, s, p)
    {
      NoneSweptBeyond(q, j, p);
      assert q[..0] == [];
    }
  }

  lemma NoneSweptBeyond(q: seq<nat>, j: nat, p: seq<nat>)
    requires j < |q|
    ensures !Swept(q, j + 1, j, p)
  {
  }

  // ---------- the whole cut ----------

  /** A truncation along q that ends at level j, under way: see Gone. */
  ghost predicate Cutting(fs: FileSystem, inode: Inode, w: Device, s: seq<nat>, used: set<int>, misfrees: nat,
                          q: seq<nat>, j: nat, i: nat, top: bool, roots: nat)
    requires j < |q|
    reads fs.dev, inode, inode.data, fs.alloc, fs.alloc.bitmaps, fs.alloc.freeCount,
          fs.alloc.tree, fs.alloc.tree.head, fs.alloc.tree.known, fs.alloc.tree.nodes
  {
    && fs.Ready() && fs.Holds(inode) && fs.alloc.misfrees == misfrees
    && CutSoFar(w, s, Words(fs.dev), inode.data[..], q, j, i, top, roots)
    && Shrunk(w, s, used, Words(fs.dev), inode.data[..], fs.alloc.used)
  }

  /** Slots behind the last one of a node lead nowhere. */
  lemma PastEnd(fs: FileSystem, w: Device, s: seq<nat>, q: seq<nat>, i: nat, p: seq<nat>)
    requires fs.ptrs >= 16 && ValidPath(fs.ptrs, q) && 0 < i < |q|
    requires |w| == |fs.dev| && forall b :: 0 <= b < |w| ==> |w[b]| == fs.ptrs
    requires 0 < Lookup(w, s, q[..i]) < |w|
    requires Extends(p, q[..i]) && p[i] >= fs.ptrs
    ensures Lookup(w, s, p) == 0
  {
    hide Tree, Forest;
    PathInside(fs.ptrs, q, i);
    ReachFromLookup(w, s, Root, q[..i]);
    LookupThrough(w, s, Root, q[..i], p);
  }

  /** Clearing the rest of the node at level i is the next stage of the cut. */
  lemma StageDown(fs: FileSystem, w: Device, s: seq<nat>, v: Device, t: seq<nat>, v': Device, t': seq<nat>,
                  q: seq<nat>, j: nat, i: nat, top: bool, lo: nat)
    requires fs.ptrs >= 16 && ValidPath(fs.ptrs, q) && 0 < i <= j < |q|
    requires |w| == |fs.dev| && forall b :: 0 <= b < |w| ==> |w[b]| == fs.ptrs
    requires 0 < Lookup(w, s, q[..i]) < |w|
    requires lo == if i == j && !top then q[i] else q[i] + 1
    requires CutSoFar(w, s, v, t, q, j, i + 1, top, IND_BLOCK)
    requires forall p :: Inside(Root, p) ==> Lookup(v', t', p) == if InRegion(p, q[..i], lo, fs.ptrs) then 0 else Lookup(v, t, p)
    ensures CutSoFar(w, s, v', t', q, j, i, top, IND_BLOCK)
  {
    hide Lookup;
    forall p | Inside(Root, p)
      ensures Lookup(v', t', p) == if Gone(q, j, i, top, IND_BLOCK, p) then 0 else Lookup(w, s, p)
    {
      if Extends(p, q[..i]) && p[i] >= fs.ptrs {
        PastEnd(fs, w, s, q, i, p);
      }
      assert Swept(q, i, j, p) <==> SweptAt(q, i, j, p) || Swept(q, i + 1, j, p);
    }
  }

  /** The node on q at a level that the cut has not passed is still there. */
  lemma StillReached(fs: FileSystem, inode: Inode, w: Device, s: seq<nat>, q: seq<nat>, j: nat, i: nat, top: bool)
    requires fs.Ready() && ValidPath(fs.ptrs, q) && 0 < i <= j < |q| && inode.data.Length == N_BLOCKS
    requires 0 < Lookup(w, s, q[..i]) < |fs.dev|
    requires CutSoFar(w, s, Words(fs.dev), inode.data[..], q, j, i + 1, top, IND_BLOCK)
    ensures fs.At(inode, q[..i]) == Lookup(w, s, q[..i])
    ensures Reach(Words(fs.dev), inode.data[..], Root, q[..i])
    ensures Height(Root, q[..i][0]) >= i && SlotHeight(Root, q[..i]) == |q| - 1 - i
  {
    hide Lookup, Words, Allocator.Valid, Swept, Reach;
    PathInside(fs.ptrs, q, i);
    SweptFrom(q, i + 1, j, q[..i]);
    assert !Gone(q, j, i + 1, top, IND_BLOCK, q[..i]);
    ReachFromLookup(Words(fs.dev), inode.data[..], Root, q[..i]);
  }

  /** Clear the ends of the indirect blocks on the shared part of the branch. */
  method ClearEnds(fs: FileSystem, inode: Inode, n: nat, q: seq<nat>, chain: seq<Indirect>, ghost shifted: bool,
                   ghost w: Device, ghost s: seq<nat>, ghost used: set<int>, ghost misfrees: nat)
    requires ValidPath(fs.ptrs, q) && n == |q| && 1 <= |chain| <= |q|
    requires Cutting(fs, inode, w, s, used, misfrees, q, |chain| - 1, |chain|, !shifted, IND_BLOCK)
    requires |w| == |fs.dev| && forall b :: 0 <= b < |w| ==> |w[b]| == fs.ptrs
    requires forall i :: 0 < i < |chain| ==>
               0 < Lookup(w, s, q[..i]) < |fs.dev| && chain[i].p == fs.dev[Lookup(w, s, q[..i])]
    requires forall i :: 0 < i < |chain| ==>
               chain[i].slot + 1 == if i == |chain| - 1 && shifted then q[i] else q[i] + 1
    modifies fs.dev, fs.alloc, fs.alloc.bitmaps, fs.alloc.freeCount, inode`blocks
    ensures Cutting(fs, inode, w, s, used, misfrees, q, |chain| - 1, 1, !shifted, IND_BLOCK)
  {
    hide Lookup, Words, Allocator.Valid, Forest, Tree, Shrunk, CutSoFar, Reach;
    ghost var j := |chain| - 1;
    var i := |chain| - 1;
    while i > 0
      invariant 0 <= i <= j
      invariant Cutting(fs, inode, w, s, used, misfrees, q, j, i + 1, !shifted, IND_BLOCK)
    {
      StillReached(fs, inode, w, s, q, j, i, !shifted);
      ghost var v, u := Words(fs.dev), fs.alloc.used;
      fs.ClearRange(inode, chain[i].p, chain[i].slot + 1, fs.ptrs, n - 1 - i, q[..i]);
      StageDown(fs, w, s, v, inode.data[..], Words(fs.dev), inode.data[..], q, j, i, !shifted, chain[i].slot + 1);
      ShrunkTwice(w, s, used, v, inode.data[..], u, Words(fs.dev), inode.data[..], fs.alloc.used);
      i := i - 1;
    }
  }

  /** Clearing the next root, if it lies to the right of q, is the next stage. */
  lemma StageRight(w: Device, s: seq<nat>, v: Device, t: seq<nat>, v': Device, t': seq<nat>,
                   q: seq<nat>, j: nat, top: bool, x: nat)
    requires j < |q| && CutSoFar(w, s, v, t, q, j, 1, top, x)
    requires if q[0] < x then
               forall p :: Inside(Root, p) ==> Lookup(v', t', p) == if InRegion(p, [], x, x + 1) then 0 else Lookup(v, t, p)
             else
               v' == v && t' == t
    ensures CutSoFar(w, s, v', t', q, j, 1, top, x + 1)
  {
    hide Lookup;
    forall p | Inside(Root, p)
      ensures Lookup(v', t', p) == if Gone(q, j, 1, top, x + 1, p) then 0 else Lookup(w, s, p)
    {
      assert InRegion(p, [], x, x + 1) <==> p[0] == x;
      if q[0] < x {
        assert Gone(q, j, 1, top, x + 1, p) <==> Gone(q, j, 1, top, x, p) || p[0] == x;
      }
    }
  }

  /** One of the source's three cases: kill the subtree in root slot x if it
      lies to the right of q. */
  method ClearOneRoot(fs: FileSystem, inode: Inode, q: seq<nat>, x: nat, ghost j: nat, ghost top: bool,
                      ghost w: Device, ghost s: seq<nat>, ghost used: set<int>, ghost misfrees: nat)
    requires j < |q| && NDIR_BLOCKS <= x < N_BLOCKS
    requires Cutting(fs, inode, w, s, used, misfrees, q, j, 1, top, x)
    modifies fs.dev, fs.alloc, fs.alloc.bitmaps, fs.alloc.freeCount, inode`blocks, inode.data
    ensures Cutting(fs, inode, w, s, used, misfrees, q, j, 1, top, x + 1)
  {
    hide Lookup, Words, Allocator.Valid, Forest, Tree, Shrunk, CutSoFar;
    ghost var v, t, u := Words(fs.dev), inode.data[..], fs.alloc.used;
    if q[0] < x {
      fs.ClearRoot(inode, x);
      ShrunkTwice(w, s, used, v, t, u, Words(fs.dev), inode.data[..], fs.alloc.used);
    }
    StageRight(w, s, v, t, Words(fs.dev), inode.data[..], q, j, top, x);
  }

  /** When all stages are through, just what the cut sweeps is gone. */
  lemma AllStages(w: Device, s: seq<nat>, v: Device, t: seq<nat>, q: seq<nat>, j: nat, top: bool)
    requires j < |q| && |s| == N_BLOCKS && (!top ==> j > 0)
    requires CutSoFar(w, s, v, t, q, j, 1, top, N_BLOCKS)
    ensures forall p :: Inside(Root, p) ==> Lookup(v, t, p) == if Swept(q, 0, j, p) then 0 else Lookup(w, s, p)
  {
    forall p | Inside(Root, p)
      ensures Lookup(v, t, p) == if Swept(q, 0, j, p) then 0 else Lookup(w, s, p)
    {
      SweptFrom(q, 1, j, p);
      SweptFrom(q, 0, j, p);
      if p[0] >= N_BLOCKS {
        assert Lookup(w, s, p) == 0;
      } else {
        assert q[..0] == p[..0];
        assert SweptAt(q, 0, j, p) <==> p[0] > q[0] || (j == 0 && p[0] == q[0]);
        assert InRegion(p, q[..j], q[j], q[j] + 1) ==> SweptAt(q, j, j, p);
      }
    }
  }

  /** What is known of the level j at which a cut along q ends. */
  ghost predicate EndsWell(ptrs: nat, w: Device, s: seq<nat>, q: seq<nat>, j: nat) {
    && j < |q| && NothingBefore(ptrs, w, s, q, j)
    && (forall l :: 0 < l <= j ==> Lookup(w, s, q[..l]) != 0)
    && (j > 0 ==> HasPointer(q[j], w, s, q[..j]))
  }

  /** Such a cut leaves just the blocks before the one that q leads to. */
  lemma CutMap(ptrs: nat, w: Device, s: seq<nat>, v: Device, t: seq<nat>, q: seq<nat>, j: nat, first: nat)
    requires ptrs >= 16 && first < Capacity(ptrs) && q == BlockToPath(ptrs, first).offsets
    requires EndsWell(ptrs, w, s, q, j)
    requires forall p :: Inside(Root, p) ==> Lookup(v, t, p) == if Swept(q, 0, j, p) then 0 else Lookup(w, s, p)
    ensures forall b: nat :: BlockMap(ptrs, v, t, b) == if b < first then BlockMap(ptrs, w, s, b) else 0
  {
    hide Lookup, BlockToPath, Capacity, Swept, PathToBlock, HasPointer;
    PathOfBlock(ptrs, first);
    forall b: nat
      ensures BlockMap(ptrs, v, t, b) == if b < first then BlockMap(ptrs, w, s, b) else 0
    {
      PathOfBlock(ptrs, b);
      var p := BlockToPath(ptrs, b).offsets;
      if b < Capacity(ptrs) {
        PathOrder(ptrs, b, first);
        PathInside(ptrs, p, |p|);
        assert p[..|p|] == p;
        CutKeepsBefore(ptrs, q, j, p, Lookup(w, s, p), Lookup(v, t, p));
      } else {
        NoPath(w, s, p);
        NoPath(v, t, p);
      }
    }
  }

  lemma NoPath(w: Device, s: seq<nat>, p: seq<nat>)
    ensures |p| == 0 ==> Lookup(w, s, p) == 0
  {
  }

  /** Without a top to free, the search has changed nothing. */
  lemma NothingCut(w: Device, s: seq<nat>, v: Device, t: seq<nat>, used: set<int>, q: seq<nat>, j: nat, shifted: bool)
    requires j < |q| && q[0] >= IND_BLOCK
    requires if shifted then v == w && t == s else SlotCleared(w, s, v, t, q, j) && Lookup(w, s, q[..j + 1]) == 0
    requires !shifted && j > 0 ==> Height(Root, q[0]) >= j && 0 < Lookup(w, s, q[..j]) < |w|
    ensures v == w && t == s
    ensures CutSoFar(w, s, v, t, q, j, j + 1, !shifted, IND_BLOCK)
    ensures Shrunk(w, s, used, v, t, used)
  {
    hide Lookup, Reach, Forest, Tree, Shrunk, Cleared, Swept;
    ShrunkNot(w, s, used);
    if !shifted {
      EmptyCleared(w, s, q, j);
    }
    forall p | Inside(Root, p)
      ensures Gone(q, j, j + 1, !shifted, IND_BLOCK, p) ==> Lookup(w, s, p) == 0
    {
      NoneSweptBeyond(q, j, p);
      if InRegion(p, q[..j], q[j], q[j] + 1) {
        assert p[..j + 1] == p[..j] + [p[j]] == q[..j + 1];
        if !shifted {
          LookupStops(w, s, p, j + 1);
        }
      }
    }
  }

  lemma EmptyCleared(w: Device, s: seq<nat>, q: seq<nat>, j: nat)
    requires j < |q| && Lookup(w, s, q[..j + 1]) == 0
    requires j > 0 ==> Height(Root, q[0]) >= j && 0 < Lookup(w, s, q[..j]) < |w|
    ensures j == 0 && q[0] < |s| ==> Cleared(s, q[0], q[0] + 1) == s
    ensures j > 0 ==> var b := Lookup(w, s, q[..j]); q[j] < |w[b]| ==> Cleared(w[b], q[j], q[j] + 1) == w[b]
  {
    if j > 0 {
      ReachFromLookup(w, s, Root, q[..j]);
      LookupStep(w, s, Root, q[..j], q[j]);
      assert q[..j + 1] == q[..j] + [q[j]];
    }
  }

  lemma BooksAtStart(fs: FileSystem, inode: Inode)
    requires fs.Ready() && fs.Holds(inode)
    ensures Owned(fs, Words(fs.dev), inode.data[..], fs.alloc.used, inode.blocks)
  {
    hide Forest, Tree, Allocator.Valid;
  }

  /** Cut the branch along q, if the first block to go hangs off an indirect block. */
  method CutBranch(fs: FileSystem, inode: Inode, n: nat, q: seq<nat>,
                   ghost w: Device, ghost s: seq<nat>, ghost used: set<int>, ghost misfrees: nat)
    returns (ghost j: nat, ghost top: bool)
    requires fs.Ready() && fs.Holds(inode) && ValidPath(fs.ptrs, q) && n == |q| >= 2
    requires w == Words(fs.dev) && s == inode.data[..] && used == fs.alloc.used && misfrees == fs.alloc.misfrees
    modifies fs.dev, fs.alloc, fs.alloc.bitmaps, fs.alloc.freeCount, inode`blocks, inode.data
    ensures j < |q| && EndsWell(fs.ptrs, w, s, q, j) && (!top ==> j > 0)
    ensures Cutting(fs, inode, w, s, used, misfrees, q, j, 1, top, IND_BLOCK)
  {
    hide Lookup, Words, Allocator.Valid, Forest, Tree, Shrunk, CutSoFar, NothingBefore, HasPointer;
    BooksAtStart(fs, inode);
    var chain, nr, shifted := FindShared(fs, inode, n, q);
    j, top := |chain| - 1, !shifted;
    if nr != 0 {
      FreeTop(fs, inode, nr, n - |chain|, w, s, q, j);
    } else {
      NothingCut(w, s, Words(fs.dev), inode.data[..], used, q, j, shifted);
    }
    ClearEnds(fs, inode, n, q, chain, shifted, w, s, used, misfrees);
  }

  /** Free the inode's own data blocks from slot q[0] on: the first stages of
      a cut all of whose blocks hang off the inode or lie beyond. */
  method CutDirect(fs: FileSystem, inode: Inode, q: seq<nat>,
                   ghost w: Device, ghost s: seq<nat>, ghost used: set<int>, ghost misfrees: nat)
    requires fs.Ready() && fs.Holds(inode) && ValidPath(fs.ptrs, q) && |q| == 1
    requires w == Words(fs.dev) && s == inode.data[..] && used == fs.alloc.used && misfrees == fs.alloc.misfrees
    modifies fs.alloc, fs.alloc.bitmaps, fs.alloc.freeCount, inode`blocks, inode.data
    ensures EndsWell(fs.ptrs, w, s, q, 0)
    ensures Cutting(fs, inode, w, s, used, misfrees, q, 0, 1, true, IND_BLOCK)
  {
    hide Lookup, Words, Allocator.Valid, Forest, Tree, Shrunk;
    fs.ClearDirect(inode, q[0]);
    NothingLeftOf(fs.ptrs, w, s, q);
    forall p | Inside(Root, p)
      ensures Gone(q, 0, 1, true, IND_BLOCK, p) <==> InRegion(p, [], q[0], NDIR_BLOCKS)
    {
      NoneSweptBeyond(q, 0, p);
      assert q[..0] == [];
    }
  }

  lemma NothingLeftOf(ptrs: nat, w: Device, s: seq<nat>, q: seq<nat>)
    requires |q| == 1
    ensures EndsWell(ptrs, w, s, q, 0)
  {
    forall p: seq<nat> | |p| == 1 && p[..1] == q[..1]
      ensures !LexLess(p, q)
    {
      assert p == p[..1] && q == q[..1];
      LexSelf(q);
    }
  }

  /** The window is empty and out of the tree, and all others stay. */
  twostate predicate WindowGone(tree: WindowTree, w: Window?)
    reads tree, if w == null then {} else {w}
  {
    if w == null then tree.nodes == old(tree.nodes) else w.IsEmpty() && w !in tree.nodes && tree.OthersKept(w)
  }

  /** The window goes with the cut, unless the new end is beyond all blocks that a file can have. */
  twostate predicate WindowCut(fs: FileSystem, w: Window?, offset: nat)
    requires fs.ptrs >= 16
    reads fs.alloc.tree, if w == null then {} else {w}
  {
    if (offset + 4 * fs.ptrs - 1) / (4 * fs.ptrs) < Capacity(fs.ptrs) then WindowGone(fs.alloc.tree, w)
    else fs.alloc.tree.nodes == old(fs.alloc.tree.nodes)
  }

  /** kr_discard_reservation: the file gives up its window. */
  method DiscardWindow(fs: FileSystem, inode: Inode)
    requires fs.Ready() && fs.Holds(inode)
    modifies fs.alloc.tree`nodes, inode.Windows()
    ensures fs.Ready() && fs.Holds(inode)
    ensures WindowGone(fs.alloc.tree, inode.window)
  {
    hide WindowTree.Valid, Allocator.Books, LaidOut, View, Forest, Tree, Words;
    if inode.window != null {
      fs.alloc.tree.Discard(inode.window);
    }
  }

  /** The cut along q, from the first block to go to the last root. */
  method CutAll(fs: FileSystem, inode: Inode, q: seq<nat>,
                ghost w: Device, ghost s: seq<nat>, ghost used: set<int>, ghost misfrees: nat) returns (ghost j: nat)
    requires fs.Ready() && fs.Holds(inode) && ValidPath(fs.ptrs, q)
    requires w == Words(fs.dev) && s == inode.data[..] && used == fs.alloc.used && misfrees == fs.alloc.misfrees
    modifies fs.dev, fs.alloc, fs.alloc.bitmaps, fs.alloc.freeCount, inode`blocks, inode.data
    ensures j < |q| && EndsWell(fs.ptrs, w, s, q, j)
    ensures fs.Ready() && fs.Holds(inode) && fs.alloc.misfrees == misfrees
    ensures forall p :: Inside(Root, p) ==>
              Lookup(Words(fs.dev), inode.data[..], p) == if Swept(q, 0, j, p) then 0 else Lookup(w, s, p)
    ensures Shrunk(w, s, used, Words(fs.dev), inode.data[..], fs.alloc.used)
  {
    hide Lookup, Words, Allocator.Valid, Forest, Tree, Shrunk, EndsWell, CutSoFar, Swept;
    ghost var top := true;
    j := 0;
    if |q| == 1 {
      CutDirect(fs, inode, q, w, s, used, misfrees);
    } else {
      j, top := CutBranch(fs, inode, |q|, q, w, s, used, misfrees);
    }
    ClearOneRoot(fs, inode, q, IND_BLOCK, j, top, w, s, used, misfrees);
    ClearOneRoot(fs, inode, q, DIND_BLOCK, j, top, w, s, used, misfrees);
    ClearOneRoot(fs, inode, q, TIND_BLOCK, j, top, w, s, used, misfrees);
    AllStages(w, s, Words(fs.dev), inode.data[..], q, j, top);
  }

  /** __kr_truncate_blocks: of the file's map just what lies before the new end
      is left. Every block that was reachable and is no more is freed, exactly
      once; nothing else changes. The file gives up its window, unless the new
      end is beyond all blocks that a file can have. */
  method TruncateBlocks(fs: FileSystem, inode: Inode, offset: nat)
    requires fs.Ready() && fs.Holds(inode)
    modifies fs.dev, fs.alloc, fs.alloc.bitmaps, fs.alloc.freeCount, fs.alloc.tree`nodes,
             inode`blocks, inode.data, inode.Windows()
    ensures fs.Ready() && fs.Holds(inode) && fs.alloc.misfrees == old(fs.alloc.misfrees)
    ensures var first := (offset + 4 * fs.ptrs - 1) / (4 * fs.ptrs);
            forall b: nat :: fs.Map(inode, b) == if b < first then old(fs.Map(inode, b)) else 0
    ensures Shrunk(old(Words(fs.dev)), old(inode.data[..]), old(fs.alloc.used), Words(fs.dev), inode.data[..], fs.alloc.used)
    ensures old(NoneEmpty(fs.ptrs, Words(fs.dev), inode.data[..])) ==> NoneEmpty(fs.ptrs, Words(fs.dev), inode.data[..])
    ensures offset == 0 ==> fs.Own(inode) == multiset{}
    ensures WindowCut(fs, old(inode.window), offset)
  {
    hide Lookup, Words, Allocator.Valid, Forest, Tree, Shrunk, BlockToPath, Capacity, NoneEmpty, EndsWell, CutSoFar, Swept;
    ghost var w, s, used, misfrees := Words(fs.dev), inode.data[..], fs.alloc.used, fs.alloc.misfrees;
    var first := (offset + 4 * fs.ptrs - 1) / (4 * fs.ptrs);
    var q := BlockToPath(fs.ptrs, first).offsets;
    PathOfBlock(fs.ptrs, first);
    FirstOfEmpty(fs.ptrs);
    if |q| == 0 {
      AllBefore(fs.ptrs, w, s, first);
      ShrunkNot(w, s, used);
      return;
    }
    ghost var j := CutAll(fs, inode, q, w, s, used, misfrees);
    CutMap(fs.ptrs, w, s, Words(fs.dev), inode.data[..], q, j, first);
    NoneEmptied(fs.ptrs, w, s, Words(fs.dev), inode.data[..], q, j);
    if offset == 0 {
      CutToNothing(w, s, Words(fs.dev), inode.data[..], q, j);
    }
    DiscardWindow(fs, inode);
  }

  lemma AllBefore(ptrs: nat, w: Device, s: seq<nat>, first: nat)
    requires ptrs >= 16 && first >= Capacity(ptrs)
    ensures forall b: nat :: b >= first ==> BlockMap(ptrs, w, s, b) == 0
  {
    hide BlockToPath, Capacity, PathToBlock;
    forall b: nat | b >= first
      ensures BlockMap(ptrs, w, s, b) == 0
    {
      PathOfBlock(ptrs, b);
    }
  }

  lemma NoneEmptied(ptrs: nat, w: Device, s: seq<nat>, v: Device, t: seq<nat>, q: seq<nat>, j: nat)
    requires ValidPath(ptrs, q) && EndsWell(ptrs, w, s, q, j)
    requires forall p :: Inside(Root, p) ==> Lookup(v, t, p) == if Swept(q, 0, j, p) then 0 else Lookup(w, s, p)
    ensures NoneEmpty(ptrs, w, s) ==> NoneEmpty(ptrs, v, t)
  {
    hide Lookup, Swept, NoneEmpty;
    if NoneEmpty(ptrs, w, s) {
      NoneEmptyKept(ptrs, w, s, v, t, q, j);
    }
  }

  lemma FirstOfEmpty(ptrs: nat)
    requires ptrs >= 16
    ensures (4 * ptrs - 1) / (4 * ptrs) == 0 && BlockToPath(ptrs, 0).offsets == [0]
  {
    DivUnique(4 * ptrs - 1, 4 * ptrs, 0, 4 * ptrs - 1);
  }

  /** A cut from block 0 on leaves nothing at all. */
  lemma CutToNothing(w: Device, s: seq<nat>, v: Device, t: seq<nat>, q: seq<nat>, j: nat)
    requires q == [0] && j == 0
    requires forall p :: Inside(Root, p) ==> Lookup(v, t, p) == if Swept(q, 0, j, p) then 0 else Lookup(w, s, p)
    ensures All(v, t, Root) == multiset{}
  {
    forall x: nat | x < |t|
      ensures t[x] == 0
    {
      assert [x][..0] == q[..0];
      assert SweptAt(q, 0, 0, [x]);
      assert Swept(q, 0, 0, [x]);
      assert Lookup(v, t, [x]) == t[x];
    }
    ForestZero(v, t, Root, 0, |t|);
  }

  lemma NothingMapped(fs: FileSystem, inode: Inode)
    requires fs.ptrs >= 16 && fs.Own(inode) == multiset{}
    ensures forall b: nat :: fs.Map(inode, b) == 0
  {
    hide Lookup, Words, Forest, Tree, BlockToPath, Capacity, PathToBlock;
    forall b: nat
      ensures fs.Map(inode, b) == 0
    {
      PathOfBlock(fs.ptrs, b);
      var p := BlockToPath(fs.ptrs, b).offsets;
      if p == [] {
        Pathless(Words(fs.dev), inode.data[..]);
      } else if fs.Map(inode, b) != 0 {
        PathInside(fs.ptrs, p, |p|);
        assert p[..|p|] == p;
        LookupInTree(Words(fs.dev), inode.data[..], Root, p);
      }
    }
  }

  /** A file without links loses all its blocks. */
  method DropBlocks(fs: FileSystem, inode: Inode, links: nat)
    requires fs.Ready() && fs.Holds(inode)
    modifies fs.dev, fs.alloc, fs.alloc.bitmaps, fs.alloc.freeCount, fs.alloc.tree`nodes,
             inode`blocks, inode.data, inode.Windows()
    ensures fs.Ready() && fs.Holds(inode) && fs.alloc.misfrees == old(fs.alloc.misfrees)
    ensures fs.alloc.tree.nodes == old(fs.alloc.tree.nodes) || WindowGone(fs.alloc.tree, inode.window)
    ensures Shrunk(old(Words(fs.dev)), old(inode.data[..]), old(fs.alloc.used), Words(fs.dev), inode.data[..], fs.alloc.used)
    ensures if links == 0 then fs.Own(inode) == multiset{} else fs.Own(inode) == old(fs.Own(inode))
    ensures forall b: nat :: fs.Map(inode, b) == if links == 0 then 0 else old(fs.Map(inode, b))
  {
    hide Words, Allocator.Valid, Forest, Tree, Shrunk, NoneEmpty, FileSystem.Map, BlockToPath, Capacity;
    ShrunkNot(Words(fs.dev), inode.data[..], fs.alloc.used);
    if links == 0 {
      if inode.blocks != 0 {
        TruncateBlocks(fs, inode, 0);
      }
      NothingMapped(fs, inode);
    }
  }

  /** kr_evict_inode: a file without links gives up all its blocks, any file
      its window. */
  method EvictInode(fs: FileSystem, inode: Inode, links: nat)
    requires fs.Ready() && fs.Holds(inode)
    modifies fs.dev, fs.alloc, fs.alloc.bitmaps, fs.alloc.freeCount, fs.alloc.tree`nodes,
             inode`blocks, inode`window, inode.data, inode.Windows()
    ensures fs.Ready() && fs.Holds(inode) && fs.alloc.misfrees == old(fs.alloc.misfrees) && inode.window == null
    ensures WindowGone(fs.alloc.tree, old(inode.window))
    ensures Shrunk(old(Words(fs.dev)), old(inode.data[..]), old(fs.alloc.used), Words(fs.dev), inode.data[..], fs.alloc.used)
    ensures if links == 0 then fs.Own(inode) == multiset{} else fs.Own(inode) == old(fs.Own(inode))
    ensures forall b: nat :: fs.Map(inode, b) == if links == 0 then 0 else old(fs.Map(inode, b))
  {
    hide Words, Allocator.Valid, Forest, Tree, Shrunk, NoneEmpty, FileSystem.Map;
    DropBlocks(fs, inode, links);
    DiscardWindow(fs, inode);
    inode.window := null;
  }
}
