/**
 The block map of a file: its inode's slots and the device blocks they lead to,
 together with the allocator the blocks come from.
 */
module FileMap {
  import opened Allocator
  import opened BlockPath
  import opened FreeTree
  import opened Inode
  import opened PointerTree

  /** A file's tree after a change that only took blocks away and freed them. */
  ghost predicate Shrunk(w: Device, s: seq<nat>, used: set<int>, w': Device, s': seq<nat>, used': set<int>) {
    && |w'| == |w|
    && All(w', s', Root) <= All(w, s, Root)
    && used' == used - (Elems(All(w, s, Root)) - Elems(All(w', s', Root)))
    && forall c :: 0 <= c < |w| && c !in All(w, s, Root) ==> w'[c] == w[c]
  }

  lemma ShrunkNot(w: Device, s: seq<nat>, used: set<int>)
    ensures Shrunk(w, s, used, w, s, used)
  {
  }

  lemma ShrunkTwice(w: Device, s: seq<nat>, used: set<int>, w1: Device, s1: seq<nat>, used1: set<int>,
                    w2: Device, s2: seq<nat>, used2: set<int>)
    requires Shrunk(w, s, used, w1, s1, used1) && Shrunk(w1, s1, used1, w2, s2, used2)
    ensures Shrunk(w, s, used, w2, s2, used2)
  {
    hide Forest, Tree;
    var m, m1, m2 := All(w, s, Root), All(w1, s1, Root), All(w2, s2, Root);
    assert forall b :: b in m1 ==> b in m;
    assert used2 == used - (Elems(m) - Elems(m2));
  }

  /** Clearing slots of the inode itself and changing at will the blocks below
      them: the tree loses exactly their share. */
  lemma RootCut(w: Device, v: Device, s: seq<nat>, lo: nat, hi: nat)
    requires lo <= hi <= |s| && |v| == |w| && NoDup(All(w, s, Root))
    requires forall c :: 0 <= c < |w| && c !in Forest(w, s, Root, lo, hi) ==> v[c] == w[c]
    ensures All(w, s, Root) == All(v, Cleared(s, lo, hi), Root) + Forest(w, s, Root, lo, hi)
    ensures forall q :: Inside(Root, q) ==>
              Lookup(v, Cleared(s, lo, hi), q) == if InRegion(q, [], lo, hi) then 0 else Lookup(w, s, q)
  {
    hide Forest, Tree, Cleared, Lookup;
    ForestThirds(w, s, Root, lo, hi);
    forall c | c in Forest(w, s, Root, lo, hi)
      ensures c !in Forest(w, s, Root, 0, lo) && c !in Forest(w, s, Root, hi, |s|)
    {
      assert All(w, s, Root)[c] <= 1;
    }
    ClearSlots(w, v, s, Root, lo, hi);
    forall q | Inside(Root, q)
      ensures InRegion(q, [], lo, hi) <==> lo <= q[0] < hi
    {
    }
  }

  lemma RootSlot(w: Device, s: seq<nat>, x: nat)
    requires x < |s|
    ensures Forest(w, s, Root, x, x + 1) == Tree(w, s[x], Height(Root, x))
    ensures Forest(w, s, Root, x, x + 1) <= All(w, s, Root)
    ensures Cleared(s, x, x + 1) == s[x := 0]
    ensures s[x] == 0 ==> Forest(w, s, Root, x, x + 1) == multiset{} && Cleared(s, x, x + 1) == s
  {
    hide Tree;
    ForestAt(w, s, Root, x);
    NoTree(w, Height(Root, x));
    OneForest(w, s, x);
    ClearedNone(s, x);
    ClearedNext(s, x, x);
  }

  lemma OneForest(w: Device, s: seq<nat>, x: nat)
    requires x < |s|
    ensures Forest(w, s, Root, x, x + 1) == Tree(w, s[x], Height(Root, x))
  {
    hide Tree;
    assert Forest(w, s, Root, x, x) == multiset{};
  }

  /** The slots [lo, hi) of the node that r leads to; the inode's own for []. */
  predicate InRegion(p: seq<nat>, r: seq<nat>, lo: nat, hi: nat) {
    Extends(p, r) && lo <= p[|r|] < hi
  }

  /** The block that holds logical block `block` of a file; 0 for a hole. */
  function BlockMap(ptrs: nat, w: Device, s: seq<nat>, block: nat): nat
    requires ptrs >= 16
  {
    Lookup(w, s, BlockToPath(ptrs, block).offsets)
  }

  lemma Pathless(w: Device, s: seq<nat>)
    ensures Lookup(w, s, []) == 0
  {
  }

  class FileSystem {
    const ptrs: nat               // block pointers per block
    const alloc: Allocator
    const dev: seq<array<nat>>    // the device's blocks, read as block pointers

    constructor (ptrs: nat, alloc: Allocator, dev: seq<array<nat>>)
      ensures this.ptrs == ptrs && this.alloc == alloc && this.dev == dev
    {
      this.ptrs, this.alloc, this.dev := ptrs, alloc, dev;
    }

    ghost predicate Ready()
      reads alloc, alloc.bitmaps, alloc.freeCount, alloc.tree, alloc.tree.head, alloc.tree.known, alloc.tree.nodes
    {
      && 16 <= ptrs <= 1024 && alloc.Valid() && alloc.meta <= alloc.used && Buffers(dev, ptrs, alloc)
      && (alloc.geo.first == 0 ==> 0 in alloc.meta) // the boot block
    }

    ghost function Own(inode: Inode): multiset<int>
      reads dev, inode.data
    {
      All(Words(dev), inode.data[..], Root)
    }

    /** What a list of slots leads to in the file's tree. */
    ghost function At(inode: Inode, p: seq<nat>): nat
      reads dev, inode.data
    {
      Lookup(Words(dev), inode.data[..], p)
    }

    /** The file's map from logical to physical blocks; 0 for a hole. */
    ghost function Map(inode: Inode, block: nat): nat
      requires ptrs >= 16
      reads dev, inode.data
    {
      BlockMap(ptrs, Words(dev), inode.data[..], block)
    }

    /** The inode's buffer is its own, its tree has no block twice, holds only
        blocks in use and none of the file system's, and is what it is charged for. */
    ghost predicate Holds(inode: Inode)
      reads dev, inode, inode.data, alloc, alloc.tree
    {
      && inode.data.Length == N_BLOCKS && inode.data != alloc.freeCount && inode.data !in dev
      && Releasable(alloc, Own(inode)) && inode.blocks == |Own(inode)|
      && (inode.window != null ==> inode.window in alloc.tree.known)
    }

    /** Taking `gone` away from a tree and freeing it keeps the inode's books. */
    lemma StillHolds(before: multiset<int>, after: multiset<int>, gone: multiset<int>,
                     used: set<int>, blocks: int, used': set<int>, blocks': int)
      requires before == after + gone && NoDup(before) && Elems(before) <= used && Elems(before) !! alloc.meta
      requires blocks == |before| && Released(used, blocks, used', blocks', gone)
      ensures NoDup(after) && Elems(after) <= used' && Elems(after) !! alloc.meta && blocks' == |after|
      ensures used' == used - (Elems(before) - Elems(after))
    {
      SubNoDup(after, before);
      forall b | b in after
        ensures b in before && b !in gone
      {
        assert before[b] == after[b] + gone[b] <= 1;
      }
      assert Elems(before) == Elems(after) + Elems(gone);
      assert Elems(before) - Elems(after) == Elems(gone);
    }

    lemma GoneReleasable(m: multiset<int>, gone: multiset<int>)
      requires Releasable(alloc, m) && gone <= m
      ensures Releasable(alloc, gone)
    {
      SubNoDup(gone, m);
      assert forall b :: b in gone ==> b in m;
    }

    /** Free everything below the slots [lo, hi) of the indirect block that r
        leads to; `p` is its buffer. */
    method ClearRange(inode: Inode, p: array<nat>, lo: nat, hi: nat, depth: nat, ghost r: seq<nat>)
      requires Ready() && Holds(inode)
      requires |r| > 0 && Height(Root, r[0]) >= |r| && depth == SlotHeight(Root, r)
      requires Reach(Words(dev), inode.data[..], Root, r) && 0 < At(inode, r) < |dev| && p == dev[At(inode, r)]
      requires lo <= hi <= ptrs
      modifies dev, alloc, alloc.bitmaps, alloc.freeCount, inode`blocks
      ensures Ready() && Holds(inode) && alloc.misfrees == old(alloc.misfrees)
      ensures forall q :: Inside(Root, q) ==> At(inode, q) == if InRegion(q, r, lo, hi) then 0 else old(At(inode, q))
      ensures Shrunk(old(Words(dev)), inode.data[..], old(alloc.used), Words(dev), inode.data[..], alloc.used)
    {
      hide Allocator.Valid, Forest, Tree, Words, Cleared, Released, Reach, Lookup;
      ghost var w, s, used, blocks := Words(dev), inode.data[..], alloc.used, inode.blocks;
      ghost var b := Lookup(w, s, r);
      ghost var gone := Forest(w, w[b], Node(depth), lo, hi);
      RangeGone(w, s, r, lo, hi);
      GoneReleasable(All(w, s, Root), gone);
      assert p[..] == w[b];
      FreeBranches(alloc, inode, dev, ptrs, p, lo, hi, depth, Node(depth));
      assert inode.data[..] == s;
      ClearNode(w, Words(dev), s, Root, r, lo, hi);
      StillHolds(All(w, s, Root), All(Words(dev), s, Root), gone, used, blocks, alloc.used, inode.blocks);
    }

    lemma RangeGone(w: Device, s: seq<nat>, r: seq<nat>, lo: nat, hi: nat)
      requires |r| > 0 && Height(Root, r[0]) >= |r| && Reach(w, s, Root, r) && NoDup(All(w, s, Root))
      requires Lookup(w, s, r) < |w| && lo <= hi <= |w[Lookup(w, s, r)]|
      ensures var b := Lookup(w, s, r);
              var gone := Forest(w, w[b], Node(SlotHeight(Root, r)), lo, hi);
              gone <= All(w, s, Root) && b !in gone && b in All(w, s, Root)
    {
      hide Forest, Tree;
      var b, h := Lookup(w, s, r), SlotHeight(Root, r);
      ReachFacts(w, s, Root, r);
      ForestAt(w, s, Root, r[0]);
      RootInTree(w, b, h + 1);
      ForestThirds(w, w[b], Node(h), lo, hi);
      SubNoDup(Tree(w, b, h + 1), All(w, s, Root));
      assert Tree(w, b, h + 1)[b] <= 1;
    }

    /** Free what hangs off a slot of the inode itself that has just been
        cleared: `nr` is what it held, height its height. */
    method FreeDetached(inode: Inode, nr: nat, depth: nat)
      requires alloc.Valid() && Buffers(dev, ptrs, alloc) && depth > 0
      requires Releasable(alloc, Tree(Words(dev), nr, depth))
      modifies dev, alloc, alloc.bitmaps, alloc.freeCount, inode`blocks
      ensures alloc.Valid() && alloc.misfrees == old(alloc.misfrees)
      ensures var f := old(Tree(Words(dev), nr, depth));
              && Released(old(alloc.used), old(inode.blocks), alloc.used, inode.blocks, f)
              && forall c :: 0 <= c < |dev| && c !in f ==> dev[c][..] == old(dev[c][..])
    {
      hide Allocator.Valid, Tree, Words, Cleared, Released;
      var slot := new nat[1];
      slot[0] := nr;
      ghost var w, s := Words(dev), slot[..];
      OneSlot(w, s, Node(depth));
      FreeBranches(alloc, inode, dev, ptrs, slot, 0, 1, depth, Node(depth));
    }

    lemma OneSlot(w: Device, s: seq<nat>, lv: Level)
      requires |s| == 1
      ensures Forest(w, s, lv, 0, 1) == Tree(w, s[0], Height(lv, 0))
    {
      assert Forest(w, s, lv, 0, 0) == multiset{};
    }

    /** Kill the whole subtree in one of the inode's indirect slots. */
    method ClearRoot(inode: Inode, x: nat)
      requires Ready() && Holds(inode) && NDIR_BLOCKS <= x < N_BLOCKS
      modifies dev, alloc, alloc.bitmaps, alloc.freeCount, inode`blocks, inode.data
      ensures Ready() && Holds(inode) && alloc.misfrees == old(alloc.misfrees)
      ensures forall q :: Inside(Root, q) ==> At(inode, q) == if InRegion(q, [], x, x + 1) then 0 else old(At(inode, q))
      ensures Shrunk(old(Words(dev)), old(inode.data[..]), old(alloc.used), Words(dev), inode.data[..], alloc.used)
    {
      hide Allocator.Valid, Forest, Tree, Words, Cleared, Released, Lookup;
      ghost var w, s, used, blocks := Words(dev), inode.data[..], alloc.used, inode.blocks;
      var nr := inode.data[x];
      RootSlot(w, s, x);
      ghost var gone := Forest(w, s, Root, x, x + 1);
      GoneReleasable(All(w, s, Root), gone);
      if nr != 0 {
        inode.data[x] := 0;
        FreeDetached(inode, nr, x - IND_BLOCK + 1);
      } else {
        NothingGone(used, blocks);
      }
      assert inode.data[..] == Cleared(s, x, x + 1);
      RootCut(w, Words(dev), s, x, x + 1);
      StillHolds(All(w, s, Root), All(Words(dev), inode.data[..], Root), gone, used, blocks, alloc.used, inode.blocks);
    }

    lemma NothingGone(used: set<int>, blocks: int)
      ensures Released(used, blocks, used, blocks, multiset{})
    {
    }

    /** Free data blocks that hang off the inode itself. */
    method ClearDirect(inode: Inode, lo: nat)
      requires Ready() && Holds(inode) && lo <= NDIR_BLOCKS
      modifies alloc, alloc.bitmaps, alloc.freeCount, inode`blocks, inode.data
      ensures Ready() && Holds(inode) && alloc.misfrees == old(alloc.misfrees)
      ensures forall q :: Inside(Root, q) ==>
                At(inode, q) == if InRegion(q, [], lo, NDIR_BLOCKS) then 0 else old(At(inode, q))
      ensures Shrunk(Words(dev), old(inode.data[..]), old(alloc.used), Words(dev), inode.data[..], alloc.used)
    {
      hide Allocator.Valid, Forest, Tree, Words, Cleared, Released, Lookup;
      ghost var w, s, used, blocks := Words(dev), inode.data[..], alloc.used, inode.blocks;
      ghost var gone := Forest(w, s, Root, lo, NDIR_BLOCKS);
      ForestThirds(w, s, Root, lo, NDIR_BLOCKS);
      GoneReleasable(All(w, s, Root), gone);
      FreeData(alloc, inode, inode.data, lo, NDIR_BLOCKS, w, Root);
      assert Words(dev) == w;
      RootCut(w, w, s, lo, NDIR_BLOCKS);
      StillHolds(All(w, s, Root), All(w, inode.data[..], Root), gone, used, blocks, alloc.used, inode.blocks);
    }
  }
}
