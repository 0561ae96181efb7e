/**
 Mapping a logical block of a file: finding the run of blocks it starts, or
 allocating one together with the indirect blocks that are missing.
 */
module GetBlocks {
  import opened Allocator
  import opened BlockPath
  import opened Branch
  import opened CutPath
  import opened FileMap
  import opened FreeTree
  import opened Graft
  import opened Groups
  import opened Inode
  import opened NewBranch
  import opened PointerTree
  import opened Reservation
  import opened Splice

  /** kr_blks_to_allocate: how many data blocks to ask for. If only data blocks
      are missing, as many as there are empty slots in a row. */
  method BlksToAllocate(where: Indirect, k: nat, blks: nat, blocksToBoundary: nat) returns (count: nat)
    requires blks > 0 && where.slot < where.p.Length && (k == 0 ==> where.slot + blocksToBoundary < where.p.Length)
    ensures 1 <= count <= blks && count <= blocksToBoundary + 1
    ensures k > 0 ==> count == blks || count == blocksToBoundary + 1
    ensures k == 0 ==> forall x :: where.slot < x < where.slot + count ==> where.p[x] == 0
    ensures k == 0 ==> count == blks || count == blocksToBoundary + 1 || where.p[where.slot + count] != 0
  {
    if k > 0 {
      if blks < blocksToBoundary + 1 {
        return blks;
      } else {
        return blocksToBoundary + 1;
      }
    }
    count := 1;
    while count < blks && count <= blocksToBoundary && where.p[where.slot + count] == 0
      invariant 1 <= count <= blks && count <= blocksToBoundary + 1
      invariant forall x :: where.slot < x < where.slot + count ==> where.p[x] == 0
    {
      count := count + 1;
    }
  }

  /** kr_splice_branch: the missing link, and further data blocks next to it. */
  method SpliceBranch(where: Indirect, num: nat, blks: nat)
    requires blks > 0 && where.slot + (if num == 0 then blks else 1) <= where.p.Length
    requires forall x :: where.slot <= x < where.slot + (if num == 0 then blks else 1) ==> where.p[x] == 0
    modifies where.p
    ensures Put(old(where.p[..]), where.p[..], where.slot, if num == 0 then blks else 1, where.key)
  {
    ghost var s := where.p[..];
    var p, slot := where.p, where.slot;
    p[slot] := where.key;
    if num == 0 && blks > 1 {
      var current := where.key + 1;
      for i := 1 to blks
        invariant current == where.key + i
        invariant forall y :: slot <= y < slot + i ==> p[y] == where.key + (y - slot)
        invariant forall y :: 0 <= y < p.Length && !(slot <= y < slot + i) ==> p[y] == s[y]
      {
        p[slot + i] := current;
        current := current + 1;
      }
    }
    ghost var n := if num == 0 then blks else 1;
    assert s == Cleared(p[..], slot, slot + n);
  }

  /** A file's tree after a change that only added blocks newly in use. */
  ghost predicate Grown(w: Device, s: seq<nat>, used: set<int>, w': Device, s': seq<nat>, used': set<int>) {
    && |w'| == |w| && used <= used'
    && All(w', s', Root) == All(w, s, Root) + multiset(used' - used)
    && forall c :: 0 <= c < |w| && c in used && c !in All(w, s, Root) ==> w'[c] == w[c]
  }

  /** What filling a hole does to a file: the blocks iblock and following are
      mapped to n fresh consecutive blocks, and no other mapping changes. */
  ghost predicate Added(ptrs: nat, w: Device, s: seq<nat>, used: set<int>, w': Device, s': seq<nat>, used': set<int>,
                        iblock: nat, n: nat, bno: nat)
    requires ptrs >= 16
  {
    && Grown(w, s, used, w', s', used')
    && Run(bno, n) !! used && Run(bno, n) <= used'
    && forall b: nat :: BlockMap(ptrs, w', s', b) ==
         if iblock <= b < iblock + n then bno + (b - iblock) else BlockMap(ptrs, w, s, b)
  }

  /** The branch found along q ends in an empty slot, and `count` blocks fit there. */
  ghost predicate Room(fs: FileSystem, q: seq<nat>, where: Indirect, i: nat, count: nat)
    reads where.p
  {
    && i < |q| && count > 0 && Fits(fs.ptrs, q, count)
    && where.slot == q[i] && where.slot + Width(q[i..], count) <= where.p.Length
    && forall x :: where.slot <= x < where.slot + Width(q[i..], count) ==> where.p[x] == 0
  }

  lemma {:induction false} FreshBranchFrame(v: Device, v': Device, ptrs: nat, q: seq<nat>, nb: seq<nat>, num: nat)
    requires FreshBranch(v, ptrs, q, nb, num) && |v'| == |v|
    requires forall k :: 0 <= k < |nb| && nb[k] < |v| ==> v'[nb[k]] == v[nb[k]]
    ensures FreshBranch(v', ptrs, q, nb, num)
    decreases |q|
  {
    if |q| > 1 {
      forall k | 0 <= k < |nb| - 1 && nb[1..][k] < |v|
        ensures v'[nb[1..][k]] == v[nb[1..][k]]
      {
        assert nb[1..][k] == nb[k + 1];
      }
      FreshBranchFrame(v, v', ptrs, q[1..], nb[1..], num);
    }
  }

  /** Building the branch in fresh blocks and then filling the slot, taken together. */
  lemma BuiltAndSpliced(fs: FileSystem, w: Device, s: seq<nat>, v: Device, v': Device, t: seq<nat>,
                        q: seq<nat>, i: nat, nb: seq<nat>, num: nat, used: set<int>)
    requires i < |q| && |nb| == |q| - i && |v'| == |v| == |w| && num > 0
    requires FreshBranch(v, fs.ptrs, q[i..], nb, num) && Elems(GraftBlocks(nb, num)) !! used && NoDup(GraftBlocks(nb, num))
    requires forall c :: 0 <= c < |w| && c !in GraftBlocks(nb, num) ==> v[c] == w[c]
    requires if i == 0 then
               v' == v && Put(s, t, q[0], Width(q, num), nb[0])
             else
               var b := Lookup(w, s, q[..i]);
               && t == s && 0 < b < |w| && b in used && Put(v[b], v'[b], q[i], Width(q[i..], num), nb[0])
               && forall c :: 0 <= c < |w| && c != b ==> v'[c] == v[c]
    ensures Spliced(fs.ptrs, w, s, v', t, q, i, nb, num)
  {
    hide FreshBranch, Lookup, GraftBlocks, Put, NoDup;
    BranchDistinct(nb, num);
    forall c | c in GraftBlocks(nb, num)
      ensures c !in used
    {
      assert c in Elems(GraftBlocks(nb, num));
    }
    FreshBranchFrame(v, v', fs.ptrs, q[i..], nb, num);
    if i == 0 {
      assert q[0..] == q;
    }
  }

  /** Build a branch for the empty slot `where` at level i of the walk along q
      and splice it in. */
  method AllocAndSplice(fs: FileSystem, inode: Inode, q: seq<nat>, i: nat, where: Indirect, count: nat, goal: nat, m: Means)
    returns (branch: seq<Indirect>, num: nat, err: Errno, ghost nb: seq<nat>)
    requires fs.Ready() && fs.Holds(inode)
    requires Room(fs, q, where, i, count)
    requires if i == 0 then where.p == inode.data else 0 < fs.At(inode, q[..i]) < |fs.dev| && where.p == fs.dev[fs.At(inode, q[..i])]
    modifies fs.dev, inode.data, fs.alloc, fs.alloc.bitmaps, fs.alloc.freeCount, fs.alloc.tree`nodes, inode`blocks, inode.Windows()
    ensures fs.Ready() && fs.alloc.misfrees == old(fs.alloc.misfrees)
    ensures err != OK ==>
              && inode.data[..] == old(inode.data[..])
              && fs.alloc.used == old(fs.alloc.used) && inode.blocks == old(inode.blocks)
              && forall c :: 0 <= c < |fs.dev| && c in old(fs.alloc.used) ==> fs.dev[c][..] == old(fs.dev[c][..])
    ensures err == OK ==>
              && 1 <= num <= count && |branch| == |nb| == |q| - i && branch[|branch| - 1].key == nb[|nb| - 1]
              && Handed(fs, nb, num, old(fs.alloc.used), fs.alloc.used)
              && inode.blocks == old(inode.blocks) + |GraftBlocks(nb, num)|
              && Spliced(fs.ptrs, old(Words(fs.dev)), old(inode.data[..]), Words(fs.dev), inode.data[..], q, i, nb, num)
    ensures err == OK ==>
              && |nb| > 0 && fs.alloc.geo.Valid() && fs.alloc.geo.first <= nb[|nb| - 1]
              && LongEnough(fs.alloc, fs.alloc.used, inode, goal, nb[|nb| - 1], num, count)
              && NearGoal(fs.alloc, old(fs.alloc.used), old(fs.alloc.HasWindow(inode)), goal, nb[0])
    ensures fs.alloc.geo.Valid()
    ensures Fares(err, m, |Unused(fs.alloc.geo, old(fs.alloc.used))|, |q| - i - 1, fs.alloc.reserved)
  {
    hide Allocator.Valid, Spliced, Run, GraftBlocks, NoDup, Words, FreshBranch, Lookup, Forest, Tree, Cleared,
         NearGoal, Allocator.HasWindow, Unused, RunEnds;
    ghost var w, s, used := Words(fs.dev), inode.data[..], fs.alloc.used;
    ghost var b := Lookup(w, s, q[..i]);
    var indirectBlks := |q| - i - 1;
    if i > 0 {
      PathInside(fs.ptrs, q, i);
      FoundInUse(fs, inode, q[..i]);
    } else {
      assert q[0..] == q;
    }
    branch, num, err, nb := AllocBranch(fs, inode, indirectBlks, count, goal, m, q[i..], where);
    if err != OK {
      return;
    }
    ghost var v := Words(fs.dev);
    assert where.p[..] == old(where.p[..]) by {
      assert i > 0 ==> fs.dev[b][..] == old(fs.dev[b][..]);
    }
    SpliceBranch(branch[0], indirectBlks, num);
    BuiltAndSpliced(fs, w, s, v, Words(fs.dev), inode.data[..], q, i, nb, num, used);
  }

  // ---------- what a splice means for the file ----------

  /** The blocks handed out are now the file's. */
  lemma SplicedBooks(fs: FileSystem, w: Device, s: seq<nat>, v: Device, t: seq<nat>, q: seq<nat>, i: nat,
                     nb: seq<nat>, num: nat, first: nat, used: set<int>, used': set<int>)
    requires Fits(fs.ptrs, q, num) && Spliced(fs.ptrs, w, s, v, t, q, i, nb, num)
    requires first < Capacity(fs.ptrs) && q == BlockToPath(fs.ptrs, first).offsets
    requires NoDup(All(w, s, Root)) && Elems(All(w, s, Root)) <= used
    requires Elems(All(w, s, Root)) !! fs.alloc.meta && fs.alloc.meta <= used
    requires Handed(fs, nb, num, used, used')
    ensures Added(fs.ptrs, w, s, used, v, t, used', first, num, nb[|nb| - 1])
    ensures NoDup(All(v, t, Root)) && Elems(All(v, t, Root)) <= used' && Elems(All(v, t, Root)) !! fs.alloc.meta
    ensures |All(v, t, Root)| == |All(w, s, Root)| + |GraftBlocks(nb, num)|
    ensures NoneEmpty(fs.ptrs, w, s) ==> NoneEmpty(fs.ptrs, v, t)
  {
    hide Forest, Tree, Lookup, GraftBlocks, BlockMap, Capacity, BlockToPath, Run, NoneEmpty, GraftLookup, InRegion, Spliced, Fits;
    var f := GraftBlocks(nb, num);
    FreshApart(All(w, s, Root), f, used);
    SpliceBlocks(fs.ptrs, w, s, v, t, q, i, nb, num);
    SpliceMap(fs.ptrs, w, s, v, t, q, i, nb, num, first);
    if NoneEmpty(fs.ptrs, w, s) {
      SpliceNoneEmpty(fs.ptrs, w, s, v, t, q, i, nb, num);
    }
    JoinNew(All(w, s, Root), f, used, fs.alloc.meta);
    assert used' - used == Elems(f);
    DataRun(nb, num, used);
    SpliceFrame(fs.ptrs, w, s, v, t, q, i, nb, num, used);
  }

  lemma FreshApart(m: multiset<int>, f: multiset<int>, used: set<int>)
    requires Elems(m) <= used && Elems(f) !! used
    ensures forall c :: c in f ==> c !in used && c !in m
  {
    forall c | c in f
      ensures c !in used && c !in m
    {
      assert c in Elems(f) && (c in m <==> c in Elems(m));
    }
  }

  /** Blocks in use and not the file's own keep their words. */
  lemma SpliceFrame(ptrs: nat, w: Device, s: seq<nat>, v: Device, t: seq<nat>, q: seq<nat>, i: nat,
                    nb: seq<nat>, num: nat, used: set<int>)
    requires Fits(ptrs, q, num) && Spliced(ptrs, w, s, v, t, q, i, nb, num) && Elems(GraftBlocks(nb, num)) !! used
    ensures |v| == |w| && forall c :: 0 <= c < |w| && c in used && c !in All(w, s, Root) ==> v[c] == w[c]
  {
    hide Forest, Tree, Lookup, GraftBlocks, FreshBranch, Put;
    NodeInUse(ptrs, w, s, q, i, num);
    forall c | c in used
      ensures c !in GraftBlocks(nb, num)
    {
      assert c in GraftBlocks(nb, num) <==> c in Elems(GraftBlocks(nb, num));
    }
  }

  lemma DataRun(nb: seq<nat>, num: nat, used: set<int>)
    requires |nb| > 0 && Elems(GraftBlocks(nb, num)) !! used
    ensures Run(nb[|nb| - 1], num) !! used && Run(nb[|nb| - 1], num) <= Elems(GraftBlocks(nb, num))
  {
    hide Run;
    TakenBranch(nb[..|nb| - 1], nb[|nb| - 1], num);
    assert nb == nb[..|nb| - 1] + [nb[|nb| - 1]];
    DataFresh(multiset(nb[..|nb| - 1]), Run(nb[|nb| - 1], num), used);
  }

  lemma DataFresh(m: multiset<int>, run: set<int>, used: set<int>)
    requires Elems(m + multiset(run)) !! used
    ensures run !! used && run <= Elems(m + multiset(run))
  {
    forall b | b in run
      ensures b !in used
    {
      assert b in m + multiset(run) && b in Elems(m + multiset(run));
    }
  }

  lemma NodeInUse(ptrs: nat, w: Device, s: seq<nat>, q: seq<nat>, i: nat, num: nat)
    requires Fits(ptrs, q, num) && i < |q| && (i > 0 ==> Lookup(w, s, q[..i]) != 0)
    ensures i > 0 ==> Lookup(w, s, q[..i]) in All(w, s, Root)
  {
    hide Lookup, Forest, Tree;
    if i > 0 {
      PathInside(ptrs, q, i);
      LookupInTree(w, s, Root, q[..i]);
    }
  }

  lemma JoinNew(m: multiset<int>, f: multiset<int>, used: set<int>, meta: set<int>)
    requires NoDup(m) && Elems(m) <= used && Elems(m) !! meta && NoDup(f) && Elems(f) !! used && meta <= used
    ensures NoDup(m + f) && Elems(m + f) <= used + Elems(f) && Elems(m + f) !! meta
    ensures f == multiset(Elems(f))
  {
    forall b
      ensures (m + f)[b] <= 1
    {
      assert (m + f)[b] == m[b] + f[b];
      assert (b in m <==> b in Elems(m)) && (b in f <==> b in Elems(f));
    }
    assert Elems(m + f) == Elems(m) + Elems(f);
  }

  // ---------- kr_get_blocks ----------

  /** The slots after the one that q ends in hold the file's next blocks. */
  lemma NextSlots(fs: FileSystem, inode: Inode, iblock: nat, q: seq<nat>, chain: seq<Indirect>)
    requires fs.Ready() && fs.Holds(inode) && iblock < Capacity(fs.ptrs)
    requires q == BlockToPath(fs.ptrs, iblock).offsets && ValidPath(fs.ptrs, q)
    requires Chain(fs, inode, Words(fs.dev), inode.data[..], q, chain) && |chain| == |q|
    ensures var where, last := chain[|chain| - 1], BlockToPath(fs.ptrs, iblock).boundary;
            && last >= 0 && where.slot + last + 1 == (if |q| == 1 then NDIR_BLOCKS else fs.ptrs) <= where.p.Length
            && forall x :: where.slot <= x <= where.slot + last ==> where.p[x] == fs.Map(inode, iblock + (x - where.slot))
  {
    hide Forest, Tree, Words, Lookup, Allocator.Valid, BlockToPath, Capacity;
    LastOffset(fs.ptrs, iblock);
    BoundaryRun(fs.ptrs, iblock, 0);
    var n, last := |q| - 1, BlockToPath(fs.ptrs, iblock).boundary;
    var where := chain[n];
    if n > 0 {
      NodeSlot(fs, inode, q, n);
    }
    forall x: nat | q[n] <= x <= q[n] + last
      ensures where.p[x] == fs.Map(inode, iblock + (x - q[n]))
    {
      BoundaryRun(fs.ptrs, iblock, x - q[n]);
      assert q[n := x] == q[..n] + [x];
      if n == 0 {
        SingleSlot(Words(fs.dev), inode.data[..], x);
      }
    }
  }

  lemma SingleSlot(w: Device, s: seq<nat>, x: nat)
    ensures Lookup(w, s, [] + [x]) == if x < |s| then s[x] else 0
  {
  }

  /** The run of consecutive blocks that starts with a block just found. */
  method MapMore(fs: FileSystem, inode: Inode, iblock: nat, maxblocks: nat, q: seq<nat>, blocksToBoundary: nat, chain: seq<Indirect>)
    returns (count: nat)
    requires fs.Ready() && fs.Holds(inode) && iblock < Capacity(fs.ptrs) && maxblocks > 0
    requires q == BlockToPath(fs.ptrs, iblock).offsets && ValidPath(fs.ptrs, q)
    requires blocksToBoundary == BlockToPath(fs.ptrs, iblock).boundary
    requires Chain(fs, inode, Words(fs.dev), inode.data[..], q, chain) && |chain| == |q|
    ensures 1 <= count <= maxblocks && count <= blocksToBoundary + 1
    ensures var bno := chain[|chain| - 1].key;
            && (forall b :: iblock <= b < iblock + count ==> fs.Map(inode, b) == bno + (b - iblock))
            && (count == maxblocks || count == blocksToBoundary + 1 || fs.Map(inode, iblock + count) != bno + count)
  {
    hide Forest, Tree, Words, Lookup, Allocator.Valid, BlockToPath, Capacity, FileSystem.Map;
    NextSlots(fs, inode, iblock, q, chain);
    ChainHolds(fs, inode, q, chain);
    var where := chain[|chain| - 1];
    assert where.p[where.slot] == fs.Map(inode, iblock);
    count := 1;
    while count < maxblocks && count <= blocksToBoundary
      invariant 1 <= count <= maxblocks && count <= blocksToBoundary + 1
      invariant forall b :: iblock <= b < iblock + count ==> fs.Map(inode, b) == where.key + (b - iblock)
    {
      var same := VerifyChain(chain);
      if !same {
        assert false; // only another thread could have cut the branch
      }
      var blk := where.p[where.slot + count];
      assert blk == fs.Map(inode, iblock + count);
      if blk != where.key + count {
        break;
      }
      count := count + 1;
    }
  }

  /** Nothing that the file or any other reads through its tree has changed. */
  twostate predicate Untouched(fs: FileSystem, inode: Inode)
    reads fs.dev, inode, inode.data, fs.alloc
  {
    && inode.data[..] == old(inode.data[..]) && inode.blocks == old(inode.blocks)
    && fs.alloc.used == old(fs.alloc.used)
    && forall c :: 0 <= c < |fs.dev| && c in old(fs.alloc.used) ==> fs.dev[c][..] == old(fs.dev[c][..])
  }

  /** Bitmaps and free counts are as they were. */
  twostate predicate CountsRestored(alloc: Allocator)
    requires alloc.Shape()
    reads alloc, alloc.bitmaps, alloc.freeCount
  {
    && alloc.Bits() == old(alloc.Bits()) && alloc.freeCount[..] == old(alloc.freeCount[..])
    && alloc.freeBlocks == old(alloc.freeBlocks)
  }

  twostate lemma Restored(alloc: Allocator)
    requires old(alloc.Valid()) && alloc.Valid() && alloc.used == old(alloc.used)
    ensures CountsRestored(alloc)
  {
    alloc.BooksRestored();
  }

  /** If no block in use has changed, nor the inode, the file is as it was. */
  lemma UntouchedKeeps(fs: FileSystem, inode: Inode, w: Device)
    requires fs.Ready() && inode.data.Length == N_BLOCKS && inode.data != fs.alloc.freeCount && inode.data !in fs.dev
    requires inode.window != null ==> inode.window in fs.alloc.tree.known
    requires |w| == |fs.dev| && Releasable(fs.alloc, All(w, inode.data[..], Root)) && inode.blocks == |All(w, inode.data[..], Root)|
    requires forall c :: 0 <= c < |w| && c in fs.alloc.used ==> fs.dev[c][..] == w[c]
    ensures fs.Holds(inode) && fs.Own(inode) == All(w, inode.data[..], Root)
    ensures forall b: nat :: fs.Map(inode, b) == BlockMap(fs.ptrs, w, inode.data[..], b)
    ensures NoneEmpty(fs.ptrs, w, inode.data[..]) ==> NoneEmpty(fs.ptrs, Words(fs.dev), inode.data[..])
  {
    hide Forest, Tree, Words, Lookup, Allocator.Valid, BlockToPath, Capacity, NoneEmpty;
    var v, s := Words(fs.dev), inode.data[..];
    forall c | 0 <= c < |w| && c in All(w, s, Root)
      ensures v[c] == w[c]
    {
      assert c in Elems(All(w, s, Root));
    }
    SameTree(fs.ptrs, w, v, s);
  }

  lemma SameTree(ptrs: nat, w: Device, v: Device, s: seq<nat>)
    requires ptrs >= 16 && Agree(w, v, All(w, s, Root))
    ensures All(v, s, Root) == All(w, s, Root)
    ensures forall p :: Inside(Root, p) ==> Lookup(v, s, p) == Lookup(w, s, p)
    ensures forall b: nat :: BlockMap(ptrs, v, s, b) == BlockMap(ptrs, w, s, b)
    ensures NoneEmpty(ptrs, w, s) ==> NoneEmpty(ptrs, v, s)
  {
    hide Forest, Tree, Lookup, BlockToPath, Capacity, PathToBlock, HasPointer;
    ForestFrame(w, v, s, Root, 0, |s|);
    forall p | Inside(Root, p)
      ensures Lookup(v, s, p) == Lookup(w, s, p)
    {
      SameLookup(w, v, s, p);
    }
    forall b: nat
      ensures BlockMap(ptrs, v, s, b) == BlockMap(ptrs, w, s, b)
    {
      PathOfBlock(ptrs, b);
      var p := BlockToPath(ptrs, b).offsets;
      if p == [] {
        Pathless(w, s);
        Pathless(v, s);
      } else {
        PathInside(ptrs, p, |p|);
        assert p[..|p|] == p;
      }
    }
    if NoneEmpty(ptrs, w, s) {
      forall r: seq<nat> | LeadsToNode(v, s, r)
        ensures HasPointer(ptrs, v, s, r)
      {
        SamePointer(ptrs, w, v, s, r);
      }
    }
  }

  lemma SamePointer(ptrs: nat, w: Device, v: Device, s: seq<nat>, r: seq<nat>)
    requires forall p :: Inside(Root, p) ==> Lookup(v, s, p) == Lookup(w, s, p)
    requires LeadsToNode(v, s, r) && NoneEmpty(ptrs, w, s)
    ensures HasPointer(ptrs, v, s, r)
  {
    hide Lookup;
    assert Inside(Root, r);
    assert HasPointer(ptrs, w, s, r);
    var x: nat :| x < ptrs && Lookup(w, s, r + [x]) != 0;
    assert Inside(Root, r + [x]);
  }

  lemma SameLookup(w: Device, v: Device, s: seq<nat>, p: seq<nat>)
    requires Agree(w, v, All(w, s, Root)) && Inside(Root, p)
    ensures Lookup(v, s, p) == Lookup(w, s, p)
  {
    hide Tree, Forest;
    if p[0] < |s| {
      TreeBelow(w, s, Root, 0, |s|, p[0]);
      LookupFrame(w, v, s, Root, p);
    }
  }

  /** Give the file a window if it has none yet. */
  method OpenWindow(fs: FileSystem, inode: Inode, reservation: bool)
    requires fs.Ready() && fs.Holds(inode) && inode.window == null
    modifies fs.alloc.tree`known, inode`window
    ensures fs.Ready() && fs.Holds(inode) && inode.window != null && fresh(inode.window) && fs.alloc.HasWindow(inode) == reservation
    ensures fs.alloc.tree.known == old(fs.alloc.tree.known) + inode.Windows()
  {
    hide WindowTree.Valid, Allocator.Books, LaidOut, View, Forest, Tree, Words;
    inode.window := fs.alloc.tree.Open(reservation);
  }

  lemma FitsFewer(ptrs: nat, q: seq<nat>, m: nat, num: nat)
    requires Fits(ptrs, q, m) && 0 < num <= m
    ensures Fits(ptrs, q, num)
  {
  }

  lemma RoomAt(fs: FileSystem, inode: Inode, iblock: nat, q: seq<nat>, chain: seq<Indirect>)
    requires fs.Ready() && fs.Holds(inode) && iblock < Capacity(fs.ptrs)
    requires q == BlockToPath(fs.ptrs, iblock).offsets && ValidPath(fs.ptrs, q)
    requires Chain(fs, inode, Words(fs.dev), inode.data[..], q, chain)
    ensures var i, last := |chain| - 1, BlockToPath(fs.ptrs, iblock).boundary;
            var where := chain[i];
            && last >= 0 && Fits(fs.ptrs, q, last + 1)
            && where.slot == q[i] && where.slot < where.p.Length
            && (|chain| == |q| ==> where.slot + last + 1 <= where.p.Length)
            && (if i == 0 then where.p == inode.data
                else 0 < fs.At(inode, q[..i]) < |fs.dev| && where.p == fs.dev[fs.At(inode, q[..i])])
  {
    hide Forest, Tree, Words, Lookup, Allocator.Valid, BlockToPath, Capacity;
    LastOffset(fs.ptrs, iblock);
    BoundaryRun(fs.ptrs, iblock, 0);
    ChainHolds(fs, inode, q, chain);
    var i := |chain| - 1;
    if i > 0 {
      NodeSlot(fs, inode, q, i);
    }
  }

  /** The run is as long as was asked for, or the allocator's run ended: at a block
      in use, or at the end of the group or of the window. */
  ghost predicate Stopped(fs: FileSystem, inode: Inode, goal: nat, bno: nat, n: nat, count: nat)
    reads fs.alloc, inode, inode.Windows()
  {
    fs.alloc.geo.Valid() && fs.alloc.geo.first <= bno && LongEnough(fs.alloc, fs.alloc.used, inode, goal, bno, n, count)
  }

  /** A file without a window has been given the first unused block from the goal on. */
  ghost predicate TookNear(fs: FileSystem, used: set<int>, window: bool, goal: nat)
    reads fs.alloc
  {
    fs.alloc.geo.Valid() && exists b: nat :: b in fs.alloc.used && NearGoal(fs.alloc, used, window, goal, b)
  }

  lemma Placed(fs: FileSystem, inode: Inode, goal: nat, nb: seq<nat>, num: nat, count: nat, most: nat, used: set<int>, window: bool)
    requires fs.alloc.geo.Valid() && |nb| > 0 && num > 0 && fs.alloc.geo.first <= nb[|nb| - 1]
    requires LongEnough(fs.alloc, fs.alloc.used, inode, goal, nb[|nb| - 1], num, count)
    requires NearGoal(fs.alloc, used, window, goal, nb[0]) && Handed(fs, nb, num, used, fs.alloc.used)
    ensures num == count || Stopped(fs, inode, goal, nb[|nb| - 1], num, most)
    ensures TookNear(fs, used, window, goal)
  {
    hide NearGoal, RunEnds, Run, GraftBlocks, NoDup;
    BranchDistinct(nb, num);
    assert nb[0] in GraftBlocks(nb, num) && nb[0] in Elems(GraftBlocks(nb, num));
  }

  /** What filling a hole does: the file has n new blocks from iblock on; the run
      ends as asked for, at the end of the node, before a block that was mapped, or
      where the allocator had to stop, and it starts as near to the goal as it can. */
  twostate predicate Filled(fs: FileSystem, inode: Inode, iblock: nat, maxblocks: nat, n: nat, bno: nat, goal: nat, window: bool)
    requires fs.ptrs >= 16
    reads fs.dev, inode, inode.data, fs.alloc, inode.Windows()
  {
    && 1 <= n <= maxblocks && n <= BlockToPath(fs.ptrs, iblock).boundary + 1
    && Added(fs.ptrs, old(Words(fs.dev)), old(inode.data[..]), old(fs.alloc.used),
             Words(fs.dev), inode.data[..], fs.alloc.used, iblock, n, bno)
    && (n == BlockToPath(fs.ptrs, iblock).boundary + 1 || old(fs.Map(inode, iblock + n)) != 0 || Stopped(fs, inode, goal, bno, n, maxblocks))
    && TookNear(fs, old(fs.alloc.used), window, goal)
  }

  /** What looking up a mapped block finds: the longest run in its node, as far as asked for. */
  twostate predicate Seen(fs: FileSystem, inode: Inode, iblock: nat, maxblocks: nat, n: nat, bno: nat)
    requires fs.ptrs >= 16
    reads fs.dev, inode, inode.data, fs.alloc
  {
    && Untouched(fs, inode) && 1 <= n <= maxblocks && n <= BlockToPath(fs.ptrs, iblock).boundary + 1
    && (forall b :: iblock <= b < iblock + n ==> fs.Map(inode, b) == bno + (b - iblock))
    && (n == maxblocks || n == BlockToPath(fs.ptrs, iblock).boundary + 1 || fs.Map(inode, iblock + n) != bno + n)
  }

  /** How a request on this volume fares. */
  ghost predicate FaresOn(fs: FileSystem, err: Errno, m: Means, used: set<int>, missing: int)
  {
    fs.alloc.geo.Valid() && missing >= 0 && Fares(err, m, |Unused(fs.alloc.geo, used)|, missing, fs.alloc.reserved)
  }

  /** How many blocks to ask for at the hole: as many as asked for, up to the end
      of the node or the next block that is mapped. */
  method AskFor(fs: FileSystem, inode: Inode, iblock: nat, maxblocks: nat, q: seq<nat>, blocksToBoundary: nat, chain: seq<Indirect>)
    returns (count: nat)
    requires fs.Ready() && fs.Holds(inode) && iblock < Capacity(fs.ptrs) && maxblocks > 0
    requires q == BlockToPath(fs.ptrs, iblock).offsets && ValidPath(fs.ptrs, q)
    requires blocksToBoundary == BlockToPath(fs.ptrs, iblock).boundary
    requires Chain(fs, inode, Words(fs.dev), inode.data[..], q, chain) && chain[|chain| - 1].key == 0
    ensures 1 <= count <= maxblocks && count <= blocksToBoundary + 1
    ensures count == maxblocks || count == blocksToBoundary + 1 || fs.Map(inode, iblock + count) != 0
    ensures 1 <= |chain| <= |q| && Fits(fs.ptrs, q, count) && Room(fs, q, chain[|chain| - 1], |chain| - 1, count)
    ensures var i, where := |chain| - 1, chain[|chain| - 1];
            if i == 0 then where.p == inode.data
            else 0 < fs.At(inode, q[..i]) < |fs.dev| && where.p == fs.dev[fs.At(inode, q[..i])]
  {
    hide Forest, Tree, Words, Lookup, Allocator.Valid, BlockToPath, Capacity, FileSystem.Map, Fits;
    var where := chain[|chain| - 1];
    ChainHolds(fs, inode, q, chain);
    RoomAt(fs, inode, iblock, q, chain);
    count := BlksToAllocate(where, |q| - |chain|, maxblocks, blocksToBoundary);
    if |chain| == |q| {
      NextSlots(fs, inode, iblock, q, chain);
    }
    FitsFewer(fs.ptrs, q, blocksToBoundary + 1, count);
  }

  /** Allocate for an empty slot met on the walk to iblock. */
  method Allocate(fs: FileSystem, inode: Inode, iblock: nat, maxblocks: nat, q: seq<nat>, blocksToBoundary: nat,
                  chain: seq<Indirect>, goal: nat, m: Means)
    returns (n: nat, bno: nat, err: Errno)
    requires fs.Ready() && fs.Holds(inode) && iblock < Capacity(fs.ptrs) && maxblocks > 0
    requires q == BlockToPath(fs.ptrs, iblock).offsets && ValidPath(fs.ptrs, q)
    requires blocksToBoundary == BlockToPath(fs.ptrs, iblock).boundary
    requires Chain(fs, inode, Words(fs.dev), inode.data[..], q, chain) && chain[|chain| - 1].key == 0
    modifies fs.dev, inode.data, fs.alloc, fs.alloc.bitmaps, fs.alloc.freeCount, fs.alloc.tree`nodes, inode`blocks, inode.Windows()
    ensures fs.Ready() && fs.Holds(inode) && fs.alloc.misfrees == old(fs.alloc.misfrees)
    ensures err == OK ==> Filled(fs, inode, iblock, maxblocks, n, bno, goal, old(fs.alloc.HasWindow(inode)))
    ensures err != OK ==> n == 0 && Untouched(fs, inode)
    ensures FaresOn(fs, err, m, old(fs.alloc.used), |q| - |chain|) && err in {OK, ENOSPC, EDQUOT, ENOMEM}
    ensures old(NoneEmpty(fs.ptrs, Words(fs.dev), inode.data[..])) ==> NoneEmpty(fs.ptrs, Words(fs.dev), inode.data[..])
  {
    hide Forest, Tree, Words, Lookup, Allocator.Valid, BlockToPath, Capacity, FileSystem.Map, Spliced, GraftBlocks, NoneEmpty, Run, Added,
         Fits, Room, Chain, ValidPath,
         LongEnough, NearGoal, Allocator.HasWindow, Unused;
    ghost var w, s, used := Words(fs.dev), inode.data[..], fs.alloc.used;
    var count := AskFor(fs, inode, iblock, maxblocks, q, blocksToBoundary, chain);
    var i := |chain| - 1;
    var where := chain[i];
    var branch, num;
    ghost var nb;
    branch, num, err, nb := AllocAndSplice(fs, inode, q, i, where, count, goal, m);
    n, bno := 0, 0;
    if err != OK {
      UntouchedKeeps(fs, inode, w);
      return;
    }
    FitsFewer(fs.ptrs, q, count, num);
    SplicedBooks(fs, w, s, Words(fs.dev), inode.data[..], q, i, nb, num, iblock, used, fs.alloc.used);
    n, bno := num, branch[|branch| - 1].key;
    Placed(fs, inode, goal, nb, num, count, maxblocks, used, old(fs.alloc.HasWindow(inode)));
  }

  /** Look the block up: the run it starts, or the walk to the hole. */
  method FindBlocks(fs: FileSystem, inode: Inode, iblock: nat, maxblocks: nat, q: seq<nat>, blocksToBoundary: nat)
    returns (n: nat, bno: nat, chain: seq<Indirect>)
    requires fs.Ready() && fs.Holds(inode) && iblock < Capacity(fs.ptrs) && maxblocks > 0
    requires q == BlockToPath(fs.ptrs, iblock).offsets && ValidPath(fs.ptrs, q)
    requires blocksToBoundary == BlockToPath(fs.ptrs, iblock).boundary
    ensures n == 0 <==> fs.Map(inode, iblock) == 0
    ensures n > 0 ==>
              && n <= maxblocks && n <= blocksToBoundary + 1
              && (forall b :: iblock <= b < iblock + n ==> fs.Map(inode, b) == bno + (b - iblock))
              && (n == maxblocks || n == blocksToBoundary + 1 || fs.Map(inode, iblock + n) != bno + n)
    ensures n == 0 ==> Chain(fs, inode, Words(fs.dev), inode.data[..], q, chain) && chain[|chain| - 1].key == 0
  {
    hide Forest, Tree, Words, Lookup, Allocator.Valid, BlockToPath, Capacity, FileSystem.Map;
    var complete;
    chain, complete := GetBranch(fs, inode, |q|, q);
    BranchEnd(fs, inode, iblock, q, chain);
    n, bno := 0, 0;
    if complete {
      n := MapMore(fs, inode, iblock, maxblocks, q, blocksToBoundary, chain);
      bno := chain[|chain| - 1].key;
    }
  }

  /** Will the file have a window to allocate from? */
  predicate Windowed(fs: FileSystem, inode: Inode, regular: bool, reservation: bool)
    reads inode, inode.Windows()
  {
    if regular && inode.window == null then reservation else fs.alloc.HasWindow(inode)
  }

  /** Fill the hole that the walk has found, with the truncate mutex held. */
  method FillHole(fs: FileSystem, inode: Inode, iblock: nat, maxblocks: nat, q: seq<nat>, blocksToBoundary: nat,
                  chain: seq<Indirect>, goal: nat, regular: bool, reservation: bool, m: Means)
    returns (n: nat, bno: nat, err: Errno)
    requires fs.Ready() && fs.Holds(inode) && iblock < Capacity(fs.ptrs) && maxblocks > 0
    requires q == BlockToPath(fs.ptrs, iblock).offsets && ValidPath(fs.ptrs, q)
    requires blocksToBoundary == BlockToPath(fs.ptrs, iblock).boundary
    requires Chain(fs, inode, Words(fs.dev), inode.data[..], q, chain) && chain[|chain| - 1].key == 0
    modifies fs.dev, inode.data, inode`blocks, inode`window, inode.Windows(),
             fs.alloc, fs.alloc.bitmaps, fs.alloc.freeCount, fs.alloc.tree`nodes, fs.alloc.tree`known
    ensures fs.Ready() && fs.Holds(inode) && fs.alloc.misfrees == old(fs.alloc.misfrees)
    ensures inode.window == old(inode.window) || (fresh(inode.window) && old(inode.window) == null && regular)
    ensures fs.alloc.tree.known == old(fs.alloc.tree.known) + inode.Windows()
    ensures err == OK ==> Filled(fs, inode, iblock, maxblocks, n, bno, goal, old(Windowed(fs, inode, regular, reservation)))
    ensures err != OK ==> n == 0 && Untouched(fs, inode)
    ensures inode.window == null <==> old(inode.window) == null && !regular
    ensures FaresOn(fs, err, m, old(fs.alloc.used), |q| - |chain|) && err in {OK, ENOSPC, EDQUOT, ENOMEM}
    ensures old(NoneEmpty(fs.ptrs, Words(fs.dev), inode.data[..])) ==> NoneEmpty(fs.ptrs, Words(fs.dev), inode.data[..])
  {
    hide Forest, Tree, Words, Lookup, Allocator.Valid, BlockToPath, Capacity, NoneEmpty, Added, Stopped, TookNear, FaresOn, FileSystem.Map;
    ChainHolds(fs, inode, q, chain);
    var same := VerifyChain(chain);
    if !same {
      assert false; // only another thread could have continued the branch
    }
    if regular && inode.window == null {
      OpenWindow(fs, inode, reservation);
    }
    n, bno, err := Allocate(fs, inode, iblock, maxblocks, q, blocksToBoundary, chain, goal, m);
  }

  lemma NotMapped(fs: FileSystem, inode: Inode, iblock: nat)
    requires fs.ptrs >= 16 && BlockToPath(fs.ptrs, iblock).offsets == []
    ensures fs.Map(inode, iblock) == 0
  {
    hide Words, Lookup, BlockToPath;
    Pathless(Words(fs.dev), inode.data[..]);
  }

  /** How many of the first k steps along q lead to a block. */
  ghost function Links(w: Device, s: seq<nat>, q: seq<nat>, k: nat): (n: nat)
    requires k <= |q|
    ensures n <= k
  {
    if k == 0 then 0 else Links(w, s, q, k - 1) + if Lookup(w, s, q[..k]) != 0 then 1 else 0
  }

  /** The indirect blocks that are missing on the way to a block that is not mapped. */
  ghost function Missing(ptrs: nat, w: Device, s: seq<nat>, iblock: nat): int
    requires ptrs >= 16
  {
    var q := BlockToPath(ptrs, iblock).offsets;
    |q| - 1 - Links(w, s, q, |q|)
  }

  lemma ChainLinks(fs: FileSystem, inode: Inode, q: seq<nat>, chain: seq<Indirect>)
    requires fs.ptrs >= 16 && ValidPath(fs.ptrs, q) && Chain(fs, inode, Words(fs.dev), inode.data[..], q, chain) && chain[|chain| - 1].key == 0
    ensures |q| - 1 - Links(Words(fs.dev), inode.data[..], q, |q|) == |q| - |chain|
  {
    hide Words, Lookup;
    var w, s, d := Words(fs.dev), inode.data[..], |chain|;
    for k := 0 to |q|
      invariant Links(w, s, q, k) == if k < d then k else d - 1
    {
      if k + 1 < d {
        assert chain[k + 1].slot == q[k + 1] && Lookup(w, s, q[..k + 1]) > 0;
      } else {
        assert Lookup(w, s, q[..d]) == 0;
        assert q[..k + 1][..d] == q[..d];
        LookupStops(w, s, q[..k + 1], d);
      }
    }
  }

  /** What kr_get_blocks answers: the run that a mapped block starts; nothing for
      a hole that is only looked at; for a hole to be filled, a new run, unless there
      is no quota, memory or block for all that is missing, and then nothing. */
  twostate predicate Got(fs: FileSystem, inode: Inode, iblock: nat, maxblocks: nat, create: bool, goal: nat, window: bool, m: Means,
                         n: nat, bno: nat, isNew: bool, boundary: bool, err: Errno)
    requires fs.ptrs >= 16
    reads fs.dev, inode, inode.data, fs.alloc, inode.Windows()
  {
    && boundary == (n > 0 && n == BlockToPath(fs.ptrs, iblock).boundary + 1)
    && if iblock >= Capacity(fs.ptrs) then
         err == EIO && !isNew && n == 0 && Untouched(fs, inode)
       else if old(fs.Map(inode, iblock)) != 0 then
         err == OK && !isNew && Seen(fs, inode, iblock, maxblocks, n, bno)
       else if !create then
         err == OK && !isNew && n == 0 && Untouched(fs, inode)
       else
         && FaresOn(fs, err, m, old(fs.alloc.used), old(Missing(fs.ptrs, Words(fs.dev), inode.data[..], iblock)))
         && isNew == (err == OK)
         && if isNew then Filled(fs, inode, iblock, maxblocks, n, bno, goal, window) else n == 0 && Untouched(fs, inode)
  }

  /** kr_get_blocks: find the run of blocks that starts at iblock, or on request
      fill a hole with as long a run as can be had in one piece. */
  method GetBlocks(fs: FileSystem, inode: Inode, iblock: nat, maxblocks: nat, create: bool,
                   goal: nat, regular: bool, reservation: bool, m: Means)
    returns (n: nat, bno: nat, isNew: bool, boundary: bool, err: Errno)
    requires fs.Ready() && fs.Holds(inode) && maxblocks > 0
    modifies fs.dev, inode.data, inode`blocks, inode`window, inode.Windows(),
             fs.alloc, fs.alloc.bitmaps, fs.alloc.freeCount, fs.alloc.tree`nodes, fs.alloc.tree`known
    ensures fs.Ready() && fs.Holds(inode) && fs.alloc.misfrees == old(fs.alloc.misfrees)
    ensures fs.alloc.tree.known == old(fs.alloc.tree.known) + inode.Windows()
    ensures Got(fs, inode, iblock, maxblocks, create, goal, old(Windowed(fs, inode, regular, reservation)), m, n, bno, isNew, boundary, err)
    ensures !isNew ==> CountsRestored(fs.alloc)
    ensures old(fs.Map(inode, iblock)) != 0 || !create ==> fs.alloc.tree.nodes == old(fs.alloc.tree.nodes)
    ensures inode.window == old(inode.window) || (fresh(inode.window) && old(inode.window) == null && regular && create)
    ensures old(fs.Map(inode, iblock)) == 0 && create && regular && iblock < Capacity(fs.ptrs) ==> inode.window != null
    ensures old(NoneEmpty(fs.ptrs, Words(fs.dev), inode.data[..])) ==> NoneEmpty(fs.ptrs, Words(fs.dev), inode.data[..])
  {
    hide Forest, Tree, Words, Lookup, Allocator.Valid, BlockToPath, Capacity, NoneEmpty, PathToBlock, Added, ValidPath,
         FileSystem.Map, Chain, FileSystem.Own,
         Stopped, TookNear, FaresOn, Links;
    n, bno, isNew, boundary, err := 0, 0, false, false, OK;
    var path := BlockToPath(fs.ptrs, iblock);
    var q := path.offsets;
    PathOfBlock(fs.ptrs, iblock);
    if q == [] {
      NotMapped(fs, inode, iblock);
      err := EIO;
      Restored(fs.alloc);
      return;
    }
    BoundaryRun(fs.ptrs, iblock, 0);
    var chain;
    n, bno, chain := FindBlocks(fs, inode, iblock, maxblocks, q, path.boundary);
    if n > 0 {
      boundary := n > path.boundary;
      return;
    }
    if !create {
      Restored(fs.alloc);
      return;
    }
    ChainLinks(fs, inode, q, chain);
    n, bno, err := FillHole(fs, inode, iblock, maxblocks, q, path.boundary, chain, goal, regular, reservation, m);
    isNew, boundary := err == OK, n > path.boundary;
    if err != OK {
      Restored(fs.alloc);
    }
  }

  /** Where the walk ends tells whether the block is mapped. */
  lemma BranchEnd(fs: FileSystem, inode: Inode, iblock: nat, q: seq<nat>, chain: seq<Indirect>)
    requires fs.Ready() && q == BlockToPath(fs.ptrs, iblock).offsets
    requires Chain(fs, inode, Words(fs.dev), inode.data[..], q, chain)
    ensures |chain| == |q| ==> chain[|chain| - 1].key == fs.Map(inode, iblock)
    ensures chain[|chain| - 1].key == 0 ==> fs.Map(inode, iblock) == 0
  {
    hide Words, Lookup, BlockToPath, Allocator.Valid;
    var i := |chain|;
    if i == |q| {
      assert q[..i] == q;
    }
    if chain[i - 1].key == 0 {
      LookupStops(Words(fs.dev), inode.data[..], q, i);
    }
  }
}
