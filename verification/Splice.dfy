/**
 Splicing a freshly built branch into a file's tree: the file gains exactly the
 branch's blocks, and its map exactly the new data blocks.
 */
module Splice {
  import opened BlockPath
  import opened Branch
  import opened CutPath
  import opened FileMap
  import opened Graft
  import opened PointerTree

  /** The slots [lo, hi) were empty and now hold consecutive blocks from b on. */
  predicate Put(s: seq<nat>, t: seq<nat>, lo: nat, n: nat, b: nat) {
    Holding(t, lo, n, b) && s == Cleared(t, lo, lo + n)
  }

  /** From (w, s) to (v, t) a branch was built from the blocks nb and spliced
      into the slot q[i] of the node at q[..i]; q leads to its first data block. */
  ghost predicate Spliced(ptrs: nat, w: Device, s: seq<nat>, v: Device, t: seq<nat>,
                          q: seq<nat>, i: nat, nb: seq<nat>, num: nat) {
    && i < |q| && |nb| == |q| - i && |v| == |w| && num > 0
    && FreshBranch(v, ptrs, q[i..], nb, num)
    && if i == 0 then
         && Put(s, t, q[0], Width(q, num), nb[0])
         && forall c :: 0 <= c < |w| && c !in GraftBlocks(nb, num) ==> v[c] == w[c]
       else
         var b := Lookup(w, s, q[..i]);
         && t == s && 0 < b < |w| && Put(w[b], v[b], q[i], Width(q[i..], num), nb[0])
         && forall c :: 0 <= c < |w| && c != b && c !in GraftBlocks(nb, num) ==> v[c] == w[c]
  }

  /** The path stays within its last node over all new data blocks. */
  predicate Fits(ptrs: nat, q: seq<nat>, num: nat) {
    ptrs >= 16 && ValidPath(ptrs, q) && q[|q| - 1] + num <= if |q| == 1 then NDIR_BLOCKS else ptrs
  }

  lemma SlotHeights(ptrs: nat, q: seq<nat>, i: nat, num: nat)
    requires Fits(ptrs, q, num) && num > 0 && i < |q|
    ensures i == 0 ==> forall y :: q[0] <= y < q[0] + Width(q, num) ==> Height(Root, y) == |q| - 1
    ensures i > 0 ==> Height(Root, q[..i][0]) >= i && SlotHeight(Root, q[..i]) == |q[i..]| - 1
  {
    if i > 0 {
      PathInside(ptrs, q, i);
    }
  }

  /** The tree gains the branch's blocks and nothing else. */
  lemma SpliceBlocks(ptrs: nat, w: Device, s: seq<nat>, v: Device, t: seq<nat>, q: seq<nat>, i: nat, nb: seq<nat>, num: nat)
    requires Fits(ptrs, q, num) && Spliced(ptrs, w, s, v, t, q, i, nb, num) && NoDup(All(w, s, Root))
    requires forall c :: c in GraftBlocks(nb, num) ==> c !in All(w, s, Root)
    ensures All(v, t, Root) == All(w, s, Root) + GraftBlocks(nb, num)
    ensures forall p :: Inside(Root, p) ==>
              Lookup(v, t, p) ==
              if InRegion(p, q[..i], q[i], q[i] + Width(q[i..], num)) then GraftLookup(q[i..], nb, num, p[i..]) else Lookup(w, s, p)
  {
    hide Forest, Tree, Cleared, Lookup, Reach, GraftLookup, GraftBlocks, FreshBranch;
    SlotHeights(ptrs, q, i, num);
    var hi := q[i] + Width(q[i..], num);
    if i == 0 {
      assert q[0..] == q;
      GraftForest(v, ptrs, t, Root, q, nb, num);
      FillSlots(w, v, s, t, Root, q[0], hi);
      forall p | Inside(Root, p)
        ensures InRegion(p, q[..0], q[0], hi) <==> q[0] <= p[0] < hi
      {
      }
      forall p | Inside(Root, p) && q[0] <= p[0] < hi
        ensures Lookup(v, t, p) == GraftLookup(q, nb, num, p[0..])
      {
        assert p[0..] == p;
        GraftLeads(v, ptrs, t, Root, q, nb, num, p);
      }
    } else {
      var r, b, h := q[..i], Lookup(w, s, q[..i]), SlotHeight(Root, q[..i]);
      ReachFromLookup(w, s, Root, r);
      GraftForest(v, ptrs, v[b], Node(h), q[i..], nb, num);
      FillNode(w, v, s, Root, r, q[i], hi);
      forall p | Inside(Root, p) && InRegion(p, r, q[i], hi)
        ensures Lookup(v, v[b], p[i..]) == GraftLookup(q[i..], nb, num, p[i..])
      {
        GraftLeads(v, ptrs, v[b], Node(h), q[i..], nb, num, p[i..]);
      }
    }
  }

  /** Where the branch is spliced in there was nothing. */
  lemma WasEmpty(ptrs: nat, w: Device, s: seq<nat>, v: Device, t: seq<nat>, q: seq<nat>, i: nat, nb: seq<nat>, num: nat, p: seq<nat>)
    requires Fits(ptrs, q, num) && Spliced(ptrs, w, s, v, t, q, i, nb, num)
    requires InRegion(p, q[..i], q[i], q[i] + Width(q[i..], num))
    ensures Lookup(w, s, p) == 0
  {
    hide Forest, Tree, Reach, FreshBranch;
    SlotHeights(ptrs, q, i, num);
    if i > 0 {
      ReachFromLookup(w, s, Root, q[..i]);
      LookupThrough(w, s, Root, q[..i], p);
    }
  }

  /** The file's map gains exactly the new data blocks. */
  lemma SpliceMap(ptrs: nat, w: Device, s: seq<nat>, v: Device, t: seq<nat>, q: seq<nat>, i: nat, nb: seq<nat>, num: nat, first: nat)
    requires Fits(ptrs, q, num) && Spliced(ptrs, w, s, v, t, q, i, nb, num)
    requires first < Capacity(ptrs) && q == BlockToPath(ptrs, first).offsets
    requires forall p :: Inside(Root, p) ==>
               Lookup(v, t, p) ==
               if InRegion(p, q[..i], q[i], q[i] + Width(q[i..], num)) then GraftLookup(q[i..], nb, num, p[i..]) else Lookup(w, s, p)
    ensures forall b: nat :: BlockMap(ptrs, v, t, b) ==
              if first <= b < first + num then nb[|nb| - 1] + (b - first) else BlockMap(ptrs, w, s, b)
  {
    hide Lookup, BlockToPath, Capacity, GraftLookup, Spliced, PathToBlock;
    SplicedShape(ptrs, w, s, v, t, q, i, nb, num);
    forall b: nat
      ensures BlockMap(ptrs, v, t, b) ==
              if first <= b < first + num then nb[|nb| - 1] + (b - first) else BlockMap(ptrs, w, s, b)
    {
      SpliceMapAt(ptrs, w, s, v, t, q, i, nb, num, first, b);
    }
  }

  /** One path: the new data, or what was there. */
  lemma SplicePath(ptrs: nat, w: Device, s: seq<nat>, v: Device, t: seq<nat>, q: seq<nat>, i: nat, nb: seq<nat>, num: nat, p: seq<nat>)
    requires Fits(ptrs, q, num) && Spliced(ptrs, w, s, v, t, q, i, nb, num) && ValidPath(ptrs, p)
    requires Lookup(v, t, p) ==
             if InRegion(p, q[..i], q[i], q[i] + Width(q[i..], num)) then GraftLookup(q[i..], nb, num, p[i..]) else Lookup(w, s, p)
    ensures var n := |q| - 1;
            Lookup(v, t, p) ==
            if |p| == |q| && p[..n] == q[..n] && q[n] <= p[n] < q[n] + num then nb[|nb| - 1] + (p[n] - q[n]) else Lookup(w, s, p)
  {
    hide Lookup, GraftLookup, Spliced, FreshBranch;
    SplicedShape(ptrs, w, s, v, t, q, i, nb, num);
    var n := |q| - 1;
    if InRegion(p, q[..i], q[i], q[i] + Width(q[i..], num)) {
      WasEmpty(ptrs, w, s, v, t, q, i, nb, num, p);
      SameDepth(ptrs, p, q, i, num);
      GraftData(q[i..], nb, num, p[i..]);
      SplitAt(p, q, i);
    } else {
      NeighboursInRegion(p, q, i, num);
    }
  }

  lemma NeighboursInRegion(p: seq<nat>, q: seq<nat>, i: nat, num: nat)
    requires i < |q|
    ensures |p| == |q| && p[..|q| - 1] == q[..|q| - 1] && q[|q| - 1] <= p[|q| - 1] < q[|q| - 1] + num ==>
              InRegion(p, q[..i], q[i], q[i] + Width(q[i..], num))
  {
    var n := |q| - 1;
    if |p| == |q| && p[..n] == q[..n] {
      assert p[..i] == p[..n][..i] && q[..i] == q[..n][..i];
      if i < n {
        assert p[i] == p[..n][i] && q[i] == q[..n][i];
      }
    }
  }

  lemma SplicedShape(ptrs: nat, w: Device, s: seq<nat>, v: Device, t: seq<nat>, q: seq<nat>, i: nat, nb: seq<nat>, num: nat)
    requires Spliced(ptrs, w, s, v, t, q, i, nb, num)
    ensures i < |q| && |nb| == |q| - i && num > 0 && FreshBranch(v, ptrs, q[i..], nb, num)
  {
  }

  lemma SameDepth(ptrs: nat, p: seq<nat>, q: seq<nat>, i: nat, num: nat)
    requires Fits(ptrs, q, num) && ValidPath(ptrs, p) && i < |q|
    requires InRegion(p, q[..i], q[i], q[i] + Width(q[i..], num))
    ensures |p| == |q|
  {
    if i > 0 {
      assert p[0] == p[..i][0] == q[..i][0] == q[0];
    }
  }

  lemma SplitAt(p: seq<nat>, q: seq<nat>, i: nat)
    requires |p| == |q| && i < |q| && p[..i] == q[..i]
    ensures p[..|q| - 1] == q[..|q| - 1] <==> p[i..][..|q| - i - 1] == q[i..][..|q| - i - 1]
  {
    var n := |q| - 1;
    assert p[..n] == p[..i] + p[i..][..n - i] && q[..n] == q[..i] + q[i..][..n - i];
    assert p[..n][i..] == p[i..][..n - i] && q[..n][i..] == q[i..][..n - i];
  }

  lemma SpliceMapAt(ptrs: nat, w: Device, s: seq<nat>, v: Device, t: seq<nat>, q: seq<nat>, i: nat, nb: seq<nat>, num: nat,
                    first: nat, b: nat)
    requires Fits(ptrs, q, num) && Spliced(ptrs, w, s, v, t, q, i, nb, num)
    requires first < Capacity(ptrs) && q == BlockToPath(ptrs, first).offsets
    requires forall p :: Inside(Root, p) ==>
               Lookup(v, t, p) ==
               if InRegion(p, q[..i], q[i], q[i] + Width(q[i..], num)) then GraftLookup(q[i..], nb, num, p[i..]) else Lookup(w, s, p)
    ensures BlockMap(ptrs, v, t, b) ==
            if first <= b < first + num then nb[|nb| - 1] + (b - first) else BlockMap(ptrs, w, s, b)
  {
    hide Lookup, BlockToPath, Capacity, GraftLookup, Spliced, PathToBlock;
    SplicedShape(ptrs, w, s, v, t, q, i, nb, num);
    var p := BlockToPath(ptrs, b).offsets;
    NeighbourPaths(ptrs, first, q, num, b);
    PathOfBlock(ptrs, b);
    if b < Capacity(ptrs) {
      PathInside(ptrs, p, |p|);
      assert p[..|p|] == p;
      SplicePath(ptrs, w, s, v, t, q, i, nb, num, p);
    } else {
      assert p == [];
      Pathless(w, s);
      Pathless(v, t);
    }
  }

  /** The paths of the next blocks are the neighbours of q in its last node. */
  lemma NeighbourPaths(ptrs: nat, first: nat, q: seq<nat>, num: nat, b: nat)
    requires Fits(ptrs, q, num) && first < Capacity(ptrs) && q == BlockToPath(ptrs, first).offsets
    ensures var n, p := |q| - 1, BlockToPath(ptrs, b).offsets;
            var near := |p| == |q| && p[..n] == q[..n] && q[n] <= p[n] < q[n] + num;
            && (near <==> first <= b < first + num)
            && (near ==> p[n] - q[n] == b - first)
            && (b >= Capacity(ptrs) ==> !near)
  {
    hide BlockToPath, Capacity, PathToBlock, ValidPath;
    var n, p := |q| - 1, BlockToPath(ptrs, b).offsets;
    PathOfBlock(ptrs, b);
    PathOfBlock(ptrs, first);
    LastOffset(ptrs, first);
    if first <= b < first + num {
      BoundaryRun(ptrs, first, b - first);
      assert p[..n] == q[..n];
    }
    if |p| == |q| && p[..n] == q[..n] && q[n] <= p[n] < q[n] + num {
      var d: nat := p[n] - q[n];
      BoundaryRun(ptrs, first, d);
      assert p == q[n := q[n] + d];
      PathOfBlock(ptrs, first + d);
    }
  }

  // ---------- no empty indirect blocks ----------

  lemma {:induction false} GraftNode(v: Device, ptrs: nat, q: seq<nat>, nb: seq<nat>, num: nat, r: seq<nat>)
    requires FreshBranch(v, ptrs, q, nb, num) && num > 0
    requires 0 < |r| < |q| && GraftLookup(q, nb, num, r) != 0
    ensures GraftLookup(q, nb, num, r + [q[|r|]]) > 0
    decreases |q|
  {
    var p := r + [q[|r|]];
    assert p[1..] == r[1..] + [q[|r|]];
    if |r| > 1 {
      GraftNode(v, ptrs, q[1..], nb[1..], num, r[1..]);
    }
  }

  lemma NodeInRegion(ptrs: nat, q: seq<nat>, i: nat, num: nat, r: seq<nat>)
    requires Fits(ptrs, q, num) && num > 0 && i < |q| && InRegion(r, q[..i], q[i], q[i] + Width(q[i..], num))
    requires Height(Root, r[0]) >= |r|
    ensures i < |r| < |q|
    ensures var p := r + [q[|r|]]; p[i..] == r[i..] + [q[|r|]] && InRegion(p, q[..i], q[i], q[i] + Width(q[i..], num))
  {
    SlotHeights(ptrs, q, i, num);
    if i > 0 {
      assert r[0] == r[..i][0] == q[..i][0] == q[0];
    }
    assert |r| < |q|;
    var p := r + [q[|r|]];
    assert p[i..] == r[i..] + [q[|r|]] && p[..i] == r[..i];
  }

  /** Splicing in a branch leaves no indirect block empty. */
  lemma SpliceNoneEmpty(ptrs: nat, w: Device, s: seq<nat>, v: Device, t: seq<nat>, q: seq<nat>, i: nat, nb: seq<nat>, num: nat)
    requires Fits(ptrs, q, num) && Spliced(ptrs, w, s, v, t, q, i, nb, num) && NoneEmpty(ptrs, w, s)
    requires forall p :: Inside(Root, p) ==>
               Lookup(v, t, p) ==
               if InRegion(p, q[..i], q[i], q[i] + Width(q[i..], num)) then GraftLookup(q[i..], nb, num, p[i..]) else Lookup(w, s, p)
    ensures NoneEmpty(ptrs, v, t)
  {
    hide Lookup, GraftLookup, FreshBranch, Spliced, Extends, Width;
    SplicedShape(ptrs, w, s, v, t, q, i, nb, num);
    forall r: seq<nat> | LeadsToNode(v, t, r)
      ensures HasPointer(ptrs, v, t, r)
    {
      var x: nat;
      if InRegion(r, q[..i], q[i], q[i] + Width(q[i..], num)) {
        NodeInRegion(ptrs, q, i, num, r);
        x := q[|r|];
        GraftNode(v, ptrs, q[i..], nb, num, r[i..]);
      } else {
        assert HasPointer(ptrs, w, s, r);
        x :| x < ptrs && Lookup(w, s, r + [x]) != 0;
        if InRegion(r + [x], q[..i], q[i], q[i] + Width(q[i..], num)) {
          WasEmpty(ptrs, w, s, v, t, q, i, nb, num, r + [x]);
        }
      }
      assert Inside(Root, r + [x]);
    }
  }
}
