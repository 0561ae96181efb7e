/**
 Walking down a file's tree along a list of slots.
 */
module Branch {
  import opened Allocator
  import opened BlockPath
  import opened FileMap
  import opened FreeTree
  import opened Inode
  import opened PointerTree

  /** A pointer slot met on the way down (a slot of a buffer) and the block
      number read from it. */
  datatype Indirect = Indirect(p: array<nat>, slot: nat, key: nat)

  /** The walk along q met the inode's buffer first and from then on the buffer
      of the block found last; it read what is there. */
  ghost predicate Chain(fs: FileSystem, inode: Inode, w: Device, s: seq<nat>, q: seq<nat>, chain: seq<Indirect>) {
    && 1 <= |chain| <= |q|
    && forall i :: 0 <= i < |chain| ==>
         && chain[i].slot == q[i] && chain[i].key == Lookup(w, s, q[..i + 1])
         && (i == 0 ==> chain[i].p == inode.data)
         && (i > 0 ==> 0 < Lookup(w, s, q[..i]) < |fs.dev| && chain[i].p == fs.dev[Lookup(w, s, q[..i])])
  }

  /** A valid path stays inside the tree at every step. */
  lemma PathInside(ptrs: nat, q: seq<nat>, i: nat)
    requires ptrs >= 16 && ValidPath(ptrs, q) && 0 < i <= |q|
    ensures Height(Root, q[0]) == |q| - 1
    ensures Inside(Root, q[..i])
    ensures i < |q| ==> Height(Root, q[..i][0]) >= i && SlotHeight(Root, q[..i]) == |q| - 1 - i
  {
  }

  /** What a walk finds is a block in use, hence a block of the device. */
  lemma FoundInUse(fs: FileSystem, inode: Inode, p: seq<nat>)
    requires fs.Ready() && fs.Holds(inode) && Inside(Root, p) && fs.At(inode, p) != 0
    ensures fs.At(inode, p) in fs.alloc.used && 0 < fs.At(inode, p) < fs.alloc.geo.count <= |fs.dev|
  {
    hide Forest, Tree, Words, Lookup, Allocator.Valid;
    LookupInTree(Words(fs.dev), inode.data[..], Root, p);
    assert fs.At(inode, p) in Elems(fs.Own(inode));
    InUseBelowEnd(fs.alloc);
  }

  /** The node at q[..i] and the block in its slot q[i]. */
  lemma NodeSlot(fs: FileSystem, inode: Inode, q: seq<nat>, i: nat)
    requires fs.Ready() && fs.Holds(inode) && ValidPath(fs.ptrs, q) && 0 < i < |q| && fs.At(inode, q[..i]) != 0
    ensures var b := fs.At(inode, q[..i]);
            && 0 < b < |fs.dev| && Reach(Words(fs.dev), inode.data[..], Root, q[..i])
            && fs.dev[b].Length == fs.ptrs && q[i] < fs.ptrs
            && (forall x: nat :: x < fs.ptrs ==> fs.At(inode, q[..i] + [x]) == fs.dev[b][x])
            && fs.At(inode, q[..i + 1]) == fs.dev[b][q[i]]
  {
    hide Forest, Tree, Words, Lookup, Allocator.Valid;
    PathInside(fs.ptrs, q, i);
    FoundInUse(fs, inode, q[..i]);
    var w, s := Words(fs.dev), inode.data[..];
    ReachFromLookup(w, s, Root, q[..i]);
    var b := fs.At(inode, q[..i]);
    forall x: nat | x < fs.ptrs
      ensures fs.At(inode, q[..i] + [x]) == fs.dev[b][x]
    {
      LookupStep(w, s, Root, q[..i], x);
    }
    assert q[..i + 1] == q[..i] + [q[i]];
  }

  lemma FirstSlot(fs: FileSystem, inode: Inode, q: seq<nat>)
    requires inode.data.Length == N_BLOCKS && ValidPath(fs.ptrs, q)
    ensures q[0] < N_BLOCKS && fs.At(inode, q[..1]) == inode.data[q[0]]
  {
  }

  /** verify_chain: nothing on the way changed since it was read. */
  method VerifyChain(chain: seq<Indirect>) returns (same: bool)
    requires forall i :: 0 <= i < |chain| ==> chain[i].slot < chain[i].p.Length
    ensures same <==> forall i :: 0 <= i < |chain| ==> chain[i].p[chain[i].slot] == chain[i].key
  {
    var i := 0;
    while i < |chain| && chain[i].key == chain[i].p[chain[i].slot]
      invariant i <= |chain|
      invariant forall k :: 0 <= k < i ==> chain[k].p[chain[k].slot] == chain[k].key
    {
      i := i + 1;
    }
    same := i == |chain|;
  }

  /** The slots of a chain still hold what was read from them. */
  lemma ChainHolds(fs: FileSystem, inode: Inode, q: seq<nat>, chain: seq<Indirect>)
    requires fs.Ready() && fs.Holds(inode) && ValidPath(fs.ptrs, q)
    requires Chain(fs, inode, Words(fs.dev), inode.data[..], q, chain)
    ensures forall i :: 0 <= i < |chain| ==> chain[i].slot < chain[i].p.Length && chain[i].p[chain[i].slot] == chain[i].key
  {
    hide Forest, Tree, Words, Lookup, Allocator.Valid;
    FirstSlot(fs, inode, q);
    forall i | 0 <= i < |chain|
      ensures chain[i].slot < chain[i].p.Length && chain[i].p[chain[i].slot] == chain[i].key
    {
      if i > 0 {
        NodeSlot(fs, inode, q, i);
      }
    }
  }

  /** kr_get_branch, with no other thread about: read the chain of blocks along
      q, down to `depth` slots or to the first empty one. */
  method GetBranch(fs: FileSystem, inode: Inode, depth: nat, q: seq<nat>) returns (chain: seq<Indirect>, complete: bool)
    requires fs.Ready() && fs.Holds(inode) && ValidPath(fs.ptrs, q) && 1 <= depth <= |q|
    ensures Chain(fs, inode, Words(fs.dev), inode.data[..], q, chain) && |chain| <= depth
    ensures complete ==> |chain| == depth && chain[|chain| - 1].key != 0
    ensures !complete ==> chain[|chain| - 1].key == 0
  {
    hide Forest, Tree, Words, Lookup, Allocator.Valid;
    FirstSlot(fs, inode, q);
    chain := [Indirect(inode.data, q[0], inode.data[q[0]])];
    complete := false;
    if chain[0].key == 0 {
      return;
    }
    for i := 1 to depth
      invariant |chain| == i && chain[i - 1].key != 0
      invariant Chain(fs, inode, Words(fs.dev), inode.data[..], q, chain)
    {
      NodeSlot(fs, inode, q, i);
      var buffer := fs.dev[chain[i - 1].key];
      ChainHolds(fs, inode, q, chain);
      var same := VerifyChain(chain);
      if !same {
        assert false; // only another thread could have changed it
      }
      chain := chain + [Indirect(buffer, q[i], buffer[q[i]])];
      if chain[i].key == 0 {
        return;
      }
    }
    complete := true;
  }
}
