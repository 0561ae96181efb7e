/**
 The files of a mounted file system together: whatever is done to them, in
 whatever order, the blocks in use are exactly the file system's own and those
 of the files' trees, each at one place of one file.
 */
module Volume {
  import opened Allocator
  import opened BlockPath
  import opened CutPath
  import opened FileMap
  import opened FreeTree
  import opened GetBlocks
  import opened Groups
  import opened Inode
  import opened PointerTree
  import opened Reservation
  import opened Truncate

  /** The root slots of each file. */
  ghost function Data(files: seq<Inode>): (r: seq<seq<nat>>)
    reads set f | f in files :: f.data
    ensures |r| == |files| && forall k :: 0 <= k < |files| ==> r[k] == files[k].data[..]
  {
    if |files| == 0 then [] else Data(files[..|files| - 1]) + [files[|files| - 1].data[..]]
  }

  /** The blocks of each file. */
  ghost function Owns(fs: FileSystem, files: seq<Inode>): (r: seq<multiset<int>>)
    reads fs.dev, set f | f in files :: f.data
    ensures |r| == |files| && forall k :: 0 <= k < |files| ==> r[k] == fs.Own(files[k])
  {
    if |files| == 0 then [] else Owns(fs, files[..|files| - 1]) + [fs.Own(files[|files| - 1])]
  }

  ghost function Total(owns: seq<multiset<int>>): multiset<int> {
    if |owns| == 0 then multiset{} else Total(owns[..|owns| - 1]) + owns[|owns| - 1]
  }

  lemma {:induction false} TotalUpdate(owns: seq<multiset<int>>, k: nat, m: multiset<int>)
    requires k < |owns|
    ensures Total(owns[k := m]) + owns[k] == Total(owns) + m
    decreases |owns|
  {
    var n := |owns| - 1;
    if k < n {
      assert owns[k := m][..n] == owns[..n][k := m];
      TotalUpdate(owns[..n], k, m);
      var a, b := Total(owns[..n][k := m]), Total(owns[..n]);
      assert (a + owns[n]) + owns[k] == (a + owns[k]) + owns[n];
      assert (b + owns[n]) + m == (b + m) + owns[n];
    } else {
      assert owns[k := m][..n] == owns[..n];
    }
  }

  lemma {:induction false} TotalAt(owns: seq<multiset<int>>, k: nat)
    requires k < |owns|
    ensures owns[k] <= Total(owns)
    decreases |owns|
  {
    if k < |owns| - 1 {
      TotalAt(owns[..|owns| - 1], k);
    }
  }

  lemma {:induction false} TotalTwo(owns: seq<multiset<int>>, j: nat, k: nat)
    requires j < k < |owns|
    ensures owns[j] + owns[k] <= Total(owns)
    decreases |owns|
  {
    if k < |owns| - 1 {
      TotalTwo(owns[..|owns| - 1], j, k);
    } else {
      TotalAt(owns[..k], j);
    }
  }

  /** The blocks in use are the file system's own and the files', nothing twice. */
  ghost predicate Balanced(used: set<int>, meta: set<int>, owns: seq<multiset<int>>) {
    multiset(used) == multiset(meta) + Total(owns)
  }

  /** So every block in use has one owner, and no block has two. */
  lemma OneOwner(used: set<int>, meta: set<int>, owns: seq<multiset<int>>)
    requires Balanced(used, meta, owns)
    ensures forall k :: 0 <= k < |owns| ==> NoDup(owns[k]) && Elems(owns[k]) <= used && Elems(owns[k]) !! meta
    ensures forall j, k :: 0 <= j < k < |owns| ==> Elems(owns[j]) !! Elems(owns[k])
    ensures forall b :: b in used && b !in meta ==> b in Total(owns)
  {
    forall k | 0 <= k < |owns|
      ensures NoDup(owns[k]) && Elems(owns[k]) <= used && Elems(owns[k]) !! meta
    {
      TotalAt(owns, k);
      forall b
        ensures owns[k][b] <= 1 && (b in owns[k] ==> b in used && b !in meta)
      {
        assert owns[k][b] <= Total(owns)[b];
        assert multiset(used)[b] == multiset(meta)[b] + Total(owns)[b];
      }
    }
    forall j, k | 0 <= j < k < |owns|
      ensures Elems(owns[j]) !! Elems(owns[k])
    {
      TotalTwo(owns, j, k);
      forall b | b in owns[j]
        ensures b !in owns[k]
      {
        assert (owns[j] + owns[k])[b] <= Total(owns)[b];
        assert multiset(used)[b] == multiset(meta)[b] + Total(owns)[b];
      }
    }
    forall b | b in used && b !in meta
      ensures b in Total(owns)
    {
      assert multiset(used)[b] == multiset(meta)[b] + Total(owns)[b];
    }
  }

  /** One file's tree was cut and what it lost was freed. */
  lemma BalancedAfterCut(used: set<int>, meta: set<int>, owns: seq<multiset<int>>, k: nat, m: multiset<int>, used': set<int>)
    requires Balanced(used, meta, owns) && k < |owns| && m <= owns[k]
    requires used' == used - (Elems(owns[k]) - Elems(m))
    ensures Balanced(used', meta, owns[k := m])
  {
    TotalUpdate(owns, k, m);
    TotalAt(owns, k);
    forall b
      ensures multiset(used')[b] == (multiset(meta) + Total(owns[k := m]))[b]
    {
      assert multiset(used)[b] == multiset(meta)[b] + Total(owns)[b];
      assert (Total(owns[k := m]) + owns[k])[b] == (Total(owns) + m)[b];
      assert m[b] <= owns[k][b] <= Total(owns)[b];
      assert (b in Elems(owns[k]) <==> owns[k][b] > 0) && (b in Elems(m) <==> m[b] > 0);
    }
  }

  /** One file's tree grew by blocks newly taken into use. */
  lemma BalancedAfterGrowth(used: set<int>, meta: set<int>, owns: seq<multiset<int>>, k: nat, m: multiset<int>, used': set<int>)
    requires Balanced(used, meta, owns) && k < |owns| && used <= used' && m == owns[k] + multiset(used' - used)
    ensures Balanced(used', meta, owns[k := m])
  {
    TotalUpdate(owns, k, m);
    forall b
      ensures multiset(used')[b] == (multiset(meta) + Total(owns[k := m]))[b]
    {
      assert multiset(used)[b] == multiset(meta)[b] + Total(owns)[b];
      assert (Total(owns[k := m]) + owns[k])[b] == (Total(owns) + m)[b];
      assert multiset(used' - used)[b] + multiset(used)[b] == multiset(used')[b];
    }
  }

  // ---------- one step on one file ----------

  /** The files do not share in-memory structures. */
  ghost predicate Separate(files: seq<Inode>)
    reads files
  {
    forall j, k :: 0 <= j < k < |files| ==>
      && files[j] != files[k] && files[j].data != files[k].data
      && (files[j].window == null || files[j].window != files[k].window)
  }

  ghost predicate Consistent(fs: FileSystem, files: seq<Inode>)
    reads fs.dev, files, set f | f in files :: f.data
    reads fs.alloc, fs.alloc.bitmaps, fs.alloc.freeCount
    reads fs.alloc.tree, fs.alloc.tree.head, fs.alloc.tree.known, fs.alloc.tree.nodes
  {
    && fs.Ready() && Separate(files)
    && (forall k :: 0 <= k < |files| ==> fs.Holds(files[k]))
    && Balanced(fs.alloc.used, fs.alloc.meta, Owns(fs, files))
  }

  /** Words of blocks in use change only in the file worked on. */
  ghost predicate Within(w: Device, v: Device, used: set<int>, own: multiset<int>) {
    |v| == |w| && forall c :: 0 <= c < |w| && c in used && c !in own ==> v[c] == w[c]
  }

  /** A file keeps its tree and its map when another one is worked on. */
  lemma FileKept(fs: FileSystem, f: Inode, w: Device, used: set<int>, own: multiset<int>)
    requires fs.ptrs >= 16 && Within(w, Words(fs.dev), used, own)
    requires var m := All(w, f.data[..], Root); Elems(m) <= used && Elems(m) !! Elems(own)
    ensures fs.Own(f) == All(w, f.data[..], Root)
    ensures forall b: nat :: fs.Map(f, b) == BlockMap(fs.ptrs, w, f.data[..], b)
  {
    hide Forest, Tree, Words, Lookup, BlockToPath, Capacity, NoneEmpty, BlockMap;
    var m := All(w, f.data[..], Root);
    forall c | 0 <= c < |w| && c in m
      ensures Words(fs.dev)[c] == w[c]
    {
      assert c in Elems(m) && (c in own ==> c in Elems(own));
    }
    SameTree(fs.ptrs, w, Words(fs.dev), f.data[..]);
  }

  /** The file's map is the one that these words and root slots describe. */
  ghost predicate MapIs(fs: FileSystem, f: Inode, w: Device, s: seq<nat>)
    requires fs.ptrs >= 16
    reads fs.dev, f.data
  {
    forall b: nat :: fs.Map(f, b) == BlockMap(fs.ptrs, w, s, b)
  }

  /** What a file other than the one worked on needs to stay as it is. */
  ghost predicate Aside(fs: FileSystem, f: Inode, w: Device, s: seq<nat>)
    reads f, f.data, fs.alloc, fs.alloc.tree
  {
    && f.data.Length == N_BLOCKS && f.data != fs.alloc.freeCount && f.data !in fs.dev
    && f.data[..] == s && f.blocks == |All(w, s, Root)|
    && (f.window != null ==> f.window in fs.alloc.tree.known)
  }

  /** A step on file k leaves the whole consistent and the other maps alone. */
  lemma AfterStep(fs: FileSystem, files: seq<Inode>, k: nat, w: Device, data: seq<seq<nat>>, owns: seq<multiset<int>>, used: set<int>)
    requires k < |files| == |data| == |owns| && fs.Ready() && Separate(files) && fs.Holds(files[k])
    requires forall j :: 0 <= j < |files| ==> owns[j] == All(w, data[j], Root)
    requires forall j :: 0 <= j < |files| && j != k ==> Aside(fs, files[j], w, data[j])
    requires Within(w, Words(fs.dev), used, owns[k]) && Balanced(used, fs.alloc.meta, owns)
    requires Balanced(fs.alloc.used, fs.alloc.meta, owns[k := fs.Own(files[k])])
    ensures Consistent(fs, files)
    ensures forall j :: 0 <= j < |files| && j != k ==> MapIs(fs, files[j], w, data[j])
  {
    hide Forest, Tree, Words, Lookup, Allocator.Valid, BlockMap, FileSystem.Map, Total, Balanced;
    OneOwner(used, fs.alloc.meta, owns);
    OneOwner(fs.alloc.used, fs.alloc.meta, owns[k := fs.Own(files[k])]);
    forall j | 0 <= j < |files| && j != k
      ensures fs.Holds(files[j]) && fs.Own(files[j]) == owns[j]
      ensures MapIs(fs, files[j], w, data[j])
    {
      FileKept(fs, files[j], w, used, owns[k]);
      assert owns[j] == owns[k := fs.Own(files[k])][j];
    }
    assert Owns(fs, files) == owns[k := fs.Own(files[k])];
  }

  // ---------- the operations, and what they do ----------

  datatype Op =
    | Create
    | Blocks(file: nat, iblock: nat, maxblocks: nat, create: bool, goal: nat, reservation: bool, m: Means)
    | Cut(file: nat, offset: nat)
    | Evict(file: nat, links: nat)

  /** File j of the one state maps its blocks as file k of the other. */
  ghost predicate SameMap(ptrs: nat, before: State, k: nat, after: State, j: nat)
    requires ptrs >= 16 && k < |before.roots| && j < |after.roots|
  {
    forall b: nat :: BlockMap(ptrs, after.w, after.roots[j], b) == BlockMap(ptrs, before.w, before.roots[k], b)
  }

  /** All files but k map their blocks as before. */
  ghost predicate OthersSame(ptrs: nat, before: State, after: State, k: nat)
    requires ptrs >= 16
  {
    && |after.roots| >= |before.roots|
    && forall j :: 0 <= j < |before.roots| && j != k ==> SameMap(ptrs, before, j, after, j)
  }

  /** Is there a hole that is to be filled? */
  ghost predicate Filling(ptrs: nat, before: State, k: nat, iblock: nat, create: bool)
    requires ptrs >= 16 && k < |before.roots|
  {
    create && iblock < Capacity(ptrs) && BlockMap(ptrs, before.w, before.roots[k], iblock) == 0
  }

  /** A hole of file k was to be filled, and `err` came of it. */
  ghost predicate HoleFilled(fs: FileSystem, before: State, after: State, k: nat, iblock: nat, maxblocks: nat, m: Means,
                             n: nat, bno: nat, err: Errno)
    requires fs.ptrs >= 16 && k < |before.roots| == |after.roots|
  {
    && FaresOn(fs, err, m, before.used, Missing(fs.ptrs, before.w, before.roots[k], iblock))
    && if err == OK then
         && 1 <= n <= maxblocks
         && Added(fs.ptrs, before.w, before.roots[k], before.used, after.w, after.roots[k], after.used, iblock, n, bno)
       else after.used == before.used && SameMap(fs.ptrs, before, k, after, k)
  }

  /** Where file j was before file k left. */
  function Without(k: nat, j: nat): nat {
    if j < k then j else j + 1
  }

  /** What an operation does to the files' maps and to the blocks in use. */
  ghost predicate Effect(fs: FileSystem, op: Op, before: State, after: State)
    requires fs.ptrs >= 16
  {
    var ptrs, files := fs.ptrs, |before.roots|;
    match op
    case Create =>
      && |after.roots| == files + 1 && after.used == before.used && OthersSame(ptrs, before, after, files)
      && forall b: nat :: BlockMap(ptrs, after.w, after.roots[files], b) == 0
    case Blocks(k, iblock, maxblocks, create, goal, reservation, m) =>
      && |after.roots| == files && OthersSame(ptrs, before, after, k)
      && if k < files && maxblocks > 0 && Filling(ptrs, before, k, iblock, create) then
           exists n: nat, bno: nat, err :: HoleFilled(fs, before, after, k, iblock, maxblocks, m, n, bno, err)
         else
           after.used == before.used && (k < files ==> SameMap(ptrs, before, k, after, k))
    case Cut(k, offset) =>
      && |after.roots| == files && OthersSame(ptrs, before, after, k)
      && (k < files ==>
            var first := (offset + 4 * ptrs - 1) / (4 * ptrs);
            forall b: nat :: BlockMap(ptrs, after.w, after.roots[k], b) == if b < first then BlockMap(ptrs, before.w, before.roots[k], b) else 0)
    case Evict(k, links) =>
      if k < files && links == 0 then
        && |after.roots| == files - 1
        && forall j :: 0 <= j < files - 1 ==> SameMap(ptrs, before, Without(k, j), after, j)
      else
        |after.roots| == files && OthersSame(ptrs, before, after, files)
  }

  /** What a file's map is after an operation, in terms of states. */
  lemma MapKept(fs: FileSystem, files: seq<Inode>, j: nat, before: State, k: nat)
    requires fs.ptrs >= 16 && j < |files| && k < |before.roots| && MapIs(fs, files[j], before.w, before.roots[k])
    ensures SameMap(fs.ptrs, before, k, Now(fs, files), j)
  {
    hide Words, Lookup, BlockToPath;
  }

  /** The words on the device, the root slots of the files and the blocks in use. */
  datatype State = State(w: Device, roots: seq<seq<nat>>, used: set<int>)

  ghost function Now(fs: FileSystem, files: seq<Inode>): State
    reads fs.dev, fs.alloc, set f | f in files :: f.data
  {
    State(Words(fs.dev), Data(files), fs.alloc.used)
  }

  lemma MapsKept(fs: FileSystem, files: seq<Inode>, before: State, k: nat)
    requires fs.ptrs >= 16 && |before.roots| == |files|
    requires forall j :: 0 <= j < |files| && j != k ==> MapIs(fs, files[j], before.w, before.roots[j])
    ensures OthersSame(fs.ptrs, before, Now(fs, files), k)
  {
    hide MapIs, SameMap;
    forall j | 0 <= j < |files| && j != k
      ensures SameMap(fs.ptrs, before, j, Now(fs, files), j)
    {
      MapKept(fs, files, j, before, j);
    }
  }

  // ---------- the operations on one file ----------

  lemma MapNow(fs: FileSystem, f: Inode)
    requires fs.ptrs >= 16
    ensures forall b: nat :: fs.Map(f, b) == BlockMap(fs.ptrs, Words(fs.dev), f.data[..], b)
  {
  }

  /** kr_truncate_blocks on one of the files. */
  method TruncateFile(fs: FileSystem, ghost files: seq<Inode>, ghost k: nat, f: Inode, offset: nat, ghost before: State)
    requires Consistent(fs, files) && k < |files| && files[k] == f && before == Now(fs, files)
    modifies fs.dev, fs.alloc, fs.alloc.bitmaps, fs.alloc.freeCount, fs.alloc.tree`nodes,
             f`blocks, f.data, f.Windows()
    ensures Consistent(fs, files) && fs.alloc.misfrees == old(fs.alloc.misfrees)
    ensures var first := (offset + 4 * fs.ptrs - 1) / (4 * fs.ptrs);
            forall b: nat :: fs.Map(f, b) == if b < first then BlockMap(fs.ptrs, before.w, before.roots[k], b) else 0
    ensures forall j :: 0 <= j < |files| && j != k ==> MapIs(fs, files[j], before.w, before.roots[j])
    ensures WindowCut(fs, old(f.window), offset)
  {
    hide Forest, Tree, Words, Lookup, Allocator.Valid, MapIs, Total, Balanced, NoneEmpty, WindowCut, BlockToPath,
         FileSystem.Map, BlockMap;
    ghost var w, data, owns, used := Words(fs.dev), Data(files), Owns(fs, files), fs.alloc.used;
    MapNow(fs, f);
    TruncateBlocks(fs, f, offset);
    BalancedAfterCut(used, fs.alloc.meta, owns, k, fs.Own(f), fs.alloc.used);
    AfterStep(fs, files, k, w, data, owns, used);
  }

  /** One file's tree grew: the balance is kept and nothing else was touched. */
  lemma FileGrown(fs: FileSystem, f: Inode, w: Device, s: seq<nat>, owns: seq<multiset<int>>, k: nat, used: set<int>,
                  iblock: nat, n: nat, bno: nat)
    requires fs.ptrs >= 16 && k < |owns| && owns[k] == All(w, s, Root) && Balanced(used, fs.alloc.meta, owns)
    requires Added(fs.ptrs, w, s, used, Words(fs.dev), f.data[..], fs.alloc.used, iblock, n, bno)
    ensures Balanced(fs.alloc.used, fs.alloc.meta, owns[k := fs.Own(f)]) && Within(w, Words(fs.dev), used, owns[k])
    ensures forall b: nat :: fs.Map(f, b) == if iblock <= b < iblock + n then bno + (b - iblock) else BlockMap(fs.ptrs, w, s, b)
  {
    hide Forest, Tree, Words, Lookup, BlockMap, Balanced, Run;
    BalancedAfterGrowth(used, fs.alloc.meta, owns, k, fs.Own(f), fs.alloc.used);
  }

  /** One file was left as it is. */
  lemma FileSame(fs: FileSystem, f: Inode, w: Device, owns: seq<multiset<int>>, k: nat, used: set<int>)
    requires k < |owns| && owns[k] == All(w, f.data[..], Root) && Balanced(used, fs.alloc.meta, owns)
    requires fs.Ready() && fs.Holds(f) && fs.alloc.used == used && |w| == |fs.dev| && f.blocks == |owns[k]|
    requires forall c :: 0 <= c < |w| && c in used ==> fs.dev[c][..] == w[c]
    ensures Balanced(used, fs.alloc.meta, owns[k := fs.Own(f)]) && Within(w, Words(fs.dev), used, owns[k])
    ensures MapIs(fs, f, w, f.data[..])
  {
    hide Forest, Tree, Words, Lookup, BlockMap, Balanced, Total, Allocator.Valid;
    OneOwner(used, fs.alloc.meta, owns);
    UntouchedKeeps(fs, f, w);
    assert owns[k := fs.Own(f)] == owns;
  }

  /** kr_get_blocks on a file, seen from the balance of the whole. */
  method FillAlone(fs: FileSystem, f: Inode, iblock: nat, maxblocks: nat, create: bool,
                   goal: nat, regular: bool, reservation: bool, m: Means,
                   ghost owns: seq<multiset<int>>, ghost k: nat)
    returns (n: nat, bno: nat, isNew: bool, boundary: bool, err: Errno)
    requires fs.Ready() && fs.Holds(f) && maxblocks > 0
    requires k < |owns| && owns[k] == fs.Own(f) && Balanced(fs.alloc.used, fs.alloc.meta, owns)
    modifies fs.dev, fs.alloc, fs.alloc.bitmaps, fs.alloc.freeCount, fs.alloc.tree`nodes, fs.alloc.tree`known,
             f`blocks, f`window, f.data, f.Windows()
    ensures fs.Ready() && fs.Holds(f) && fs.alloc.misfrees == old(fs.alloc.misfrees)
    ensures Balanced(fs.alloc.used, fs.alloc.meta, owns[k := fs.Own(f)])
    ensures Within(old(Words(fs.dev)), Words(fs.dev), old(fs.alloc.used), owns[k])
    ensures f.window == old(f.window) || (fresh(f.window) && old(f.window) == null && regular && create)
    ensures old(fs.Map(f, iblock)) == 0 && create && regular && iblock < Capacity(fs.ptrs) ==> f.window != null
    ensures fs.alloc.tree.known == old(fs.alloc.tree.known) + f.Windows()
    ensures Got(fs, f, iblock, maxblocks, create, goal, old(Windowed(fs, f, regular, reservation)), m, n, bno, isNew, boundary, err)
    ensures !isNew ==> MapIs(fs, f, old(Words(fs.dev)), old(f.data[..]))
  {
    hide Forest, Tree, Words, Lookup, Allocator.Valid, BlockMap, Total, Balanced, NoneEmpty, BlockToPath, Capacity, Added, Within, MapIs,
         Stopped, TookNear, FaresOn, FileSystem.Map;
    ghost var w, s, used := Words(fs.dev), f.data[..], fs.alloc.used;
    n, bno, isNew, boundary, err := GetBlocks.GetBlocks(fs, f, iblock, maxblocks, create, goal, regular, reservation, m);
    if isNew {
      FileGrown(fs, f, w, s, owns, k, used, iblock, n, bno);
    } else {
      FileSame(fs, f, w, owns, k, used);
    }
  }

  lemma BlocksEffect(fs: FileSystem, files: seq<Inode>, k: nat, iblock: nat, maxblocks: nat, create: bool, goal: nat, reservation: bool,
                     m: Means, before: State, n: nat, bno: nat, isNew: bool, err: Errno)
    requires fs.ptrs >= 16 && k < |files| == |before.roots| && maxblocks > 0
    requires if Filling(fs.ptrs, before, k, iblock, create) then
               && FaresOn(fs, err, m, before.used, Missing(fs.ptrs, before.w, before.roots[k], iblock)) && isNew == (err == OK)
               && (isNew ==> 1 <= n <= maxblocks && Added(fs.ptrs, before.w, before.roots[k], before.used,
                                                          Words(fs.dev), files[k].data[..], fs.alloc.used, iblock, n, bno))
             else !isNew
    requires !isNew ==> fs.alloc.used == before.used
    requires forall j :: 0 <= j < |files| && (j != k || !isNew) ==> MapIs(fs, files[j], before.w, before.roots[j])
    ensures Effect(fs, Blocks(k, iblock, maxblocks, create, goal, reservation, m), before, Now(fs, files))
  {
    hide Words, Lookup, BlockToPath, Capacity, MapIs, SameMap, BlockMap, Added, FaresOn, Links;
    var after := Now(fs, files);
    MapsKept(fs, files, before, k);
    if !isNew {
      MapKept(fs, files, k, before, k);
    }
    if Filling(fs.ptrs, before, k, iblock, create) {
      assert HoleFilled(fs, before, after, k, iblock, maxblocks, m, n, bno, err);
    }
  }

  /** kr_get_blocks on one of the files. */
  method FillFile(fs: FileSystem, ghost files: seq<Inode>, ghost k: nat, f: Inode, iblock: nat, maxblocks: nat, create: bool,
                  goal: nat, regular: bool, reservation: bool, m: Means, ghost before: State)
    returns (n: nat, bno: nat, isNew: bool, boundary: bool, err: Errno)
    requires Consistent(fs, files) && k < |files| && files[k] == f && maxblocks > 0 && before == Now(fs, files)
    modifies fs.dev, fs.alloc, fs.alloc.bitmaps, fs.alloc.freeCount, fs.alloc.tree`nodes, fs.alloc.tree`known,
             f`blocks, f`window, f.data, f.Windows()
    ensures Consistent(fs, files) && fs.alloc.misfrees == old(fs.alloc.misfrees)
    ensures f.window == old(f.window) || (fresh(f.window) && old(f.window) == null && regular && create)
    ensures old(fs.Map(f, iblock)) == 0 && create && regular && iblock < Capacity(fs.ptrs) ==> f.window != null
    ensures fs.alloc.tree.known == old(fs.alloc.tree.known) + f.Windows()
    ensures Got(fs, f, iblock, maxblocks, create, goal, old(Windowed(fs, f, regular, reservation)), m, n, bno, isNew, boundary, err)
    ensures forall j :: 0 <= j < |files| && (j != k || !isNew) ==> MapIs(fs, files[j], before.w, before.roots[j])
    ensures Effect(fs, Blocks(k, iblock, maxblocks, create, goal, reservation, m), before, Now(fs, files))
  {
    hide Forest, Tree, Words, Lookup, Allocator.Valid, Total, Balanced, FileSystem.Map, MapIs, Within, FaresOn, Effect, Added,
         Stopped, TookNear, Links, Capacity, BlockToPath;
    ghost var w, data, owns, used := Words(fs.dev), Data(files), Owns(fs, files), fs.alloc.used;
    MapNow(fs, f);
    assert Filling(fs.ptrs, before, k, iblock, create) <==> create && iblock < Capacity(fs.ptrs) && fs.Map(f, iblock) == 0;
    n, bno, isNew, boundary, err := FillAlone(fs, f, iblock, maxblocks, create, goal, regular, reservation, m, owns, k);
    AfterStep(fs, files, k, w, data, owns, used);
    BlocksEffect(fs, files, k, iblock, maxblocks, create, goal, reservation, m, before, n, bno, isNew, err);
  }

  // ---------- files come and go ----------

  lemma {:induction false} TotalRemove(owns: seq<multiset<int>>, k: nat)
    requires k < |owns|
    ensures Total(owns[..k] + owns[k + 1..]) + owns[k] == Total(owns)
    decreases |owns|
  {
    var n := |owns| - 1;
    var rest := owns[..k] + owns[k + 1..];
    if k < n {
      var o := owns[..n];
      TotalRemove(o, k);
      assert rest[..n - 1] == o[..k] + o[k + 1..] && rest[n - 1] == owns[n];
      var a := Total(o[..k] + o[k + 1..]);
      assert (a + owns[n]) + owns[k] == (a + owns[k]) + owns[n];
    } else {
      assert rest == owns[..n];
    }
  }

  /** A file without blocks can go. */
  lemma Removed(fs: FileSystem, files: seq<Inode>, k: nat)
    requires Consistent(fs, files) && k < |files| && fs.Own(files[k]) == multiset{}
    ensures Consistent(fs, files[..k] + files[k + 1..])
  {
    hide Forest, Tree, Words, Allocator.Valid, Total, FileSystem.Holds, FileSystem.Own;
    var left, owns := files[..k] + files[k + 1..], Owns(fs, files);
    TotalRemove(owns, k);
    assert Owns(fs, left) == owns[..k] + owns[k + 1..];
    forall j | 0 <= j < |left|
      ensures left[j] == files[if j < k then j else j + 1]
    {
    }
  }

  lemma MapStill(fs: FileSystem, f: Inode, w: Device, s: seq<nat>)
    requires fs.ptrs >= 16 && forall b: nat :: fs.Map(f, b) == BlockMap(fs.ptrs, w, s, b)
    ensures MapIs(fs, f, w, s)
  {
  }

  /** kr_evict_inode on one of the files; one without links is gone then. */
  method EvictFile(fs: FileSystem, files: seq<Inode>, k: nat, f: Inode, links: nat, ghost before: State) returns (left: seq<Inode>)
    requires Consistent(fs, files) && k < |files| && files[k] == f && before == Now(fs, files)
    modifies fs.dev, fs.alloc, fs.alloc.bitmaps, fs.alloc.freeCount, fs.alloc.tree`nodes,
             f`blocks, f`window, f.data, f.Windows()
    ensures left == if links == 0 then files[..k] + files[k + 1..] else files
    ensures Consistent(fs, left) && fs.alloc.misfrees == old(fs.alloc.misfrees)
    ensures WindowGone(fs.alloc.tree, old(f.window)) && f.window == null
    ensures forall j :: 0 <= j < |files| && (j != k || links != 0) ==> MapIs(fs, files[j], before.w, before.roots[j])
  {
    hide Forest, Tree, Words, Lookup, Allocator.Valid, BlockMap, MapIs, Total, Balanced, FileSystem.Map, WindowGone;
    ghost var w, data, owns, used := Words(fs.dev), Data(files), Owns(fs, files), fs.alloc.used;
    MapNow(fs, f);
    EvictInode(fs, f, links);
    if links != 0 {
      MapStill(fs, f, w, before.roots[k]);
    }
    BalancedAfterCut(used, fs.alloc.meta, owns, k, fs.Own(f), fs.alloc.used);
    AfterStep(fs, files, k, w, data, owns, used);
    left := files;
    if links == 0 {
      Removed(fs, files, k);
      left := files[..k] + files[k + 1..];
    }
  }

  /** A new file has no blocks. */
  method NewFile(fs: FileSystem, files: seq<Inode>) returns (more: seq<Inode>)
    requires Consistent(fs, files)
    ensures |more| == |files| + 1 && more[..|files|] == files
    ensures fresh(more[|files|]) && fresh(more[|files|].data) && more[|files|].window == null
    ensures Consistent(fs, more)
    ensures forall b: nat :: fs.Map(more[|files|], b) == 0
  {
    hide Consistent, FileSystem.Map;
    var f := new Inode();
    Joined(fs, files, f);
    more := files + [f];
  }

  lemma Joined(fs: FileSystem, files: seq<Inode>, f: Inode)
    requires Consistent(fs, files)
    requires forall g :: g in files ==> g != f && g.data != f.data
    requires f.data.Length == N_BLOCKS && f.data != fs.alloc.freeCount && f.data !in fs.dev
    requires f.blocks == 0 && f.window == null && forall x :: 0 <= x < N_BLOCKS ==> f.data[x] == 0
    ensures Consistent(fs, files + [f])
    ensures forall b: nat :: fs.Map(f, b) == 0
  {
    hide Words, Allocator.Valid, BlockToPath, Tree, Forest, BlockMap;
    var more, owns := files + [f], Owns(fs, files);
    EmptyTree(fs.ptrs, Words(fs.dev), f.data[..]);
    forall j | 0 <= j < |files|
      ensures more[j] == files[j]
    {
    }
    assert Owns(fs, more) == owns + [fs.Own(f)];
    assert (owns + [fs.Own(f)])[..|owns|] == owns;
  }

  lemma EmptyTree(ptrs: nat, w: Device, s: seq<nat>)
    requires ptrs >= 16 && forall x :: 0 <= x < |s| ==> s[x] == 0
    ensures All(w, s, Root) == multiset{}
    ensures forall b: nat :: BlockMap(ptrs, w, s, b) == 0
  {
    hide BlockToPath, Tree, Forest;
    ForestZero(w, s, Root, 0, |s|);
  }

  // ---------- any run ----------

  lemma ManyPointers(fs: FileSystem, files: seq<Inode>)
    requires Consistent(fs, files)
    ensures fs.ptrs >= 16
  {
  }

  lemma WindowKnown(fs: FileSystem, files: seq<Inode>, k: nat)
    requires Consistent(fs, files) && k < |files|
    ensures files[k].window != null ==> files[k].window in fs.alloc.tree.known
  {
  }

  /** The windows of the files. */
  function Windows(files: seq<Inode>): (r: seq<Window>)
    reads files
    ensures forall i :: 0 <= i < |r| ==> exists f :: f in files && f.window == r[i]
  {
    if |files| == 0 then []
    else
      var rest := Windows(files[..|files| - 1]);
      var w := files[|files| - 1].window;
      if w == null then rest else rest + [w]
  }

  /** The structures of the files at hand. */
  ghost function Parts(files: seq<Inode>): set<object> {
    (set f: Inode | f in files :: f as object) + (set f: Inode | f in files :: f.data as object)
  }

  lemma PartsOf(files: seq<Inode>, f: Inode)
    requires f in files
    ensures f in Parts(files) && f.data in Parts(files)
  {
  }

  lemma PartsGrow(files: seq<Inode>, f: Inode)
    ensures Parts(files + [f]) == Parts(files) + {f, f.data}
  {
    assert forall g :: g in files + [f] <==> g in files || g == f;
    assert f in files + [f];
    forall p | p in Parts(files + [f])
      ensures p in Parts(files) + {f, f.data}
    {
    }
    forall p | p in Parts(files) + {f, f.data}
      ensures p in Parts(files + [f])
    {
    }
  }

  lemma PartsShrink(files: seq<Inode>, k: nat)
    requires k < |files|
    ensures Parts(files[..k] + files[k + 1..]) <= Parts(files)
  {
  }

  lemma NothingDone(fs: FileSystem, files: seq<Inode>, op: Op)
    requires fs.ptrs >= 16 && !op.Create? && (op.file >= |files| || (op.Blocks? && op.maxblocks == 0))
    ensures Effect(fs, op, Now(fs, files), Now(fs, files))
  {
    hide BlockMap, Words;
  }

  lemma CreateEffect(fs: FileSystem, files: seq<Inode>, next: seq<Inode>, before: State)
    requires fs.ptrs >= 16 && |next| == |files| + 1 && next[..|files|] == files && before == Now(fs, files)
    requires forall b: nat :: fs.Map(next[|files|], b) == 0
    ensures Effect(fs, Create, before, Now(fs, next))
  {
    hide BlockMap, Words;
    forall j | 0 <= j < |files|
      ensures SameMap(fs.ptrs, before, j, Now(fs, next), j)
    {
      assert next[j] == next[..|files|][j];
    }
    assert forall b: nat :: BlockMap(fs.ptrs, Words(fs.dev), next[|files|].data[..], b) == fs.Map(next[|files|], b);
  }

  lemma CutEffect(fs: FileSystem, files: seq<Inode>, k: nat, offset: nat, before: State)
    requires fs.ptrs >= 16 && k < |files| == |before.roots|
    requires forall j :: 0 <= j < |files| && j != k ==> MapIs(fs, files[j], before.w, before.roots[j])
    requires var first := (offset + 4 * fs.ptrs - 1) / (4 * fs.ptrs);
             forall b: nat :: fs.Map(files[k], b) == if b < first then BlockMap(fs.ptrs, before.w, before.roots[k], b) else 0
    ensures Effect(fs, Cut(k, offset), before, Now(fs, files))
  {
    hide Words, MapIs, SameMap, BlockMap;
    MapsKept(fs, files, before, k);
    assert forall b: nat :: BlockMap(fs.ptrs, Words(fs.dev), files[k].data[..], b) == fs.Map(files[k], b);
  }

  lemma EvictEffect(fs: FileSystem, files: seq<Inode>, k: nat, links: nat, next: seq<Inode>, before: State)
    requires fs.ptrs >= 16 && k < |files| == |before.roots|
    requires next == if links == 0 then files[..k] + files[k + 1..] else files
    requires forall j :: 0 <= j < |files| && (j != k || links != 0) ==> MapIs(fs, files[j], before.w, before.roots[j])
    ensures Effect(fs, Evict(k, links), before, Now(fs, next))
  {
    hide Words, MapIs, SameMap, BlockMap;
    if links != 0 {
      MapsKept(fs, files, before, |files|);
    } else {
      forall j | 0 <= j < |files| - 1
        ensures SameMap(fs.ptrs, before, Without(k, j), Now(fs, next), j)
      {
        assert next[j] == files[Without(k, j)];
        MapKept(fs, next, j, before, Without(k, j));
      }
    }
  }

  /** One operation. */
  method Step(fs: FileSystem, files: seq<Inode>, op: Op, ghost before: State) returns (next: seq<Inode>)
    requires Consistent(fs, files) && before == Now(fs, files)
    modifies fs.dev, fs.alloc, fs.alloc.bitmaps, fs.alloc.freeCount, fs.alloc.tree, fs.alloc.tree.known, Parts(files)
    ensures Consistent(fs, next) && fs.alloc.misfrees == old(fs.alloc.misfrees)
    ensures Effect(fs, op, before, Now(fs, next))
    ensures forall p :: p in Parts(next) && p !in Parts(files) ==> fresh(p)
    ensures forall w :: w in fs.alloc.tree.known && w !in old(fs.alloc.tree.known) ==> fresh(w)
  {
    hide Consistent, MapIs, FileSystem.Map, Words, Parts, Effect, Got, WindowGone, WindowCut, BlockMap;
    ManyPointers(fs, files);
    next := files;
    if op.Create? {
      next := NewFile(fs, files);
      assert next == files + [next[|files|]];
      PartsGrow(files, next[|files|]);
      CreateEffect(fs, files, next, before);
      return;
    }
    var k := op.file;
    if k >= |files| || (op.Blocks? && op.maxblocks == 0) {
      NothingDone(fs, files, op);
      return;
    }
    WindowKnown(fs, files, k);
    PartsOf(files, files[k]);
    match op {
      case Blocks(_, iblock, maxblocks, create, goal, reservation, m) =>
        var n, bno, isNew, boundary, err := FillFile(fs, files, k, files[k], iblock, maxblocks, create, goal, true, reservation, m, before);
      case Cut(_, offset) =>
        TruncateFile(fs, files, k, files[k], offset, before);
        CutEffect(fs, files, k, offset, before);
      case Evict(_, links) =>
        PartsShrink(files, k);
        next := EvictFile(fs, files, k, files[k], links, before);
        EvictEffect(fs, files, k, links, next, before);
    }
  }

  /** Any run of operations on any files, whatever fails on the way, keeps the
      balance, frees no block that is not in use, and keeps the windows apart;
      and each operation does to the maps just what it is for. */
  method RunOps(fs: FileSystem, start: seq<Inode>, ops: seq<Op>) returns (files: seq<Inode>, ghost trace: seq<State>)
    requires Consistent(fs, start)
    modifies fs.dev, fs.alloc, fs.alloc.bitmaps, fs.alloc.freeCount, fs.alloc.tree, fs.alloc.tree.known, Parts(start)
    ensures Consistent(fs, files) && Exclusive(fs.alloc.tree, Windows(files))
    ensures fs.alloc.misfrees == old(fs.alloc.misfrees)
    ensures |trace| == |ops| + 1 && trace[0] == old(Now(fs, start)) && trace[|ops|] == Now(fs, files)
    ensures forall i :: 0 <= i < |ops| ==> Effect(fs, ops[i], trace[i], trace[i + 1])
  {
    hide Consistent, Parts, Exclusive, Effect, Now;
    ManyPointers(fs, start);
    files := start;
    trace := [Now(fs, start)];
    for i := 0 to |ops|
      invariant Consistent(fs, files) && fs.alloc.misfrees == old(fs.alloc.misfrees)
      invariant forall p :: p in Parts(files) && p !in Parts(start) ==> fresh(p)
      invariant forall w :: w in fs.alloc.tree.known && w !in old(fs.alloc.tree.known) ==> fresh(w)
      invariant |trace| == i + 1 && trace[0] == old(Now(fs, start)) && trace[i] == Now(fs, files)
      invariant forall k :: 0 <= k < i ==> Effect(fs, ops[k], trace[k], trace[k + 1])
    {
      files := Step(fs, files, ops[i], trace[i]);
      trace := trace + [Now(fs, files)];
    }
    WindowsApart(fs, files);
  }

  lemma {:induction false} WindowsDiffer(files: seq<Inode>)
    requires Separate(files)
    ensures forall i, j :: 0 <= i < j < |Windows(files)| ==> Windows(files)[i] != Windows(files)[j]
    decreases |files|
  {
    if |files| > 0 {
      var n := |files| - 1;
      WindowsDiffer(files[..n]);
      forall i | 0 <= i < |Windows(files[..n])|
        ensures Windows(files[..n])[i] != files[n].window
      {
        var f :| f in files[..n] && f.window == Windows(files[..n])[i];
      }
    }
  }

  lemma TreeValid(fs: FileSystem)
    requires fs.Ready()
    ensures fs.alloc.tree.Valid()
  {
  }

  lemma WindowsApart(fs: FileSystem, files: seq<Inode>)
    requires Consistent(fs, files)
    ensures Exclusive(fs.alloc.tree, Windows(files))
  {
    hide Exclusive, Balanced, Allocator.Valid;
    WindowsDiffer(files);
    forall i | 0 <= i < |Windows(files)|
      ensures Windows(files)[i] in fs.alloc.tree.known
    {
      var f :| f in files && f.window == Windows(files)[i];
      assert fs.Holds(f);
    }
    TreeValid(fs);
    ValidIsExclusive(fs.alloc.tree, Windows(files));
  }

  // ---------- where runs may start ----------

  method NewDevice(n: nat, ptrs: nat) returns (dev: seq<array<nat>>)
    ensures |dev| == n && forall b :: 0 <= b < n ==> fresh(dev[b]) && dev[b].Length == ptrs
    ensures forall b, c :: 0 <= b < c < n ==> dev[b] != dev[c]
  {
    dev := [];
    for i := 0 to n
      invariant |dev| == i && forall b :: 0 <= b < i ==> fresh(dev[b]) && dev[b].Length == ptrs
      invariant forall b, c :: 0 <= b < c < i ==> dev[b] != dev[c]
    {
      var words := new nat[ptrs](_ => 0);
      dev := dev + [words];
    }
  }

  /** A volume without files, in which just its own structures are in use, is consistent. */
  lemma NoFiles(fs: FileSystem)
    requires fs.Ready() && fs.alloc.used == fs.alloc.meta
    ensures Consistent(fs, [])
  {
    hide Allocator.Valid;
    assert Total(Owns(fs, [])) == multiset{};
  }

  /** Any run on a small volume that starts without files. */
  method RunFromNothing(ptrs: nat, ops: seq<Op>) returns (fs: FileSystem, files: seq<Inode>, ghost trace: seq<State>)
    requires 16 <= ptrs <= 1024
    ensures fs.ptrs == ptrs && Consistent(fs, files) && Exclusive(fs.alloc.tree, Windows(files))
    ensures |trace| == |ops| + 1 && trace[0].roots == [] && trace[|ops|] == Now(fs, files)
    ensures forall i :: 0 <= i < |ops| ==> Effect(fs, ops[i], trace[i], trace[i + 1])
  {
    hide Consistent, Exclusive, Allocator.Valid, Effect;
    var alloc := SmallVolume(SMALL_META);
    var dev := NewDevice(9, ptrs);
    fs := new FileSystem(ptrs, alloc, dev);
    NoFiles(fs);
    files, trace := RunOps(fs, [], ops);
  }
}
