/**
 Allocating the blocks for a new branch of a file's tree and setting up its
 indirect blocks.
 */
module NewBranch {
  import opened Allocator
  import opened Branch
  import opened FileMap
  import opened FreeTree
  import opened Graft
  import opened Groups
  import opened Inode
  import opened PointerTree
  import opened Reservation

  // ---------- the blocks for a branch ----------

  /** Blocks taken one by one, and a run of which some are still to be given out. */
  ghost predicate Taken(nb: seq<nat>, cur: nat, count: nat, used: set<int>, used': set<int>) {
    var m := multiset(nb);
    && NoDup(m) && Elems(m) !! used && Run(cur, count) !! used && Run(cur, count) !! Elems(m)
    && used' == used + Elems(m) + Run(cur, count)
  }

  lemma TakenNone(used: set<int>)
    ensures Taken([], 0, 0, used, used)
  {
  }

  lemma TakeRun(nb: seq<nat>, cur: nat, used: set<int>, used1: set<int>, b: nat, n: nat)
    requires Taken(nb, cur, 0, used, used1) && Run(b, n) !! used1
    ensures Taken(nb, b, n, used, used1 + Run(b, n))
  {
    hide Run;
    assert Run(cur, 0) == {};
  }

  lemma TakeOne(nb: seq<nat>, cur: nat, count: nat, used: set<int>, used': set<int>)
    requires Taken(nb, cur, count, used, used') && count > 0
    ensures Taken(nb + [cur], cur + 1, count - 1, used, used')
  {
    hide Run;
    var m := multiset(nb);
    FirstOfRun(cur, count);
    assert multiset(nb + [cur]) == m + multiset{cur};
    assert cur !in Elems(m);
    OneMore(m, cur);
  }

  lemma FirstOfRun(cur: nat, count: nat)
    requires count > 0
    ensures Run(cur, count) == {cur} + Run(cur + 1, count - 1) && cur in Run(cur, count) && cur !in Run(cur + 1, count - 1)
  {
    hide Run;
  }

  lemma OneMore(m: multiset<int>, b: int)
    requires NoDup(m + multiset{b}) || (NoDup(m) && b !in m)
    ensures NoDup(m + multiset{b}) && NoDup(m) && b !in Elems(m) && Elems(m + multiset{b}) == Elems(m) + {b}
  {
    var n := m + multiset{b};
    assert forall c :: n[c] == m[c] + if c == b then 1 else 0;
    if NoDup(n) {
      assert n[b] <= 1;
      SubNoDup(m, n);
    }
  }

  /** The indirect blocks and the run of data blocks make up the branch. */
  lemma {:induction false} TakenBranch(nb: seq<nat>, cur: nat, num: nat)
    ensures GraftBlocks(nb + [cur], num) == multiset(nb) + multiset(Run(cur, num))
    decreases |nb|
  {
    hide Run;
    if |nb| == 0 {
      assert nb + [cur] == [cur];
    } else {
      TakenBranch(nb[1..], cur, num);
      assert (nb + [cur])[1..] == nb[1..] + [cur];
      assert nb == [nb[0]] + nb[1..];
    }
  }

  lemma TakenFresh(nb: seq<nat>, cur: nat, num: nat, used: set<int>, used': set<int>)
    requires Taken(nb, cur, num, used, used')
    ensures var f := GraftBlocks(nb + [cur], num);
            NoDup(f) && Elems(f) !! used && used' == used + Elems(f) && |f| == |nb| + num
  {
    hide Run;
    TakenBranch(nb, cur, num);
    JoinFresh(multiset(nb), Run(cur, num), used);
  }

  lemma JoinFresh(m: multiset<int>, run: set<int>, used: set<int>)
    requires NoDup(m) && Elems(m) !! used && run !! used && run !! Elems(m)
    ensures var f := m + multiset(run);
            NoDup(f) && Elems(f) !! used && Elems(f) == Elems(m) + run && |f| == |m| + |run|
  {
    var f := m + multiset(run);
    forall b
      ensures f[b] <= 1 && (b in f <==> b in Elems(m) || b in run)
    {
      assert f[b] == m[b] + multiset(run)[b];
    }
  }

  /** Give back blocks taken one by one. */
  method GiveBack(alloc: Allocator, inode: Inode, nb: seq<nat>, ghost used: set<int>)
    requires alloc.Valid() && alloc.meta <= used && Taken(nb, 0, 0, used, alloc.used)
    modifies alloc, alloc.bitmaps, alloc.freeCount, inode`blocks
    ensures alloc.Valid() && alloc.misfrees == old(alloc.misfrees)
    ensures alloc.used == used && inode.blocks == old(inode.blocks) - |nb|
  {
    hide Allocator.Valid, Run, Taken;
    NoneTakenYet(nb, used, alloc.used);
    for i := 0 to |nb|
      invariant alloc.Valid() && alloc.misfrees == old(alloc.misfrees)
      invariant inode.blocks == old(inode.blocks) - i
      invariant Taken(nb[i..], 0, 0, used, alloc.used)
    {
      GiveOne(nb[i..], used, alloc.used);
      assert nb[i..][1..] == nb[i + 1..];
      FreeOwned(alloc, inode, nb[i], 1);
    }
    AllGiven(used, alloc.used);
  }

  lemma NoneTakenYet(nb: seq<nat>, used: set<int>, used': set<int>)
    requires Taken(nb, 0, 0, used, used')
    ensures Taken(nb[0..], 0, 0, used, used')
  {
    assert nb[0..] == nb;
  }

  lemma AllGiven(used: set<int>, used': set<int>)
    requires Taken([], 0, 0, used, used')
    ensures used' == used
  {
  }

  lemma GiveOne(nb: seq<nat>, used: set<int>, used': set<int>)
    requires |nb| > 0 && Taken(nb, 0, 0, used, used')
    ensures Run(nb[0], 1) <= used' && Run(nb[0], 1) !! used
    ensures Taken(nb[1..], 0, 0, used, used' - Run(nb[0], 1))
  {
    hide Run, NoDup, Elems;
    assert nb == [nb[0]] + nb[1..];
    var m := multiset(nb[1..]);
    assert multiset(nb) == m + multiset{nb[0]};
    OneMore(m, nb[0]);
    assert Run(nb[0], 1) == {nb[0]} && Run(0, 0) == {};
  }

  lemma NoneLeftOver(nb: seq<nat>, cur: nat, used: set<int>, used': set<int>)
    requires Taken(nb, cur, 0, used, used')
    ensures Taken(nb, 0, 0, used, used')
  {
    hide Run;
    assert Run(cur, 0) == {} && Run(0, 0) == {};
  }

  lemma GeometryValid(alloc: Allocator)
    requires alloc.Valid()
    ensures alloc.geo.Valid()
  {
  }

  /** A refusal for lack of space, when some blocks are taken already, means
      that there were too few to begin with. */
  lemma StillFree(alloc: Allocator, nb: seq<nat>, cur: nat, used: set<int>)
    requires alloc.Valid() && Taken(nb, cur, 0, used, alloc.used)
    ensures alloc.geo.Valid() && |Unused(alloc.geo, used)| == |Unused(alloc.geo, alloc.used)| + |nb|
  {
    hide Run, Allocator.Valid;
    InUseBelowEnd(alloc);
    GeometryValid(alloc);
    var m := multiset(nb);
    assert Run(cur, 0) == {};
    assert Unused(alloc.geo, used) == Unused(alloc.geo, alloc.used) + Elems(m);
    assert multiset(Elems(m)) == m;
  }

  /** Use as much of a run as needed for indirect blocks. */
  method TakeIndirect(nb: seq<nat>, first: nat, num: nat, indirectBlks: nat, ghost used: set<int>, ghost used': set<int>)
    returns (newBlocks: seq<nat>, cur: nat, count: nat)
    requires Taken(nb, first, num, used, used') && |nb| <= indirectBlks
    ensures Taken(newBlocks, cur, count, used, used') && |newBlocks| <= indirectBlks
    ensures count + (cur - first) == num && nb <= newBlocks && (num > 0 ==> (newBlocks + [cur])[|nb|] == first)
    ensures |newBlocks| + count == |nb| + num && (count > 0 ==> |newBlocks| == indirectBlks)
  {
    hide Taken;
    newBlocks, cur, count := nb, first, num;
    while |newBlocks| < indirectBlks && count > 0
      invariant |newBlocks| <= indirectBlks && |newBlocks| + count == |nb| + num
      invariant Taken(newBlocks, cur, count, used, used')
      invariant count + (cur - first) == num && nb <= newBlocks && (newBlocks + [cur])[|nb|] == first
    {
      TakeOne(newBlocks, cur, count, used, used');
      newBlocks := newBlocks + [cur];
      cur := cur + 1;
      count := count - 1;
    }
  }

  /** How a request fares that needs `missing` indirect blocks beside the data. */
  ghost predicate Fares(err: Errno, m: Means, unused: nat, missing: nat, reserved: nat) {
    var reserve := if m.privileged then 0 else reserved;
    && (err == OK ==> m.quota > 0 && m.memory >= missing && unused > reserve)
    && (err == EDQUOT ==> m.quota <= missing)
    && (err == ENOMEM ==> m.quota > 0 && m.memory < missing)
    && (err == ENOSPC ==> m.quota > 0 && unused <= missing + reserve)
    && (m.quota == 0 ==> err == EDQUOT)
    && (err == OK || err == EDQUOT || err == ENOMEM || err == ENOSPC)
  }

  /** The run is as long as was asked for, or ends where it has to. */
  ghost predicate LongEnough(alloc: Allocator, used: set<int>, inode: Inode, goal: nat, block: nat, num: nat, count: nat)
    requires alloc.geo.Valid() && alloc.geo.first <= block
    reads inode, inode.Windows()
  {
    num == count || RunEnds(alloc.geo, used, block, num, alloc.Target(goal), ConfineOf(inode.window))
  }

  /** A file without a window gets the first block from the goal on, if there is
      one in the goal's group. */
  ghost predicate NearGoal(alloc: Allocator, used: set<int>, window: bool, goal: nat, block: nat)
    requires alloc.geo.Valid()
  {
    !window && !InUseFrom(alloc.geo, used, alloc.Target(goal)) ==> FirstUnused(alloc.geo, used, alloc.Target(goal), block)
  }

  lemma LongerUse(alloc: Allocator, used: set<int>, used': set<int>, inode: Inode, goal: nat, block: nat, num: nat, count: nat, taken: nat)
    requires alloc.geo.Valid() && alloc.geo.first <= block && used <= used' && taken < num <= count
    requires LongEnough(alloc, used, inode, goal, block, num, count)
    ensures LongEnough(alloc, used', inode, goal, block + taken, num - taken, count - taken)
  {
    hide Geometry.BitOf, Geometry.GroupOf;
    assert block + taken + (num - taken) == block + num;
  }

  /** What the allocator promises of a run, in these terms. */
  lemma LongAndNear(alloc: Allocator, used: set<int>, inode: Inode, goal: nat, block: nat, num: nat, count: nat,
                    first: bool, was: set<int>, window: bool)
    requires alloc.geo.Valid() && alloc.geo.first <= block
    requires num == count || RunEnds(alloc.geo, used, block, num, alloc.Target(goal), ConfineOf(inode.window))
    requires first ==> used == was
    requires first && !window && !InUseFrom(alloc.geo, used, alloc.Target(goal)) ==> FirstUnused(alloc.geo, used, alloc.Target(goal), block)
    ensures LongEnough(alloc, used, inode, goal, block, num, count)
    ensures first ==> NearGoal(alloc, was, window, goal, block)
  {
  }

  /** kr_alloc_blocks: blocks for a branch, the indirect ones one by one and
      the data ones as a run, as many as come in one piece. */
  method AllocBlocks(alloc: Allocator, inode: Inode, goal: nat, indirectBlks: nat, blks: nat, m: Means)
    returns (newBlocks: seq<nat>, num: nat, err: Errno)
    requires alloc.Valid() && alloc.meta <= alloc.used && blks > 0
    requires inode.window != null ==> inode.window in alloc.tree.known && indirectBlks + blks <= MAX_RESERVE_BLOCKS
    modifies alloc, alloc.bitmaps, alloc.freeCount, alloc.tree`nodes, inode`blocks, inode.Windows()
    ensures alloc.Valid() && alloc.meta <= alloc.used && alloc.misfrees == old(alloc.misfrees)
    ensures err == OK ==>
              && |newBlocks| == indirectBlks + 1 && 1 <= num <= blks
              && var f := GraftBlocks(newBlocks, num);
                 && NoDup(f) && Elems(f) !! old(alloc.used)
                 && alloc.used == old(alloc.used) + Elems(f) && inode.blocks == old(inode.blocks) + |f|
    ensures err == OK ==>
              && alloc.geo.Valid() && alloc.geo.first <= newBlocks[indirectBlks]
              && LongEnough(alloc, alloc.used, inode, goal, newBlocks[indirectBlks], num, blks)
              && NearGoal(alloc, old(alloc.used), old(alloc.HasWindow(inode)), goal, newBlocks[0])
    ensures err != OK ==> alloc.used == old(alloc.used) && inode.blocks == old(inode.blocks)
    ensures alloc.geo.Valid() && err != ENOMEM
    ensures Fares(err, m.(memory := indirectBlks), |Unused(alloc.geo, old(alloc.used))|, indirectBlks, alloc.reserved)
  {
    hide Allocator.Valid, Run, Taken, LongEnough, NearGoal, Allocator.HasWindow, Unused;
    ghost var used, window := alloc.used, alloc.HasWindow(inode);
    newBlocks, num, err := [], 0, OK;
    var target: nat, cur: nat, count: nat := blks + indirectBlks, 0, 0;
    var requests := 0;
    TakenNone(used);
    GeometryValid(alloc);
    while count == 0
      invariant alloc.Valid() && alloc.meta <= alloc.used && alloc.misfrees == old(alloc.misfrees)
      invariant |newBlocks| <= indirectBlks && (count > 0 ==> |newBlocks| == indirectBlks)
      invariant target + |newBlocks| + count == blks + indirectBlks
      invariant err == OK && (count == 0 ==> target > 0)
      invariant Taken(newBlocks, cur, count, used, alloc.used)
      invariant inode.blocks == old(inode.blocks) + |newBlocks| + count
      invariant requests <= m.quota && requests <= |newBlocks| + count && (requests == 0 <==> newBlocks == [] && count == 0)
      invariant requests == 0 ==> alloc.used == used && alloc.HasWindow(inode) == window
      invariant requests > 0 ==> |Unused(alloc.geo, used)| > if m.privileged then 0 else alloc.reserved
      invariant requests > 0 ==> NearGoal(alloc, used, window, goal, (newBlocks + [cur])[0])
      invariant count > 0 ==> alloc.geo.first <= cur && LongEnough(alloc, alloc.used, inode, goal, cur, count, blks)
      decreases target
    {
      newBlocks, cur, count, err := Request(alloc, inode, goal, newBlocks, cur, target, indirectBlks, blks, requests < m.quota, m, used, window);
      if err != OK {
        GiveBack(alloc, inode, newBlocks, used);
        return;
      }
      requests := requests + 1;
      target := blks + indirectBlks - |newBlocks| - count;
    }
    TakenFresh(newBlocks, cur, count, used, alloc.used);
    newBlocks := newBlocks + [cur];
    num := count;
  }

  /** One request for all that is still missing; as much of the run as needed is
      used for indirect blocks. */
  method Request(alloc: Allocator, inode: Inode, goal: nat, nb: seq<nat>, last: nat, target: nat, indirectBlks: nat, ghost blks: nat,
                 granted: bool, m: Means, ghost used: set<int>, ghost window: bool)
    returns (newBlocks: seq<nat>, cur: nat, count: nat, err: Errno)
    requires alloc.Valid() && alloc.meta <= alloc.used && Taken(nb, last, 0, used, alloc.used)
    requires |nb| <= indirectBlks && target + |nb| == blks + indirectBlks && target > 0
    requires inode.window != null ==> inode.window in alloc.tree.known && target <= MAX_RESERVE_BLOCKS
    requires nb == [] ==> alloc.used == used && alloc.HasWindow(inode) == window
    modifies alloc, alloc.bitmaps, alloc.freeCount, alloc.tree`nodes, inode`blocks, inode.Windows()
    ensures alloc.Valid() && alloc.meta <= alloc.used && alloc.misfrees == old(alloc.misfrees) && alloc.geo.Valid()
    ensures err == OK || err == EDQUOT || err == ENOSPC
    ensures err == EDQUOT <==> !granted
    ensures var unused, reserve := |Unused(alloc.geo, used)|, if m.privileged then 0 else alloc.reserved;
            && (err == ENOSPC ==> unused <= |nb| + reserve)
            && (err == OK ==> unused > |nb| + reserve)
    ensures err != OK ==>
              newBlocks == nb && alloc.used == old(alloc.used) && inode.blocks == old(inode.blocks) && Taken(nb, 0, 0, used, alloc.used)
    ensures err == OK ==>
              && Taken(newBlocks, cur, count, used, alloc.used) && nb <= newBlocks && |nb| < |newBlocks| + count <= blks + indirectBlks
              && |newBlocks| <= indirectBlks && (count > 0 ==> |newBlocks| == indirectBlks)
              && inode.blocks == old(inode.blocks) + |newBlocks| + count - |nb|
    ensures err == OK && count > 0 ==> alloc.geo.first <= cur && LongEnough(alloc, alloc.used, inode, goal, cur, count, blks)
    ensures err == OK && nb == [] ==> NearGoal(alloc, used, window, goal, (newBlocks + [cur])[0])
  {
    hide Allocator.Valid, Run, Taken, NearGoal, Allocator.HasWindow, Unused, RunEnds, InUseFrom, FirstUnused,
         Allocator.FoundFor, Allocator.Target;
    ghost var now := alloc.used;
    newBlocks := nb;
    GeometryValid(alloc);
    StillFree(alloc, nb, last, used);
    NoneLeftOver(nb, last, used, now);
    cur, count, err := alloc.NewBlocks(inode, goal, target, granted, m.privileged, m.calm);
    if err != OK {
      return;
    }
    ghost var run, all := cur, count;
    LongAndNear(alloc, now, inode, goal, cur, count, target, nb == [], used, window);
    TakeRun(nb, 0, used, now, cur, count);
    newBlocks, cur, count := TakeIndirect(nb, cur, count, indirectBlks, used, alloc.used);
    if count > 0 {
      LongerUse(alloc, now, alloc.used, inode, goal, run, all, target, cur - run);
    }
  }

  // ---------- building the branch ----------

  /** Zero a new indirect block and enter its pointers: n blocks from `child` on. */
  method SetUpNode(p: array<nat>, slot: nat, n: nat, child: nat)
    requires n > 0 && slot + n <= p.Length
    modifies p
    ensures HoldingOnly(p[..], slot, n, child)
  {
    for x := 0 to p.Length
      invariant forall y :: 0 <= y < x ==> p[y] == 0
    {
      p[x] := 0;
    }
    p[slot] := child;
    for k := 1 to n
      invariant forall y :: slot <= y < slot + k ==> p[y] == child + (y - slot)
      invariant forall y :: 0 <= y < p.Length && !(slot <= y < slot + k) ==> p[y] == 0
    {
      p[slot + k] := child + k;
    }
  }

  lemma {:induction false} BranchDistinct(nb: seq<nat>, num: nat)
    requires |nb| >= 1 && num > 0 && NoDup(GraftBlocks(nb, num))
    ensures forall k :: 0 <= k < |nb| ==> nb[k] in GraftBlocks(nb, num)
    ensures forall k, l :: 0 <= k < l < |nb| ==> nb[k] != nb[l]
    decreases |nb|
  {
    if |nb| > 1 {
      var rest := GraftBlocks(nb[1..], num);
      assert GraftBlocks(nb, num) == rest + multiset{nb[0]};
      OneMore(rest, nb[0]);
      BranchDistinct(nb[1..], num);
      forall k | 1 <= k < |nb|
        ensures nb[k] in rest && nb[k] in GraftBlocks(nb, num) && nb[k] != nb[0]
      {
        assert nb[k] == nb[1..][k - 1];
      }
      forall k, l | 1 <= k < l < |nb|
        ensures nb[k] != nb[l]
      {
        assert nb[k] == nb[1..][k - 1] && nb[l] == nb[1..][l - 1];
      }
    } else {
      assert nb[0] in Run(nb[0], num);
    }
  }

  /** The first m pointer blocks of the branch are set up. */
  ghost predicate SetUp(v: Device, ptrs: nat, q: seq<nat>, nb: seq<nat>, num: nat, m: nat)
    requires |q| == |nb| > m
  {
    forall k :: 0 <= k < m ==>
      nb[k] < |v| && |v[nb[k]]| == ptrs && HoldingOnly(v[nb[k]], q[k + 1], if k + 2 == |q| then num else 1, nb[k + 1])
  }

  lemma NoneSetUp(v: Device, ptrs: nat, q: seq<nat>, nb: seq<nat>, num: nat)
    requires |q| == |nb| >= 1
    ensures SetUp(v, ptrs, q, nb, num, 0)
  {
  }

  lemma SetUpMore(w: Device, v: Device, ptrs: nat, q: seq<nat>, nb: seq<nat>, num: nat, m: nat)
    requires |q| == |nb| > m + 1 && SetUp(w, ptrs, q, nb, num, m) && |v| == |w|
    requires forall k, l :: 0 <= k < l < |nb| ==> nb[k] != nb[l]
    requires forall c :: 0 <= c < |w| && c != nb[m] ==> v[c] == w[c]
    requires nb[m] < |v| && |v[nb[m]]| == ptrs
    requires HoldingOnly(v[nb[m]], q[m + 1], if m + 2 == |q| then num else 1, nb[m + 1])
    ensures SetUp(v, ptrs, q, nb, num, m + 1)
  {
    hide HoldingOnly;
  }

  lemma {:induction false} AllSetUp(v: Device, ptrs: nat, q: seq<nat>, nb: seq<nat>, num: nat)
    requires |q| == |nb| >= 1 && SetUp(v, ptrs, q, nb, num, |q| - 1) && forall k :: 0 <= k < |nb| ==> nb[k] > 0
    ensures FreshBranch(v, ptrs, q, nb, num)
    decreases |q|
  {
    if |q| > 1 {
      forall k | 0 <= k < |q| - 2
        ensures var a, c := q[1..], nb[1..];
                c[k] < |v| && |v[c[k]]| == ptrs && HoldingOnly(v[c[k]], a[k + 1], if k + 2 == |a| then num else 1, c[k + 1])
      {
        assert q[1..][k + 1] == q[k + 2] && nb[1..][k + 1] == nb[k + 2] && nb[1..][k] == nb[k + 1];
      }
      AllSetUp(v, ptrs, q[1..], nb[1..], num);
      assert HoldingOnly(v[nb[0]], q[1], if |q| == 2 then num else 1, nb[1]);
    }
  }

  /** What kr_alloc_blocks handed out, as blocks of the device. */
  ghost predicate Handed(fs: FileSystem, nb: seq<nat>, num: nat, used: set<int>, used': set<int>)
  {
    && |nb| >= 1 && num > 0
    && var f := GraftBlocks(nb, num);
       NoDup(f) && Elems(f) !! used && used' == used + Elems(f)
  }

  lemma HandedBlocks(fs: FileSystem, nb: seq<nat>, num: nat, used: set<int>)
    requires fs.Ready() && Handed(fs, nb, num, used, fs.alloc.used) && fs.alloc.meta <= used
    ensures forall k :: 0 <= k < |nb| ==> 0 < nb[k] < |fs.dev| && nb[k] !in used
    ensures forall k, l :: 0 <= k < l < |nb| ==> nb[k] != nb[l]
    ensures forall k :: 0 <= k < |nb| ==> nb[k] in GraftBlocks(nb, num)
  {
    hide GraftBlocks, Allocator.Valid;
    BranchDistinct(nb, num);
    InUseBelowEnd(fs.alloc);
    forall k | 0 <= k < |nb|
      ensures 0 < nb[k] < |fs.dev| && nb[k] !in used
    {
      assert nb[k] in Elems(GraftBlocks(nb, num));
    }
  }

  /** No buffer for a new indirect block: give everything back. */
  method Abandon(fs: FileSystem, inode: Inode, nb: seq<nat>, num: nat, ghost used: set<int>)
    requires fs.Ready() && Handed(fs, nb, num, used, fs.alloc.used) && fs.alloc.meta <= used
    modifies fs.alloc, fs.alloc.bitmaps, fs.alloc.freeCount, inode`blocks
    ensures fs.Ready() && fs.alloc.misfrees == old(fs.alloc.misfrees)
    ensures fs.alloc.used == used && inode.blocks == old(inode.blocks) - |GraftBlocks(nb, num)|
  {
    hide Allocator.Valid, Run, Taken, GraftBlocks;
    ghost var f := GraftBlocks(nb, num);
    var last := |nb| - 1;
    var indirect, first := nb[..last], nb[last];
    assert nb == indirect + [first];
    TakenBranch(indirect, first, num);
    Untie(indirect, first, num, used, fs.alloc.used);
    GiveBack(fs.alloc, inode, indirect, used + Run(first, num));
    FreeOwned(fs.alloc, inode, first, num);
  }

  lemma Untie(nb: seq<nat>, first: nat, num: nat, used: set<int>, used': set<int>)
    requires var f := multiset(nb) + multiset(Run(first, num));
             NoDup(f) && Elems(f) !! used && used' == used + Elems(f)
    ensures Taken(nb, 0, 0, used + Run(first, num), used')
    ensures used + Run(first, num) - Run(first, num) == used
    ensures forall b :: b in Run(first, num) ==> b !in used
  {
    hide Run, NoDup, Elems;
    var m, run, none := multiset(nb), Run(first, num), Run(0, 0);
    SplitFresh(m, run);
    assert none == {};
    Regroup(used, Elems(m), run, none, used');
  }

  lemma Regroup(used: set<int>, e: set<int>, run: set<int>, none: set<int>, used': set<int>)
    requires run !! e && e + run !! used && used' == used + (e + run) && none == {}
    ensures e !! used + run && none !! used + run && none !! e && used' == used + run + e + none
    ensures used + run - run == used && forall b :: b in run ==> b !in used
  {
  }

  lemma SplitFresh(m: multiset<int>, run: set<int>)
    requires NoDup(m + multiset(run))
    ensures NoDup(m) && run !! Elems(m) && Elems(m + multiset(run)) == Elems(m) + run
  {
    var f := m + multiset(run);
    SubNoDup(m, f);
    forall b
      ensures (b in Elems(f) <==> b in Elems(m) || b in run) && !(b in Elems(m) && b in run)
    {
      assert f[b] == m[b] + multiset(run)[b] && f[b] <= 1;
    }
  }

  /** Set up the indirect blocks of a branch; `where` is the slot it is for. */
  method BuildBranch(fs: FileSystem, newBlocks: seq<nat>, num: nat, q: seq<nat>, where: Indirect, memory: nat)
    returns (branch: seq<Indirect>, built: bool)
    requires |q| == |newBlocks| >= 1 && num > 0
    requires forall b, c :: 0 <= b < c < |fs.dev| ==> fs.dev[b] != fs.dev[c]
    requires forall b :: 0 <= b < |fs.dev| ==> fs.dev[b].Length == fs.ptrs
    requires forall k :: 0 <= k < |newBlocks| ==> 0 < newBlocks[k] < |fs.dev|
    requires forall k, l :: 0 <= k < l < |newBlocks| ==> newBlocks[k] != newBlocks[l]
    requires forall k :: 1 <= k < |q| ==> q[k] + (if k + 1 == |q| then num else 1) <= fs.ptrs
    modifies fs.dev
    ensures forall c :: 0 <= c < |fs.dev| && c !in newBlocks ==> fs.dev[c][..] == old(fs.dev[c][..])
    ensures built ==>
              && |branch| == |newBlocks| && branch[0] == where.(key := newBlocks[0])
              && (forall k :: 0 <= k < |branch| ==> branch[k].key == newBlocks[k])
              && FreshBranch(Words(fs.dev), fs.ptrs, q, newBlocks, num)
    ensures built <==> memory >= |q| - 1
  {
    hide Words, FreshBranch, SetUp, HoldingOnly;
    var indirectBlks := |q| - 1;
    branch := [where.(key := newBlocks[0])];
    NoneSetUp(Words(fs.dev), fs.ptrs, q, newBlocks, num);
    for n := 1 to indirectBlks + 1
      invariant |branch| == n && branch[0] == where.(key := newBlocks[0]) && n <= memory + 1
      invariant forall k :: 0 <= k < n ==> branch[k].key == newBlocks[k]
      invariant SetUp(Words(fs.dev), fs.ptrs, q, newBlocks, num, n - 1)
      invariant forall c :: 0 <= c < |fs.dev| && c !in newBlocks ==> fs.dev[c][..] == old(fs.dev[c][..])
    {
      if n > memory {
        return branch, false;
      }
      ghost var w := Words(fs.dev);
      var buffer := fs.dev[newBlocks[n - 1]];
      SetUpNode(buffer, q[n], if n == indirectBlks then num else 1, newBlocks[n]);
      SetUpMore(w, Words(fs.dev), fs.ptrs, q, newBlocks, num, n - 1);
      branch := branch + [Indirect(buffer, q[n], newBlocks[n])];
    }
    AllSetUp(Words(fs.dev), fs.ptrs, q, newBlocks, num);
    built := true;
  }

  /** kr_alloc_branch: blocks for a branch along q, and its indirect blocks set
      up. `where` is the empty slot the branch is meant for. */
  method AllocBranch(fs: FileSystem, inode: Inode, indirectBlks: nat, blks: nat, goal: nat, m: Means,
                     q: seq<nat>, where: Indirect)
    returns (branch: seq<Indirect>, num: nat, err: Errno, ghost nb: seq<nat>)
    requires fs.Ready() && blks > 0 && |q| == indirectBlks + 1
    requires inode.window != null ==> inode.window in fs.alloc.tree.known && indirectBlks + blks <= MAX_RESERVE_BLOCKS
    requires forall k :: 1 <= k < |q| ==> q[k] + (if k + 1 == |q| then blks else 1) <= fs.ptrs
    modifies fs.dev, fs.alloc, fs.alloc.bitmaps, fs.alloc.freeCount, fs.alloc.tree`nodes, inode`blocks, inode.Windows()
    ensures fs.Ready() && fs.alloc.misfrees == old(fs.alloc.misfrees)
    ensures forall c :: 0 <= c < |fs.dev| && c in old(fs.alloc.used) ==> fs.dev[c][..] == old(fs.dev[c][..])
    ensures err == OK ==>
              && |branch| == |nb| == indirectBlks + 1 && num <= blks
              && Handed(fs, nb, num, old(fs.alloc.used), fs.alloc.used)
              && inode.blocks == old(inode.blocks) + |GraftBlocks(nb, num)|
              && FreshBranch(Words(fs.dev), fs.ptrs, q, nb, num)
              && (forall k :: 0 <= k < |nb| ==> branch[k].key == nb[k])
              && branch[0] == where.(key := nb[0])
              && forall c :: 0 <= c < |fs.dev| && c !in GraftBlocks(nb, num) ==> fs.dev[c][..] == old(fs.dev[c][..])
    ensures err != OK ==> fs.alloc.used == old(fs.alloc.used) && inode.blocks == old(inode.blocks)
    ensures err == OK ==>
              && |nb| > indirectBlks && fs.alloc.geo.Valid() && fs.alloc.geo.first <= nb[indirectBlks]
              && LongEnough(fs.alloc, fs.alloc.used, inode, goal, nb[indirectBlks], num, blks)
              && NearGoal(fs.alloc, old(fs.alloc.used), old(fs.alloc.HasWindow(inode)), goal, nb[0])
    ensures fs.alloc.geo.Valid()
    ensures Fares(err, m, |Unused(fs.alloc.geo, old(fs.alloc.used))|, indirectBlks, fs.alloc.reserved)
  {
    hide Allocator.Valid, Run, GraftBlocks, NoDup, Words, FreshBranch, NearGoal, Allocator.HasWindow, Unused, RunEnds;
    ghost var used := fs.alloc.used;
    branch := [];
    var newBlocks, built;
    newBlocks, num, err := AllocBlocks(fs.alloc, inode, goal, indirectBlks, blks, m);
    nb := newBlocks;
    if err != OK {
      return;
    }
    HandedBlocks(fs, nb, num, used);
    branch, built := BuildBranch(fs, newBlocks, num, q, where, m.memory);
    if !built {
      Abandon(fs, inode, newBlocks, num, used);
      err := ENOMEM;
    }
  }
}
