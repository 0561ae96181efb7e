/**
 The block allocator: bitmaps and free counts per block group, the file-system
 wide free counter, and the allocation of runs of blocks with and without
 reservation windows.
 */
module Allocator {
  import opened Bitmap
  import opened Groups
  import opened Inode
  import opened Reservation
  import opened RsvAlloc

  /** A group's own metadata: two bitmap blocks and the start of its inode table. */
  datatype GroupDesc = GroupDesc(blockBitmap: nat, inodeBitmap: nat, inodeTable: nat)

  predicate InRange(b: int, first: int, len: int) {
    first <= b <= first + len - 1
  }

  /** The groups' bits: the part of each bitmap buffer that its group uses. */
  ghost function View(bitmaps: seq<array<bool>>, perGroup: nat): (r: seq<seq<bool>>)
    requires forall g :: 0 <= g < |bitmaps| ==> perGroup <= bitmaps[g].Length
    reads bitmaps
    ensures |r| == |bitmaps|
    ensures forall g :: 0 <= g < |bitmaps| ==> r[g] == bitmaps[g][..perGroup]
  {
    if |bitmaps| == 0 then []
    else View(bitmaps[..|bitmaps| - 1], perGroup) + [bitmaps[|bitmaps| - 1][..perGroup]]
  }

  /** Block groups laid out as the mount-time checks leave them; `meta` holds at
      least every group's bitmap blocks and inode table. */
  ghost predicate LaidOut(geo: Geometry, itbPerGroup: nat, desc: seq<GroupDesc>,
                          bitmaps: seq<array<bool>>, groups: nat, meta: set<int>) {
    && geo.Valid()
    && |bitmaps| == |desc| == groups == geo.Groups()
    && (forall g :: 0 <= g < |bitmaps| ==> bitmaps[g].Length >= geo.perGroup && bitmaps[g].Length % 8 == 0)
    && (forall g, h :: 0 <= g < h < |bitmaps| ==> bitmaps[g] != bitmaps[h])
    && (forall g :: 0 <= g < |desc| ==> desc[g].blockBitmap in meta && desc[g].inodeBitmap in meta)
    && (forall g, b :: 0 <= g < |desc| && InRange(b, desc[g].inodeTable, itbPerGroup) ==> b in meta)
  }

  /** From one state of the groups' bits to the next, a run of `num` free
      blocks of group g was claimed, at most `count` long (or one, for 0). */
  ghost predicate GotRun(perGroup: nat, before: seq<seq<bool>>, after: seq<seq<bool>>,
                         g: int, ret: int, num: nat, count: nat) {
    && 0 <= g < |before| && |before[g]| == perGroup
    && 0 <= ret && ret + num <= perGroup
    && 1 <= num <= (if count == 0 then 1 else count)
    && AllFree(before[g], ret, num)
    && after == before[g := Fill(before[g], ret, num, true)]
  }

  lemma GotRunAtMost(perGroup: nat, before: seq<seq<bool>>, after: seq<seq<bool>>,
                     g: int, ret: int, num: nat, count: nat, most: nat)
    requires GotRun(perGroup, before, after, g, ret, num, count) && count <= most
    ensures GotRun(perGroup, before, after, g, ret, num, most)
  {
  }

  // ---------- what the search finds ----------

  /** Where an allocation may take blocks from: within the window, if there is one. */
  function ConfineOf(my: Window?): Confine
    reads if my == null then {} else {my}
  {
    if my == null then Anywhere else Within(my.start, my.end)
  }

  /** A run was found in group g: from the goal on, or, for a window that the
      goal is not in, from its start on; and it is as long as can be. */
  ghost predicate Took(geo: Geometry, bits: seq<seq<bool>>, g: nat, goal: int, c: Confine, count: nat, ret: int, num: nat) {
    && g < |bits| && |bits[g]| == geo.perGroup > 0 && -1 <= goal < geo.perGroup
    && Overlaps(c, geo.GroupFirst(g), geo.perGroup)
    && Claimed(bits[g], SearchRange(geo.GroupFirst(g), geo.perGroup, goal, c), count, ret, num)
  }

  /** Nothing can be had in group g by a file with a window of at least `size`
      blocks: the search for a window is hopeless there, or the group is in use
      from the goal on. */
  ghost predicate FailsWith(geo: Geometry, bits: seq<seq<bool>>, g: nat, goal: int, others: set<Span>, size: nat) {
    && g < |bits| && |bits[g]| == geo.perGroup && goal < geo.perGroup
    && (Hopeless(geo, bits, g, goal, others, size) || AllUsed(bits[g], if goal > 0 then goal else 0, geo.perGroup))
  }

  ghost predicate Hopeless(geo: Geometry, bits: seq<seq<bool>>, g: nat, goal: int, others: set<Span>, size: nat)
    requires g < |bits|
  {
    exists all: set<Span>, n: nat :: size <= n && HopelessAmong(geo, bits, g, goal, others, all, n)
  }

  ghost predicate HopelessAmong(geo: Geometry, bits: seq<seq<bool>>, g: nat, goal: int, others: set<Span>, all: set<Span>, size: nat)
    requires g < |bits|
  {
    && (all == others || exists t: Span :: all == others + {t})
    && Quest(all, others, First(geo.GroupFirst(g), goal), size, geo.GroupFirst(g), bits[g]).Hopeless()
  }

  /** The search passes over group h: it has no free block, or, with a window,
      too few of them or none that the window could hold. */
  ghost predicate PassedOver(geo: Geometry, bits: seq<seq<bool>>, free: seq<nat>, h: nat,
                             window: bool, windowSize: nat, others: set<Span>, size: nat) {
    && h < |free|
    && (free[h] == 0 || (window && (free[h] <= windowSize / 2 || FailsWith(geo, bits, h, -1, others, size))))
  }

  /** The number of groups from the one after `start` up to h, going around. */
  function Steps(start: nat, h: nat, n: nat): int {
    if h > start then h - start else h + n - start
  }

  /** A goal outside the window is as good as none. */
  lemma GoalOutside(w: Window, goal: int, groupFirst: nat, perGroup: nat)
    requires 0 < perGroup && -1 <= goal < perGroup && Overlaps(Within(w.start, w.end), groupFirst, perGroup)
    ensures SearchRange(groupFirst, perGroup, GoalWithin(w, goal, groupFirst, perGroup), Within(w.start, w.end))
            == SearchRange(groupFirst, perGroup, goal, ConfineOf(w))
  {
  }

  /** So are all groups that are less than `steps` steps from `start`. */
  ghost predicate AllPassed(geo: Geometry, bits: seq<seq<bool>>, free: seq<nat>, start: nat, steps: int,
                            window: bool, windowSize: nat, others: set<Span>, size: nat) {
    forall h :: 0 <= h < |free| && Steps(start, h, |free|) < steps ==> PassedOver(geo, bits, free, h, window, windowSize, others, size)
  }

  lemma AllWithout(geo: Geometry, bits: seq<seq<bool>>, free: seq<nat>, start: nat, windowSize: nat, others: set<Span>, size: nat)
    requires start < |free| && AllPassed(geo, bits, free, start, |free| + 1, false, windowSize, others, size)
    ensures forall h :: 0 <= h < |free| ==> free[h] == 0
  {
    forall h | 0 <= h < |free|
      ensures free[h] == 0
    {
      assert Steps(start, h, |free|) < |free| + 1;
      assert PassedOver(geo, bits, free, h, false, windowSize, others, size);
    }
  }

  /** A claim looks at the group's part of the buffer only. */
  lemma RangePrefix(s: seq<bool>, groupFirst: nat, perGroup: nat, goal: int, c: Confine, count: nat, ret: int, num: nat)
    requires 0 < perGroup <= |s| && -1 <= goal < perGroup && Overlaps(c, groupFirst, perGroup)
    ensures Claimed(s, SearchRange(groupFirst, perGroup, goal, c), count, ret, num) ==>
              Claimed(s[..perGroup], SearchRange(groupFirst, perGroup, goal, c), count, ret, num)
  {
  }

  lemma ClaimIsRun(s: seq<bool>, groupFirst: nat, perGroup: nat, goal: int, c: Confine, count: nat, ret: int, num: nat)
    requires 0 < perGroup <= |s| && -1 <= goal < perGroup && Overlaps(c, groupFirst, perGroup)
    requires Claimed(s[..perGroup], SearchRange(groupFirst, perGroup, goal, c), count, ret, num)
    ensures 0 <= ret && ret + num <= perGroup && 1 <= num <= (if count == 0 then 1 else count) && AllFree(s[..perGroup], ret, num)
  {
  }

  lemma FailsSmaller(geo: Geometry, bits: seq<seq<bool>>, g: nat, goal: int, others: set<Span>, size: nat, least: nat)
    requires FailsWith(geo, bits, g, goal, others, size) && least <= size
    ensures FailsWith(geo, bits, g, goal, others, least)
  {
    hide HopelessAmong;
  }

  lemma FailedThere(geo: Geometry, bits: seq<seq<bool>>, g: nat, goal: int, others: set<Span>, all: set<Span>,
                    none: bool, size: nat, empty: bool, start: nat, end: nat)
    requires g < |bits| && |bits[g]| == geo.perGroup && -1 <= goal < geo.perGroup
    requires none ==> OwnGrown(all, others, empty, start, end)
    requires none ==> Quest(all, others, First(geo.GroupFirst(g), goal), size, geo.GroupFirst(g), bits[g]).Hopeless()
    requires !none ==> AllUsed(bits[g], First(geo.GroupFirst(g), goal) - geo.GroupFirst(g), geo.perGroup)
    ensures FailsWith(geo, bits, g, goal, others, size)
  {
    hide Geometry.GroupFirst, Quest.Hopeless;
    if none {
      assert HopelessAmong(geo, bits, g, goal, others, all, size);
    }
  }

  /** The other files' windows, and the size of the file's own. */
  ghost function OthersOf(tree: WindowTree, my: Window?): set<Span>
    reads tree, tree.nodes
  {
    if my == null then {} else Spans(tree.nodes, my)
  }

  function SizeOf(my: Window?): nat
    reads if my == null then {} else {my}
  {
    if my == null then 0 else my.goalSize
  }

  /** A run in the goal's group, from the goal on. */
  ghost predicate FoundNear(geo: Geometry, bits: seq<seq<bool>>, goal: nat, count: nat, c: Confine, g: nat, ret: int, num: nat)
    requires geo.Valid() && geo.first <= goal
  {
    g == geo.GroupOf(goal) && Took(geo, bits, g, geo.BitOf(goal), c, count, ret, num)
  }

  /** A run in the first group after the goal's that has something to offer. */
  ghost predicate FoundFar(geo: Geometry, bits: seq<seq<bool>>, free: seq<nat>, goal: nat, count: nat, window: bool, windowSize: nat,
                           others: set<Span>, size: nat, c: Confine, g: nat, ret: int, num: nat)
    requires geo.Valid() && geo.first <= goal
  {
    && Took(geo, bits, g, -1, c, count, ret, num) && (window ==> g < |free| && free[g] > windowSize / 2)
    && AllPassed(geo, bits, free, geo.GroupOf(goal), Steps(geo.GroupOf(goal), g, |free|), window, windowSize, others, size)
  }

  /** The goal's group is in use from the goal on, or, with a window, has nothing to offer. */
  ghost predicate NotNear(geo: Geometry, bits: seq<seq<bool>>, free: seq<nat>, goal: nat, window: bool, others: set<Span>, size: nat)
    requires geo.Valid() && geo.first <= goal
  {
    var g, bit := geo.GroupOf(goal), geo.BitOf(goal);
    && g < |free| && g < |bits| && |bits[g]| == geo.perGroup
    && if window then free[g] == 0 || FailsWith(geo, bits, g, bit, others, size) else AllUsed(bits[g], bit, |bits[g]|)
  }

  /** Without a window: near the goal if there is a free block, else in the next
      group that has one. If the goal's group has one before the goal only, the
      failed attempt there has left a count of 0 behind, and one block is taken. */
  ghost predicate FoundFreely(geo: Geometry, bits: seq<seq<bool>>, free: seq<nat>, goal: nat, count: nat, g: nat, ret: int, num: nat)
    requires geo.Valid() && geo.first <= goal
  {
    || FoundNear(geo, bits, goal, count, Anywhere, g, ret, num)
    || (&& NotNear(geo, bits, free, goal, false, {}, 0)
        && FoundFar(geo, bits, free, goal, if free[geo.GroupOf(goal)] > 0 then 0 else count, false, 0, {}, 0, Anywhere, g, ret, num))
  }

  /** With a window there is nothing in any group. */
  ghost predicate NothingWith(geo: Geometry, bits: seq<seq<bool>>, free: seq<nat>, goal: nat, windowSize: nat, others: set<Span>, size: nat)
    requires geo.Valid() && geo.first <= goal
  {
    && NotNear(geo, bits, free, goal, true, others, size)
    && AllPassed(geo, bits, free, geo.GroupOf(goal), |free| + 1, true, windowSize, others, size)
  }

  ghost predicate FoundWith(geo: Geometry, bits: seq<seq<bool>>, free: seq<nat>, goal: nat, count: nat, windowSize: nat,
                            others: set<Span>, size: nat, c: Confine, g: nat, ret: int, num: nat)
    requires geo.Valid() && geo.first <= goal
  {
    || FoundNear(geo, bits, goal, count, c, g, ret, num)
    || (&& NotNear(geo, bits, free, goal, true, others, size)
        && FoundFar(geo, bits, free, goal, count, true, windowSize, others, size, c, g, ret, num))
  }

  /** What the search finds: with a window, a run within it, or, if there is
      nothing for it in any group, one found without. */
  ghost predicate Found(geo: Geometry, bits: seq<seq<bool>>, free: seq<nat>, goal: nat, count: nat, window: bool, windowSize: nat,
                        others: set<Span>, size: nat, c: Confine, g: nat, ret: int, num: nat)
    requires geo.Valid() && geo.first <= goal
  {
    if window then
      || FoundWith(geo, bits, free, goal, count, windowSize, others, size, c, g, ret, num)
      || (NothingWith(geo, bits, free, goal, windowSize, others, size) && FoundFreely(geo, bits, free, goal, count, g, ret, num))
    else FoundFreely(geo, bits, free, goal, count, g, ret, num)
  }

  // ---------- the same in terms of blocks ----------

  /** All blocks of the group from t on are in use. */
  ghost predicate InUseFrom(geo: Geometry, used: set<int>, t: nat)
    requires geo.Valid() && geo.first <= t
  {
    forall b: nat :: t <= b < geo.count && geo.GroupOf(b) == geo.GroupOf(t) ==> b in used
  }

  /** b is the first block from t on, in t's group, that is not in use. */
  ghost predicate FirstUnused(geo: Geometry, used: set<int>, t: nat, b: nat)
    requires geo.Valid() && geo.first <= t
  {
    t <= b < geo.count && geo.GroupOf(b) == geo.GroupOf(t) && b !in used && forall c :: t <= c < b ==> c in used
  }

  /** Why a run is no longer: a block in use follows, the group or the window
      ends, or it is the single block that is taken when the goal's group has
      nothing from the goal on. */
  ghost predicate RunEnds(geo: Geometry, used: set<int>, block: nat, num: nat, target: nat, c: Confine)
    requires geo.Valid() && geo.first <= target && geo.first <= block
  {
    || block + num in used || block + num >= geo.count || geo.BitOf(block + num) == 0
    || (c.Within? && block + num == c.end + 1)
    || (num == 1 && InUseFrom(geo, used, target))
  }

  lemma TookEnds(geo: Geometry, bits: seq<seq<bool>>, used: set<int>, g: nat, goal: int, c: Confine, count: nat, block: nat, num: nat, target: nat)
    requires geo.Valid() && Tied(geo, bits, used) && geo.first <= block && block + num <= geo.count && geo.first <= target
    requires Took(geo, bits, g, goal, c, count, geo.BitOf(block), num) && g == geo.GroupOf(block) && num < count
    ensures RunEnds(geo, used, block, num, target, c)
  {
    hide Geometry.GroupFirst, Geometry.GroupOf, Geometry.BitOf, Geometry.Groups, InUseFrom;
    geo.Locate(block);
    var ret := geo.BitOf(block);
    if block + num < geo.count {
      geo.Locate(block + num);
      if ret + num < geo.perGroup {
        geo.SamePlace(geo.GroupOf(block + num), geo.BitOf(block + num), g, ret + num);
        assert bits[g][ret + num] <==> Marked(geo, used, geo.GroupFirst(g) + (ret + num));
      } else {
        geo.NextGroup(g, g + 1);
        geo.SamePlace(geo.GroupOf(block + num), geo.BitOf(block + num), g + 1, 0);
      }
    }
  }

  lemma TailInUse(geo: Geometry, bits: seq<seq<bool>>, used: set<int>, t: nat)
    requires geo.Valid() && Tied(geo, bits, used) && geo.first <= t < geo.count
    ensures geo.GroupOf(t) < |bits| && geo.BitOf(t) < geo.perGroup == |bits[geo.GroupOf(t)]|
    ensures AllUsed(bits[geo.GroupOf(t)], geo.BitOf(t), geo.perGroup) <==> InUseFrom(geo, used, t)
  {
    hide Geometry.GroupFirst, Geometry.GroupOf, Geometry.BitOf, Geometry.Groups;
    geo.Locate(t);
    var g, bit := geo.GroupOf(t), geo.BitOf(t);
    if AllUsed(bits[g], bit, geo.perGroup) {
      forall b: nat | t <= b < geo.count && geo.GroupOf(b) == g
        ensures b in used
      {
        geo.Locate(b);
        assert bits[g][geo.BitOf(b)] <==> Marked(geo, used, geo.GroupFirst(g) + geo.BitOf(b));
      }
    }
    if InUseFrom(geo, used, t) {
      forall i | bit <= i < geo.perGroup
        ensures bits[g][i]
      {
        var b := geo.GroupFirst(g) + i;
        if b < geo.count {
          geo.Locate(b);
          geo.SamePlace(geo.GroupOf(b), geo.BitOf(b), g, i);
        }
        assert bits[g][i] <==> Marked(geo, used, b);
      }
    }
  }

  /** What the search finds, in terms of blocks. */
  lemma FoundMeans(geo: Geometry, bits: seq<seq<bool>>, used: set<int>, free: seq<nat>, goal: nat, count: nat, window: bool, windowSize: nat,
                   others: set<Span>, size: nat, c: Confine, block: nat, num: nat)
    requires geo.Valid() && Tied(geo, bits, used) && Counted(bits, free) && geo.first <= goal < geo.count
    requires geo.first <= block && block + num <= geo.count && count > 0 && num > 0
    requires Found(geo, bits, free, goal, count, window, windowSize, others, size, c, geo.GroupOf(block), geo.BitOf(block), num)
    ensures num == count || RunEnds(geo, used, block, num, goal, c) || RunEnds(geo, used, block, num, goal, Anywhere)
    ensures !window && !InUseFrom(geo, used, goal) ==> FirstUnused(geo, used, goal, block)
  {
    hide Geometry.GroupFirst, Geometry.GroupOf, Geometry.BitOf, Geometry.Groups, InUseFrom, Took, AllPassed, FailsWith, RunEnds, FirstUnused;
    var g, ret := geo.GroupOf(block), geo.BitOf(block);
    TailInUse(geo, bits, used, goal);
    if num != count {
      TookIn(geo, bits, used, g, geo.BitOf(goal), c, count, block, num, goal);
      TookIn(geo, bits, used, g, geo.BitOf(goal), Anywhere, count, block, num, goal);
      TookIn(geo, bits, used, g, -1, c, count, block, num, goal);
      TookIn(geo, bits, used, g, -1, Anywhere, count, block, num, goal);
      if Took(geo, bits, g, -1, Anywhere, 0, ret, num) && InUseFrom(geo, used, goal) {
        OneBlock(geo, bits, used, g, block, num, goal);
      }
    }
    if !window && !InUseFrom(geo, used, goal) {
      NearIsFirst(geo, bits, used, goal, count, block, num);
    }
  }

  lemma TookIn(geo: Geometry, bits: seq<seq<bool>>, used: set<int>, g: nat, goal: int, c: Confine, count: nat, block: nat, num: nat, target: nat)
    requires geo.Valid() && Tied(geo, bits, used) && geo.first <= block && block + num <= geo.count && geo.first <= target
    requires g == geo.GroupOf(block) && num != count && count > 0
    ensures Took(geo, bits, g, goal, c, count, geo.BitOf(block), num) ==> RunEnds(geo, used, block, num, target, c)
  {
    hide Geometry.GroupFirst, Geometry.GroupOf, Geometry.BitOf, Geometry.Groups, RunEnds, SearchRange;
    if Took(geo, bits, g, goal, c, count, geo.BitOf(block), num) {
      TookEnds(geo, bits, used, g, goal, c, count, block, num, target);
    }
  }

  lemma OneBlock(geo: Geometry, bits: seq<seq<bool>>, used: set<int>, g: nat, block: nat, num: nat, goal: nat)
    requires geo.Valid() && geo.first <= goal && geo.first <= block && Took(geo, bits, g, -1, Anywhere, 0, geo.BitOf(block), num)
    requires InUseFrom(geo, used, goal)
    ensures RunEnds(geo, used, block, num, goal, Anywhere)
  {
    hide Geometry.GroupFirst, Geometry.GroupOf, Geometry.BitOf, InUseFrom;
  }

  lemma NearIsFirst(geo: Geometry, bits: seq<seq<bool>>, used: set<int>, goal: nat, count: nat, block: nat, num: nat)
    requires geo.Valid() && Tied(geo, bits, used) && geo.first <= goal < geo.count && geo.first <= block && block + num <= geo.count && num > 0
    requires FoundNear(geo, bits, goal, count, Anywhere, geo.GroupOf(block), geo.BitOf(block), num)
    ensures FirstUnused(geo, used, goal, block)
  {
    hide Geometry.GroupFirst, Geometry.GroupOf, Geometry.BitOf, Geometry.Groups;
    geo.Locate(goal);
    geo.Locate(block);
    var g, ret, bit := geo.GroupOf(block), geo.BitOf(block), geo.BitOf(goal);
    assert bits[g][ret] <==> Marked(geo, used, geo.GroupFirst(g) + ret);
    forall c | goal <= c < block
      ensures c in used
    {
      var i := bit + (c - goal);
      assert bits[g][i] <==> Marked(geo, used, geo.GroupFirst(g) + i);
    }
  }

  lemma FarSmaller(geo: Geometry, bits: seq<seq<bool>>, free: seq<nat>, start: nat, steps: int, windowSize: nat,
                   others: set<Span>, size: nat, least: nat)
    requires least <= size && AllPassed(geo, bits, free, start, steps, true, windowSize, others, size)
    ensures AllPassed(geo, bits, free, start, steps, true, windowSize, others, least)
  {
    hide FailsWith;
    forall h: nat | FailsWith(geo, bits, h, -1, others, size)
      ensures FailsWith(geo, bits, h, -1, others, least)
    {
      FailsSmaller(geo, bits, h, -1, others, size, least);
    }
    assert forall h :: 0 <= h < |free| && Steps(start, h, |free|) < steps ==> PassedOver(geo, bits, free, h, true, windowSize, others, size);
  }

  ghost predicate Full(bits: seq<seq<bool>>, g: nat) {
    g < |bits| ==> AllUsed(bits[g], 0, |bits[g]|)
  }

  lemma HitsAtMost(used: set<int>, block: int, n: nat)
    ensures |used * Run(block, n)| <= n
  {
    var run := Run(block, n);
    assert run == used * run + (run - used);
  }

  lemma FreedSoFar(used: set<int>, block: int, m: nat, n: nat)
    ensures used - Run(block, m) - Run(block + m, n) == used - Run(block, m + n)
    ensures |used * Run(block, m)| + |(used - Run(block, m)) * Run(block + m, n)| == |used * Run(block, m + n)|
  {
    RunSplit(used, block, m, n);
  }

  lemma NothingFreed(used: set<int>, block: int)
    ensures used - Run(block, 0) == used && |used * Run(block, 0)| == 0
  {
    assert used * Run(block, 0) == {};
  }

  lemma GotRunSize(perGroup: nat, before: seq<seq<bool>>, after: seq<seq<bool>>,
                   g: int, ret: int, num: nat, count: nat)
    requires GotRun(perGroup, before, after, g, ret, num, count) && count > 0
    ensures 1 <= num <= count
  {
  }

  lemma NoneFree(bits: seq<seq<bool>>, free: seq<nat>, g: nat)
    requires Counted(bits, free) && g < |bits| && free[g] == 0
    ensures Full(bits, g)
  {
  }

  lemma GotRunPlace(perGroup: nat, before: seq<seq<bool>>, after: seq<seq<bool>>,
                    g: int, ret: int, num: nat, count: nat)
    requires GotRun(perGroup, before, after, g, ret, num, count)
    ensures 0 <= ret < ret + num <= perGroup
  {
  }

  lemma {:induction false} NoneCounted(free: seq<nat>)
    requires forall h :: 0 <= h < |free| ==> free[h] == 0
    ensures Sum(free) == 0
  {
    if |free| > 0 {
      NoneCounted(free[..|free| - 1]);
    }
  }

  lemma NotFull(bits: seq<seq<bool>>, free: seq<nat>, g: nat)
    requires Counted(bits, free) && g < |bits| && free[g] > 0
    ensures !AllUsed(bits[g], 0, |bits[g]|)
  {
  }

  /** A claimed run takes its blocks into use and its length off the counts. */
  lemma ClaimRun(geo: Geometry, bits: seq<seq<bool>>, after: seq<seq<bool>>, used: set<int>, free: seq<nat>,
                 g: nat, ret: nat, num: nat, count: nat)
    requires geo.Valid() && Tied(geo, bits, used) && Counted(bits, free)
    requires GotRun(geo.perGroup, bits, after, g, ret, num, count)
    ensures var run := Run(geo.GroupFirst(g) + ret, num);
            && run !! used && geo.GroupFirst(g) + ret + num <= geo.count
            && Tied(geo, after, used + run)
    ensures g < |free| && 0 < num <= free[g] <= geo.perGroup < 0x10000
    ensures var free' := free[g := free[g] - num]; Counted(after, free') && Sum(free') == Sum(free) - num
  {
    hide Geometry.GroupFirst, Run, Fill, ZeroBits, Sum;
    FreeRun(geo, bits, used, g, ret, num);
    TieFill(geo, bits, used, g, ret, num, true);
    ZeroBitsClaim(bits[g], ret, num);
    SumUpdate(free, g, free[g] - num);
  }

  lemma UsedBits(geo: Geometry, bits: seq<seq<bool>>, used: set<int>, g: nat, bit: nat, here: nat)
    requires geo.Valid() && Tied(geo, bits, used) && g < |bits| && bit + here <= geo.perGroup
    requires geo.GroupFirst(g) + bit + here <= geo.count
    ensures forall i :: bit <= i < bit + here ==> (bits[g][i] <==> geo.GroupFirst(g) + i in used)
    ensures |bits[g]| == geo.perGroup
  {
    hide Geometry.GroupFirst;
  }

  /** Clearing a run in one group takes its blocks out of use and adds the
      number of used ones among them to the counts. */
  lemma ClearCounts(geo: Geometry, bits: seq<seq<bool>>, used: set<int>, free: seq<nat>, g: nat, bit: nat, here: nat)
    requires geo.Valid() && Tied(geo, bits, used) && Counted(bits, free) && g < |bits|
    requires bit + here <= geo.perGroup && geo.GroupFirst(g) + bit + here <= geo.count
    ensures |bits[g]| == geo.perGroup && g < |free|
    ensures var run := Run(geo.GroupFirst(g) + bit, here);
            var freed := |used * run|;
            var after := bits[g := Fill(bits[g], bit, here, false)];
            var free' := free[g := free[g] + freed];
            && free[g] + freed <= geo.perGroup < 0x10000
            && Tied(geo, after, used - run) && Counted(after, free') && Sum(free') == Sum(free) + freed
  {
    hide Geometry.GroupFirst, Run, Fill, ZeroBits, Sum;
    UsedBits(geo, bits, used, g, bit, here);
    ClearedCount(bits[g], used, geo.GroupFirst(g), bit, here);
    TieFill(geo, bits, used, g, bit, here, false);
    SumUpdate(free, g, free[g] + |used * Run(geo.GroupFirst(g) + bit, here)|);
  }

  class Allocator {
    const geo: Geometry
    const itbPerGroup: nat
    const desc: seq<GroupDesc>
    const reserved: nat            // s_r_blocks_count
    const bitmaps: seq<array<bool>>
    const freeCount: array<nat>    // bg_free_blocks_count, 16 bits each
    var freeBlocks: int            // s_freeblocks_counter
    const tree: WindowTree
    ghost var used: set<int>
    ghost const meta: set<int>     // blocks of the file system's own structures
    ghost var misfrees: nat        // blocks asked to be freed that were not in use or were refused

    ghost predicate Shape() {
      LaidOut(geo, itbPerGroup, desc, bitmaps, freeCount.Length, meta)
    }

    ghost function Bits(): (r: seq<seq<bool>>)
      requires Shape()
      reads bitmaps
    {
      View(bitmaps, geo.perGroup)
    }

    /** The bitmaps hold `used`, every group's count its zero bits, and the
        global counter their sum. */
    ghost predicate Valid()
      reads this, bitmaps, freeCount, tree, tree.head, tree.known, tree.nodes
    {
      && Shape() && tree.Valid()
      && Books(Bits())
    }

    /** The books agree with the given bits. */
    ghost predicate Books(bits: seq<seq<bool>>)
      requires Shape()
      reads this, freeCount
    {
      && Tied(geo, bits, used)
      && Counted(bits, freeCount[..])
      && freeBlocks == Sum(freeCount[..])
    }

    /** Mounting: the bitmaps and group counts are on disk, the global counter
        and the window tree are built. */
    constructor (geo: Geometry, itbPerGroup: nat, desc: seq<GroupDesc>, reserved: nat,
                 bitmaps: seq<array<bool>>, freeCount: array<nat>, ghost used: set<int>, ghost meta: set<int>)
      requires LaidOut(geo, itbPerGroup, desc, bitmaps, freeCount.Length, meta)
      requires Tied(geo, View(bitmaps, geo.perGroup), used)
      requires Counted(View(bitmaps, geo.perGroup), freeCount[..])
      ensures Valid()
      ensures this.geo == geo && this.itbPerGroup == itbPerGroup && this.desc == desc && this.reserved == reserved
      ensures this.bitmaps == bitmaps && this.freeCount == freeCount && this.used == used && this.meta == meta && misfrees == 0
      ensures fresh(tree) && fresh(tree.head) && tree.known == {}
    {
      hide LaidOut, Tied, Counted, Sum, WindowTree.Valid;
      this.geo, this.itbPerGroup, this.desc, this.reserved := geo, itbPerGroup, desc, reserved;
      this.bitmaps, this.freeCount := bitmaps, freeCount;
      this.used, this.meta := used, meta;
      freeBlocks, misfrees := 0, 0;
      tree := new WindowTree();
      new;
      freeBlocks := CountFreeBlocks();
    }

    /** kr_count_free_blocks: what the group descriptors add up to. */
    method CountFreeBlocks() returns (n: nat)
      ensures n == Sum(freeCount[..])
    {
      n := 0;
      for i := 0 to freeCount.Length
        invariant n == Sum(freeCount[..i])
      {
        assert freeCount[..i + 1][..i] == freeCount[..i];
        n := n + freeCount[i];
      }
      assert freeCount[..freeCount.Length] == freeCount[..];
    }

    lemma ShapeFacts()
      requires Shape()
      ensures geo.Valid() && |desc| == freeCount.Length == |bitmaps| == geo.Groups()
    {
    }

    lemma BufferFits(g: nat)
      requires Shape() && g < |bitmaps|
      ensures 0 < geo.perGroup <= bitmaps[g].Length && bitmaps[g].Length % 8 == 0 && |Bits()| == |bitmaps|
      ensures forall h :: 0 <= h < |bitmaps| && h != g ==> bitmaps[h] != bitmaps[g]
      ensures Bits()[g] == bitmaps[g][..][..geo.perGroup]
    {
    }

    predicate SystemZone(g: nat, block: nat, n: nat)
      requires g < |desc|
    {
      || InRange(desc[g].blockBitmap, block, n)
      || InRange(desc[g].inodeBitmap, block, n)
      || InRange(block, desc[g].inodeTable, itbPerGroup)
      || InRange(block + n - 1, desc[g].inodeTable, itbPerGroup)
    }

    predicate HasFreeBlocks(privileged: bool)
      reads this`freeBlocks
    {
      !((if freeBlocks > 0 then freeBlocks else 0) < reserved + 1 && !privileged)
    }

    /** One attempt in group g, told in terms of the groups' bits. */
    method TryGroup(g: nat, goal: int, my: Window?, count: nat, calm: bool) returns (ret: int, num: nat)
      requires Shape() && tree.Valid() && g < |bitmaps| && -1 <= goal < geo.perGroup
      requires my != null ==> my in tree.known && my.goalSize > 0 && 1 <= count <= MAX_RESERVE_BLOCKS
      modifies bitmaps[g], tree`nodes, if my == null then {} else {my}
      ensures tree.Valid() && (my != null ==> my.goalSize >= old(my.goalSize) && tree.OthersKept(my))
      ensures my != null ==> Spans(tree.nodes, my) == old(Spans(tree.nodes, my))
      ensures ret >= 0 ==> GotRun(geo.perGroup, old(Bits()), Bits(), g, ret, num, count)
      ensures ret >= 0 ==> Took(geo, old(Bits()), g, goal, ConfineOf(my), count, ret, num)
      ensures ret < 0 ==> Bits() == old(Bits())
      ensures ret < 0 && my == null ==> num == 0 && g < |Bits()| && AllUsed(Bits()[g], if goal > 0 then goal else 0, |Bits()[g]|)
      ensures ret < 0 && my != null ==>
                num == count && FailsWith(geo, Bits(), g, goal, old(Spans(tree.nodes, my)), my.goalSize)
    {
      hide LaidOut, View, Geometry.GroupFirst, WindowTree.Valid, SearchRange, Quest.Hopeless, Claimed, FailsWith, OwnGrown, Fill;
      BufferFits(g);
      ghost var before, bits := bitmaps[g][..], Bits();
      assert bits[g] == before[..geo.perGroup];
      ghost var all;
      ret, num, all := TryToAllocateWithRsv(tree, bitmaps[g], geo.GroupFirst(g), geo.perGroup, goal, my, count, calm);
      OneGroupChanged(g);
      BufferFits(g);
      if ret >= 0 {
        if my != null {
          GoalOutside(my, goal, geo.GroupFirst(g), geo.perGroup);
        }
        RangePrefix(before, geo.GroupFirst(g), geo.perGroup, goal, ConfineOf(my), count, ret, num);
        ClaimIsRun(before, geo.GroupFirst(g), geo.perGroup, goal, ConfineOf(my), count, ret, num);
        FillPrefix(before, geo.perGroup, ret, num, true);
      } else if my != null {
        FailedThere(geo, Bits(), g, goal, old(Spans(tree.nodes, my)), all, my.IsEmpty(), my.goalSize, old(my.IsEmpty()), old(my.start), old(my.end));
      }
    }

    twostate lemma OneGroupChanged(g: nat)
      requires Shape() && g < |bitmaps|
      requires forall h :: 0 <= h < |bitmaps| && h != g ==> bitmaps[h][..] == old(bitmaps[h][..])
      ensures Bits() == old(Bits())[g := bitmaps[g][..geo.perGroup]]
    {
      forall h | 0 <= h < |bitmaps| && h != g
        ensures Bits()[h] == old(Bits())[h]
      {
        assert bitmaps[h][..][..geo.perGroup] == bitmaps[h][..geo.perGroup];
        assert old(bitmaps[h][..])[..geo.perGroup] == old(bitmaps[h][..geo.perGroup]);
      }
    }

    /** The rest of the groups in turn, without a goal: the first group that has
        something to offer. Without a window that is the first one with a free block. */
    method ScanGroups(start: nat, my: Window?, windowSize: nat, count: nat, calm: bool) returns (g: nat, ret: int, num: nat)
      requires Shape() && tree.Valid() && Counted(Bits(), freeCount[..]) && start < |bitmaps|
      requires my != null ==> my in tree.known && my.goalSize > 0 && 1 <= count <= MAX_RESERVE_BLOCKS
      modifies bitmaps, tree`nodes, if my == null then {} else {my}
      ensures tree.Valid() && (my != null ==> my.goalSize >= old(my.goalSize) && tree.OthersKept(my))
      ensures my != null ==> Spans(tree.nodes, my) == old(Spans(tree.nodes, my))
      ensures ret >= 0 ==> GotRun(geo.perGroup, old(Bits()), Bits(), g, ret, num, count)
      ensures ret >= 0 ==> Took(geo, old(Bits()), g, -1, ConfineOf(my), count, ret, num)
      ensures ret >= 0 && my != null ==> freeCount[g] > windowSize / 2
      ensures AllPassed(geo, old(Bits()), freeCount[..], start, if ret < 0 then |bitmaps| + 1 else Steps(start, g, |bitmaps|),
                        my != null, windowSize, old(OthersOf(tree, my)), old(SizeOf(my)))
      ensures ret < 0 ==> Bits() == old(Bits()) && num == count
    {
      hide LaidOut, WindowTree.Valid, Geometry.GroupFirst, Geometry.Groups, View, GotRun, Counted, Took, FailsWith;
      ShapeFacts();
      ghost var bits, others, size := Bits(), OthersOf(tree, my), SizeOf(my);
      g, ret, num := start, -1, count;
      var n := |bitmaps|;
      for i := 0 to n
        invariant g == (if start + i < n then start + i else start + i - n)
        invariant tree.Valid() && (my != null ==> my.goalSize >= size && tree.OthersKept(my) && Spans(tree.nodes, my) == others)
        invariant Bits() == bits
        invariant ret < 0 && num == count
        invariant forall h :: 0 <= h < n && Steps(start, h, n) <= i ==>
                    PassedOver(geo, bits, freeCount[..], h, my != null, windowSize, others, size)
      {
        g := g + 1;
        if g >= n {
          g := 0;
        }
        if freeCount[g] == 0 {
          continue;
        }
        if my != null && freeCount[g] <= windowSize / 2 {
          continue;
        }
        ret, num := TryGroup(g, -1, my, num, calm);
        if ret >= 0 {
          return;
        }
        if my == null {
          NotFull(bits, freeCount[..], g);
          assert false;
        } else {
          FailsSmaller(geo, bits, g, -1, others, my.goalSize, size);
        }
      }
    }
    /** One search: the goal's group first, then the others. */
    method SearchFrom(goal: nat, my: Window?, windowSize: nat, count: nat, calm: bool) returns (g: nat, ret: int, num: nat)
      requires Shape() && tree.Valid() && Counted(Bits(), freeCount[..])
      requires geo.first <= goal < geo.count && count > 0
      requires my != null ==> my in tree.known && my.goalSize > 0 && count <= MAX_RESERVE_BLOCKS
      modifies bitmaps, tree`nodes, if my == null then {} else {my}
      ensures tree.Valid() && (my != null ==> my.goalSize >= old(my.goalSize) && tree.OthersKept(my))
      ensures ret >= 0 ==> GotRun(geo.perGroup, old(Bits()), Bits(), g, ret, num, count)
      ensures ret >= 0 && my == null ==> FoundFreely(geo, old(Bits()), freeCount[..], goal, count, g, ret, num)
      ensures ret >= 0 && my != null ==>
                FoundWith(geo, old(Bits()), freeCount[..], goal, count, windowSize, old(OthersOf(tree, my)), old(SizeOf(my)),
                          ConfineOf(my), g, ret, num)
      ensures ret < 0 ==> Bits() == old(Bits())
      ensures ret < 0 && my == null ==> forall h :: 0 <= h < |bitmaps| ==> freeCount[h] == 0
      ensures ret < 0 && my != null ==>
                NothingWith(geo, old(Bits()), freeCount[..], goal, windowSize, old(OthersOf(tree, my)), old(SizeOf(my)))
    {
      hide LaidOut, WindowTree.Valid, Geometry.GroupFirst, Geometry.Groups, Geometry.GroupOf, Geometry.BitOf,
           View, GotRun, Counted, Took, FailsWith;
      ShapeFacts();
      geo.Locate(goal);
      ghost var bits, others, size := Bits(), OthersOf(tree, my), SizeOf(my);
      var start := geo.GroupOf(goal);
      g, ret, num := start, -1, count;
      BufferFits(g);
      if freeCount[g] > 0 {
        ret, num := TryGroup(g, geo.BitOf(goal), my, count, calm);
        if ret >= 0 {
          return;
        }
        if my != null {
          FailsSmaller(geo, bits, g, geo.BitOf(goal), others, my.goalSize, size);
        }
      } else {
        NoneFree(bits, freeCount[..], g);
      }
      ghost var wanted, grown := num, SizeOf(my);
      g, ret, num := ScanGroups(g, my, windowSize, num, calm);
      if ret >= 0 {
        GotRunAtMost(geo.perGroup, bits, Bits(), g, ret, num, wanted, count);
      }
      if my != null {
        FarSmaller(geo, bits, freeCount[..], start, if ret < 0 then |bitmaps| + 1 else Steps(start, g, |bitmaps|), windowSize, others, grown, size);
      } else if ret < 0 {
        AllWithout(geo, bits, freeCount[..], start, windowSize, others, size);
      }
    }

    /** The search of kr_new_blocks, once more without the window if it failed
        with it. Failure means that no group has a free block left. */
    method FindRun(goal: nat, window: Window?, wanted: nat, count: nat, calm: bool) returns (g: nat, ret: int, num: nat)
      requires Shape() && tree.Valid() && Counted(Bits(), freeCount[..])
      requires geo.first <= goal < geo.count && count > 0
      requires window != null ==> window in tree.known && window.goalSize > 0 && count <= MAX_RESERVE_BLOCKS
      modifies bitmaps, tree`nodes, if window == null then {} else {window}
      ensures tree.Valid()
      ensures ret >= 0 ==> GotRun(geo.perGroup, old(Bits()), Bits(), g, ret, num, count)
      ensures ret >= 0 ==>
                Found(geo, old(Bits()), freeCount[..], goal, count, window != null && !old(Dropped(freeCount[..], goal, window, wanted)),
                      wanted, old(OthersOf(tree, window)), old(SizeOf(window)), ConfineOf(window), g, ret, num)
      ensures ret < 0 ==> Bits() == old(Bits()) && forall h :: 0 <= h < |bitmaps| ==> freeCount[h] == 0
    {
      hide LaidOut, WindowTree.Valid, Geometry.GroupFirst, Geometry.Groups, Geometry.GroupOf, Geometry.BitOf,
           View, GotRun, Counted, FoundWith, FoundFreely, NothingWith;
      ShapeFacts();
      geo.Locate(goal);
      var my := window;
      var goalGroup := geo.GroupOf(goal);
      if my != null && 0 < freeCount[goalGroup] < wanted && my.IsEmpty() {
        my := null;
      }
      g, ret, num := SearchFrom(goal, my, wanted, count, calm);
      if ret < 0 && my != null {
        // forget about the reservations
        g, ret, num := SearchFrom(goal, null, 0, count, calm);
      }
    }

    /** The file's reservation is turned off for this allocation: the goal's group
        has too few free blocks for a new window. */
    ghost predicate Dropped(free: seq<nat>, goal: nat, window: Window?, wanted: nat)
      requires geo.Valid() && geo.first <= goal
      reads if window == null then {} else {window}
    {
      var g := geo.GroupOf(goal);
      window != null && g < |free| && 0 < free[g] < wanted && window.IsEmpty()
    }

    /** Give group g `delta` more free blocks (fewer, if negative). */
    method GroupAdjust(g: nat, delta: int)
      requires g < freeCount.Length && 0 <= freeCount[g] + delta < 0x10000
      modifies freeCount
      ensures freeCount[..] == old(freeCount[..])[g := old(freeCount[g]) + delta]
    {
      if delta != 0 {
        freeCount[g] := (freeCount[g] + delta) % 0x10000;
      }
    }

    /** Enter a claimed run into the books. The source's checks for a run in the
        system zone or behind the last block cannot fire. */
    method Account(g: nat, ret: nat, num: nat, ghost count: nat, ghost before: seq<seq<bool>>) returns (block: nat)
      requires Shape() && tree.Valid() && Books(before) && meta <= used
      requires GotRun(geo.perGroup, before, Bits(), g, ret, num, count)
      modifies this`freeBlocks, this`used, freeCount
      ensures Valid()
      ensures geo.first <= block && block + num <= geo.count && geo.GroupOf(block) == g && geo.BitOf(block) == ret
      ensures Run(block, num) !! old(used) && used == old(used) + Run(block, num)
    {
      hide Tied, Counted, Sum, Geometry.GroupFirst, Run, View, WindowTree.Valid, Fill, ZeroBits, LaidOut, GotRun;
      ShapeFacts();
      ClaimRun(geo, before, Bits(), used, freeCount[..], g, ret, num, count);
      block := ret + geo.GroupFirst(g);
      geo.Locate(block);
      GotRunPlace(geo.perGroup, before, Bits(), g, ret, num, count);
      geo.SamePlace(geo.GroupOf(block), geo.BitOf(block), g, ret);
      NotInSystemZone(g, block, num);
      if SystemZone(g, block, num) || block + num - 1 >= geo.count {
        assert false;
      }
      GroupAdjust(g, 0 - num);
      freeBlocks := freeBlocks - num;
      used := used + Run(block, num);
    }

    lemma NotInSystemZone(g: nat, block: nat, num: nat)
      requires Shape() && g < |desc| && num > 0 && Run(block, num) !! meta
      ensures !SystemZone(g, block, num)
    {
      hide Run;
      assert block in Run(block, num) && block + num - 1 in Run(block, num);
    }

    /** The block to start the search at. */
    function Target(goal: nat): (t: nat)
      ensures t >= geo.first
    {
      if goal < geo.first || goal >= geo.count then geo.first else goal
    }

    /** The window that the inode's blocks are to come from. */
    predicate HasWindow(inode: Inode)
      reads inode, inode.Windows()
    {
      inode.window != null && inode.window.goalSize % 0x10000 > 0
    }

    /** What is found for the inode; see Found. */
    twostate predicate FoundFor(inode: Inode, goal: nat, count: nat, block: nat, num: nat)
      requires Shape() && geo.Valid() && geo.first <= block && inode.window == old(inode.window)
      reads this, bitmaps, freeCount, tree, tree.nodes, inode, inode.Windows()
    {
      var mine := old(HasWindow(inode));
      var window := if mine then old(inode.window) else null;
      var wanted := old(SizeOf(window)) % 0x10000;
      Found(geo, old(Bits()), old(freeCount[..]), Target(goal), count,
            mine && !old(Dropped(freeCount[..], Target(goal), window, wanted)), wanted,
            old(OthersOf(tree, window)), old(SizeOf(window)), ConfineOf(window), geo.GroupOf(block), geo.BitOf(block), num)
    }

    /** Allocate up to `count` consecutive blocks and charge them to the inode. */
    method NewBlocks(inode: Inode, goal: nat, count: nat, quota: bool, privileged: bool, calm: bool)
      returns (block: nat, num: nat, err: Errno)
      requires Valid() && meta <= used && count > 0
      requires inode.window != null ==> inode.window in tree.known && count <= MAX_RESERVE_BLOCKS
      modifies this, bitmaps, freeCount, tree`nodes, inode`blocks, inode.Windows()
      ensures Valid() && meta <= used && misfrees == old(misfrees)
      // success: a fresh run, charged exactly
      ensures err == OK ==>
                && 1 <= num <= count
                && geo.first <= block && block + num <= geo.count
                && Run(block, num) !! old(used) && used == old(used) + Run(block, num)
                && inode.blocks == old(inode.blocks) + num
      // it lies where the search leads to, and is as long as can be
      ensures err == OK ==> geo.Valid() && geo.first <= block && FoundFor(inode, goal, count, block, num)
      ensures err == OK ==> num == count || RunEnds(geo, old(used), block, num, Target(goal), ConfineOf(inode.window))
      ensures err == OK && !old(HasWindow(inode)) && !InUseFrom(geo, old(used), Target(goal)) ==>
                FirstUnused(geo, old(used), Target(goal), block)
      // failure: nothing happened
      ensures err != OK ==> used == old(used) && Bits() == old(Bits()) && inode.blocks == old(inode.blocks)
      // and it fails only without quota, without the right to the reserve, or on a full device
      ensures err == OK || err == ENOSPC || err == EDQUOT
      ensures err == EDQUOT <==> !quota
      ensures geo.Valid() &&
              (err == ENOSPC <==> quota && |Unused(geo, old(used))| <= if privileged then 0 else reserved)
    {
      hide Tied, Counted, Sum, Geometry.GroupFirst, Geometry.GroupOf, Geometry.BitOf, View, WindowTree.Valid, Run, LaidOut, Found,
           Unused, Books, Dropped, InUseFrom, FirstUnused;
      ShapeFacts();
      FreeCounterExact();
      if !quota {
        return 0, 0, EDQUOT;
      }
      inode.blocks := inode.blocks + count;
      var my: Window? := null;
      var windowSize := 0;
      if inode.window != null {
        windowSize := inode.window.goalSize % 0x10000;
        if windowSize > 0 {
          my := inode.window;
        }
      }
      if !HasFreeBlocks(privileged) {
        inode.blocks := inode.blocks - count;
        return 0, 0, ENOSPC;
      }
      var target := if goal < geo.first || goal >= geo.count then geo.first else goal;
      var found;
      found, block, num := TakeRun(target, my, windowSize, count, calm);
      if !found {
        inode.blocks := inode.blocks - count;
        return 0, 0, ENOSPC;
      }
      inode.blocks := inode.blocks - (count - num);
      err := OK;
    }

    /** Search for a run and enter it into the books. */
    method TakeRun(goal: nat, my: Window?, windowSize: nat, count: nat, calm: bool) returns (found: bool, block: nat, num: nat)
      requires Valid() && meta <= used && geo.Valid() && geo.first <= goal < geo.count && count > 0
      requires my != null ==> my in tree.known && my.goalSize > 0 && count <= MAX_RESERVE_BLOCKS
      modifies this`freeBlocks, this`used, bitmaps, freeCount, tree`nodes, if my == null then {} else {my}
      ensures Valid() && geo.Valid()
      ensures found ==>
                && 1 <= num <= count && geo.first <= block && block + num <= geo.count
                && Run(block, num) !! old(used) && used == old(used) + Run(block, num)
                && Found(geo, old(Bits()), old(freeCount[..]), goal, count, my != null && !old(Dropped(freeCount[..], goal, my, windowSize)),
                         windowSize, old(OthersOf(tree, my)), old(SizeOf(my)), ConfineOf(my), geo.GroupOf(block), geo.BitOf(block), num)
      ensures found ==> num == count || RunEnds(geo, old(used), block, num, goal, ConfineOf(my))
      ensures found && my == null && !InUseFrom(geo, old(used), goal) ==> FirstUnused(geo, old(used), goal, block)
      ensures found <==> |Unused(geo, old(used))| > 0
      ensures !found ==> used == old(used) && Bits() == old(Bits())
    {
      hide Tied, Counted, Sum, Geometry.GroupFirst, View, WindowTree.Valid, GotRun, Run, LaidOut, Found;
      ghost var bits := Bits();
      var g, ret, n := FindRun(goal, my, windowSize, count, calm);
      found, block, num := ret >= 0, 0, n;
      if found {
        GotRunSize(geo.perGroup, bits, Bits(), g, ret, n, count);
        block := Account(g, ret, n, count, bits);
        FreshUnused(old(used), block, num);
        FoundMeans(geo, bits, old(used), old(freeCount[..]), goal, count, my != null && !old(Dropped(freeCount[..], goal, my, windowSize)),
                   windowSize, old(OthersOf(tree, my)), old(SizeOf(my)), ConfineOf(my), block, num);
      } else {
        ShapeFacts();
        NoneCounted(freeCount[..]);
        FreeCounterExact();
      }
    }

    lemma InRun(block: nat, num: nat)
      requires num > 0
      ensures block in Run(block, num)
    {
    }

    lemma FreshUnused(was: set<int>, block: nat, num: nat)
      requires geo.Valid() && num > 0 && geo.first <= block && block + num <= geo.count && Run(block, num) !! was
      ensures |Unused(geo, was)| > 0
    {
      InRun(block, num);
      assert block in Unused(geo, was);
    }

    /** How many blocks of [block, block + count) kr_free_blocks gets to before
        it runs into a group's system zone: it works group by group. */
    ghost function Freeable(block: nat, count: nat): (n: nat)
      requires Shape() && geo.first <= block && block + count <= geo.count
      ensures n <= count
      decreases count
    {
      geo.Locate(block);
      var g, bit := geo.GroupOf(block), geo.BitOf(block);
      var here := if bit + count > geo.perGroup then geo.perGroup - bit else count;
      if g >= |desc| || SystemZone(g, block, here) then 0
      else if here == count then count
      else here + Freeable(block + here, count - here)
    }

    /** The books of an allocator some of whose freed blocks are not yet in the
        global counter. */
    ghost predicate OwedValid(owed: nat)
      requires Shape()
      reads this, bitmaps, freeCount, tree, tree.head, tree.known, tree.nodes
    {
      && tree.Valid() && Tied(geo, Bits(), used) && Counted(Bits(), freeCount[..])
      && freeBlocks + owed == Sum(freeCount[..])
    }

    /** Clear `here` bits of one group and adjust its count. */
    method FreeInGroup(g: nat, bit: nat, here: nat, ghost owed: nat) returns (freed: nat)
      requires Shape() && OwedValid(owed) && g < |bitmaps| && bit + here <= geo.perGroup
      requires geo.GroupFirst(g) + bit + here <= geo.count
      modifies bitmaps[g], freeCount, this`used
      ensures var run := Run(geo.GroupFirst(g) + bit, here);
              used == old(used) - run && freed == |old(used) * run|
      ensures OwedValid(owed + freed)
    {
      hide Tied, Counted, Sum, Geometry.GroupFirst, Run, View, WindowTree.Valid, Fill, ZeroBits, LaidOut;
      ShapeFacts();
      BufferFits(g);
      ghost var bits, before := Bits(), bitmaps[g][..];
      UsedBits(geo, bits, used, g, bit, here);
      ClearedCount(before, used, geo.GroupFirst(g), bit, here);
      freed := ClearRun(bitmaps[g], bit, here);
      OneGroupChanged(g);
      FillPrefix(before, geo.perGroup, bit, here, false);
      ClearCounts(geo, bits, used, freeCount[..], g, bit, here);
      GroupAdjust(g, freed);
      used := used - Run(geo.GroupFirst(g) + bit, here);
    }

    /** One group's share of a free request; `rest` is what lies beyond it. */
    method FreeStep(b: nat, left: nat, owed: nat) returns (here: nat, rest: nat, n: nat)
      requires Shape() && OwedValid(owed) && geo.first <= b && b + left <= geo.count
      modifies bitmaps, freeCount, this`used
      ensures here + rest <= left
      ensures used == old(used) - Run(b, here) && n == |old(used) * Run(b, here)|
      ensures OwedValid(owed + n)
      ensures b + here + rest <= geo.count && (rest > 0 ==> here > 0)
      ensures Freeable(b, left) == here + if rest > 0 then Freeable(b + here, rest) else 0
    {
      hide OwedValid, Geometry.GroupFirst, Geometry.GroupOf, Geometry.BitOf, Geometry.Groups, Run, LaidOut;
      ShapeFacts();
      geo.Locate(b);
      var g, bit := geo.GroupOf(b), geo.BitOf(b);
      here, rest := left, 0;
      if bit + left > geo.perGroup {
        rest := bit + left - geo.perGroup;
        here := left - rest;
      }
      if g >= |bitmaps| || SystemZone(g, b, here) {
        NothingFreed(used, b);
        return 0, 0, 0;
      }
      n := FreeInGroup(g, bit, here, owed);
    }

    /** Free [block, block + count), which may span groups. Blocks already free
        are passed over; a run outside the data zone is refused; a group whose
        system zone is hit ends the work. The books are right in every case. */
    method FreeBlocks(inode: Inode, block: nat, count: nat)
      requires Valid()
      modifies this, bitmaps, freeCount, inode`blocks
      ensures Valid()
      ensures var done := if block < geo.first || block + count > geo.count then 0 else Freeable(block, count);
              && used == old(used) - Run(block, done)
              && inode.blocks == old(inode.blocks) - |old(used) * Run(block, done)|
              && misfrees == old(misfrees) + count - |old(used) * Run(block, done)|
    {
      hide Tied, Counted, Sum, Run, View, WindowTree.Valid, LaidOut, Freeable, OwedValid;
      NothingFreed(used, block);
      if block < geo.first || block + count > geo.count {
        misfrees := misfrees + count;
        return;
      }
      var b: nat, left: nat, more, freed: nat := block, count, true, 0;
      ghost var done: nat := 0;
      NothingOwed();
      while more
        invariant b == block + done && done + left <= count
        invariant Freeable(block, count) == done + (if more then Freeable(b, left) else 0)
        invariant OwedValid(freed)
        invariant used == old(used) - Run(block, done) && freed == |old(used) * Run(block, done)|
        invariant inode.blocks == old(inode.blocks) && misfrees == old(misfrees)
        decreases left, more
      {
        var here, rest, n := FreeStep(b, left, freed);
        FreedSoFar(old(used), block, done, here);
        freed := freed + n;
        done := done + here;
        b, left, more := b + here, rest, rest > 0;
      }
      HitsAtMost(old(used), block, done);
      Settle(inode, freed, count);
    }

    lemma NothingOwed()
      requires Valid()
      ensures OwedValid(0)
    {
    }

    /** Enter the freed blocks into the global counter and the inode's charge. */
    method Settle(inode: Inode, freed: nat, ghost asked: nat)
      requires Shape() && OwedValid(freed) && freed <= asked
      modifies this`freeBlocks, this`misfrees, inode`blocks
      ensures Valid() && inode.blocks == old(inode.blocks) - freed
      ensures misfrees == old(misfrees) + asked - freed
    {
      hide Tied, Counted, Sum, View, WindowTree.Valid, LaidOut;
      if freed > 0 {
        freeBlocks := freeBlocks + freed;
        inode.blocks := inode.blocks - freed;
      }
      misfrees := misfrees + asked - freed;
    }

    // ---------- what the books mean ----------

    /** If the set of used blocks is as it was, so are bitmaps and counts. */
    twostate lemma BooksRestored()
      requires old(Valid()) && Valid() && used == old(used)
      ensures Bits() == old(Bits()) && freeCount[..] == old(freeCount[..]) && freeBlocks == old(freeBlocks)
    {
      hide Tied, Counted, Sum, View, WindowTree.Valid, LaidOut;
      ShapeFacts();
      BooksDetermined(geo, used, old(Bits()), old(freeCount[..]), Bits(), freeCount[..]);
    }

    /** The global free counter is the number of blocks not in use. */
    lemma FreeCounterExact()
      requires Valid()
      ensures freeBlocks == |Unused(geo, used)|
    {
      FreeIsUnused(geo, Bits(), used, freeCount[..]);
    }

    /** A request that stays clear of the file system's own blocks is freed whole. */
    lemma {:induction false} FreeableAll(block: nat, count: nat)
      requires Shape() && geo.first <= block && block + count <= geo.count && count > 0
      requires Run(block, count) !! meta
      ensures Freeable(block, count) == count
      decreases count
    {
      hide LaidOut, Run, Geometry.GroupFirst, Geometry.GroupOf, Geometry.BitOf, Geometry.Groups;
      ShapeFacts();
      geo.Locate(block);
      var g, bit := geo.GroupOf(block), geo.BitOf(block);
      var here := if bit + count > geo.perGroup then geo.perGroup - bit else count;
      assert Run(block, here) <= Run(block, count) && Run(block + here, count - here) <= Run(block, count);
      NotInSystemZone(g, block, here);
      if here < count {
        FreeableAll(block + here, count - here);
      }
    }

    /** Freeing blocks in use that are not the file system's own frees them all. */
    lemma OwnedRunFreed(block: nat, count: nat)
      requires Valid() && count > 0 && Run(block, count) <= used && Run(block, count) !! meta
      ensures geo.first <= block && block + count <= geo.count
      ensures Freeable(block, count) == count
      ensures used * Run(block, count) == Run(block, count) && |Run(block, count)| == count
    {
      hide LaidOut, Run, Counted, Sum, View, WindowTree.Valid, Freeable;
      assert block in Run(block, count) && block + count - 1 in Run(block, count);
      FreeableAll(block, count);
    }

    /** The refusal of runs that meet the inode table is exact except for one
        family: a run that reaches beyond both ends of the table is not refused. */
    lemma TableRefusedUnlessCovered(g: nat, block: nat, count: nat)
      requires Shape() && g < |desc| && itbPerGroup > 0 && count > 0
      requires geo.GroupFirst(g) <= block && block + count <= geo.GroupFirst(g) + geo.perGroup && block + count <= geo.count
      requires !InRange(desc[g].blockBitmap, block, count) && !InRange(desc[g].inodeBitmap, block, count)
      ensures var table := desc[g].inodeTable;
              var meets := table <= block + count - 1 && block <= table + itbPerGroup - 1;
              var covered := block < table && table + itbPerGroup - 1 < block + count - 1;
              && ((Freeable(block, count) == 0 <==> meets) <==> !covered)
              && (covered ==> Freeable(block, count) == count)
    {
      hide LaidOut, Geometry.GroupFirst, Geometry.GroupOf, Geometry.BitOf, Geometry.Groups;
      ShapeFacts();
      geo.Locate(block);
      geo.SamePlace(geo.GroupOf(block), geo.BitOf(block), g, block - geo.GroupFirst(g));
    }
  }

  /** One group of eight blocks, 1 to 8; 5 and 6 are the inode table. */
  const SMALL := Geometry(1, 8, 9)
  const SMALL_META: set<int> := {1, 2, 3, 5, 6}

  lemma SmallTied(bits: seq<seq<bool>>, used: set<int>)
    requires |bits| == 1 && |bits[0]| == 8 && forall i :: 0 <= i < 8 ==> (bits[0][i] <==> 1 + i in used)
    requires forall b :: b in used ==> 1 <= b < 9
    ensures SMALL.Valid() && SMALL.Groups() == 1 && Tied(SMALL, bits, used)
  {
    hide Geometry.GroupFirst;
    SMALL.GroupZero();
  }

  /** The small volume with the given blocks in use. */
  method SmallVolume(used: set<int>) returns (a: Allocator)
    requires SMALL_META <= used && forall b :: b in used ==> 1 <= b < 9
    ensures fresh(a) && a.Valid() && |a.bitmaps| == 1 && fresh(a.bitmaps[0]) && fresh(a.freeCount)
    ensures fresh(a.tree) && fresh(a.tree.head) && a.tree.known == {}
    ensures a.geo == SMALL && a.itbPerGroup == 2 && a.desc == [GroupDesc(2, 3, 5)]
    ensures a.meta == SMALL_META && a.used == used
  {
    hide Allocator.Valid, Tied, Geometry.Groups, View, ZeroBits;
    var bitmap := new bool[8](i => 1 + i in used);
    var n := ZeroBits(bitmap[..]);
    var free := new nat[1](_ => n);
    assert bitmap[..8] == bitmap[..];
    SmallTied(View([bitmap], 8), used);
    a := new Allocator(SMALL, 2, [GroupDesc(2, 3, 5)], 0, [bitmap], free, used, SMALL_META);
  }

  /** A run that reaches beyond both ends of the inode table is freed with it. */
  method TableFreed() returns (a: Allocator)
    ensures a.Valid() && a.meta == SMALL_META && a.used == {1, 2, 3, 8}
  {
    hide Allocator.Valid, Allocator.Freeable, Run;
    a := SmallVolume({1, 2, 3, 4, 5, 6, 7, 8});
    var inode := new Inode();
    Covered(a);
    a.FreeBlocks(inode, 4, 4);
    WhatIsLeft();
  }

  lemma WhatIsLeft()
    ensures {1, 2, 3, 4, 5, 6, 7, 8} - Run(4, 4) == {1, 2, 3, 8}
  {
    hide Run;
  }

  lemma Covered(a: Allocator)
    requires a.Valid() && a.geo == SMALL && a.itbPerGroup == 2 && a.desc == [GroupDesc(2, 3, 5)]
    ensures a.Freeable(4, 4) == 4
  {
    hide WindowTree.Valid, Tied, Counted, Sum;
    a.TableRefusedUnlessCovered(0, 4, 4);
  }
}
