/**
 Allocation from one block group by a file that may own a reservation window.
 */
module RsvAlloc {
  import opened Bitmap
  import opened Reservation

  /** A goal inside the file's own window; a negative goal is in every window
      that meets the group. */
  predicate GoalInMyReservation(w: Window, goal: int, groupFirst: nat, perGroup: nat)
    reads w
  {
    if w.start > groupFirst + perGroup - 1 || w.end < groupFirst then false
    else if goal >= 0 && (goal + groupFirst < w.start || goal + groupFirst > w.end) then false
    else true
  }

  /** Where the search for a window starts. */
  function First(groupFirst: nat, goal: int): nat {
    groupFirst + if goal < 0 then 0 else goal
  }

  /** The goal to try within the window. */
  function GoalWithin(my: Window, goal: int, groupFirst: nat, perGroup: nat): int
    reads my
  {
    if GoalInMyReservation(my, goal, groupFirst, perGroup) then goal else -1
  }

  /** A new window; it is known to hold a free block where the pass will look. */
  method RenewWindow(tree: WindowTree, bits: array<bool>, groupFirst: nat, perGroup: nat, goal: int, my: Window, count: nat)
    returns (ok: bool, grpGoal: int)
    requires tree.Valid() && 0 < perGroup <= bits.Length && -1 <= goal < perGroup
    requires my in tree.known && my.goalSize > 0 && 1 <= count <= MAX_RESERVE_BLOCKS
    modifies tree`nodes, my
    ensures tree.Valid() && my.goalSize >= old(my.goalSize) && my.goalSize >= count && tree.OthersKept(my)
    ensures Spans(tree.nodes, my) == old(Spans(tree.nodes, my))
    ensures var crosses := old(tree.Crosses(my, First(groupFirst, goal), groupFirst, perGroup));
            var size := if old(my.goalSize) < count then count else old(my.goalSize);
            && my.goalSize == (if crosses || old(my.IsEmpty()) then size
                               else NextGoal(size, old(my.allocHit), old(my.end - my.start + 1)))
            && (crosses ==> !ok && tree.nodes == old(tree.nodes) && my.start == old(my.start) && my.end == old(my.end))
            && var q := old(tree.QuestNow(my, First(groupFirst, goal), groupFirst, perGroup, bits)).(size := my.goalSize);
               && (ok ==> my in tree.nodes && q.FirstReached(my.start) && my.end == my.start + my.goalSize - 1 && my.allocHit == 0)
               && (!ok && !crosses ==> my.IsEmpty() && q.Hopeless())
    ensures ok ==> grpGoal == GoalWithin(my, goal, groupFirst, perGroup)
    ensures ok ==> Overlaps(Within(my.start, my.end), groupFirst, perGroup)
    ensures ok ==>
              var r := SearchRange(groupFirst, perGroup, grpGoal, Within(my.start, my.end));
              !AllUsed(bits[..], r.lo, r.hi)
  {
    hide WindowTree.Valid, Quest.Hopeless, Quest.FirstReached;
    ok, grpGoal := true, goal;
    if my.goalSize < count {
      tree.RaiseGoalSize(my, count);
    }
    tree.SameSpans(my);
    ghost var q := tree.QuestNow(my, First(groupFirst, goal), groupFirst, perGroup, bits);
    var ret := tree.AllocNew(my, goal, groupFirst, perGroup, bits);
    if ret < 0 {
      return false, goal;
    }
    if !GoalInMyReservation(my, goal, groupFirst, perGroup) {
      grpGoal := -1;
    }
    FreeInRange(q.(size := my.goalSize), bits[..], my.start, my.end, goal, grpGoal);
  }

  /** The window found holds a free block in the range that will be searched. */
  lemma FreeInRange(q: Quest, bits: seq<bool>, start: nat, end: nat, goal: int, grpGoal: int)
    requires q.FirstReached(start) && q.size > 0 && end == start + q.size - 1 && |q.bits| <= |bits| && q.bits == bits[..|q.bits|]
    requires -1 <= goal < |q.bits| && |q.bits| > 0 && q.first == First(q.groupFirst, goal)
    requires grpGoal == -1 || (grpGoal == goal && goal >= 0 && start <= goal + q.groupFirst <= end)
    ensures Overlaps(Within(start, end), q.groupFirst, |q.bits|)
    ensures var r := SearchRange(q.groupFirst, |q.bits|, grpGoal, Within(start, end)); !AllUsed(bits, r.lo, r.hi)
  {
    var b: nat :| start <= b < start + q.size && q.FreeAt(b);
    assert q.first <= start;
    assert !bits[b - q.groupFirst];
  }

  /** Before one pass over the group: get a window there if the file has none,
      if the last pass failed, or if the goal lies elsewhere; otherwise try to
      grow the window to the wanted size. The lock for that is only tried for:
      unless `calm`, another thread may hold it. */
  method PrepareWindow(tree: WindowTree, bits: array<bool>, groupFirst: nat, perGroup: nat,
                       goal: int, my: Window, count: nat, failed: bool, calm: bool)
    returns (ok: bool, grpGoal: int, ghost renewed: bool)
    requires tree.Valid() && 0 < perGroup <= bits.Length && -1 <= goal < perGroup
    requires my in tree.known && my.goalSize > 0 && 1 <= count <= MAX_RESERVE_BLOCKS
    modifies tree`nodes, my
    ensures tree.Valid() && my.goalSize >= old(my.goalSize) && tree.OthersKept(my)
    ensures Spans(tree.nodes, my) == old(Spans(tree.nodes, my))
    ensures renewed <==> old(my.IsEmpty()) || failed || !old(GoalInMyReservation(my, goal, groupFirst, perGroup))
    ensures renewed ==> my.goalSize >= count
    // no window can be had, or the one there is reaches into the next group
    ensures !ok ==> renewed
    ensures !ok && my.IsEmpty() ==>
              old(tree.QuestNow(my, First(groupFirst, goal), groupFirst, perGroup, bits)).(size := my.goalSize).Hopeless()
    ensures !ok && !my.IsEmpty() ==>
              && tree.nodes == old(tree.nodes) && my.start == old(my.start) && my.end == old(my.end)
              && tree.Crosses(my, First(groupFirst, goal), groupFirst, perGroup)
    ensures ok ==> my in tree.nodes && grpGoal == GoalWithin(my, goal, groupFirst, perGroup)
    ensures ok ==> Overlaps(Within(my.start, my.end), groupFirst, perGroup)
    ensures ok && renewed ==>
              var q := old(tree.QuestNow(my, First(groupFirst, goal), groupFirst, perGroup, bits)).(size := my.goalSize);
              q.FirstReached(my.start) && my.end == my.start + my.goalSize - 1 && my.allocHit == 0
    ensures ok && renewed ==>
              var r := SearchRange(groupFirst, perGroup, grpGoal, Within(my.start, my.end));
              !AllUsed(bits[..], r.lo, r.hi)
    ensures ok && !renewed ==>
              && my.start == old(my.start) && my.end >= old(my.end) && my.goalSize == old(my.goalSize) && my.allocHit == old(my.allocHit)
              && (calm && goal >= 0 ==> my.end + 1 >= groupFirst + goal + count || exists x :: x in tree.nodes && x.start == my.end + 1)
              && (my.end == old(my.end) || (goal >= 0 && my.end < groupFirst + goal + count))
  {
    hide Quest.Hopeless, Quest.FirstReached;
    ok, grpGoal, renewed := true, goal, false;
    if my.IsEmpty() || failed || !GoalInMyReservation(my, goal, groupFirst, perGroup) {
      renewed := true;
      ok, grpGoal := RenewWindow(tree, bits, groupFirst, perGroup, goal, my, count);
    } else if goal >= 0 {
      var curr := my.end - (goal + groupFirst) + 1;
      if curr < count {
        var locked := true;
        if !calm {
          locked := *;
        }
        tree.TryToExtend(my, count - curr, locked);
        tree.OtherSpans(my);
      }
    }
  }

  /** The file's window as it was, or grown, among the others. */
  ghost predicate OwnGrown(all: set<Span>, others: set<Span>, empty: bool, start: nat, end: nat) {
    if empty then all == others else exists e: nat :: end <= e && all == others + {Span(start, e)}
  }

  /** Allocate in one group, from the file's window if it has one. The loop
      never takes a third pass. `all` are the windows as the search for a new
      one met them. */
  method TryToAllocateWithRsv(tree: WindowTree, bits: array<bool>, groupFirst: nat, perGroup: nat,
                              goal: int, my: Window?, count: nat, calm: bool)
    returns (ret: int, num: nat, ghost all: set<Span>)
    requires tree.Valid() && 0 < perGroup <= bits.Length && bits.Length % 8 == 0 && -1 <= goal < perGroup
    requires my != null ==> my in tree.known && my.goalSize > 0 && 1 <= count <= MAX_RESERVE_BLOCKS
    modifies bits, tree`nodes, if my == null then {} else {my}
    ensures tree.Valid()
    ensures my != null ==> my.goalSize >= old(my.goalSize) && tree.OthersKept(my)
    ensures my != null ==> Spans(tree.nodes, my) == old(Spans(tree.nodes, my))
    ensures ret >= 0 ==> bits[..] == Fill(old(bits[..]), ret, num, true)
    ensures ret >= 0 && my == null ==> Claimed(old(bits[..]), SearchRange(groupFirst, perGroup, goal, Anywhere), count, ret, num)
    ensures ret >= 0 && my != null ==>
              && my in tree.nodes && Overlaps(Within(my.start, my.end), groupFirst, perGroup)
              && var r := SearchRange(groupFirst, perGroup, GoalWithin(my, goal, groupFirst, perGroup), Within(my.start, my.end));
                 Claimed(old(bits[..]), r, count, ret, num)
    ensures ret < 0 ==> bits[..] == old(bits[..])
    ensures ret < 0 && my == null ==> num == 0 && AllUsed(bits[..], if goal > 0 then goal else 0, perGroup)
    ensures ret < 0 && my != null ==> num == count
    ensures ret >= 0 && my != null ==>
              || my.allocHit == num
              || (old(!my.IsEmpty()) && my.start == old(my.start) && my.allocHit == old(my.allocHit) + num)
    // with a window it fails only if none can be had, or the one there is full up to the group's end and reaches beyond it
    ensures ret < 0 && my != null && my.IsEmpty() ==>
              && OwnGrown(all, old(Spans(tree.nodes, my)), old(my.IsEmpty()), old(my.start), old(my.end))
              && Quest(all, old(Spans(tree.nodes, my)), First(groupFirst, goal), my.goalSize, groupFirst, bits[..perGroup]).Hopeless()
    ensures ret < 0 && my != null && !my.IsEmpty() ==>
              && tree.Crosses(my, First(groupFirst, goal), groupFirst, perGroup)
              && AllUsed(bits[..], First(groupFirst, goal) - groupFirst, perGroup)
  {
    hide WindowTree.Valid, Quest.Hopeless;
    if my == null {
      all := {};
      ghost var usable;
      ret, num, usable := TryToAllocate(bits, groupFirst, perGroup, goal, count, Anywhere);
    } else {
      ret, num, all := AllocateInWindow(tree, bits, groupFirst, perGroup, goal, my, count, calm);
    }
  }

  /** The same for a file with a window to allocate from. */
  method AllocateInWindow(tree: WindowTree, bits: array<bool>, groupFirst: nat, perGroup: nat,
                          goal: int, my: Window, count: nat, calm: bool)
    returns (ret: int, num: nat, ghost all: set<Span>)
    requires tree.Valid() && 0 < perGroup <= bits.Length && bits.Length % 8 == 0 && -1 <= goal < perGroup
    requires my in tree.known && my.goalSize > 0 && 1 <= count <= MAX_RESERVE_BLOCKS
    modifies bits, tree`nodes, my
    ensures tree.Valid() && my.goalSize >= old(my.goalSize) && tree.OthersKept(my)
    ensures Spans(tree.nodes, my) == old(Spans(tree.nodes, my))
    ensures ret >= 0 ==>
              && my in tree.nodes && Overlaps(Within(my.start, my.end), groupFirst, perGroup)
              && bits[..] == Fill(old(bits[..]), ret, num, true)
              && var r := SearchRange(groupFirst, perGroup, GoalWithin(my, goal, groupFirst, perGroup), Within(my.start, my.end));
                 Claimed(old(bits[..]), r, count, ret, num)
    ensures ret >= 0 ==>
              || my.allocHit == num
              || (old(!my.IsEmpty()) && my.start == old(my.start) && my.allocHit == old(my.allocHit) + num)
    ensures ret < 0 ==> bits[..] == old(bits[..]) && num == count
    ensures ret < 0 && my.IsEmpty() ==>
              && OwnGrown(all, old(Spans(tree.nodes, my)), old(my.IsEmpty()), old(my.start), old(my.end))
              && Quest(all, old(Spans(tree.nodes, my)), First(groupFirst, goal), my.goalSize, groupFirst, bits[..perGroup]).Hopeless()
    ensures ret < 0 && !my.IsEmpty() ==>
              && tree.Crosses(my, First(groupFirst, goal), groupFirst, perGroup)
              && AllUsed(bits[..], First(groupFirst, goal) - groupFirst, perGroup)
  {
    hide WindowTree.Valid, Quest.Hopeless, Claimed, Fill, AllUsed;
    ghost var others := Spans(tree.nodes, my);
    ret, num := 0, count;
    ghost var pass := 0;
    while true
      invariant pass <= 1 && (pass == 1 <==> ret < 0) && num == count
      invariant tree.Valid() && my.goalSize >= old(my.goalSize) && tree.OthersKept(my) && Spans(tree.nodes, my) == others
      invariant pass == 0 ==> tree.nodes == old(tree.nodes) && unchanged(my)
      invariant pass == 1 ==> !old(my.IsEmpty()) && my.start == old(my.start) && my.end >= old(my.end) && my.allocHit == old(my.allocHit)
      invariant pass == 1 ==> WindowUsed(my, bits[..], groupFirst, perGroup, goal)
      invariant bits[..] == old(bits[..])
      decreases 2 - pass
    {
      all := Spans(tree.nodes, null);
      tree.OwnOrNone(my);
      var ok;
      ok, ret, num := OnePass(tree, bits, groupFirst, perGroup, goal, my, count, ret < 0, calm);
      if !ok {
        if !my.IsEmpty() {
          TailUsed(bits[..], groupFirst, perGroup, goal, my.start, my.end);
        }
        return;
      }
      if ret >= 0 {
        return;
      }
      num := count;
      pass := pass + 1;
    }
  }

  /** The file has a window for the goal, and all it has of the group is in use. */
  ghost predicate WindowUsed(my: Window, bits: seq<bool>, groupFirst: nat, perGroup: nat, goal: int)
    requires 0 < perGroup <= |bits| && goal < perGroup
    reads my
  {
    && my.start <= my.end && !my.IsEmpty() && GoalInMyReservation(my, goal, groupFirst, perGroup)
    && var r := SearchRange(groupFirst, perGroup, goal, Within(my.start, my.end));
       AllUsed(bits, r.lo, r.hi)
  }

  /** One pass: see to the window, then allocate in it. */
  method OnePass(tree: WindowTree, bits: array<bool>, groupFirst: nat, perGroup: nat,
                 goal: int, my: Window, count: nat, failed: bool, calm: bool)
    returns (ok: bool, ret: int, num: nat)
    requires tree.Valid() && 0 < perGroup <= bits.Length && bits.Length % 8 == 0 && -1 <= goal < perGroup
    requires my in tree.known && my.goalSize > 0 && 1 <= count <= MAX_RESERVE_BLOCKS
    requires failed ==> WindowUsed(my, bits[..], groupFirst, perGroup, goal)
    modifies bits, tree`nodes, my
    ensures tree.Valid() && my.goalSize >= old(my.goalSize) && tree.OthersKept(my)
    ensures Spans(tree.nodes, my) == old(Spans(tree.nodes, my))
    ensures !ok ==> ret == -1 && num == count && bits[..] == old(bits[..])
    ensures !ok && my.IsEmpty() ==>
              old(tree.QuestNow(my, First(groupFirst, goal), groupFirst, perGroup, bits)).(size := my.goalSize).Hopeless()
    ensures !ok && !my.IsEmpty() ==>
              && my.start == old(my.start) && my.end == old(my.end)
              && tree.Crosses(my, First(groupFirst, goal), groupFirst, perGroup)
              && WindowUsed(my, bits[..], groupFirst, perGroup, goal)
    ensures ok && ret >= 0 ==>
              && my in tree.nodes && Overlaps(Within(my.start, my.end), groupFirst, perGroup)
              && bits[..] == Fill(old(bits[..]), ret, num, true)
              && var r := SearchRange(groupFirst, perGroup, GoalWithin(my, goal, groupFirst, perGroup), Within(my.start, my.end));
                 Claimed(old(bits[..]), r, count, ret, num)
    ensures ok && ret >= 0 ==>
              || my.allocHit == num
              || (!failed && old(!my.IsEmpty()) && my.start == old(my.start) && my.allocHit == old(my.allocHit) + num)
    ensures ok && ret < 0 ==>
              && !failed && old(!my.IsEmpty()) && my.start == old(my.start) && my.end >= old(my.end) && my.allocHit == old(my.allocHit)
              && bits[..] == old(bits[..])
              && WindowUsed(my, bits[..], groupFirst, perGroup, goal)
  {
    hide WindowTree.Valid, Quest.Hopeless, Quest.FirstReached, Claimed, Fill, AllUsed, SearchRange;
    if tree.Crosses(my, First(groupFirst, goal), groupFirst, perGroup) {
      CrossingHasGoal(tree, my, goal, groupFirst, perGroup);
    }
    var grpGoal;
    ghost var renewed;
    ok, grpGoal, renewed := PrepareWindow(tree, bits, groupFirst, perGroup, goal, my, count, failed, calm);
    if !ok {
      return false, -1, count;
    }
    if my.start > groupFirst + perGroup - 1 || my.end < groupFirst {
      assert false; // the source's BUG
    }
    ghost var usable;
    ret, num, usable := TryToAllocate(bits, groupFirst, perGroup, grpGoal, count, Within(my.start, my.end));
    if ret >= 0 {
      tree.Hit(my, num);
    }
  }

  lemma CrossingHasGoal(tree: WindowTree, my: Window, goal: int, groupFirst: nat, perGroup: nat)
    requires goal < perGroup && tree.Crosses(my, First(groupFirst, goal), groupFirst, perGroup)
    ensures GoalInMyReservation(my, goal, groupFirst, perGroup)
  {
  }

  /** A pass over the window that has found nothing. */
  lemma TailUsed(bits: seq<bool>, groupFirst: nat, perGroup: nat, goal: int, start: nat, end: nat)
    requires 0 < perGroup <= |bits| && -1 <= goal < perGroup && Overlaps(Within(start, end), groupFirst, perGroup)
    requires start <= First(groupFirst, goal) && groupFirst + perGroup <= end
    requires var r := SearchRange(groupFirst, perGroup, goal, Within(start, end)); AllUsed(bits, r.lo, r.hi)
    ensures AllUsed(bits, First(groupFirst, goal) - groupFirst, perGroup)
  {
  }
}
