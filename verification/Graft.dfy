/**
 A freshly built branch of pointer blocks: the blocks it consists of, and what
 the slots below the place where it is spliced in lead to.

 q is the list of slots from that place down to the data; nb are the blocks to
 go with them, the last being the first of `num` consecutive data blocks.
 */
module Graft {
  import opened FreeTree
  import opened Groups
  import opened PointerTree

  /** How many slots the branch fills in the node where it starts. */
  function Width(q: seq<nat>, num: nat): nat {
    if |q| == 1 then num else 1
  }

  /** The slots [x, x + n) hold consecutive blocks from b on. */
  predicate Holding(t: seq<nat>, x: nat, n: nat, b: nat) {
    x + n <= |t| && forall y :: x <= y < x + n ==> t[y] == b + (y - x)
  }

  /** Nothing but that is in the slots. */
  predicate HoldingOnly(t: seq<nat>, x: nat, n: nat, b: nat) {
    Holding(t, x, n, b) && forall y :: 0 <= y < |t| && !(x <= y < x + n) ==> t[y] == 0
  }

  /** The pointer blocks of the branch are set up. */
  predicate FreshBranch(v: Device, ptrs: nat, q: seq<nat>, nb: seq<nat>, num: nat)
    decreases |q|
  {
    && |q| == |nb| >= 1 && nb[0] > 0
    && (|q| > 1 ==>
          && nb[0] < |v| && |v[nb[0]]| == ptrs
          && HoldingOnly(v[nb[0]], q[1], Width(q[1..], num), nb[1])
          && FreshBranch(v, ptrs, q[1..], nb[1..], num))
  }

  /** All blocks of the branch. */
  ghost function GraftBlocks(nb: seq<nat>, num: nat): multiset<int>
    requires |nb| >= 1
  {
    if |nb| == 1 then multiset(Run(nb[0], num)) else multiset{nb[0]} + GraftBlocks(nb[1..], num)
  }

  /** What slots lead to, starting from the node where the branch is spliced in. */
  function GraftLookup(q: seq<nat>, nb: seq<nat>, num: nat, p: seq<nat>): nat
    requires |q| == |nb| >= 1
    decreases |q|
  {
    if |p| == 0 || !(q[0] <= p[0] < q[0] + Width(q, num)) then 0
    else if |p| == 1 then nb[0] + (p[0] - q[0])
    else if |q| == 1 then 0
    else GraftLookup(q[1..], nb[1..], num, p[1..])
  }

  lemma SlotForest(w: Device, t: seq<nat>, lv: Level, x: nat)
    requires x < |t|
    ensures Forest(w, t, lv, x, x + 1) == Tree(w, t[x], Height(lv, x))
  {
    hide Tree;
    assert Forest(w, t, lv, x, x) == multiset{};
  }

  lemma {:induction false} ForestRun(w: Device, t: seq<nat>, lv: Level, x: nat, n: nat, b: nat)
    requires Holding(t, x, n, b) && b > 0 && forall y :: x <= y < x + n ==> Height(lv, y) == 0
    ensures Forest(w, t, lv, x, x + n) == multiset(Run(b, n))
    decreases n
  {
    hide Tree, Run, Forest;
    if n == 0 {
      assert Run(b, 0) == {};
      ForestZero(w, t, lv, x, x);
    } else {
      ForestRun(w, t, lv, x, n - 1, b);
      ForestSplit(w, t, lv, x, x + n - 1, x + n);
      SlotForest(w, t, lv, x + n - 1);
      DataTree(w, b + n - 1);
      LastOfRun(b, n);
    }
  }

  lemma LastOfRun(b: nat, n: nat)
    requires n > 0
    ensures multiset(Run(b, n)) == multiset(Run(b, n - 1)) + multiset{b + n - 1}
  {
    assert Run(b, n) == Run(b, n - 1) + {b + n - 1} && b + n - 1 !in Run(b, n - 1);
  }

  lemma OnlyThird(w: Device, t: seq<nat>, lv: Level, lo: nat, hi: nat)
    requires lo <= hi <= |t| && forall x :: 0 <= x < |t| && !(lo <= x < hi) ==> t[x] == 0
    ensures All(w, t, lv) == Forest(w, t, lv, lo, hi)
  {
    hide Tree, Forest;
    ForestThirds(w, t, lv, lo, hi);
    ForestZero(w, t, lv, 0, lo);
    ForestZero(w, t, lv, hi, |t|);
  }

  lemma OneSlotForest(v: Device, t: seq<nat>, lv: Level, x: nat, b: nat, h: nat, lo: nat, hi: nat)
    requires x < |t| && t[x] == b != 0 && Height(lv, x) == h > 0 && b < |v| && lo <= hi <= |v[b]|
    requires forall y :: 0 <= y < |v[b]| && !(lo <= y < hi) ==> v[b][y] == 0
    ensures Forest(v, t, lv, x, x + 1) == multiset{b} + Forest(v, v[b], Node(h - 1), lo, hi)
  {
    hide Tree, Forest;
    OnlyThird(v, v[b], Node(h - 1), lo, hi);
    RootInTree(v, b, h);
    SlotForest(v, t, lv, x);
  }

  /** The slots that the branch fills hold exactly its blocks. */
  lemma {:induction false} GraftForest(v: Device, ptrs: nat, t: seq<nat>, lv: Level, q: seq<nat>, nb: seq<nat>, num: nat)
    requires FreshBranch(v, ptrs, q, nb, num) && Holding(t, q[0], Width(q, num), nb[0])
    requires forall y :: q[0] <= y < q[0] + Width(q, num) ==> Height(lv, y) == |q| - 1
    ensures Forest(v, t, lv, q[0], q[0] + Width(q, num)) == GraftBlocks(nb, num)
    decreases |q|
  {
    hide Tree, Run, Forest;
    if |q| == 1 {
      ForestRun(v, t, lv, q[0], num, nb[0]);
    } else {
      var c, h: nat := v[nb[0]], |q| - 2;
      GraftForest(v, ptrs, c, Node(h), q[1..], nb[1..], num);
      OneSlotForest(v, t, lv, q[0], nb[0], |q| - 1, q[1], q[1] + Width(q[1..], num));
    }
  }

  /** Lookups through those slots. */
  lemma {:induction false} GraftLeads(v: Device, ptrs: nat, t: seq<nat>, lv: Level, q: seq<nat>, nb: seq<nat>, num: nat, p: seq<nat>)
    requires FreshBranch(v, ptrs, q, nb, num) && Holding(t, q[0], Width(q, num), nb[0])
    requires Inside(lv, p) && q[0] <= p[0] < q[0] + Width(q, num) && Height(lv, p[0]) == |q| - 1
    ensures Lookup(v, t, p) == GraftLookup(q, nb, num, p)
    decreases |q|
  {
    if |p| > 1 {
      var c, p' := v[nb[0]], p[1..];
      if p'[0] < |c| && q[1] <= p'[0] < q[1] + Width(q[1..], num) {
        GraftLeads(v, ptrs, c, Node(|q| - 2), q[1..], nb[1..], num, p');
      }
    }
  }

  /** A list of slots as long as q leads to data in the branch exactly if it is
      one of the first `num` neighbours of q. */
  lemma {:induction false} GraftData(q: seq<nat>, nb: seq<nat>, num: nat, p: seq<nat>)
    requires |q| == |nb| == |p| >= 1
    ensures var n := |q| - 1;
            GraftLookup(q, nb, num, p) ==
            if p[..n] == q[..n] && q[n] <= p[n] < q[n] + num then nb[n] + (p[n] - q[n]) else 0
    decreases |q|
  {
    if |q| > 1 {
      GraftData(q[1..], nb[1..], num, p[1..]);
      var n := |q| - 1;
      assert p[..n] == [p[0]] + p[1..][..n - 1] && q[..n] == [q[0]] + q[1..][..n - 1];
    }
  }
}
