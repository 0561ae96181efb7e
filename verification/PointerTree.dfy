/**
 The tree of block pointers of an inode, read from the contents of the device:
 which blocks hang off it, and what a list of slots leads to.

 A device is the list of its blocks' words. Block number 0 means "no block".
 */
module PointerTree {
  import opened BlockPath

  type Device = seq<seq<nat>>

  /** The slots of an inode have heights of their own; all slots of an indirect
      block have the same one. Height 0 slots hold data blocks. */
  datatype Level = Root | Node(height: nat)

  function Height(lv: Level, slot: nat): nat {
    match lv
    case Root => if slot < NDIR_BLOCKS then 0 else if slot < N_BLOCKS then slot - NDIR_BLOCKS + 1 else 3
    case Node(h) => h
  }

  function Rank(lv: Level): nat {
    match lv
    case Root => 4
    case Node(h) => h
  }

  /** All blocks reachable from a slot that holds `nr`, each as often as it is reached. */
  ghost function Tree(w: Device, nr: nat, h: nat): multiset<int>
    decreases h, 0
  {
    if nr == 0 then multiset{}
    else if h == 0 || nr >= |w| then multiset{nr}
    else multiset{nr} + Forest(w, w[nr], Node(h - 1), 0, |w[nr]|)
  }

  /** All blocks reachable from the slots [lo, hi) of s. */
  ghost function Forest(w: Device, s: seq<nat>, lv: Level, lo: nat, hi: nat): multiset<int>
    requires lo <= hi <= |s|
    decreases Rank(lv), hi - lo + 1
  {
    if lo == hi then multiset{}
    else Forest(w, s, lv, lo, hi - 1) + Tree(w, s[hi - 1], Height(lv, hi - 1))
  }

  ghost function All(w: Device, s: seq<nat>, lv: Level): multiset<int> {
    Forest(w, s, lv, 0, |s|)
  }

  ghost predicate NoDup(m: multiset<int>) {
    forall b :: m[b] <= 1
  }

  /** What the slots `p` lead to, starting from the slots s; 0 if nothing. */
  function Lookup(w: Device, s: seq<nat>, p: seq<nat>): nat
    decreases |p|
  {
    if |p| == 0 || p[0] >= |s| then 0
    else if |p| == 1 then s[p[0]]
    else if s[p[0]] == 0 || s[p[0]] >= |w| then 0
    else Lookup(w, w[s[p[0]]], p[1..])
  }

  /** p stays inside the tree: it does not look for pointers in data blocks. */
  predicate Inside(lv: Level, p: seq<nat>) {
    |p| > 0 && |p| <= Height(lv, p[0]) + 1
  }

  // ---------- splitting and framing ----------

  lemma {:induction false} ForestSplit(w: Device, s: seq<nat>, lv: Level, lo: nat, mid: nat, hi: nat)
    requires lo <= mid <= hi <= |s|
    ensures Forest(w, s, lv, lo, hi) == Forest(w, s, lv, lo, mid) + Forest(w, s, lv, mid, hi)
    decreases hi
  {
    hide Tree;
    if mid < hi {
      ForestSplit(w, s, lv, lo, mid, hi - 1);
    }
  }

  /** One slot's share of the whole. */
  lemma ForestAt(w: Device, s: seq<nat>, lv: Level, x: nat)
    requires x < |s|
    ensures All(w, s, lv) == Forest(w, s, lv, 0, x) + Tree(w, s[x], Height(lv, x)) + Forest(w, s, lv, x + 1, |s|)
  {
    ForestSplit(w, s, lv, 0, x, |s|);
    ForestSplit(w, s, lv, x, x + 1, |s|);
    assert Forest(w, s, lv, x, x) == multiset{};
  }

  lemma {:induction false} ForestSame(w: Device, v: Device, s: seq<nat>, t: seq<nat>, lv: Level, lo: nat, hi: nat)
    requires lo <= hi <= |s| && hi <= |t|
    requires forall x :: lo <= x < hi ==> Tree(w, s[x], Height(lv, x)) == Tree(v, t[x], Height(lv, x))
    ensures Forest(w, s, lv, lo, hi) == Forest(v, t, lv, lo, hi)
    decreases hi
  {
    if lo < hi {
      ForestSame(w, v, s, t, lv, lo, hi - 1);
    }
  }

  lemma {:induction false} TreeBelow(w: Device, s: seq<nat>, lv: Level, lo: nat, hi: nat, x: nat)
    requires lo <= x < hi <= |s|
    ensures Tree(w, s[x], Height(lv, x)) <= Forest(w, s, lv, lo, hi)
    decreases hi
  {
    if x < hi - 1 {
      TreeBelow(w, s, lv, lo, hi - 1, x);
    }
  }

  lemma {:induction false} ForestZero(w: Device, s: seq<nat>, lv: Level, lo: nat, hi: nat)
    requires lo <= hi <= |s| && forall x :: lo <= x < hi ==> s[x] == 0
    ensures Forest(w, s, lv, lo, hi) == multiset{}
    decreases hi
  {
    if lo < hi {
      ForestZero(w, s, lv, lo, hi - 1);
    }
  }

  /** v differs from w at no block of m. */
  ghost predicate Agree(w: Device, v: Device, m: multiset<int>) {
    |v| == |w| && forall c :: 0 <= c < |w| && c in m ==> v[c] == w[c]
  }

  lemma {:induction false} TreeFrame(w: Device, v: Device, nr: nat, h: nat)
    requires Agree(w, v, Tree(w, nr, h))
    ensures Tree(v, nr, h) == Tree(w, nr, h)
    decreases h, 0
  {
    if nr != 0 && h > 0 && nr < |w| {
      assert nr in Tree(w, nr, h);
      ForestFrame(w, v, w[nr], Node(h - 1), 0, |w[nr]|);
    }
  }

  lemma {:induction false} ForestFrame(w: Device, v: Device, s: seq<nat>, lv: Level, lo: nat, hi: nat)
    requires lo <= hi <= |s| && Agree(w, v, Forest(w, s, lv, lo, hi))
    ensures Forest(v, s, lv, lo, hi) == Forest(w, s, lv, lo, hi)
    decreases Rank(lv), hi - lo + 1
  {
    if lo < hi {
      ForestFrame(w, v, s, lv, lo, hi - 1);
      TreeFrame(w, v, s[hi - 1], Height(lv, hi - 1));
    }
  }

  lemma {:induction false} LookupFrame(w: Device, v: Device, s: seq<nat>, lv: Level, p: seq<nat>)
    requires Inside(lv, p) && p[0] < |s|
    requires Agree(w, v, Tree(w, s[p[0]], Height(lv, p[0])))
    ensures Lookup(v, s, p) == Lookup(w, s, p)
    decreases |p|
  {
    var nr, h := s[p[0]], Height(lv, p[0]);
    if |p| > 1 && nr != 0 && nr < |w| {
      assert nr in Tree(w, nr, h);
      if p[1] < |w[nr]| {
        TreeBelow(w, w[nr], Node(h - 1), 0, |w[nr]|, p[1]);
        LookupFrame(w, v, w[nr], Node(h - 1), p[1..]);
      }
    }
  }

  // ---------- changing one node ----------

  /** r leads from the slots s to an indirect block. */
  predicate Reach(w: Device, s: seq<nat>, lv: Level, r: seq<nat>)
    decreases |r|
  {
    && |r| > 0 && r[0] < |s| && 0 < s[r[0]] < |w| && Height(lv, r[0]) > 0
    && (|r| > 1 ==> Reach(w, w[s[r[0]]], Node(Height(lv, r[0]) - 1), r[1..]))
  }

  /** The height of the slots of the block that r leads to. */
  function SlotHeight(lv: Level, r: seq<nat>): nat
    requires |r| > 0 && Height(lv, r[0]) >= |r|
  {
    Height(lv, r[0]) - |r|
  }

  lemma {:induction false} ReachFacts(w: Device, s: seq<nat>, lv: Level, r: seq<nat>)
    requires Reach(w, s, lv, r)
    ensures Height(lv, r[0]) >= |r| && 0 < Lookup(w, s, r) < |w|
    ensures Tree(w, Lookup(w, s, r), SlotHeight(lv, r) + 1) <= Tree(w, s[r[0]], Height(lv, r[0]))
    decreases |r|
  {
    hide Forest, Tree;
    if |r| > 1 {
      var nr, h := s[r[0]], Height(lv, r[0]);
      RootInTree(w, nr, h);
      ReachFacts(w, w[nr], Node(h - 1), r[1..]);
      TreeBelow(w, w[nr], Node(h - 1), 0, |w[nr]|, r[1]);
    }
  }

  /** p goes on below the block that r leads to. */
  predicate Extends(p: seq<nat>, r: seq<nat>) {
    |r| < |p| && p[..|r|] == r
  }

  /** From w to v the block reached by r got other slots, and further only
      blocks changed that are below it or nowhere in the tree. */
  ghost predicate Local(w: Device, v: Device, s: seq<nat>, lv: Level, r: seq<nat>, changed: set<int>) {
    && Reach(w, s, lv, r) && Height(lv, r[0]) >= |r| && |v| == |w| && NoDup(All(w, s, lv))
    && (forall c :: 0 <= c < |w| && c !in changed && c != Lookup(w, s, r) ==> v[c] == w[c])
    && (forall c :: c in changed ==> c != Lookup(w, s, r))
    && (forall c :: c in changed && c in All(w, s, lv) ==> c in Tree(w, Lookup(w, s, r), SlotHeight(lv, r) + 1))
  }

  /** The trees of the slots beside the first one of r are untouched. */
  lemma BesideUntouched(w: Device, v: Device, s: seq<nat>, lv: Level, r: seq<nat>, changed: set<int>)
    requires Local(w, v, s, lv, r, changed)
    ensures Agree(w, v, Forest(w, s, lv, 0, r[0]))
    ensures Agree(w, v, Forest(w, s, lv, r[0] + 1, |s|))
  {
    hide Forest, Tree;
    ReachFacts(w, s, lv, r);
    ForestAt(w, s, lv, r[0]);
    var b := Lookup(w, s, r);
    RootInTree(w, b, SlotHeight(lv, r) + 1);
    forall c | 0 <= c < |w| && (c in changed || c == b)
      ensures Forest(w, s, lv, 0, r[0])[c] == 0 && Forest(w, s, lv, r[0] + 1, |s|)[c] == 0
    {
      if c in All(w, s, lv) {
        assert c in Tree(w, s[r[0]], Height(lv, r[0]));
        assert All(w, s, lv)[c] <= 1;
      }
    }
  }

  lemma RootInTree(w: Device, nr: nat, h: nat)
    requires nr != 0
    ensures nr in Tree(w, nr, h)
    ensures h > 0 && nr < |w| ==> Tree(w, nr, h) == multiset{nr} + All(w, w[nr], Node(h - 1))
  {
  }

  /** Where the trees met on the way down r lie in the whole. */
  lemma OnTheWay(w: Device, s: seq<nat>, lv: Level, r: seq<nat>)
    requires Reach(w, s, lv, r) && |r| > 1 && Height(lv, r[0]) >= |r|
    ensures var nr, g, b := s[r[0]], Height(lv, r[0]), Lookup(w, s, r);
            && multiset{nr} + All(w, w[nr], Node(g - 1)) <= All(w, s, lv)
            && b in All(w, w[nr], Node(g - 1))
            && Tree(w, b, SlotHeight(lv, r) + 1) <= All(w, w[nr], Node(g - 1))
            && Lookup(w, w[nr], r[1..]) == b && SlotHeight(Node(g - 1), r[1..]) == SlotHeight(lv, r)
            && Reach(w, w[nr], Node(g - 1), r[1..]) && g - 1 >= |r| - 1
  {
    hide Forest, Tree;
    var nr, g := s[r[0]], Height(lv, r[0]);
    ForestAt(w, s, lv, r[0]);
    RootInTree(w, nr, g);
    ReachFacts(w, w[nr], Node(g - 1), r[1..]);
    RootInTree(w, Lookup(w, s, r), SlotHeight(lv, r) + 1);
    TreeBelow(w, w[nr], Node(g - 1), 0, |w[nr]|, r[1]);
  }

  /** Below the first slot of r the change is local again. */
  lemma LocalBelow(w: Device, v: Device, s: seq<nat>, lv: Level, r: seq<nat>, changed: set<int>)
    requires Local(w, v, s, lv, r, changed) && |r| > 1
    ensures var nr := s[r[0]];
            v[nr] == w[nr] && Local(w, v, w[nr], Node(Height(lv, r[0]) - 1), r[1..], changed)
  {
    hide Forest, Tree, Reach, SlotHeight;
    LocalFacts(w, v, s, lv, r, changed);
    OnTheWay(w, s, lv, r);
    var nr, g := s[r[0]], Height(lv, r[0]);
    var c := All(w, w[nr], Node(g - 1));
    assert c <= All(w, s, lv) && (multiset{nr} + c)[nr] <= All(w, s, lv)[nr] <= 1;
    SubNoDup(c, All(w, s, lv));
  }

  lemma SubNoDup(m: multiset<int>, n: multiset<int>)
    requires m <= n && NoDup(n)
    ensures NoDup(m)
  {
    forall b
      ensures m[b] <= 1
    {
      assert m[b] <= n[b];
    }
  }

  lemma SwapShare(before: multiset<int>, root: multiset<int>, after: multiset<int>,
                  c: multiset<int>, d: multiset<int>, x: multiset<int>, y: multiset<int>)
    requires c + x == d + y
    ensures before + (root + c) + after + x == before + (root + d) + after + y
  {
    assert before + (root + c) + after + x == before + root + after + (c + x);
    assert before + (root + d) + after + y == before + root + after + (d + y);
  }

  /** Under a local change the tree changes by the one block's share. */
  lemma {:induction false} ReplaceForest(w: Device, v: Device, s: seq<nat>, lv: Level, r: seq<nat>, changed: set<int>)
    requires Local(w, v, s, lv, r, changed)
    ensures Lookup(w, s, r) < |w|
    ensures var b, h := Lookup(w, s, r), SlotHeight(lv, r);
            All(v, s, lv) + All(w, w[b], Node(h)) == All(w, s, lv) + All(v, v[b], Node(h))
    decreases |r|
  {
    hide Forest, Tree, Local;
    LocalFacts(w, v, s, lv, r, changed);
    ReachFacts(w, s, lv, r);
    var nr, g := s[r[0]], Height(lv, r[0]);
    BesideUntouched(w, v, s, lv, r, changed);
    ForestAt(w, s, lv, r[0]);
    ForestAt(v, s, lv, r[0]);
    ForestFrame(w, v, s, lv, 0, r[0]);
    ForestFrame(w, v, s, lv, r[0] + 1, |s|);
    RootInTree(w, nr, g);
    RootInTree(v, nr, g);
    if |r| > 1 {
      LocalBelow(w, v, s, lv, r, changed);
      ReplaceForest(w, v, w[nr], Node(g - 1), r[1..], changed);
    }
    var b, h := Lookup(w, s, r), SlotHeight(lv, r);
    SwapShare(Forest(w, s, lv, 0, r[0]), multiset{nr}, Forest(w, s, lv, r[0] + 1, |s|),
              All(v, v[nr], Node(g - 1)), All(w, w[nr], Node(g - 1)), All(w, w[b], Node(h)), All(v, v[b], Node(h)));
  }

  lemma LocalFacts(w: Device, v: Device, s: seq<nat>, lv: Level, r: seq<nat>, changed: set<int>)
    requires Local(w, v, s, lv, r, changed)
    ensures Reach(w, s, lv, r) && Height(lv, r[0]) >= |r| && |v| == |w|
  {
  }

  /** Under a local change lookups change below the one block only. */
  lemma {:induction false} ReplaceLookup(w: Device, v: Device, s: seq<nat>, lv: Level, r: seq<nat>, changed: set<int>, p: seq<nat>)
    requires Local(w, v, s, lv, r, changed) && Inside(lv, p)
    ensures Lookup(w, s, r) < |w|
    ensures Lookup(v, s, p) ==
            if Extends(p, r) then Lookup(v, v[Lookup(w, s, r)], p[|r|..]) else Lookup(w, s, p)
    decreases |r|
  {
    hide Forest, Tree, Local;
    LocalFacts(w, v, s, lv, r, changed);
    ReachFacts(w, s, lv, r);
    var x, g := r[0], Height(lv, r[0]);
    if p[0] < |s| && p[0] != x {
      BesideUntouched(w, v, s, lv, r, changed);
      if p[0] < x {
        TreeBelow(w, s, lv, 0, x, p[0]);
      } else {
        TreeBelow(w, s, lv, x + 1, |s|, p[0]);
      }
      LookupFrame(w, v, s, lv, p);
    } else if p[0] == x && |p| > 1 {
      if |r| > 1 {
        LocalBelow(w, v, s, lv, r, changed);
        ReplaceLookup(w, v, w[s[x]], Node(g - 1), r[1..], changed, p[1..]);
        ExtendsTail(p, r);
      } else {
        assert Extends(p, r);
      }
    }
  }

  lemma ExtendsTail(p: seq<nat>, r: seq<nat>)
    requires |p| > 1 && |r| > 1 && p[0] == r[0]
    ensures Extends(p, r) <==> Extends(p[1..], r[1..])
    ensures Extends(p, r) ==> p[1..][|r| - 1..] == p[|r|..]
  {
    if Extends(p, r) {
      assert p[1..][..|r| - 1] == p[..|r|][1..];
    }
    if Extends(p[1..], r[1..]) {
      assert p[..|r|] == [p[0]] + p[1..][..|r| - 1];
      assert r == [r[0]] + r[1..];
    }
  }

  // ---------- clearing and filling slots ----------

  /** s with the slots [lo, hi) cleared. */
  function Cleared(s: seq<nat>, lo: nat, hi: nat): (t: seq<nat>)
    requires lo <= hi <= |s|
    ensures |t| == |s| && forall x :: 0 <= x < |s| ==> t[x] == if lo <= x < hi then 0 else s[x]
  {
    s[..lo] + seq(hi - lo, _ => 0) + s[hi..]
  }

  ghost function Elems(m: multiset<int>): set<int> {
    set b | b in m
  }

  lemma ForestThirds(w: Device, s: seq<nat>, lv: Level, lo: nat, hi: nat)
    requires lo <= hi <= |s|
    ensures All(w, s, lv) == Forest(w, s, lv, 0, lo) + Forest(w, s, lv, lo, hi) + Forest(w, s, lv, hi, |s|)
  {
    ForestSplit(w, s, lv, 0, lo, |s|);
    ForestSplit(w, s, lv, lo, hi, |s|);
  }

  /** Slots outside [lo, hi) keep their trees and what is found through them. */
  lemma OutsideKept(w: Device, v: Device, s: seq<nat>, t: seq<nat>, lv: Level, lo: nat, hi: nat)
    requires lo <= hi <= |s| == |t|
    requires forall x :: 0 <= x < |s| && !(lo <= x < hi) ==> t[x] == s[x]
    requires Agree(w, v, Forest(w, s, lv, 0, lo)) && Agree(w, v, Forest(w, s, lv, hi, |s|))
    ensures Forest(v, t, lv, 0, lo) == Forest(w, s, lv, 0, lo)
    ensures Forest(v, t, lv, hi, |s|) == Forest(w, s, lv, hi, |s|)
    ensures forall p :: Inside(lv, p) && !(lo <= p[0] < hi) ==> Lookup(v, t, p) == Lookup(w, s, p)
  {
    ForestFrame(w, v, s, lv, 0, lo);
    ForestFrame(w, v, s, lv, hi, |s|);
    ForestSame(v, v, s, t, lv, 0, lo);
    ForestSame(v, v, s, t, lv, hi, |s|);
    forall p | Inside(lv, p) && !(lo <= p[0] < hi)
      ensures Lookup(v, t, p) == Lookup(w, s, p)
    {
      if p[0] < |s| {
        if p[0] < lo {
          TreeBelow(w, s, lv, 0, lo, p[0]);
        } else {
          TreeBelow(w, s, lv, hi, |s|, p[0]);
        }
        LookupFrame(w, v, s, lv, p);
        LookupFirst(v, s, t, p);
      }
    }
  }

  lemma LookupFirst(v: Device, s: seq<nat>, t: seq<nat>, p: seq<nat>)
    requires |p| > 0 && p[0] < |s| == |t| && t[p[0]] == s[p[0]]
    ensures Lookup(v, t, p) == Lookup(v, s, p)
  {
  }

  /** Clearing slots of one list of slots. */
  lemma ClearSlots(w: Device, v: Device, s: seq<nat>, lv: Level, lo: nat, hi: nat)
    requires lo <= hi <= |s|
    requires Agree(w, v, Forest(w, s, lv, 0, lo)) && Agree(w, v, Forest(w, s, lv, hi, |s|))
    ensures All(w, s, lv) == All(v, Cleared(s, lo, hi), lv) + Forest(w, s, lv, lo, hi)
    ensures forall p :: Inside(lv, p) ==>
              Lookup(v, Cleared(s, lo, hi), p) == if lo <= p[0] < hi then 0 else Lookup(w, s, p)
  {
    hide Forest, Tree, Cleared;
    var t := Cleared(s, lo, hi);
    OutsideKept(w, v, s, t, lv, lo, hi);
    ForestThirds(w, s, lv, lo, hi);
    ForestThirds(v, t, lv, lo, hi);
    ForestZero(v, t, lv, lo, hi);
  }

  /** Filling cleared slots of one list of slots. */
  lemma FillSlots(w: Device, v: Device, s: seq<nat>, t: seq<nat>, lv: Level, lo: nat, hi: nat)
    requires lo <= hi <= |s| == |t| && s == Cleared(t, lo, hi)
    requires Agree(w, v, All(w, s, lv))
    ensures All(v, t, lv) == All(w, s, lv) + Forest(v, t, lv, lo, hi)
    ensures forall p :: Inside(lv, p) && !(lo <= p[0] < hi) ==> Lookup(v, t, p) == Lookup(w, s, p)
  {
    hide Forest, Tree, Cleared;
    ForestThirds(w, s, lv, lo, hi);
    ForestThirds(v, t, lv, lo, hi);
    ForestZero(w, s, lv, lo, hi);
    OutsideKept(w, v, s, t, lv, lo, hi);
  }

  /** Clearing the slots [lo, hi) of the block that r leads to, and changing at
      will the blocks below those slots: the tree loses exactly their share. */
  lemma ClearNode(w: Device, v: Device, s: seq<nat>, lv: Level, r: seq<nat>, lo: nat, hi: nat)
    requires |r| > 0 && Reach(w, s, lv, r) && Height(lv, r[0]) >= |r| && |v| == |w| && NoDup(All(w, s, lv))
    requires Lookup(w, s, r) < |w| && lo <= hi <= |w[Lookup(w, s, r)]|
    requires v[Lookup(w, s, r)] == Cleared(w[Lookup(w, s, r)], lo, hi)
    requires var b := Lookup(w, s, r);
             var gone := Forest(w, w[b], Node(SlotHeight(lv, r)), lo, hi);
             forall c :: 0 <= c < |w| && c != b && c !in gone ==> v[c] == w[c]
    ensures All(w, s, lv) == All(v, s, lv) + Forest(w, w[Lookup(w, s, r)], Node(SlotHeight(lv, r)), lo, hi)
    ensures forall p :: Inside(lv, p) ==>
              Lookup(v, s, p) == if Extends(p, r) && lo <= p[|r|] < hi then 0 else Lookup(w, s, p)
  {
    hide Forest, Tree, Cleared, Local, Reach;
    var b, h := Lookup(w, s, r), SlotHeight(lv, r);
    var gone := Forest(w, w[b], Node(h), lo, hi);
    ClearIsLocal(w, v, s, lv, r, lo, hi);
    ReplaceForest(w, v, s, lv, r, Elems(gone));
    ClearSlots(w, v, w[b], Node(h), lo, hi);
    SameLoss(All(v, s, lv), All(w, s, lv), All(v, v[b], Node(h)), gone);
    forall p | Inside(lv, p)
      ensures Lookup(v, s, p) == if Extends(p, r) && lo <= p[|r|] < hi then 0 else Lookup(w, s, p)
    {
      ReplaceLookup(w, v, s, lv, r, Elems(gone), p);
      if Extends(p, r) {
        var q := p[|r|..];
        assert Inside(Node(h), q);
        LookupThrough(w, s, lv, r, p);
      }
    }
  }

  lemma SameLoss(small: multiset<int>, big: multiset<int>, rest: multiset<int>, gone: multiset<int>)
    requires small + (rest + gone) == big + rest
    ensures big == small + gone
  {
    forall b
      ensures big[b] == (small + gone)[b]
    {
      assert (small + (rest + gone))[b] == (big + rest)[b];
    }
  }

  lemma LookupThrough(w: Device, s: seq<nat>, lv: Level, r: seq<nat>, p: seq<nat>)
    requires Reach(w, s, lv, r) && Extends(p, r)
    ensures Lookup(w, s, r) < |w| && Lookup(w, s, p) == Lookup(w, w[Lookup(w, s, r)], p[|r|..])
    decreases |r|
  {
    ReachFacts(w, s, lv, r);
    if |r| > 1 {
      ExtendsTail(p, r);
      LookupThrough(w, w[s[r[0]]], Node(Height(lv, r[0]) - 1), r[1..], p[1..]);
    }
  }

  lemma ClearIsLocal(w: Device, v: Device, s: seq<nat>, lv: Level, r: seq<nat>, lo: nat, hi: nat)
    requires Reach(w, s, lv, r) && Height(lv, r[0]) >= |r| && |v| == |w| && NoDup(All(w, s, lv))
    requires Lookup(w, s, r) < |w| && lo <= hi <= |w[Lookup(w, s, r)]|
    requires var b := Lookup(w, s, r);
             var gone := Forest(w, w[b], Node(SlotHeight(lv, r)), lo, hi);
             forall c :: 0 <= c < |w| && c != b && c !in gone ==> v[c] == w[c]
    ensures var b, h := Lookup(w, s, r), SlotHeight(lv, r);
            var gone := Forest(w, w[b], Node(h), lo, hi);
            && Local(w, v, s, lv, r, Elems(gone))
            && Agree(w, v, Forest(w, w[b], Node(h), 0, lo))
            && Agree(w, v, Forest(w, w[b], Node(h), hi, |w[b]|))
  {
    hide Forest, Tree;
    var b, h := Lookup(w, s, r), SlotHeight(lv, r);
    ReachFacts(w, s, lv, r);
    ForestAt(w, s, lv, r[0]);
    var below := Tree(w, b, h + 1);
    RootInTree(w, b, h + 1);
    assert below <= All(w, s, lv);
    SubNoDup(below, All(w, s, lv));
    ForestThirds(w, w[b], Node(h), lo, hi);
    var gone := Forest(w, w[b], Node(h), lo, hi);
    forall c | c in gone
      ensures c != b && c in below
    {
      assert below[c] <= 1;
    }
    forall c | 0 <= c < |w| && (c == b || c in gone)
      ensures Forest(w, w[b], Node(h), 0, lo)[c] == 0 && Forest(w, w[b], Node(h), hi, |w[b]|)[c] == 0
    {
      assert below[c] <= 1;
    }
  }

  /** Filling cleared slots [lo, hi) of the block that r leads to with trees of
      blocks new to the tree: the tree gains exactly their share. */
  lemma FillNode(w: Device, v: Device, s: seq<nat>, lv: Level, r: seq<nat>, lo: nat, hi: nat)
    requires |r| > 0 && Reach(w, s, lv, r) && Height(lv, r[0]) >= |r| && |v| == |w| && NoDup(All(w, s, lv))
    requires Lookup(w, s, r) < |w| && lo <= hi <= |v[Lookup(w, s, r)]|
    requires w[Lookup(w, s, r)] == Cleared(v[Lookup(w, s, r)], lo, hi)
    requires var b := Lookup(w, s, r);
             var added := Forest(v, v[b], Node(SlotHeight(lv, r)), lo, hi);
             && (forall c :: 0 <= c < |w| && c != b && c !in added ==> v[c] == w[c])
             && (forall c :: c in added ==> c !in All(w, s, lv))
    ensures All(v, s, lv) == All(w, s, lv) + Forest(v, v[Lookup(w, s, r)], Node(SlotHeight(lv, r)), lo, hi)
    ensures forall p :: Inside(lv, p) ==>
              Lookup(v, s, p) ==
              if Extends(p, r) && lo <= p[|r|] < hi then Lookup(v, v[Lookup(w, s, r)], p[|r|..]) else Lookup(w, s, p)
  {
    hide Forest, Tree, Cleared, Local, Reach;
    var b, h := Lookup(w, s, r), SlotHeight(lv, r);
    var added := Forest(v, v[b], Node(h), lo, hi);
    FillIsLocal(w, v, s, lv, r, added);
    ReplaceForest(w, v, s, lv, r, Elems(added));
    FillSlots(w, v, w[b], v[b], Node(h), lo, hi);
    SameLoss(All(w, s, lv), All(v, s, lv), All(w, w[b], Node(h)), added);
    forall p | Inside(lv, p)
      ensures Lookup(v, s, p) == if Extends(p, r) && lo <= p[|r|] < hi then Lookup(v, v[b], p[|r|..]) else Lookup(w, s, p)
    {
      ReplaceLookup(w, v, s, lv, r, Elems(added), p);
      if Extends(p, r) {
        var q := p[|r|..];
        assert Inside(Node(h), q);
        LookupThrough(w, s, lv, r, p);
      }
    }
  }

  lemma FillIsLocal(w: Device, v: Device, s: seq<nat>, lv: Level, r: seq<nat>, added: multiset<int>)
    requires Reach(w, s, lv, r) && Height(lv, r[0]) >= |r| && |v| == |w| && NoDup(All(w, s, lv))
    requires Lookup(w, s, r) < |w|
    requires forall c :: 0 <= c < |w| && c != Lookup(w, s, r) && c !in added ==> v[c] == w[c]
    requires forall c :: c in added ==> c !in All(w, s, lv)
    ensures Local(w, v, s, lv, r, Elems(added))
    ensures var b, h := Lookup(w, s, r), SlotHeight(lv, r); Agree(w, v, All(w, w[b], Node(h)))
  {
    hide Forest, Tree;
    var b, h := Lookup(w, s, r), SlotHeight(lv, r);
    ReachFacts(w, s, lv, r);
    ForestAt(w, s, lv, r[0]);
    var below := Tree(w, b, h + 1);
    RootInTree(w, b, h + 1);
    assert below <= All(w, s, lv);
    SubNoDup(below, All(w, s, lv));
    assert b in All(w, s, lv);
    forall c | 0 <= c < |w| && c in All(w, w[b], Node(h))
      ensures v[c] == w[c]
    {
      assert below[c] <= 1 && c in below;
    }
  }

  // ---------- what lookups find ----------

  /** Whatever a lookup finds belongs to the tree. */
  lemma {:induction false} LookupInTree(w: Device, s: seq<nat>, lv: Level, p: seq<nat>)
    requires Inside(lv, p) && Lookup(w, s, p) != 0
    ensures Lookup(w, s, p) in All(w, s, lv)
    decreases |p|
  {
    var nr, h := s[p[0]], Height(lv, p[0]);
    RootInTree(w, nr, h);
    TreeBelow(w, s, lv, 0, |s|, p[0]);
    if |p| > 1 {
      LookupInTree(w, w[nr], Node(h - 1), p[1..]);
    }
  }

  lemma {:induction false} ReachFromLookup(w: Device, s: seq<nat>, lv: Level, r: seq<nat>)
    requires |r| > 0 && Height(lv, r[0]) >= |r| && 0 < Lookup(w, s, r) < |w|
    ensures Reach(w, s, lv, r)
    decreases |r|
  {
    if |r| > 1 {
      ReachFromLookup(w, w[s[r[0]]], Node(Height(lv, r[0]) - 1), r[1..]);
    }
  }

  /** Nothing lies below an empty slot. */
  lemma {:induction false} LookupStops(w: Device, s: seq<nat>, p: seq<nat>, i: nat)
    requires 0 < i <= |p| && Lookup(w, s, p[..i]) == 0
    ensures Lookup(w, s, p) == 0
    decreases i
  {
    if i == 1 {
      assert p[..1][0] == p[0];
    } else if p[0] < |s| && 0 < s[p[0]] < |w| {
      assert p[..i][1..] == p[1..][..i - 1];
      LookupStops(w, w[s[p[0]]], p[1..], i - 1);
    }
  }

  /** The block below a node in slot x. */
  lemma LookupStep(w: Device, s: seq<nat>, lv: Level, r: seq<nat>, x: nat)
    requires Reach(w, s, lv, r)
    ensures Lookup(w, s, r) < |w|
    ensures Lookup(w, s, r + [x]) == if x < |w[Lookup(w, s, r)]| then w[Lookup(w, s, r)][x] else 0
  {
    ReachFacts(w, s, lv, r);
    assert (r + [x])[..|r|] == r && (r + [x])[|r|..] == [x];
    LookupThrough(w, s, lv, r, r + [x]);
  }
}
