/**
 Block groups: how file-system wide block numbers spread over the groups, and
 how the groups' bitmaps and free counts record a set of used blocks.
 */
module Groups {
  import opened Arith
  import opened Bitmap

  /** The blocks [b, b + n). */
  ghost function Run(b: int, n: nat): (r: set<int>)
    ensures forall x :: x in r <==> b <= x < b + n
    ensures |r| == n
  {
    if n == 0 then {} else Run(b, n - 1) + {b + n - 1}
  }

  /** first data block, blocks per group, one past the last block. */
  datatype Geometry = Geometry(first: nat, perGroup: nat, count: nat) {
    ghost predicate Valid() {
      0 < perGroup <= 32768 && first < count
    }

    function Groups(): nat
      requires Valid()
    {
      (count - first - 1) / perGroup + 1
    }

    /** kr_group_first_block_no */
    function GroupFirst(g: nat): (r: nat)
      ensures r >= first
    {
      g * perGroup + first
    }

    function GroupOf(b: nat): nat
      requires Valid() && first <= b
    {
      (b - first) / perGroup
    }

    function BitOf(b: nat): nat
      requires Valid() && first <= b
    {
      (b - first) % perGroup
    }

    /** Every block has one group and one bit in it. */
    lemma Locate(b: nat)
      requires Valid() && first <= b
      ensures GroupFirst(GroupOf(b)) + BitOf(b) == b
      ensures BitOf(b) < perGroup
      ensures b < count ==> GroupOf(b) < Groups()
    {
      DivMod(b - first, perGroup);
      DivBound(b - first, perGroup, 0);
      if b < count {
        DivMod(count - first - 1, perGroup);
        DivBound(b - first, perGroup, Groups());
        Weigh(perGroup, (count - first - 1) / perGroup, (count - first - 1) % perGroup, Groups(), 0);
      }
    }

    lemma GroupZero()
      ensures GroupFirst(0) == first
    {
    }

    lemma NextGroup(g: nat, h: nat)
      requires g < h
      ensures GroupFirst(g) + perGroup <= GroupFirst(h)
      ensures GroupFirst(g + 1) == GroupFirst(g) + perGroup
    {
      assert (g + 1) * perGroup == g * perGroup + perGroup;
      assert (g + 1) * perGroup <= h * perGroup;
    }

    lemma SamePlace(g: nat, i: nat, h: nat, j: nat)
      requires i < perGroup && j < perGroup && GroupFirst(g) + i == GroupFirst(h) + j
      ensures g == h && i == j
    {
      if g < h {
        NextGroup(g, h);
      } else if h < g {
        NextGroup(h, g);
      }
    }
  }

  /** Used, or padding behind the last block. */
  ghost predicate Marked(geo: Geometry, used: set<int>, b: int) {
    b in used || b >= geo.count
  }

  /** The bitmaps record exactly the used blocks. */
  ghost predicate Tied(geo: Geometry, bits: seq<seq<bool>>, used: set<int>)
    requires geo.Valid()
  {
    && |bits| == geo.Groups()
    && (forall b :: b in used ==> geo.first <= b < geo.count)
    && (forall g :: 0 <= g < |bits| ==> |bits[g]| == geo.perGroup)
    && (forall g, i :: 0 <= g < |bits| && 0 <= i < geo.perGroup ==>
          (bits[g][i] <==> Marked(geo, used, geo.GroupFirst(g) + i)))
  }

  /** The groups' free counts are the zero bits of their bitmaps. */
  ghost predicate Counted(bits: seq<seq<bool>>, free: seq<nat>) {
    && |free| == |bits|
    && forall g :: 0 <= g < |bits| ==> free[g] == ZeroBits(bits[g])
  }

  /** The set of used blocks determines bitmaps and counts. */
  lemma BooksDetermined(geo: Geometry, used: set<int>, bits: seq<seq<bool>>, free: seq<nat>, bits': seq<seq<bool>>, free': seq<nat>)
    requires geo.Valid() && Tied(geo, bits, used) && Tied(geo, bits', used) && Counted(bits, free) && Counted(bits', free')
    ensures bits' == bits && free' == free
  {
    hide ZeroBits, Geometry.GroupFirst, Geometry.Groups, Marked;
    forall g | 0 <= g < |bits|
      ensures bits'[g] == bits[g]
    {
      forall i | 0 <= i < geo.perGroup
        ensures bits'[g][i] == bits[g][i]
      {
        assert bits[g][i] <==> Marked(geo, used, geo.GroupFirst(g) + i);
        assert bits'[g][i] <==> Marked(geo, used, geo.GroupFirst(g) + i);
      }
    }
  }

  function Sum(s: seq<nat>): nat {
    if |s| == 0 then 0 else Sum(s[..|s| - 1]) + s[|s| - 1]
  }

  lemma {:induction false} SumUpdate(s: seq<nat>, i: nat, v: nat)
    requires i < |s|
    ensures Sum(s[i := v]) == Sum(s) - s[i] + v
  {
    var last := |s| - 1;
    if i == last {
      assert s[i := v][..last] == s[..last];
    } else {
      assert s[i := v][..last] == s[..last][i := v];
      SumUpdate(s[..last], i, v);
    }
  }

  lemma BitFilled(geo: Geometry, bits: seq<seq<bool>>, used: set<int>, g: nat, from: nat, n: nat, v: bool, h: nat, i: nat)
    requires geo.Valid() && Tied(geo, bits, used) && g < |bits| && from + n <= geo.perGroup && h < |bits| && i < geo.perGroup
    requires geo.GroupFirst(g) + from + n <= geo.count
    ensures var run := Run(geo.GroupFirst(g) + from, n);
            (if h == g then Fill(bits[g], from, n, v)[i] else bits[h][i])
            <==> Marked(geo, if v then used + run else used - run, geo.GroupFirst(h) + i)
  {
    hide Geometry.GroupFirst, Run, Geometry.Groups;
    var b := geo.GroupFirst(h) + i;
    assert bits[h][i] <==> Marked(geo, used, b);
    if b in Run(geo.GroupFirst(g) + from, n) {
      geo.SamePlace(h, i, g, b - geo.GroupFirst(g));
    }
  }

  lemma UsedInRange(geo: Geometry, used: set<int>, g: nat, from: nat, n: nat, v: bool)
    requires (forall b :: b in used ==> geo.first <= b < geo.count) && geo.GroupFirst(g) + from + n <= geo.count
    ensures var run := Run(geo.GroupFirst(g) + from, n);
            var after := if v then used + run else used - run;
            forall b :: b in after ==> geo.first <= b < geo.count
  {
  }

  lemma TiedBy(geo: Geometry, bits: seq<seq<bool>>, used: set<int>)
    requires geo.Valid() && |bits| == geo.Groups()
    requires forall b :: b in used ==> geo.first <= b < geo.count
    requires forall g :: 0 <= g < |bits| ==> |bits[g]| == geo.perGroup
    requires forall g, i :: 0 <= g < |bits| && 0 <= i < geo.perGroup ==> (bits[g][i] <==> Marked(geo, used, geo.GroupFirst(g) + i))
    ensures Tied(geo, bits, used)
  {
    hide Marked, Geometry.GroupFirst, Geometry.Groups;
  }

  /** Setting a free run adds its blocks to the used ones; clearing a run takes
      its blocks out of them. */
  lemma TieFill(geo: Geometry, bits: seq<seq<bool>>, used: set<int>, g: nat, from: nat, n: nat, v: bool)
    requires geo.Valid() && Tied(geo, bits, used) && g < |bits| && from + n <= geo.perGroup
    requires geo.GroupFirst(g) + from + n <= geo.count
    ensures var after := bits[g := Fill(bits[g], from, n, v)];
            var run := Run(geo.GroupFirst(g) + from, n);
            Tied(geo, after, if v then used + run else used - run)
  {
    hide Geometry.GroupFirst, Geometry.Groups, Run, Marked, Fill;
    var filled := Fill(bits[g], from, n, v);
    var after := bits[g := filled];
    var run := Run(geo.GroupFirst(g) + from, n);
    var used' := if v then used + run else used - run;
    UsedInRange(geo, used, g, from, n, v);
    forall h, i | 0 <= h < |after| && 0 <= i < geo.perGroup
      ensures after[h][i] <==> Marked(geo, used', geo.GroupFirst(h) + i)
    {
      BitFilled(geo, bits, used, g, from, n, v, h, i);
    }
    TiedBy(geo, after, used');
  }

  /** A free run of bits is a run of unused blocks before the end. */
  lemma FreeRun(geo: Geometry, bits: seq<seq<bool>>, used: set<int>, g: nat, from: nat, n: nat)
    requires geo.Valid() && Tied(geo, bits, used) && g < |bits| && from + n <= geo.perGroup
    requires AllFree(bits[g], from, n)
    ensures Run(geo.GroupFirst(g) + from, n) !! used
    ensures n > 0 ==> geo.GroupFirst(g) + from + n <= geo.count
  {
    hide Geometry.GroupFirst, Run;
    forall b | b in Run(geo.GroupFirst(g) + from, n)
      ensures b !in used && b < geo.count
    {
      assert !bits[g][b - geo.GroupFirst(g)];
      assert geo.GroupFirst(g) + (b - geo.GroupFirst(g)) == b;
    }
    if n > 0 {
      assert geo.GroupFirst(g) + from + n - 1 in Run(geo.GroupFirst(g) + from, n);
    }
  }

  lemma UsedStep(used: set<int>, b: int, n: nat)
    requires n > 0
    ensures |used * Run(b, n)| == |used * Run(b, n - 1)| + if b + n - 1 in used then 1 else 0
  {
    var last, fewer := b + n - 1, used * Run(b, n - 1);
    if last in used {
      assert used * Run(b, n) == fewer + {last};
    } else {
      assert used * Run(b, n) == fewer;
    }
  }

  /** Clearing a run gives back as many zero bits as it held used blocks. */
  lemma {:induction false} ClearedCount(s: seq<bool>, used: set<int>, base: int, from: nat, n: nat)
    requires from + n <= |s|
    requires forall i :: from <= i < from + n ==> (s[i] <==> base + i in used)
    ensures ZeroBits(Fill(s, from, n, false)) == ZeroBits(s) + |used * Run(base + from, n)|
    decreases n
  {
    hide Run, Fill, ZeroBits;
    if n == 0 {
      assert Fill(s, from, n, false) == s;
      assert used * Run(base + from, n) == {};
    } else {
      ClearedCount(s, used, base, from, n - 1);
      ClearedOne(s, from, n);
      UsedStep(used, base + from, n);
      assert base + (from + n - 1) == base + from + n - 1;
    }
  }

  lemma ClearedOne(s: seq<bool>, from: nat, n: nat)
    requires 0 < n && from + n <= |s|
    ensures ZeroBits(Fill(s, from, n, false)) == ZeroBits(Fill(s, from, n - 1, false)) + if s[from + n - 1] then 1 else 0
  {
    hide ZeroBits;
    FillStep(s, from, n - 1, false);
    if s[from + n - 1] { ZeroBitsUpdate(Fill(s, from, n - 1, false), from + n - 1, false); }
  }

  lemma RunSplit(used: set<int>, b: int, m: nat, n: nat)
    ensures Run(b, m + n) == Run(b, m) + Run(b + m, n)
    ensures Run(b, m) !! Run(b + m, n)
    ensures |used * Run(b, m + n)| == |used * Run(b, m)| + |(used - Run(b, m)) * Run(b + m, n)|
  {
    assert Run(b, m + n) == Run(b, m) + Run(b + m, n);
    assert used * Run(b, m + n) == used * Run(b, m) + (used - Run(b, m)) * Run(b + m, n);
  }

  /** A bitmap may be longer than its group; only the group's bits are looked at. */
  lemma FillPrefix(s: seq<bool>, k: nat, from: nat, n: nat, v: bool)
    requires from + n <= k <= |s|
    ensures Fill(s, from, n, v)[..k] == Fill(s[..k], from, n, v)
  {
  }

  /** The blocks of the file system that are not in use. */
  ghost function Unused(geo: Geometry, used: set<int>): set<int>
    requires geo.Valid()
  {
    Run(geo.first, geo.count - geo.first) - used
  }

  lemma {:induction false} ZeroBitsAre(s: seq<bool>, base: int, unused: set<int>)
    requires forall i :: 0 <= i < |s| ==> (!s[i] <==> base + i in unused)
    ensures ZeroBits(s) == |unused * Run(base, |s|)|
    decreases |s|
  {
    hide Run;
    if |s| == 0 {
      assert unused * Run(base, |s|) == {};
    } else {
      var last := |s| - 1;
      ZeroBitsAre(s[..last], base, unused);
      if s[last] {
        assert unused * Run(base, |s|) == unused * Run(base, last);
      } else {
        assert unused * Run(base, |s|) == unused * Run(base, last) + {base + last};
      }
    }
  }

  /** How many elements of s lie in [b, b + n). */
  ghost function Hits(s: set<int>, b: int, n: nat): nat {
    |s * Run(b, n)|
  }

  lemma NoHits(s: set<int>, b: int)
    ensures Hits(s, b, 0) == 0
  {
    assert s * Run(b, 0) == {};
  }

  lemma HitsAdd(s: set<int>, b: int, m: nat, n: nat)
    ensures Hits(s, b, m + n) == Hits(s, b, m) + Hits(s, b + m, n)
  {
    hide Run;
    RunSplit(s, b, m, n);
    assert (s - Run(b, m)) * Run(b + m, n) == s * Run(b + m, n);
  }

  lemma SumPrefix(s: seq<nat>, k: nat)
    requires k < |s|
    ensures Sum(s[..k + 1]) == Sum(s[..k]) + s[k]
  {
    assert s[..k + 1][..k] == s[..k];
  }

  lemma GroupUnused(geo: Geometry, bits: seq<seq<bool>>, used: set<int>, free: seq<nat>, g: nat)
    requires geo.Valid() && Tied(geo, bits, used) && Counted(bits, free) && g < |free|
    ensures free[g] == Hits(Unused(geo, used), geo.GroupFirst(g), geo.perGroup)
  {
    hide Geometry.GroupFirst, Geometry.Groups, ZeroBits, Run;
    var base := geo.GroupFirst(g);
    assert forall i :: 0 <= i < geo.perGroup ==> (bits[g][i] <==> Marked(geo, used, base + i));
    ZeroBitsAre(bits[g], base, Unused(geo, used));
  }

  lemma {:induction false} FreeBelow(geo: Geometry, bits: seq<seq<bool>>, used: set<int>, free: seq<nat>, k: nat)
    requires geo.Valid() && Tied(geo, bits, used) && Counted(bits, free) && k <= |free|
    ensures Sum(free[..k]) == Hits(Unused(geo, used), geo.first, geo.GroupFirst(k) - geo.first)
    decreases k
  {
    hide Geometry.GroupFirst, Geometry.Groups, Tied, Counted, Unused, Hits;
    var unused := Unused(geo, used);
    if k == 0 {
      geo.GroupZero();
      NoHits(unused, geo.first);
    } else {
      FreeBelow(geo, bits, used, free, k - 1);
      SumPrefix(free, k - 1);
      geo.NextGroup(k - 1, k);
      GroupUnused(geo, bits, used, free, k - 1);
      HitsAdd(unused, geo.first, geo.GroupFirst(k - 1) - geo.first, geo.perGroup);
    }
  }

  /** The free counts add up to the number of blocks not in use. */
  lemma FreeIsUnused(geo: Geometry, bits: seq<seq<bool>>, used: set<int>, free: seq<nat>)
    requires geo.Valid() && Tied(geo, bits, used) && Counted(bits, free)
    ensures Sum(free) == |Unused(geo, used)|
  {
    hide Geometry.GroupFirst, Geometry.Groups, Geometry.GroupOf, Geometry.BitOf, Run, ZeroBits, Sum;
    FreeBelow(geo, bits, used, free, |free|);
    assert free[..|free|] == free;
    geo.Locate(geo.count - 1);
    geo.NextGroup(geo.GroupOf(geo.count - 1), geo.Groups());
    assert Unused(geo, used) * Run(geo.first, geo.GroupFirst(|free|) - geo.first) == Unused(geo, used);
  }
}
