/**
 Cutting a pointer tree along the path of the first block to go: which slots a
 cut at level j clears, and that this leaves exactly the blocks before it.

 q is the path of the first block to go; p is any list of slots.
 */
module CutPath {
  import opened BlockPath
  import opened PointerTree

  /** p runs through a slot that the cut clears at level l: to the right of the
      path q in the node that q meets there, and on q itself where the cut ends. */
  predicate SweptAt(q: seq<nat>, l: nat, j: nat, p: seq<nat>)
    requires l < |q|
  {
    l < |p| && p[..l] == q[..l] && (p[l] > q[l] || (l == j && p[l] == q[l]))
  }

  /** p runs through a slot cleared at one of the levels from i to j. */
  predicate Swept(q: seq<nat>, i: nat, j: nat, p: seq<nat>)
    requires j < |q|
    decreases j + 1 - i
  {
    i <= j && (SweptAt(q, i, j, p) || Swept(q, i + 1, j, p))
  }

  lemma {:induction false} SweptFrom(q: seq<nat>, i: nat, j: nat, p: seq<nat>)
    requires j < |q|
    ensures Swept(q, i, j, p) <==> exists l :: i <= l <= j && SweptAt(q, l, j, p)
    decreases j + 1 - i
  {
    if i <= j {
      SweptFrom(q, i + 1, j, p);
      if Swept(q, i, j, p) && !SweptAt(q, i, j, p) {
        var l :| i + 1 <= l <= j && SweptAt(q, l, j, p);
      }
    }
  }

  /** Lexicographic order by the first difference. */
  lemma {:induction false} LexFirst(p: seq<nat>, q: seq<nat>, d: nat)
    requires d < |p| && d < |q| && p[..d] == q[..d] && p[d] != q[d]
    ensures LexLess(p, q) <==> p[d] < q[d]
    decreases d
  {
    if d > 0 {
      assert p[0] == p[..d][0] == q[..d][0] == q[0];
      assert p[1..][..d - 1] == p[..d][1..];
      assert q[1..][..d - 1] == q[..d][1..];
      LexFirst(p[1..], q[1..], d - 1);
    }
  }

  lemma {:induction false} LexSelf(p: seq<nat>)
    ensures !LexLess(p, p)
  {
    if |p| > 0 {
      LexSelf(p[1..]);
    }
  }

  /** Where two paths first differ, or that they do not. */
  function FirstDifference(p: seq<nat>, q: seq<nat>): (d: nat)
    ensures d <= |p| && d <= |q| && p[..d] == q[..d]
    ensures d < |p| && d < |q| ==> p[d] != q[d]
  {
    if |p| == 0 || |q| == 0 || p[0] != q[0] then 0
    else
      var d := FirstDifference(p[1..], q[1..]);
      assert p[..d + 1] == [p[0]] + p[1..][..d] && q[..d + 1] == [q[0]] + q[1..][..d];
      d + 1
  }

  lemma {:induction false} AgreeThrough(p: seq<nat>, q: seq<nat>, n: nat)
    requires n <= |p| && n <= |q| && p[..n] == q[..n]
    ensures FirstDifference(p, q) >= n
  {
    if n > 0 {
      assert p[0] == p[..n][0] == q[..n][0] == q[0];
      assert p[1..][..n - 1] == p[..n][1..] == q[..n][1..] == q[1..][..n - 1];
      AgreeThrough(p[1..], q[1..], n - 1);
    }
  }

  lemma LessDiffers(p: seq<nat>, q: seq<nat>)
    requires |p| == |q| && LexLess(p, q)
    ensures FirstDifference(p, q) < |p|
  {
    var d := FirstDifference(p, q);
    if p[..d] == p && q[..d] == q {
      LexSelf(q);
    }
  }

  /** Valid paths that agree in the first slot are equally long. */
  lemma SameLength(ptrs: nat, p: seq<nat>, q: seq<nat>)
    requires ptrs >= 16 && ValidPath(ptrs, p) && ValidPath(ptrs, q) && p[0] == q[0]
    ensures |p| == |q|
  {
  }

  lemma PrefixDiffers(p: seq<nat>, q: seq<nat>, d: nat, l: nat)
    requires d < l <= |p| && l <= |q| && p[d] != q[d]
    ensures p[..l] != q[..l]
  {
    assert p[..l][d] == p[d] && q[..l][d] == q[d];
  }

  /** A whole path escapes the cut exactly when it comes before q, except that
      paths before q that run through q's slot at the cut's end are cut too. */
  lemma SweptIsNotBefore(ptrs: nat, q: seq<nat>, j: nat, p: seq<nat>)
    requires ptrs >= 16 && ValidPath(ptrs, p) && ValidPath(ptrs, q) && j < |q|
    ensures !Swept(q, 0, j, p) ==> LexLess(p, q)
    ensures Swept(q, 0, j, p) && LexLess(p, q) ==> |p| == |q| && p[..j + 1] == q[..j + 1]
  {
    var d := FirstDifference(p, q);
    SweptFrom(q, 0, j, p);
    if d > 0 {
      assert p[0] == p[..d][0] == q[..d][0] == q[0];
      SameLength(ptrs, p, q);
    }
    if d == |p| {
      assert p == p[..d] && q == q[..d];
      LexSelf(q);
      assert SweptAt(q, j, j, p);
    } else {
      LexFirst(p, q, d);
      if d > j {
        assert p[..j] == p[..d][..j] && q[..j] == q[..d][..j] && p[j] == p[..d][j] == q[..d][j];
        assert SweptAt(q, j, j, p);
        assert p[..j + 1] == p[..d][..j + 1] && q[..j + 1] == q[..d][..j + 1];
      } else if p[d] > q[d] {
        assert SweptAt(q, d, j, p);
      } else {
        forall l | 0 <= l <= j
          ensures !SweptAt(q, l, j, p)
        {
          if d < l < |p| {
            PrefixDiffers(p, q, d, l);
          } else if l < d {
            assert p[l] == p[..d][l] == q[..d][l] == q[l];
          }
        }
      }
    }
  }

  /** A cut below which nothing before q was mapped keeps just what is before q. */
  lemma CutKeepsBefore(ptrs: nat, q: seq<nat>, j: nat, p: seq<nat>, before: nat, after: nat)
    requires ptrs >= 16 && ValidPath(ptrs, p) && ValidPath(ptrs, q) && j < |q|
    requires |p| == |q| && p[..j + 1] == q[..j + 1] && LexLess(p, q) ==> before == 0
    requires after == if Swept(q, 0, j, p) then 0 else before
    ensures after == if LexLess(p, q) then before else 0
  {
    SweptIsNotBefore(ptrs, q, j, p);
  }

  // ---------- the state of a tree before and after a cut ----------

  /** Nothing is mapped to the left of q below the slot where the cut ends. */
  ghost predicate NothingBefore(ptrs: nat, w: Device, s: seq<nat>, q: seq<nat>, j: nat)
    requires j < |q|
  {
    forall p :: ValidPath(ptrs, p) && |p| == |q| && p[..j + 1] == q[..j + 1] && LexLess(p, q) ==> Lookup(w, s, p) == 0
  }

  /** The walk down q stopped at level m, or went through to the last level
      k - 1 before a tail of zero offsets, and from m up to j everything to the
      left was empty: then nothing is mapped before q below level j. */
  lemma NothingMappedBefore(ptrs: nat, w: Device, s: seq<nat>, q: seq<nat>, k: nat, m: nat, j: nat)
    requires ptrs >= 16 && ValidPath(ptrs, q) && j <= m < k <= |q|
    requires forall t :: k <= t < |q| ==> q[t] == 0
    requires m < k - 1 ==> Lookup(w, s, q[..m + 1]) == 0
    requires forall i, x :: j < i <= m && 0 <= x < q[i] ==> Lookup(w, s, q[..i] + [x]) == 0
    ensures NothingBefore(ptrs, w, s, q, j)
  {
    forall p | ValidPath(ptrs, p) && |p| == |q| && p[..j + 1] == q[..j + 1] && LexLess(p, q)
      ensures Lookup(w, s, p) == 0
    {
      var d := FirstDifference(p, q);
      LessDiffers(p, q);
      LexFirst(p, q, d);
      AgreeThrough(p, q, j + 1);
      if d <= m {
        assert p[..d + 1] == q[..d] + [p[d]];
        LookupStops(w, s, p, d + 1);
      } else {
        assert p[..m + 1] == p[..d][..m + 1] == q[..d][..m + 1] == q[..m + 1];
        LookupStops(w, s, p, m + 1);
      }
    }
  }

  /** r leads to an indirect block. */
  predicate LeadsToNode(w: Device, s: seq<nat>, r: seq<nat>) {
    |r| > 0 && Height(Root, r[0]) >= |r| && Lookup(w, s, r) != 0
  }

  /** The block that r leads to has a pointer in one of its first n slots. */
  ghost predicate HasPointer(n: nat, w: Device, s: seq<nat>, r: seq<nat>) {
    exists x: nat :: x < n && Lookup(w, s, r + [x]) != 0
  }

  /** No indirect block of the tree is empty. */
  ghost predicate NoneEmpty(ptrs: nat, w: Device, s: seq<nat>) {
    forall r: seq<nat> {:trigger HasPointer(ptrs, w, s, r)} :: LeadsToNode(w, s, r) ==> HasPointer(ptrs, w, s, r)
  }

  lemma SweptChild(q: seq<nat>, j: nat, r: seq<nat>, x: nat)
    requires j < |q|
    ensures Swept(q, 0, j, r + [x]) <==>
            Swept(q, 0, j, r) || (|r| <= j && r == q[..|r|] && (x > q[|r|] || (|r| == j && x == q[j])))
  {
    var p := r + [x];
    SweptFrom(q, 0, j, p);
    SweptFrom(q, 0, j, r);
    forall l | 0 <= l <= j && l < |r|
      ensures SweptAt(q, l, j, p) <==> SweptAt(q, l, j, r)
    {
      assert p[..l] == r[..l];
    }
    assert p[..|r|] == r;
    if |r| <= j {
      assert SweptAt(q, |r|, j, p) <==> r == q[..|r|] && (x > q[|r|] || (|r| == j && x == q[j]));
    }
  }

  /** A pointer in the node r that the cut keeps, if it keeps the node. */
  lemma PointerKept(ptrs: nat, w: Device, s: seq<nat>, q: seq<nat>, j: nat, r: seq<nat>) returns (x: nat)
    requires ValidPath(ptrs, q) && j < |q| && LeadsToNode(w, s, r) && HasPointer(ptrs, w, s, r) && !Swept(q, 0, j, r)
    requires forall l :: 0 < l <= j ==> Lookup(w, s, q[..l]) != 0
    requires j > 0 ==> HasPointer(q[j], w, s, q[..j])
    ensures x < ptrs && Lookup(w, s, r + [x]) != 0 && !Swept(q, 0, j, r + [x])
  {
    var l := |r|;
    if l <= j && r == q[..l] {
      if l == j {
        x :| x < q[j] && Lookup(w, s, q[..j] + [x]) != 0;
      } else {
        x := q[l];
        assert q[..l] + [x] == q[..l + 1];
      }
    } else {
      x :| x < ptrs && Lookup(w, s, r + [x]) != 0;
    }
    SweptChild(q, j, r, x);
  }

  /** A cut that ends in a node with something left leaves no empty node. */
  lemma NoneEmptyKept(ptrs: nat, w: Device, s: seq<nat>, v: Device, t: seq<nat>, q: seq<nat>, j: nat)
    requires ValidPath(ptrs, q) && j < |q| && NoneEmpty(ptrs, w, s)
    requires forall p :: Inside(Root, p) ==> Lookup(v, t, p) == if Swept(q, 0, j, p) then 0 else Lookup(w, s, p)
    requires forall l :: 0 < l <= j ==> Lookup(w, s, q[..l]) != 0
    requires j > 0 ==> HasPointer(q[j], w, s, q[..j])
    ensures NoneEmpty(ptrs, v, t)
  {
    hide Swept, Lookup;
    forall r: seq<nat> | LeadsToNode(v, t, r)
      ensures HasPointer(ptrs, v, t, r)
    {
      assert Inside(Root, r);
      assert HasPointer(ptrs, w, s, r);
      var x := PointerKept(ptrs, w, s, q, j, r);
      assert Inside(Root, r + [x]);
    }
  }
}
