/**
 The file-system wide tree of block reservation windows. Every file that
 allocates blocks may own one window; the tree keeps them ordered by block
 number behind one permanent dummy window [0, 0].

 The red-black tree is modelled by the sequence of its windows in order. A walk
 from the root to a leaf picks an arbitrary pivot among the windows still in
 question, so what is proved holds for every shape the balancing may give it.
 */
module Reservation {
  import opened Bitmap

  const NOT_ALLOCATED: nat := 0
  const DEFAULT_RESERVE_BLOCKS: nat := 8
  const MAX_RESERVE_BLOCKS: nat := 1027

  class Window {
    var start: nat
    var end: nat
    var goalSize: nat
    var allocHit: nat

    constructor (goalSize: nat)
      ensures start == NOT_ALLOCATED && end == NOT_ALLOCATED
      ensures this.goalSize == goalSize && allocHit == 0
    {
      start, end := NOT_ALLOCATED, NOT_ALLOCATED;
      this.goalSize, allocHit := goalSize, 0;
    }

    predicate IsEmpty()
      reads this
    {
      end == NOT_ALLOCATED
    }
  }

  ghost predicate Ordered(s: seq<Window>)
    reads s
  {
    forall i, j :: 0 <= i < j < |s| ==> s[i].end < s[j].start
  }

  ghost predicate NonEmpty(s: seq<Window>)
    reads s
  {
    forall i :: 0 <= i < |s| ==> s[i].start <= s[i].end
  }

  /** Some window of s meets the blocks [c, c + size). */
  ghost predicate Blocked(s: seq<Window>, c: nat, size: nat)
    reads s
  {
    exists k :: 0 <= k < |s| && s[k].start < c + size && c <= s[k].end
  }

  ghost predicate AllBlocked(s: seq<Window>, lo: nat, hi: nat, size: nat)
    reads s
  {
    forall c {:trigger Blocked(s, c, size)} :: lo <= c < hi ==> Blocked(s, c, size)
  }

  // ---------- windows as spans of blocks ----------

  datatype Span = Span(start: nat, end: nat)

  /** The spans of the windows, but for one of them. */
  ghost function Spans(s: seq<Window>, but: Window?): set<Span>
    reads s
  {
    set w | w in s && w != but :: Span(w.start, w.end)
  }

  ghost predicate Meets(ts: set<Span>, c: nat, size: nat) {
    exists t :: t in ts && t.start < c + size && c <= t.end
  }

  /** The first start from lo on of `size` blocks that no span meets. */
  ghost predicate FirstGap(ts: set<Span>, lo: nat, c: nat, size: nat) {
    lo <= c && !Meets(ts, c, size) && forall d :: lo <= d < c ==> Meets(ts, d, size)
  }

  /** A search for a window: all windows and the other files' windows as they
      are at its beginning, the first block to start at, the size, and the
      group's first block and bits. */
  datatype Quest = Quest(all: set<Span>, others: set<Span>, first: nat, size: nat, groupFirst: nat, bits: seq<bool>) {
    function End(): nat {
      groupFirst + |bits|
    }

    ghost predicate FreeAt(b: nat) {
      groupFirst <= b < End() && !bits[b - groupFirst]
    }

    ghost predicate Free(lo: nat, hi: nat) {
      exists b: nat :: lo <= b < hi && FreeAt(b)
    }

    /** The search can come to the gap at c, and a free block is in it: c is the
        first gap from `first` on, or the first gap from a free block on that
        lies behind that gap; there the file's own old window does not count. */
    ghost predicate Reached(c: nat) {
      c < End() && Free(c, c + size) && (FirstGap(all, first, c, size) || Behind(c))
    }

    ghost predicate Behind(c: nat) {
      exists d: nat, b: nat :: FirstGap(all, first, d, size) && d + size <= b && FreeAt(b) && FirstGap(others, b, c, size)
    }

    /** Whatever the search can come to does not start before b. */
    ghost predicate NoneBefore(b: nat) {
      forall c: nat :: Reached(c) ==> b <= c
    }

    ghost predicate Hopeless() {
      forall c: nat :: !Reached(c)
    }

    /** It is the first gap that the search can come to. */
    ghost predicate FirstReached(c: nat) {
      Reached(c) && NoneBefore(c)
    }

    /** The first gap holds no free block: the search goes on at the first free one. */
    lemma AfterFirst(d: nat, next: nat)
      requires FirstGap(all, first, d, size) && d + size <= next && !Free(d, next)
      ensures NoneBefore(next)
    {
      forall c: nat | Reached(c)
        ensures next <= c
      {
        if FirstGap(all, first, c, size) {
          OneFirst(all, first, c, d, size);
        } else {
          var d': nat, b: nat :| FirstGap(all, first, d', size) && d' + size <= b && FreeAt(b) && FirstGap(others, b, c, size);
          OneFirst(all, first, d', d, size);
          assert b < next ==> Free(d, next);
        }
      }
    }

    lemma FirstIsReached(d: nat)
      requires FirstGap(all, first, d, size) && d < End() && Free(d, d + size)
      ensures FirstReached(d)
    {
      forall c: nat | Reached(c)
        ensures d <= c
      {
        if FirstGap(all, first, c, size) {
          OneFirst(all, first, c, d, size);
        } else {
          var d': nat, b: nat :| FirstGap(all, first, d', size) && d' + size <= b && FreeAt(b) && FirstGap(others, b, c, size);
          OneFirst(all, first, d', d, size);
        }
      }
    }

    /** The search goes on at a free block s behind the first gap d; from there
        the first gap is e. */
    lemma GapBounds(d: nat, s: nat, e: nat)
      requires FirstGap(all, first, d, size) && d + size <= s && NoneBefore(s) && FirstGap(others, s, e, size)
      ensures NoneBefore(e)
      ensures forall c: nat :: Reached(c) ==> c != d
    {
      forall c: nat | Reached(c)
        ensures e <= c && c != d
      {
        assert s <= c;
        if FirstGap(all, first, c, size) {
          OneFirst(all, first, c, d, size);
        }
        assert Behind(c) && !Meets(others, c, size);
      }
    }

    lemma NextIsReached(d: nat, s: nat, e: nat)
      requires FirstGap(all, first, d, size) && d + size <= s && FreeAt(s) && NoneBefore(s) && FirstGap(others, s, e, size)
      requires e < End() && Free(e, e + size)
      ensures FirstReached(e)
    {
      GapBounds(d, s, e);
    }

    lemma AfterNext(d: nat, s: nat, e: nat, next: nat)
      requires FirstGap(all, first, d, size) && d + size <= s && NoneBefore(s) && FirstGap(others, s, e, size)
      requires e + size <= next && !Free(e, next)
      ensures NoneBefore(next)
    {
      GapBounds(d, s, e);
      forall c: nat | Reached(c)
        ensures next <= c
      {
        assert e <= c && c != d;
        assert Behind(c) by {
          if FirstGap(all, first, c, size) { OneFirst(all, first, c, d, size); }
        }
        var d': nat, b: nat :| FirstGap(all, first, d', size) && d' + size <= b && FreeAt(b) && FirstGap(others, b, c, size);
      }
    }

    /** All starts behind s are taken. */
    lemma AllTaken(d: nat, s: nat)
      requires FirstGap(all, first, d, size) && d + size <= s && size > 0 && NoneBefore(s)
      requires forall c: nat :: s <= c < End() ==> Meets(others, c, size)
      ensures Hopeless()
    {
      forall c: nat
        ensures !Reached(c)
      {
        if FirstGap(all, first, c, size) { OneFirst(all, first, c, d, size); }
      }
    }

    lemma NothingToReach()
      requires forall c: nat :: first <= c < End() ==> Meets(all, c, size)
      ensures Hopeless()
    {
    }

    lemma NoFreeBehind(d: nat)
      requires FirstGap(all, first, d, size) && !Free(d, End())
      ensures Hopeless()
    {
      forall c: nat
        ensures !Reached(c)
      {
        if FirstGap(all, first, c, size) { OneFirst(all, first, c, d, size); }
        forall d': nat | FirstGap(all, first, d', size)
          ensures d' == d
        {
          OneFirst(all, first, d', d, size);
        }
      }
    }

    lemma NoneFree(lo: nat, hi: nat)
      requires groupFirst <= lo && hi <= End() && AllUsed(bits, lo - groupFirst, hi - groupFirst)
      ensures !Free(lo, hi)
    {
    }

    lemma FreeInside(b: nat, lo: nat)
      requires FreeAt(b) && lo <= b
      ensures forall hi: nat :: b < hi ==> Free(lo, hi)
    {
    }

    /** The search goes on from s: the first gap, at d, held no free block. */
    ghost predicate GoesOn(d: nat, s: nat) {
      FirstGap(all, first, d, size) && d + size <= s && FreeAt(s) && NoneBefore(s)
    }

    /** What the first round has found. */
    lemma FirstRound(gap: nat, ret: int, next: nat)
      requires RoundFound(all, first, gap, ret, next)
      ensures ret == -1 ==> Hopeless()
      ensures ret == 0 ==> FirstReached(gap)
      ensures ret == 1 ==> first <= gap && gap + size <= next < End() && GoesOn(gap, next)
    {
      hide Reached, FirstGap;
      if ret == -1 {
        if FirstGap(all, first, gap, size) && !Free(gap, End()) {
          NoFreeBehind(gap);
        } else {
          NothingToReach();
        }
      } else if ret == 0 {
        FirstIsReached(gap);
      } else if ret == 1 {
        AfterFirst(gap, next);
      }
    }

    /** How a round ends that starts at s among the given windows. */
    ghost predicate RoundFound(ts: set<Span>, s: nat, gap: nat, ret: int, next: nat) {
      && (ret == -1 ==>
            || (forall c: nat :: s <= c < End() ==> Meets(ts, c, size))
            || (FirstGap(ts, s, gap, size) && !Free(gap, End())))
      && (ret >= 0 ==> FirstGap(ts, s, gap, size) && s <= gap < End() && FreeAt(next))
      && (ret == 0 ==> Free(gap, gap + size))
      && (ret == 1 ==> gap + size <= next && !Free(gap, next))
    }

    lemma SameRound(q: Quest, s: nat, gap: nat, ret: int, next: nat)
      requires RoundFound(all, s, gap, ret, next) && q.groupFirst == groupFirst && q.bits == bits && q.size == size
      ensures q.RoundFound(all, s, gap, ret, next)
    {
      assert forall b: nat :: q.FreeAt(b) <==> FreeAt(b);
    }

    /** What a later round has found, with the file's own window behind it. */
    lemma LaterRound(d: nat, t: Span, s: nat, gap: nat, ret: int, next: nat)
      requires GoesOn(d, s) && size > 0
      requires t.end < s && RoundFound(others + {t}, s, gap, ret, next)
      ensures ret == -1 ==> Hopeless()
      ensures ret == 0 ==> FirstReached(gap)
      ensures ret == 1 ==> s <= gap && gap + size <= next < End() && GoesOn(d, next)
    {
      hide Reached, Meets;
      SpanBehind(others, t, s, size);
      assert FirstGap(others + {t}, s, gap, size) <==> FirstGap(others, s, gap, size);
      if ret == -1 {
        if FirstGap(others, s, gap, size) && !Free(gap, End()) {
          GapBounds(d, s, gap);
          NoMore(s, gap);
        } else {
          AllTaken(d, s);
        }
      } else if ret == 0 {
        NextIsReached(d, s, gap);
      } else if ret == 1 {
        AfterNext(d, s, gap, next);
      }
    }

    /** No gap is left, or no free block behind the one there is. */
    lemma NoMore(s: nat, e: nat)
      requires NoneBefore(s) && s <= e && !Free(e, End()) && NoneBefore(e)
      ensures Hopeless()
    {
      forall c: nat
        ensures !Reached(c)
      {
      }
    }
  }

  /** A span that ends before s takes no start from s on. */
  lemma SpanBehind(ts: set<Span>, t: Span, s: nat, size: nat)
    requires t.end < s
    ensures forall c: nat :: s <= c ==> (Meets(ts + {t}, c, size) <==> Meets(ts, c, size))
  {
    forall c: nat | s <= c
      ensures Meets(ts + {t}, c, size) <==> Meets(ts, c, size)
    {
      if Meets(ts, c, size) {
        var u :| u in ts && u.start < c + size && c <= u.end;
        assert u in ts + {t};
      }
    }
  }

  lemma BlockedMeets(s: seq<Window>, c: nat, size: nat)
    ensures Blocked(s, c, size) <==> Meets(Spans(s, null), c, size)
  {
    if Blocked(s, c, size) {
      var k :| 0 <= k < |s| && s[k].start < c + size && c <= s[k].end;
      assert Span(s[k].start, s[k].end) in Spans(s, null);
    }
  }

  /** A gap may hold a free block, and the search pass it over: here blocks 13 to
      20 are in no window, and 20 is free, but from 10 on the search comes to
      the gap at 10, and from there to block 20, right before a window. */
  lemma GapPassedOver(bits: seq<bool>)
    requires |bits| == 130 && forall i :: 0 <= i < 130 ==> (bits[i] <==> i != 20)
    ensures var q := Quest({Span(21, 200)}, {Span(21, 200)}, 10, 8, 0, bits);
            q.first <= 13 < q.End() && !Meets(q.all, 13, q.size) && q.Free(13, 13 + q.size) && q.Hopeless()
  {
    var ts := {Span(21, 200)};
    var q := Quest(ts, ts, 10, 8, 0, bits);
    assert q.FreeAt(20);
    assert Span(21, 200) in ts;
    forall c: nat
      ensures !q.Reached(c)
    {
      assert !Meets(ts, 10, 8);
    }
  }

  /** The windows from the i-th on and those before it leave the gap at c. */
  lemma GapMeetsNone(s: seq<Window>, i: nat, c: nat, size: nat)
    requires i <= |s| && forall k :: 0 <= k < i ==> s[k].end < c
    requires forall k :: i <= k < |s| ==> c + size <= s[k].start
    ensures !Blocked(s, c, size)
  {
  }

  /** The same of windows and of their spans. */
  lemma SpansOf(s: seq<Window>, lo: nat, hi: nat, size: nat)
    ensures AllBlocked(s, lo, hi, size) ==> forall d: nat :: lo <= d < hi ==> Meets(Spans(s, null), d, size)
    ensures forall c: nat :: lo <= c && AllBlocked(s, lo, c, size) && !Blocked(s, c, size) ==> FirstGap(Spans(s, null), lo, c, size)
  {
    forall d: nat
      ensures Meets(Spans(s, null), d, size) <==> Blocked(s, d, size)
    {
      BlockedMeets(s, d, size);
    }
  }

  lemma OneFirst(ts: set<Span>, lo: nat, c: nat, d: nat, size: nat)
    requires FirstGap(ts, lo, c, size) && FirstGap(ts, lo, d, size)
    ensures c == d
  {
  }

  /** A gap search may skip from c to the block after the window it ran into. */
  lemma BlockedUpTo(s: seq<Window>, i: nat, c: nat, size: nat)
    requires i < |s| && s[i].start < c + size
    ensures AllBlocked(s, c, s[i].end + 1, size)
  {
  }

  lemma InsertKeepsOrder(s: seq<Window>, w: Window, at: nat)
    requires at <= |s| && NonEmpty(s) && Ordered(s) && w.start <= w.end
    requires forall k :: 0 <= k < at ==> s[k].end < w.start
    requires forall k :: at <= k < |s| ==> w.end < s[k].start
    ensures NonEmpty(s[..at] + [w] + s[at..]) && Ordered(s[..at] + [w] + s[at..])
  {
    var t := s[..at] + [w] + s[at..];
    forall i, j | 0 <= i < j < |t|
      ensures t[i].end < t[j].start
    {
      assert t[i] == if i < at then s[i] else if i == at then w else s[i - 1];
      assert t[j] == if j < at then s[j] else if j == at then w else s[j - 1];
    }
  }

  lemma RemoveAt<T>(s: seq<T>, at: nat, i: nat)
    requires at < |s| && i < |s| - 1
    ensures (s[..at] + s[at + 1..])[i] == s[if i < at then i else i + 1]
  {
  }

  lemma RemoveKeepsOrder(s: seq<Window>, at: nat)
    requires at < |s| && NonEmpty(s) && Ordered(s)
    ensures var t := s[..at] + s[at + 1..];
            && NonEmpty(t) && Ordered(t)
            && (forall x :: x in t <==> x in s && x != s[at])
  {
    var t := s[..at] + s[at + 1..];
    forall i, j | 0 <= i < j < |t|
      ensures t[i].end < t[j].start
    {
      RemoveAt(s, at, i);
      RemoveAt(s, at, j);
    }
    forall i | 0 <= i < |t|
      ensures t[i] in s && t[i] != s[at] && t[i].start <= t[i].end
    {
      RemoveAt(s, at, i);
    }
    forall i | 0 <= i < |s| && i != at
      ensures s[i] in t
    {
      var k := if i < at then i else i - 1;
      RemoveAt(s, at, k);
      assert t[k] == s[i];
    }
  }

  method SetEnds(w: Window, start: nat, end: nat, hit: nat, ghost s: seq<Window>, ghost at: nat)
    requires at < |s| && s[at] == w && NonEmpty(s) && Ordered(s) && start <= end
    requires forall k :: 0 <= k < at ==> s[k].end < start
    requires forall k :: at < k < |s| ==> end < s[k].start
    modifies w`start, w`end, w`allocHit
    ensures w.start == start && w.end == end && w.allocHit == hit && NonEmpty(s) && Ordered(s)
  {
    assert forall k :: 0 <= k < |s| && k != at ==> s[k] != w;
    w.start := start;
    w.end := end;
    w.allocHit := hit;
  }

  /** The size to ask for when a window of `size` blocks is replaced: twice the
      last one, within the limit, if more than half of the window was used. */
  function NextGoal(goal: nat, hits: nat, size: nat): nat {
    if hits > size / 2 then (if goal * 2 > MAX_RESERVE_BLOCKS then MAX_RESERVE_BLOCKS else goal * 2) else goal
  }

  class WindowTree {
    var nodes: seq<Window>
    const head: Window
    ghost var known: set<Window> // the windows owned by files

    ghost predicate Valid()
      reads this, head, known, nodes
    {
      && head !in known && head.start == NOT_ALLOCATED && head.end == NOT_ALLOCATED
      && |nodes| > 0 && nodes[0] == head
      && (forall x :: x in nodes ==> x == head || x in known)
      && NonEmpty(nodes) && Ordered(nodes)
      && (forall w :: w in known ==> (w in nodes <==> !w.IsEmpty()))
      && (forall w :: w in known ==> w.goalSize <= MAX_RESERVE_BLOCKS)
      && (forall w :: w in known && w.IsEmpty() ==> w.start == NOT_ALLOCATED)
    }

    /** Only w may have entered or left the tree. */
    twostate predicate OthersKept(w: Window)
      reads this
    {
      && (forall x :: x in nodes && x != w ==> x in old(nodes))
      && (forall x :: x in old(nodes) && x != w ==> x in nodes)
    }

    /** An empty tree gets its dummy window. */
    constructor ()
      ensures Valid() && nodes == [head] && known == {} && fresh(head)
    {
      head := new Window(0);
      nodes := [];
      known := {};
      new;
      var _ := Add(head);
    }

    /** A file gets its (still empty) window. */
    method Open(withReservation: bool) returns (w: Window)
      requires Valid()
      modifies this`known
      ensures Valid() && fresh(w) && known == old(known) + {w} && w.IsEmpty() && w.start == NOT_ALLOCATED && w.allocHit == 0
      ensures w.goalSize == if withReservation then DEFAULT_RESERVE_BLOCKS else 0
    {
      w := new Window(if withReservation then DEFAULT_RESERVE_BLOCKS else 0);
      known := known + {w};
    }

    /** The ioctl that sets a file's window size. */
    method SetGoalSize(w: Window, size: nat)
      requires Valid() && w in known
      modifies w`goalSize
      ensures Valid()
      ensures w.goalSize == if size > MAX_RESERVE_BLOCKS then MAX_RESERVE_BLOCKS else size
    {
      w.goalSize := if size > MAX_RESERVE_BLOCKS then MAX_RESERVE_BLOCKS else size;
    }

    /** An allocation of n blocks asks for a window of at least that size. */
    method RaiseGoalSize(w: Window, n: nat)
      requires Valid() && w in known && w.goalSize < n <= MAX_RESERVE_BLOCKS
      modifies w`goalSize
      ensures Valid() && w.goalSize == n
    {
      w.goalSize := n;
    }

    /** n blocks were taken from the window. */
    method Hit(w: Window, n: nat)
      requires Valid() && w in known
      modifies w`allocHit
      ensures Valid() && w.allocHit == old(w.allocHit) + n
    {
      w.allocHit := w.allocHit + n;
    }

    /** The last window that starts at or before the goal. */
    method Search(goal: nat) returns (at: nat)
      requires Valid()
      ensures at < |nodes| && nodes[at].start <= goal
      ensures at + 1 < |nodes| ==> goal < nodes[at + 1].start
    {
      var lo, hi := 0, |nodes|;
      at := 0;
      while lo < hi
        invariant 0 <= lo <= hi <= |nodes|
        invariant forall k :: 0 <= k < lo ==> nodes[k].end < goal
        invariant forall k :: hi <= k < |nodes| ==> goal < nodes[k].start
        invariant lo < hi || at + 1 == lo || at == hi < |nodes|
        decreases hi - lo
      {
        at :| lo <= at < hi;
        if goal < nodes[at].start {
          hi := at;
        } else if goal > nodes[at].end {
          lo := at + 1;
        } else {
          return;
        }
      }
      // fallen off the tree: step back if the goal lies to the left
      if nodes[at].start > goal {
        at := at - 1;
      }
    }

    /** Put a window that meets no other into the tree. The source's BUG for an
        overlapping start is the branch proved dead. */
    method Add(w: Window) returns (at: nat)
      requires NonEmpty(nodes) && Ordered(nodes) && w !in nodes && w.start <= w.end
      requires forall x :: x in nodes ==> x.end < w.start || w.end < x.start
      modifies this`nodes
      ensures at <= |old(nodes)| && nodes == old(nodes)[..at] + [w] + old(nodes)[at..]
      ensures NonEmpty(nodes) && Ordered(nodes)
      ensures forall k :: 0 <= k < at ==> old(nodes)[k].end < w.start
      ensures forall k :: at <= k < |old(nodes)| ==> w.end < old(nodes)[k].start
    {
      var lo, hi := 0, |nodes|;
      while lo < hi
        invariant 0 <= lo <= hi <= |nodes|
        invariant forall k :: 0 <= k < lo ==> nodes[k].end < w.start
        invariant forall k :: hi <= k < |nodes| ==> w.end < nodes[k].start
        decreases hi - lo
      {
        var pivot: nat :| lo <= pivot < hi;
        assert nodes[pivot] in nodes;
        if w.start < nodes[pivot].start {
          hi := pivot;
        } else if w.start > nodes[pivot].end {
          lo := pivot + 1;
        } else {
          assert false;
        }
      }
      at := lo;
      InsertKeepsOrder(nodes, w, at);
      nodes := nodes[..at] + [w] + nodes[at..];
    }

    /** The place of a window of the tree; the source holds a pointer to it. */
    method Position(w: Window) returns (at: nat)
      requires w in nodes
      ensures at < |nodes| && nodes[at] == w
    {
      at := 0;
      while at < |nodes| && nodes[at] != w
        invariant 0 <= at <= |nodes|
        invariant forall k :: 0 <= k < at ==> nodes[k] != w
      {
        at := at + 1;
      }
    }

    method Remove(w: Window)
      requires Valid() && w in known && w in nodes
      modifies this`nodes, w
      ensures Valid() && w.IsEmpty() && w.start == NOT_ALLOCATED && w.allocHit == 0
      ensures w.goalSize == old(w.goalSize)
      ensures forall x :: x in nodes <==> x in old(nodes) && x != w
    {
      hide Ordered, NonEmpty;
      var at := Position(w);
      var rest := nodes[..at] + nodes[at + 1..];
      RemoveKeepsOrder(nodes, at);
      assert at > 0 && rest[0] == head;
      w.start := NOT_ALLOCATED;
      w.end := NOT_ALLOCATED;
      w.allocHit := 0;
      assert NonEmpty(rest) && Ordered(rest);
      nodes := rest;
    }

    /** Give a window up, on the last close, on truncation or on eviction. */
    method Discard(w: Window)
      requires Valid() && w in known
      modifies this`nodes, w
      ensures Valid() && w.IsEmpty() && w.start == NOT_ALLOCATED && w.goalSize == old(w.goalSize)
      ensures w.allocHit == if old(w.IsEmpty()) then old(w.allocHit) else 0
      ensures OthersKept(w) && w !in nodes
    {
      if !w.IsEmpty() {
        Remove(w);
      }
    }

    /** First fit: from the window at `at` on, the first gap of `size` blocks
        that starts in [startBlock, lastBlock]. It lies right before nodes[i]. */
    method FindGap(at: nat, size: nat, startBlock: nat, lastBlock: nat) returns (found: bool, cur: nat, i: nat)
      requires Valid() && size > 0
      requires at < |nodes| && nodes[at].start <= startBlock
      ensures !found ==> AllBlocked(nodes, startBlock, lastBlock + 1, size)
      ensures found ==>
                && startBlock <= cur <= lastBlock && 0 < i <= |nodes|
                && (forall k :: 0 <= k < i ==> nodes[k].end < cur)
                && (forall k :: i <= k < |nodes| ==> cur + size <= nodes[k].start)
                && AllBlocked(nodes, startBlock, cur, size)
    {
      cur, i := startBlock, at;
      while true
        invariant at <= i < |nodes| && startBlock <= cur
        invariant nodes[i].start < cur + size
        invariant forall k :: 0 <= k < i ==> nodes[k].end < cur
        invariant AllBlocked(nodes, startBlock, cur, size)
        decreases |nodes| - i
      {
        if cur <= nodes[i].end {
          BlockedUpTo(nodes, i, cur, size);
          cur := nodes[i].end + 1;
        }
        if cur > lastBlock {
          return false, cur, i;
        }
        i := i + 1;
        if i == |nodes| || cur + size <= nodes[i].start {
          return true, cur, i;
        }
      }
    }

    /** Move the ends of a window of the tree within the room its neighbours leave. */
    method Resize(my: Window, at: nat, start: nat, end: nat, hit: nat)
      requires Valid() && my in known && at < |nodes| && nodes[at] == my && start <= end
      requires forall k :: 0 <= k < at ==> nodes[k].end < start
      requires forall k :: at < k < |nodes| ==> end < nodes[k].start
      modifies my`start, my`end, my`allocHit
      ensures Valid() && my.start == start && my.end == end && my.allocHit == hit
    {
      hide Ordered, NonEmpty;
      assert at > 0;
      SetEnds(my, start, end, hit, nodes, at);
    }

    /** Put an empty window into the gap [cur, cur + size). */
    method Insert(my: Window, cur: nat, size: nat)
      requires Valid() && my in known && my.IsEmpty() && size > 0
      requires forall x :: x in nodes ==> x.end < cur || cur + size <= x.start
      modifies this`nodes, my
      ensures Valid() && my.goalSize == old(my.goalSize) && OthersKept(my)
      ensures my in nodes && my.start == cur && my.end == cur + size - 1 && my.allocHit == 0
    {
      hide Ordered, NonEmpty;
      assert my !in nodes && head in nodes;
      my.start := cur;
      my.end := cur + size - 1;
      my.allocHit := 0;
      var at := Add(my);
      assert nodes[0] == head;
    }

    /** Book the gap right before nodes[i] for the window `my`. */
    method Book(my: Window, i: nat, cur: nat, size: nat)
      requires Valid() && my in known && 0 < i <= |nodes| && size > 0
      requires forall k :: 0 <= k < i ==> nodes[k].end < cur
      requires forall k :: i <= k < |nodes| ==> cur + size <= nodes[k].start
      modifies this`nodes, my
      ensures Valid() && my.goalSize == old(my.goalSize) && OthersKept(my)
      ensures my in nodes && my.start == cur && my.end == cur + size - 1 && my.allocHit == 0
    {
      hide Ordered, NonEmpty, Valid;
      if nodes[i - 1] != my {
        assert forall x :: x in nodes ==> x.end < cur || cur + size <= x.start;
        Discard(my);
        Insert(my, cur, size);
      } else {
        Resize(my, i - 1, cur, cur + size - 1, 0);
      }
    }

    /** First fit for the window's goal size; on success the window moves there. */
    method FindNextReservable(at: nat, my: Window, startBlock: nat, lastBlock: nat) returns (ret: int)
      requires Valid() && my in known && my.goalSize > 0
      requires at < |nodes| && nodes[at].start <= startBlock
      modifies this`nodes, my
      ensures Valid() && my.goalSize == old(my.goalSize)
      ensures OthersKept(my)
      ensures ret == -1 || ret == 0
      ensures ret == -1 ==> nodes == old(nodes) && unchanged(my)
      ensures ret == -1 ==> old(AllBlocked(nodes, startBlock, lastBlock + 1, my.goalSize))
      ensures ret == 0 ==>
                && my in nodes && my.allocHit == 0
                && startBlock <= my.start <= lastBlock && my.end == my.start + my.goalSize - 1
      ensures ret == 0 ==> var s := my.start; old(AllBlocked(nodes, startBlock, s, my.goalSize) && !Blocked(nodes, s, my.goalSize))
      ensures var all := old(Spans(nodes, null));
              && (ret == -1 ==> forall c: nat :: startBlock <= c < lastBlock + 1 ==> Meets(all, c, my.goalSize))
              && (ret == 0 ==> FirstGap(all, startBlock, my.start, my.goalSize))
      ensures Spans(nodes, my) == old(Spans(nodes, my))
    {
      hide Meets, FirstGap;
      SpansOf(nodes, startBlock, lastBlock + 1, my.goalSize);
      var found, cur, i := FindGap(at, my.goalSize, startBlock, lastBlock);
      if !found {
        SameSpans(my);
        return -1;
      }
      GapMeetsNone(nodes, i, cur, my.goalSize);
      Book(my, i, cur, my.goalSize);
      OtherSpans(my);
      ret := 0;
    }

    twostate lemma SameSpans(my: Window)
      requires nodes == old(nodes) && my.start == old(my.start) && my.end == old(my.end)
      requires forall w :: w in nodes && w != my ==> unchanged(w)
      ensures Spans(nodes, my) == old(Spans(nodes, my)) && Spans(nodes, null) == old(Spans(nodes, null))
    {
    }

    /** The other windows' spans are as they were. */
    twostate lemma OtherSpans(my: Window)
      requires OthersKept(my) && forall w :: w in nodes && w != my ==> unchanged(w)
      ensures Spans(nodes, my) == old(Spans(nodes, my))
    {
    }

    /** The search for a window for `my`, as things stand now. */
    ghost function QuestNow(my: Window, first: nat, groupFirst: nat, perGroup: nat, bits: array<bool>): Quest
      requires perGroup <= bits.Length
      reads this, nodes, my, bits
    {
      Quest(Spans(nodes, null), Spans(nodes, my), first, my.goalSize, groupFirst, bits[..perGroup])
    }

    lemma OwnOrNone(my: Window)
      requires Valid() && my in known
      ensures Spans(nodes, null) == Spans(nodes, my) + if my.IsEmpty() then {} else {Span(my.start, my.end)}
      ensures my.start <= my.end
    {
      hide Ordered;
      if !my.IsEmpty() {
        OwnSpan(my);
      } else {
        assert my !in nodes;
      }
    }

    lemma OwnSpan(my: Window)
      requires my in nodes
      ensures Spans(nodes, null) == Spans(nodes, my) + {Span(my.start, my.end)}
    {
    }

    /** One round of the search for a window: book the first gap, then look for
        the first free block from there on. Either the window holds it, or the
        next round starts at that block, beyond the window. */
    method Round(at: nat, my: Window, startBlock: nat, groupFirst: nat, blocksPerGroup: nat, bits: array<bool>)
      returns (ret: int, next: nat, ghost gap: nat)
      requires Valid() && my in known && my.goalSize > 0
      requires at < |nodes| && nodes[at].start <= startBlock && groupFirst <= startBlock
      requires 0 < blocksPerGroup <= bits.Length
      modifies this`nodes, my
      ensures Valid() && my.goalSize == old(my.goalSize) && OthersKept(my) && Spans(nodes, my) == old(Spans(nodes, my))
      ensures ret == -1 || ret == 0 || ret == 1
      ensures var q := old(QuestNow(my, startBlock, groupFirst, blocksPerGroup, bits));
              && q.RoundFound(q.all, startBlock, gap, ret, next)
              && (ret == -1 ==> my.IsEmpty())
              && (ret >= 0 ==> my in nodes && my.start == gap && my.end == gap + q.size - 1 && my.allocHit == 0)
    {
      hide Meets, FirstGap, Quest.Free;
      next, gap := 0, 0;
      ghost var q := QuestNow(my, startBlock, groupFirst, blocksPerGroup, bits);
      ret := FindNextReservable(at, my, startBlock, groupFirst + blocksPerGroup - 1);
      if ret == -1 {
        Leave(my);
        return;
      }
      gap := my.start;
      var firstFree := SearchNextUsable(bits, my.start - groupFirst, blocksPerGroup);
      q.NoneFree(gap, if firstFree < 0 then q.End() else firstFree + groupFirst);
      if firstFree < 0 {
        Leave(my);
        return -1, 0, gap;
      }
      next := firstFree + groupFirst;
      q.FreeInside(next, gap);
      if my.start <= next <= my.end {
        ret := 0;
      } else {
        ret := 1;
      }
    }

    /** A search that fails leaves the file without a window. */
    method Leave(my: Window)
      requires Valid() && my in known
      modifies this`nodes, my
      ensures Valid() && my.IsEmpty() && my.goalSize == old(my.goalSize) && OthersKept(my)
      ensures Spans(nodes, my) == old(Spans(nodes, my))
    {
      if !my.IsEmpty() {
        Remove(my);
      }
      OtherSpans(my);
    }

    /** A window more than half used up is doubled next time, within the limit. */
    method GrowGoal(my: Window)
      requires Valid() && my in known && my.start <= my.end
      modifies my`goalSize
      ensures Valid() && old(my.goalSize) <= my.goalSize
      ensures my.goalSize == NextGoal(old(my.goalSize), my.allocHit, my.end - my.start + 1)
    {
      if my.allocHit > (my.end - my.start + 1) / 2 {
        var size := my.goalSize * 2;
        if size > MAX_RESERVE_BLOCKS {
          size := MAX_RESERVE_BLOCKS;
        }
        my.goalSize := size;
      }
    }

    /** The window crosses the end of the group, and the search would start within it. */
    predicate Crosses(my: Window, first: nat, groupFirst: nat, perGroup: nat)
      reads my
    {
      !my.IsEmpty() && my.start < groupFirst + perGroup <= my.end && my.start <= first
    }

    /** Find a window that holds a free block of this group. Each round starts
        strictly further right, so the search ends at the group's last block. */
    method AllocNew(my: Window, grpGoal: int, groupFirst: nat, blocksPerGroup: nat, bits: array<bool>)
      returns (ret: int)
      requires Valid() && my in known && my.goalSize > 0
      requires 0 < blocksPerGroup <= bits.Length && grpGoal < blocksPerGroup
      modifies this`nodes, my
      ensures Valid() && OthersKept(my) && Spans(nodes, my) == old(Spans(nodes, my))
      ensures (ret == -1 || ret == 0) && my.goalSize >= old(my.goalSize)
      ensures var first := groupFirst + if grpGoal < 0 then 0 else grpGoal;
              if old(Crosses(my, first, groupFirst, blocksPerGroup)) then
                ret == -1 && nodes == old(nodes) && unchanged(my)
              else
                && my.goalSize == (if old(my.IsEmpty()) then old(my.goalSize)
                                   else NextGoal(old(my.goalSize), old(my.allocHit), old(my.end - my.start + 1)))
                && var q := old(QuestNow(my, first, groupFirst, blocksPerGroup, bits)).(size := my.goalSize);
                  && (ret == 0 ==> my in nodes && q.FirstReached(my.start) && my.end == my.start + q.size - 1 && my.allocHit == 0)
                  && (ret == -1 ==> my.IsEmpty() && q.Hopeless())
    {
      hide Valid, Quest.FirstReached, Quest.Hopeless;
      var groupEnd := groupFirst + blocksPerGroup - 1;
      var startBlock := if grpGoal < 0 then groupFirst else grpGoal + groupFirst;
      if !my.IsEmpty() {
        NotEmpty(my);
        if my.start <= groupEnd && my.end > groupEnd && startBlock >= my.start {
          OtherSpans(my);
          return -1;
        }
        GrowGoal(my);
      }
      SameSpans(my);
      ret := SearchWindow(my, startBlock, groupFirst, blocksPerGroup, bits);
    }

    lemma NotEmpty(my: Window)
      requires Valid() && my in known && !my.IsEmpty()
      ensures my.start <= my.end && my in nodes
    {
    }

    /** The rounds of the search, each from further right. */
    method SearchWindow(my: Window, first: nat, groupFirst: nat, blocksPerGroup: nat, bits: array<bool>)
      returns (ret: int)
      requires Valid() && my in known && my.goalSize > 0
      requires 0 < blocksPerGroup <= bits.Length && groupFirst <= first < groupFirst + blocksPerGroup
      modifies this`nodes, my
      ensures Valid() && my.goalSize == old(my.goalSize) && OthersKept(my) && Spans(nodes, my) == old(Spans(nodes, my))
      ensures ret == -1 || ret == 0
      ensures var q := old(QuestNow(my, first, groupFirst, blocksPerGroup, bits));
              && (ret == 0 ==> my in nodes && q.FirstReached(my.start) && my.end == my.start + q.size - 1 && my.allocHit == 0)
              && (ret == -1 ==> my.IsEmpty() && q.Hopeless())
    {
      hide Valid, Quest.FirstReached, Quest.Hopeless, Quest.GoesOn, Quest.RoundFound;
      ghost var q := QuestNow(my, first, groupFirst, blocksPerGroup, bits);
      var startBlock := first;
      var at := Search(startBlock);
      var next;
      ghost var gap;
      ret, next, gap := Round(at, my, startBlock, groupFirst, blocksPerGroup, bits);
      ghost var d := gap;
      q.FirstRound(gap, ret, next);
      while ret == 1
        invariant Valid() && my.goalSize == q.size && OthersKept(my) && Spans(nodes, my) == q.others
        invariant (ret == -1 || ret == 0 || ret == 1) && groupFirst <= startBlock
        invariant ret == -1 ==> my.IsEmpty() && q.Hopeless()
        invariant ret == 0 ==> my in nodes && q.FirstReached(my.start) && my.end == my.start + q.size - 1 && my.allocHit == 0
        invariant ret == 1 ==> my in nodes && startBlock <= my.start <= my.end < next < q.End() && q.GoesOn(d, next)
        decreases groupFirst + blocksPerGroup - startBlock, ret
      {
        startBlock := next;
        ret, next := NextRound(my, startBlock, groupFirst, blocksPerGroup, bits, q, d);
      }
    }

    /** A round after the first one; it starts from the file's own window on. */
    method NextRound(my: Window, startBlock: nat, groupFirst: nat, blocksPerGroup: nat, bits: array<bool>, ghost q: Quest, ghost d: nat)
      returns (ret: int, next: nat)
      requires Valid() && my in known && my in nodes && my.start <= my.end < startBlock && groupFirst <= startBlock
      requires 0 < blocksPerGroup <= bits.Length && my.goalSize > 0
      requires q == Quest(q.all, Spans(nodes, my), q.first, my.goalSize, groupFirst, bits[..blocksPerGroup]) && q.GoesOn(d, startBlock)
      modifies this`nodes, my
      ensures Valid() && my.goalSize == old(my.goalSize) && OthersKept(my) && Spans(nodes, my) == q.others
      ensures ret == -1 || ret == 0 || ret == 1
      ensures ret == -1 ==> my.IsEmpty() && q.Hopeless()
      ensures ret == 0 ==> my in nodes && q.FirstReached(my.start) && my.end == my.start + q.size - 1 && my.allocHit == 0
      ensures ret == 1 ==> my in nodes && startBlock <= my.start <= my.end < next < q.End() && q.GoesOn(d, next)
    {
      hide Valid, Quest.FirstReached, Quest.Hopeless, Quest.GoesOn, Quest.RoundFound;
      var at := Position(my);
      OwnSpan(my);
      ghost var t := Span(my.start, my.end);
      ghost var now := QuestNow(my, startBlock, groupFirst, blocksPerGroup, bits);
      ghost var gap;
      ret, next, gap := Round(at, my, startBlock, groupFirst, blocksPerGroup, bits);
      now.SameRound(q, startBlock, gap, ret, next);
      q.LaterRound(d, t, startBlock, gap, ret, next);
    }

    /** Grow a window by up to `delta` blocks, up to the next window. The lock
        is only tried for; without it nothing happens. */
    method TryToExtend(my: Window, delta: nat, locked: bool)
      requires Valid() && my in known && my in nodes
      modifies my`start, my`end, my`allocHit
      ensures my.start == old(my.start) && my.allocHit == old(my.allocHit)
      ensures Valid()
      ensures old(my.end) <= my.end <= (if locked then old(my.end) + delta else old(my.end))
      ensures locked && my.end < old(my.end) + delta ==>
                exists x :: x in nodes && x.start == my.end + 1
    {
      if !locked {
        return;
      }
      var at := Position(my);
      var end := my.end + delta;
      if at + 1 < |nodes| && nodes[at + 1].start - my.end - 1 < delta {
        end := nodes[at + 1].start - 1;
        assert nodes[at + 1] in nodes;
      }
      Resize(my, at, my.start, end, my.allocHit);
    }
  }

  /** What the files of a mounted file system do to the tree under the tree's
      lock, and, between that, to their own windows' goal sizes and hits. `file`
      numbers the files in the order they got a window. */
  datatype Section =
    | OpenFile(withReservation: bool)
    | SetSize(file: nat, size: nat)
    | Raise(file: nat, blocks: nat)
    | Grow(file: nat)
    | Use(file: nat, blocks: nat)
    | FirstRound(file: nat, startBlock: nat, lastBlock: nat)
    | NextRound(file: nat, startBlock: nat, lastBlock: nat)
    | Extend(file: nat, delta: nat)
    | Drop(file: nat)

  /** No two files' windows meet, and a file's window is in the tree exactly
      when it is not the sentinel. */
  ghost predicate Exclusive(tree: WindowTree, files: seq<Window>)
    reads tree, files
  {
    && (forall i :: 0 <= i < |files| ==> (files[i] in tree.nodes <==> !files[i].IsEmpty()))
    && (forall i :: 0 <= i < |files| ==> files[i].start <= files[i].end)
    && (forall i, j :: 0 <= i < |files| && 0 <= j < |files| && i != j && !files[i].IsEmpty() && !files[j].IsEmpty() ==>
          files[i].end < files[j].start || files[j].end < files[i].start)
  }

  lemma ValidIsExclusive(tree: WindowTree, files: seq<Window>)
    requires tree.Valid()
    requires forall i :: 0 <= i < |files| ==> files[i] in tree.known
    requires forall i, j :: 0 <= i < j < |files| ==> files[i] != files[j]
    ensures Exclusive(tree, files)
  {
    forall i, j | 0 <= i < |files| && 0 <= j < |files| && i != j && !files[i].IsEmpty() && !files[j].IsEmpty()
      ensures files[i].end < files[j].start || files[j].end < files[i].start
    {
      var a :| 0 <= a < |tree.nodes| && tree.nodes[a] == files[i];
      var b :| 0 <= b < |tree.nodes| && tree.nodes[b] == files[j];
    }
  }

  /** An allocation asks for no more blocks than one window may hold. */
  predicate Bounded(s: Section) {
    s.Raise? ==> s.blocks <= MAX_RESERVE_BLOCKS
  }

  /** A file's window: where it is, its goal size, and the blocks taken from it. */
  datatype Held = Held(span: Span, goalSize: nat, hit: nat) {
    predicate Nowhere() {
      span.end == NOT_ALLOCATED
    }
  }

  /** The files' windows, and the spans of all windows in the tree. */
  datatype Moment = Moment(files: seq<Held>, all: set<Span>)

  ghost function HeldNow(w: Window): Held
    reads w
  {
    Held(Span(w.start, w.end), w.goalSize, w.allocHit)
  }

  ghost function FilesHeld(files: seq<Window>): (r: seq<Held>)
    reads files
    ensures |r| == |files| && forall k :: 0 <= k < |files| ==> r[k] == HeldNow(files[k])
  {
    if |files| == 0 then [] else FilesHeld(files[..|files| - 1]) + [HeldNow(files[|files| - 1])]
  }

  ghost function MomentNow(tree: WindowTree, files: seq<Window>): Moment
    reads tree, tree.nodes, files
  {
    Moment(FilesHeld(files), Spans(tree.nodes, null))
  }

  /** The window has left the tree. */
  predicate Dropped(b: Held, a: Held) {
    a == Held(Span(NOT_ALLOCATED, NOT_ALLOCATED), b.goalSize, if b.Nowhere() then b.hit else 0)
  }

  /** The window has moved to the first gap that starts in [lo, hi], if there is one. */
  ghost predicate Booked(b: Held, a: Held, all: set<Span>, lo: nat, hi: nat) {
    if exists c: nat :: lo <= c <= hi && !Meets(all, c, b.goalSize) then
      && FirstGap(all, lo, a.span.start, b.goalSize) && a.span.start <= hi
      && a.span.end == a.span.start + b.goalSize - 1 && a.goalSize == b.goalSize && a.hit == 0
    else Dropped(b, a)
  }

  /** What a section does to the window of its file. */
  ghost predicate Ran(s: Section, b: Held, a: Held, all: set<Span>) {
    match s
    case OpenFile(_) => a == b
    case SetSize(_, size) => a == b.(goalSize := if size > MAX_RESERVE_BLOCKS then MAX_RESERVE_BLOCKS else size)
    case Raise(_, blocks) => a == b.(goalSize := if blocks > b.goalSize then blocks else b.goalSize)
    case Grow(_) =>
      if b.Nowhere() || b.span.end < b.span.start then a == b
      else a == b.(goalSize := NextGoal(b.goalSize, b.hit, b.span.end - b.span.start + 1))
    case Use(_, blocks) => a == b.(hit := b.hit + blocks)
    case FirstRound(_, lo, hi) => if b.goalSize == 0 then a == b else Booked(b, a, all, lo, hi)
    case NextRound(_, lo, hi) => if b.goalSize == 0 || b.Nowhere() || b.span.start > lo then a == b else Booked(b, a, all, lo, hi)
    case Extend(_, delta) =>
      if b.Nowhere() then a == b
      else
        && a == b.(span := Span(b.span.start, a.span.end)) && b.span.end <= a.span.end <= b.span.end + delta
        && (a.span.end < b.span.end + delta ==> exists t :: t in all && t.start == a.span.end + 1)
    case Drop(_) => Dropped(b, a)
  }

  /** What a section does: a file gets its window, or one file's window changes. */
  ghost predicate Effect(s: Section, b: Moment, a: Moment) {
    if s.OpenFile? then
      && a.files == b.files + [Held(Span(NOT_ALLOCATED, NOT_ALLOCATED), if s.withReservation then DEFAULT_RESERVE_BLOCKS else 0, 0)]
      && a.all == b.all
    else if s.file >= |b.files| then a == b
    else
      && |a.files| == |b.files| && (forall j :: 0 <= j < |b.files| && j != s.file ==> a.files[j] == b.files[j])
      && Ran(s, b.files[s.file], a.files[s.file], b.all)
  }

  /** Any interleaving of the critical sections of any number of files. */
  method Interleave(tree: WindowTree, sections: seq<Section>) returns (files: seq<Window>, ghost trace: seq<Moment>)
    requires tree.Valid() && tree.known == {} && forall n :: 0 <= n < |sections| ==> Bounded(sections[n])
    modifies tree
    ensures tree.Valid() && tree.nodes[0] == tree.head
    ensures Exclusive(tree, files)
    ensures forall i :: 0 <= i < |files| ==> files[i].goalSize <= MAX_RESERVE_BLOCKS
    ensures |trace| == |sections| + 1 && trace[0] == Moment([], old(Spans(tree.nodes, null))) && trace[|sections|] == MomentNow(tree, files)
    ensures forall n :: 0 <= n < |sections| ==> Effect(sections[n], trace[n], trace[n + 1])
  {
    hide Effect;
    files := [];
    trace := [MomentNow(tree, files)];
    for n := 0 to |sections|
      invariant tree.Valid()
      invariant forall i :: 0 <= i < |files| ==> files[i] in tree.known && fresh(files[i])
      invariant forall i, j :: 0 <= i < j < |files| ==> files[i] != files[j]
      invariant |trace| == n + 1 && trace[0] == Moment([], old(Spans(tree.nodes, null))) && trace[n] == MomentNow(tree, files)
      invariant forall i :: 0 <= i < n ==> Effect(sections[i], trace[i], trace[i + 1])
    {
      if sections[n].OpenFile? {
        var w := NextFile(tree, files, sections[n], trace[n]);
        files := files + [w];
      } else {
        OneSection(tree, files, sections[n], trace[n]);
      }
      trace := trace + [MomentNow(tree, files)];
    }
    ValidIsExclusive(tree, files);
  }

  /** The next file gets its window. */
  method NextFile(tree: WindowTree, files: seq<Window>, s: Section, ghost was: Moment) returns (w: Window)
    requires tree.Valid() && s.OpenFile? && was == MomentNow(tree, files)
    modifies tree`known
    ensures tree.Valid() && fresh(w) && tree.known == old(tree.known) + {w}
    ensures Effect(s, was, MomentNow(tree, files + [w]))
  {
    hide WindowTree.Valid;
    w := tree.Open(s.withReservation);
    SameFiles(was.files, files, files + [w]);
  }

  /** A section of one of the files. */
  method OneSection(tree: WindowTree, files: seq<Window>, s: Section, ghost was: Moment)
    requires tree.Valid() && Bounded(s) && !s.OpenFile? && was == MomentNow(tree, files)
    requires forall i :: 0 <= i < |files| ==> files[i] in tree.known
    requires forall i, j :: 0 <= i < j < |files| ==> files[i] != files[j]
    modifies tree`nodes, files
    ensures tree.Valid() && Effect(s, was, MomentNow(tree, files))
  {
    hide Ran, WindowTree.Valid, Bounded;
    if s.file < |files| {
      RunSection(tree, files[s.file], s, was.files[s.file], was.all);
    }
  }

  lemma SameFiles(held: seq<Held>, files: seq<Window>, next: seq<Window>)
    requires held == FilesHeld(files) && |next| == |files| + 1 && next[..|files|] == files
    ensures FilesHeld(next) == held + [HeldNow(next[|files|])]
  {
  }

  method RunSection(tree: WindowTree, w: Window, s: Section, ghost was: Held, ghost all: set<Span>)
    requires tree.Valid() && w in tree.known && !s.OpenFile? && Bounded(s)
    requires was == HeldNow(w) && all == Spans(tree.nodes, null)
    modifies tree`nodes, w
    ensures tree.Valid() && Ran(s, was, HeldNow(w), all)
  {
    hide Meets, FirstGap, WindowTree.Valid;
    match s
    case SetSize(_, size) =>
      tree.SetGoalSize(w, size);
    case Raise(_, blocks) =>
      if w.goalSize < blocks {
        tree.RaiseGoalSize(w, blocks);
      }
    case Grow(_) =>
      if !w.IsEmpty() {
        tree.NotEmpty(w);
        tree.GrowGoal(w);
      }
    case Use(_, blocks) =>
      tree.Hit(w, blocks);
    case FirstRound(_, startBlock, lastBlock) =>
      if w.goalSize > 0 {
        var at := tree.Search(startBlock);
        BookOrDrop(tree, at, w, startBlock, lastBlock, was, all);
      }
    case NextRound(_, startBlock, lastBlock) =>
      if w.goalSize > 0 && !w.IsEmpty() && w.start <= startBlock {
        tree.NotEmpty(w);
        var at := tree.Position(w);
        BookOrDrop(tree, at, w, startBlock, lastBlock, was, all);
      }
    case Extend(_, delta) =>
      if !w.IsEmpty() {
        tree.NotEmpty(w);
        tree.TryToExtend(w, delta, true);
        forall x | x in tree.nodes && x.start == w.end + 1
          ensures Span(x.start, x.end) in all
        {
        }
      }
    case Drop(_) =>
      tree.Discard(w);
  }

  /** One round of the search: the window moves to the first gap, or is given up. */
  method BookOrDrop(tree: WindowTree, at: nat, w: Window, startBlock: nat, lastBlock: nat, ghost was: Held, ghost all: set<Span>)
    requires tree.Valid() && w in tree.known && w.goalSize > 0
    requires at < |tree.nodes| && tree.nodes[at].start <= startBlock
    requires was == HeldNow(w) && all == Spans(tree.nodes, null)
    modifies tree`nodes, w
    ensures tree.Valid() && Booked(was, HeldNow(w), all, startBlock, lastBlock)
  {
    hide Meets, WindowTree.Valid;
    var ret := tree.FindNextReservable(at, w, startBlock, lastBlock);
    if ret == -1 {
      tree.Discard(w);
    }
  }
}
