/**
 One block group's bitmap: searching it for a free block and claiming runs of
 free blocks in it. A bit that is `true` marks a block in use.
 */
module Bitmap {

  // ---------- specification ----------

  /** `s` with the n bits from `from` on set to v. */
  function Fill(s: seq<bool>, from: int, n: nat, v: bool): (r: seq<bool>)
    ensures |r| == |s|
    ensures forall i :: 0 <= i < |s| ==> r[i] == if from <= i < from + n then v else s[i]
  {
    seq(|s|, i requires 0 <= i < |s| => if from <= i < from + n then v else s[i])
  }

  lemma FillStep(s: seq<bool>, from: nat, n: nat, v: bool)
    requires from + n < |s|
    ensures Fill(s, from, n + 1, v) == Fill(s, from, n, v)[from + n := v]
    ensures Fill(s, from, n, v)[from + n] == s[from + n]
    ensures s[from + n] == v ==> Fill(s, from, n + 1, v) == Fill(s, from, n, v)
  {
  }

  lemma FillNone(s: seq<bool>, from: nat, v: bool)
    ensures Fill(s, from, 0, v) == s
  {
  }

  predicate AllFree(s: seq<bool>, from: int, n: nat)
    requires 0 <= from && from + n <= |s|
  {
    forall i :: from <= i < from + n ==> !s[i]
  }

  predicate AllUsed(s: seq<bool>, lo: int, hi: int)
    requires 0 <= lo && hi <= |s|
  {
    forall i :: lo <= i < hi ==> s[i]
  }

  /** The number of free blocks a bitmap records. */
  function ZeroBits(s: seq<bool>): (n: nat)
    ensures n <= |s|
    ensures n == 0 <==> forall i :: 0 <= i < |s| ==> s[i]
  {
    if |s| == 0 then 0
    else
      var last := |s| - 1;
      var rest := ZeroBits(s[..last]);
      assert forall i :: 0 <= i < last ==> s[..last][i] == s[i];
      rest + if s[last] then 0 else 1
  }

  lemma {:induction false} ZeroBitsUpdate(s: seq<bool>, i: nat, v: bool)
    requires i < |s| && s[i] != v
    ensures ZeroBits(s[i := v]) == ZeroBits(s) + if v then -1 else 1
  {
    var last := |s| - 1;
    if i == last {
      assert s[i := v][..last] == s[..last];
    } else {
      assert s[i := v][..last] == s[..last][i := v];
      ZeroBitsUpdate(s[..last], i, v);
    }
  }

  /** Claiming a free run takes exactly its length off the free count. */
  lemma {:induction false} ZeroBitsClaim(s: seq<bool>, from: nat, n: nat)
    requires from + n <= |s| && AllFree(s, from, n)
    ensures ZeroBits(Fill(s, from, n, true)) == ZeroBits(s) - n
  {
    if n == 0 {
      assert Fill(s, from, n, true) == s;
    } else {
      ZeroBitsClaim(s, from, n - 1);
      var t := Fill(s, from, n - 1, true);
      assert Fill(s, from, n, true) == t[from + n - 1 := true];
      ZeroBitsUpdate(t, from + n - 1, true);
    }
  }

  // ---------- searching ----------

  /** The kernel's find_next_zero_bit: the first clear bit of [offset, size), or size. */
  method FindNextZeroBit(bits: array<bool>, size: nat, offset: nat) returns (r: nat)
    requires size <= bits.Length
    ensures offset >= size ==> r == size
    ensures offset < size ==> offset <= r <= size
    ensures AllUsed(bits[..], offset, r)
    ensures r < size ==> !bits[r]
  {
    if offset >= size {
      return size;
    }
    r := offset;
    while r < size && bits[r]
      invariant offset <= r <= size
      invariant forall i :: offset <= i < r ==> bits[i]
    {
      r := r + 1;
    }
  }

  predicate ZeroByte(s: seq<bool>, b: nat)
    requires 8 * b + 8 <= |s|
  {
    AllFree(s, 8 * b, 8)
  }

  lemma OfByte(s: seq<bool>, b: nat)
    requires 8 * b + 8 <= |s|
    ensures ZeroByte(s, b) <==> !s[8 * b] && !s[8 * b + 1] && !s[8 * b + 2] && !s[8 * b + 3] &&
                                !s[8 * b + 4] && !s[8 * b + 5] && !s[8 * b + 6] && !s[8 * b + 7]
  {
  }

  /** The kernel's memscan for a zero byte among the n bytes from `from` on. */
  method MemScanZero(bits: array<bool>, from: nat, n: nat) returns (r: nat)
    requires 8 * (from + n) <= bits.Length
    ensures from <= r <= from + n
    ensures r < from + n ==> ZeroByte(bits[..], r)
    ensures forall b :: from <= b < r ==> !ZeroByte(bits[..], b)
  {
    r := from;
    while r < from + n
      invariant from <= r <= from + n
      invariant forall b :: from <= b < r ==> !ZeroByte(bits[..], b)
    {
      OfByte(bits[..], r);
      if !bits[8 * r] && !bits[8 * r + 1] && !bits[8 * r + 2] && !bits[8 * r + 3] &&
         !bits[8 * r + 4] && !bits[8 * r + 5] && !bits[8 * r + 6] && !bits[8 * r + 7] {
        return;
      }
      r := r + 1;
    }
  }

  method SearchNextUsable(bits: array<bool>, start: nat, maxBlocks: nat) returns (r: int)
    requires maxBlocks <= bits.Length
    ensures -1 <= r < maxBlocks
    ensures r >= 0 ==> start <= r && !bits[r] && AllUsed(bits[..], start, r)
    ensures r < 0 ==> AllUsed(bits[..], start, maxBlocks)
  {
    r := FindNextZeroBit(bits, maxBlocks, start);
    if r >= maxBlocks {
      r := -1;
    }
  }

  /** The first of the next 64 bits' boundary, or the end. */
  function NearEnd(start: nat, maxBlocks: nat): (e: nat)
    ensures e <= maxBlocks && (start <= maxBlocks ==> start <= e)
  {
    var e := (start + 63) / 64 * 64;
    if e > maxBlocks then maxBlocks else e
  }

  /** b is the first byte from the one of `here` on that is wholly free. */
  predicate FirstZeroByte(s: seq<bool>, here: nat, bytes: nat, b: nat)
    requires 8 * bytes <= |s|
  {
    here / 8 <= b < bytes && ZeroByte(s, b) && forall c :: here / 8 <= c < b ==> !ZeroByte(s, c)
  }

  /** The block that the search prefers: before the next multiple of 64 the first
      free bit; else the first free byte, unless it starts too early; else the
      first free bit. */
  ghost predicate Usable(s: seq<bool>, start: int, maxBlocks: nat, r: nat)
    requires r < maxBlocks <= |s| && |s| % 8 == 0 && start <= maxBlocks
  {
    var here: nat := if start < 0 then 0 else start;
    if start > 0 && !AllUsed(s, start, NearEnd(start, maxBlocks)) then here <= r && AllUsed(s, here, r)
    else
      || (r >= here && r % 8 == 0 && FirstZeroByte(s, here, (maxBlocks + 7) / 8, r / 8))
      || (here <= r && AllUsed(s, here, r) && forall b: nat :: FirstZeroByte(s, here, (maxBlocks + 7) / 8, b) ==> 8 * b < here)
  }

  /** Near the goal first, then a wholly free byte, then any free bit. A free
      block of [start, maxBlocks) comes back exactly when there is one. */
  method FindNextUsable(bits: array<bool>, start: int, maxBlocks: nat) returns (r: int)
    requires maxBlocks <= bits.Length && bits.Length % 8 == 0
    requires start <= maxBlocks
    ensures -1 <= r < maxBlocks
    ensures r >= 0 ==> start <= r && !bits[r]
    ensures r < 0 <==> AllUsed(bits[..], if start < 0 then 0 else start, maxBlocks)
    ensures r >= 0 ==> Usable(bits[..], start, maxBlocks, r)
  {
    if start > 0 {
      var endGoal := (start + 63) / 64 * 64;
      if endGoal > maxBlocks {
        endGoal := maxBlocks;
      }
      var near := FindNextZeroBit(bits, endGoal, start);
      if near < endGoal {
        assert !bits[..][near];
        return near;
      }
    }
    var here := if start < 0 then 0 else start;
    var b := MemScanZero(bits, here / 8, (maxBlocks + 7) / 8 - here / 8);
    var next := b * 8;
    if next < maxBlocks && next >= here {
      assert ZeroByte(bits[..], b) && !bits[..][next];
      return next;
    }
    r := SearchNextUsable(bits, here, maxBlocks);
    if r >= 0 {
      assert !bits[..][r];
    }
  }

  // ---------- claiming ----------

  /** The reservation window an allocation is confined to, in file-system wide
      block numbers, both ends included. */
  datatype Confine = Anywhere | Within(start: nat, end: nat)

  /** The group-relative range [lo, hi) an allocation looks at, and the goal
      bit it tries first (negative: none). */
  datatype Range = Range(lo: nat, hi: nat, goal: int)

  predicate Overlaps(c: Confine, groupFirst: nat, blocksPerGroup: nat) {
    c.Within? ==> c.start <= c.end && c.start < groupFirst + blocksPerGroup && groupFirst <= c.end
  }

  function SearchRange(groupFirst: nat, blocksPerGroup: nat, goal: int, c: Confine): (r: Range)
    requires goal < blocksPerGroup && blocksPerGroup > 0 && Overlaps(c, groupFirst, blocksPerGroup)
    ensures r.lo < r.hi <= blocksPerGroup
    ensures r.goal >= 0 ==> r.goal == goal == r.lo
    ensures c.Within? ==> c.start <= groupFirst + r.lo && groupFirst + r.hi - 1 <= c.end
  {
    match c
    case Anywhere => Range(if goal > 0 then goal else 0, blocksPerGroup, goal)
    case Within(ws, we) =>
      var start := if ws >= groupFirst then ws - groupFirst else 0;
      var end := if we - groupFirst + 1 > blocksPerGroup then blocksPerGroup else we - groupFirst + 1;
      if start <= goal < end then Range(goal, end, goal) else Range(start, end, -1)
  }

  /** What a successful claim of num blocks at ret has to satisfy. */
  ghost predicate Claimed(before: seq<bool>, r: Range, count: nat, ret: int, num: nat)
    requires r.hi <= |before|
  {
    && r.lo <= ret && ret + num <= r.hi
    && 1 <= num <= (if count == 0 then 1 else count)
    && AllFree(before, ret, num)
    // the run stops early only where it has to
    && (num < count ==> ret + num == r.hi || before[ret + num])
    // a goal is honoured: nothing free between it and the run
    && (r.goal >= 0 ==> AllUsed(before, r.goal, ret))
  }

  /** Claim the free block at `from`, then further free ones up to `count` in
      all and below `end`. */
  method ClaimFrom(bits: array<bool>, from: nat, end: nat, count: nat) returns (num: nat)
    requires from < end <= bits.Length && !bits[from]
    modifies bits
    ensures 1 <= num <= (if count == 0 then 1 else count) && from + num <= end
    ensures AllFree(old(bits[..]), from, num)
    ensures num < count ==> from + num == end || old(bits[..])[from + num]
    ensures bits[..] == Fill(old(bits[..]), from, num, true)
  {
    ghost var before := bits[..];
    FillNone(before, from, true);
    FillStep(before, from, 0, true);
    bits[from] := true;
    num := 1;
    while num < count && from + num < end && !bits[from + num]
      invariant from + num <= end
      invariant 1 <= num <= (if count == 0 then 1 else count)
      invariant AllFree(before, from, num)
      invariant bits[..] == Fill(before, from, num, true)
    {
      FillStep(before, from, num, true);
      assert !bits[..][from + num];
      bits[from + num] := true;
      num := num + 1;
    }
    if num < count && from + num < end {
      FillStep(before, from, num, true);
      assert bits[..][from + num];
    }
  }

  /** Back from the usable block over free ones, up to seven, or to a used one or
      the start; but not within a window. */
  ghost predicate Picked(s: seq<bool>, start: nat, end: nat, confined: bool, goal: int, usable: int)
    requires end <= |s| && |s| % 8 == 0 && start <= end
  {
    && start <= goal <= usable < end && Usable(s, start, end, usable)
    && (if confined then goal == usable
        else
          && AllFree(s, goal, usable - goal + 1)
          && (usable == goal + 7 || (usable < goal + 7 && (goal == start || s[goal - 1]))))
  }

  /** Without a usable goal: the next usable block, moved back over at most
      seven free blocks when no window confines the search. */
  method PickGoal(bits: array<bool>, start: nat, end: nat, confined: bool) returns (grpGoal: int, ghost usable: int)
    requires start < end <= bits.Length && bits.Length % 8 == 0
    ensures grpGoal < 0 <==> AllUsed(bits[..], start, end)
    ensures grpGoal >= 0 ==> start <= grpGoal < end && !bits[grpGoal]
    ensures grpGoal >= 0 ==> Picked(bits[..], start, end, confined, grpGoal, usable)
  {
    grpGoal := FindNextUsable(bits, start, end);
    usable := grpGoal;
    if grpGoal >= 0 && !confined {
      var i := 0;
      while i < 7 && grpGoal > start && !bits[grpGoal - 1]
        invariant 0 <= i <= 7 && start <= grpGoal < end && !bits[grpGoal]
        invariant grpGoal + i == usable && AllFree(bits[..], grpGoal, i + 1)
        decreases 7 - i
      {
        i := i + 1;
        grpGoal := grpGoal - 1;
      }
    }
  }

  /** Claim up to `count` consecutive blocks. A count of 0 takes one block. */
  method TryToAllocate(bits: array<bool>, groupFirst: nat, blocksPerGroup: nat, goal: int, count: nat, c: Confine)
    returns (ret: int, num: nat, ghost usable: int)
    requires 0 < blocksPerGroup <= bits.Length && bits.Length % 8 == 0
    requires -1 <= goal < blocksPerGroup && Overlaps(c, groupFirst, blocksPerGroup)
    modifies bits
    ensures ret >= 0 ==>
              && Claimed(old(bits[..]), SearchRange(groupFirst, blocksPerGroup, goal, c), count, ret, num)
              && bits[..] == Fill(old(bits[..]), ret, num, true)
    ensures ret >= 0 ==>
              var r := SearchRange(groupFirst, blocksPerGroup, goal, c);
              r.goal < 0 ==> Picked(old(bits[..]), r.lo, r.hi, c.Within?, ret, usable)
    ensures ret < 0 ==>
              && ret == -1 && num == 0
              && bits[..] == old(bits[..])
              && var r := SearchRange(groupFirst, blocksPerGroup, goal, c);
                 AllUsed(bits[..], r.lo, r.hi)
  {
    hide Picked;
    ghost var range := SearchRange(groupFirst, blocksPerGroup, goal, c);
    var start, end, grpGoal: int := 0, blocksPerGroup, goal;
    match c {
      case Within(ws, we) =>
        if ws >= groupFirst {
          start := ws - groupFirst;
        }
        end := we - groupFirst + 1;
        if end > blocksPerGroup {
          end := blocksPerGroup;
        }
        if start <= grpGoal < end {
          start := grpGoal;
        } else {
          grpGoal := -1;
        }
      case Anywhere =>
        if grpGoal > 0 {
          start := grpGoal;
        }
    }
    assert start <= blocksPerGroup; // the source's BUG_ON
    assert range == Range(start, end, grpGoal);
    usable := -1;

    if grpGoal < 0 {
      grpGoal, usable := PickGoal(bits, start, end, c.Within?);
      if grpGoal < 0 {
        return -1, 0, usable;
      }
    }
    start := grpGoal;

    // an occupied goal is stepped over bit by bit
    while bits[grpGoal]
      invariant range.lo <= start == grpGoal < end
      invariant range.goal >= 0 ==> AllUsed(bits[..], range.goal, grpGoal)
      invariant range.goal < 0 ==> !bits[grpGoal] && Picked(bits[..], range.lo, range.hi, c.Within?, grpGoal, usable)
      invariant bits[..] == old(bits[..])
      decreases end - grpGoal
    {
      start := start + 1;
      grpGoal := grpGoal + 1;
      if start >= end {
        return -1, 0, usable;
      }
    }
    num := ClaimFrom(bits, grpGoal, end, count);
    ret := grpGoal;
  }

  lemma ZeroCleared(s: seq<bool>, bit: nat)
    requires bit <= |s|
    ensures AllUsed(s, bit, bit)
  {
  }

  /** Clear `count` bits; already clear ones are skipped. Returns how many were set. */
  method ClearRun(bits: array<bool>, bit: nat, count: nat) returns (freed: nat)
    requires bit + count <= bits.Length
    modifies bits
    ensures bits[..] == Fill(old(bits[..]), bit, count, false)
    ensures ZeroBits(bits[..]) == ZeroBits(old(bits[..])) + freed
    ensures freed <= count
    ensures freed == count <==> AllUsed(old(bits[..]), bit, bit + count)
  {
    hide Fill, ZeroBits;
    ghost var before := bits[..];
    FillNone(before, bit, false);
    ZeroCleared(before, bit);
    freed := 0;
    var i := 0;
    while i < count
      invariant i <= count && freed <= i
      invariant bits[..] == Fill(before, bit, i, false)
      invariant ZeroBits(bits[..]) == ZeroBits(before) + freed
      invariant freed == i <==> AllUsed(before, bit, bit + i)
    {
      FillStep(before, bit, i, false);
      ghost var now := bits[..];
      var wasSet := bits[bit + i];
      assert wasSet == now[bit + i] == before[bit + i];
      bits[bit + i] := false;
      assert bits[..] == now[bit + i := false];
      if wasSet {
        ZeroBitsUpdate(now, bit + i, false);
        freed := freed + 1;
      }
      assert AllUsed(before, bit, bit + i + 1) <==> AllUsed(before, bit, bit + i) && before[bit + i];
      i := i + 1;
    }
  }
}
