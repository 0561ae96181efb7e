/**
 Inodes are allocated in block groups too. A group is picked by one of three
 searches; its bitmap, its counts and the volume's counters then change together.
 */
module Ialloc {
  import opened Arith
  import opened Bitmap
  import G = Groups

  const INODE_COST: nat := 64
  const BLOCK_COST: nat := 256
  const MAX_DEBT: nat := 255
  const TWO32: nat := 0x1_0000_0000

  // ---------- averages ----------

  lemma {:induction false} SumBound(s: seq<nat>, a: nat)
    requires forall i :: 0 <= i < |s| ==> s[i] <= a
    ensures G.Sum(s) <= a * |s|
  {
    if |s| > 0 {
      SumBound(s[..|s| - 1], a);
      assert a * |s| == a * (|s| - 1) + a;
    }
  }

  lemma {:induction false} SumPositive(s: seq<nat>)
    ensures G.Sum(s) == 0 <==> forall i :: 0 <= i < |s| ==> s[i] == 0
  {
    if |s| > 0 {
      var last := |s| - 1;
      SumPositive(s[..last]);
      assert forall i :: 0 <= i < last ==> s[..last][i] == s[i];
    }
  }

  /** Some group has what the groups have on average. */
  lemma Pigeonhole(s: seq<nat>)
    requires |s| > 0 && forall i :: 0 <= i < |s| ==> s[i] == 0 || s[i] < G.Sum(s) / |s|
    ensures G.Sum(s) == 0
  {
    var ave := G.Sum(s) / |s|;
    DivMod(G.Sum(s), |s|);
    if ave == 0 {
      SumPositive(s);
    } else {
      assert (ave - 1) * |s| == ave * |s| - |s|;
      SumBound(s, ave - 1);
    }
  }

  // ---------- inode numbers ----------

  function GroupOf(ino: nat, perGroup: nat): nat
    requires ino > 0 && perGroup > 0
  {
    (ino - 1) / perGroup
  }

  function BitOf(ino: nat, perGroup: nat): nat
    requires ino > 0 && perGroup > 0
  {
    (ino - 1) % perGroup
  }

  function Number(g: nat, i: nat, perGroup: nat): nat {
    i + g * perGroup + 1
  }

  lemma NumberPlace(g: nat, i: nat, perGroup: nat)
    requires i < perGroup
    ensures Number(g, i, perGroup) > 0
    ensures GroupOf(Number(g, i, perGroup), perGroup) == g && BitOf(Number(g, i, perGroup), perGroup) == i
  {
    DivUnique(Number(g, i, perGroup) - 1, perGroup, g, i);
  }

  lemma PlaceNumber(ino: nat, perGroup: nat, groups: nat)
    requires ino > 0 && perGroup > 0 && ino <= groups * perGroup
    ensures GroupOf(ino, perGroup) < groups && BitOf(ino, perGroup) < perGroup
    ensures Number(GroupOf(ino, perGroup), BitOf(ino, perGroup), perGroup) == ino
  {
    DivMod(ino - 1, perGroup);
    var g := (ino - 1) / perGroup;
    if g >= groups { MulMono(groups, g, perGroup); }
  }

  /** The allocated directories of a group. */
  function DirsIn(dirs: set<nat>, g: nat, perGroup: nat): set<nat>
    requires perGroup > 0
  {
    set x | x in dirs && x > 0 && GroupOf(x, perGroup) == g
  }

  lemma DirAdded(dirs: set<nat>, ino: nat, g: nat, perGroup: nat)
    requires perGroup > 0 && ino > 0 && ino !in dirs
    ensures |DirsIn(dirs + {ino}, g, perGroup)| == |DirsIn(dirs, g, perGroup)| + if GroupOf(ino, perGroup) == g then 1 else 0
    ensures |dirs + {ino}| == |dirs| + 1
  {
    var more := DirsIn(dirs + {ino}, g, perGroup);
    if GroupOf(ino, perGroup) == g {
      assert more == DirsIn(dirs, g, perGroup) + {ino};
    } else {
      assert more == DirsIn(dirs, g, perGroup);
    }
  }

  lemma DirRemoved(dirs: set<nat>, ino: nat, g: nat, perGroup: nat)
    requires perGroup > 0 && ino > 0 && ino in dirs
    ensures |DirsIn(dirs - {ino}, g, perGroup)| == |DirsIn(dirs, g, perGroup)| - if GroupOf(ino, perGroup) == g then 1 else 0
    ensures |dirs - {ino}| == |dirs| - 1
  {
    DirAdded(dirs - {ino}, ino, g, perGroup);
    assert dirs - {ino} + {ino} == dirs;
  }

  /** One group's books: its count is its clear bits, those are numbers in range,
      and its directories are counted. */
  ghost predicate GroupBook(b: seq<bool>, free: nat, ndirs: nat, debt: nat, dirs: set<nat>, g: nat, firstIno: nat, count: nat)
    requires |b| > 0
  {
    && free == ZeroBits(b) && debt <= MAX_DEBT && ndirs == |DirsIn(dirs, g, |b|)|
    && forall i :: 0 <= i < |b| && !b[i] ==> firstIno <= Number(g, i, |b|) <= count
  }

  /** A debt goes up with a directory, and down with another inode, within bounds. */
  function NewDebt(debt: nat, isDir: bool): nat {
    if isDir then (if debt < MAX_DEBT then debt + 1 else debt)
    else if debt > 0 then debt - 1 else 0
  }

  lemma GroupTaken(b: seq<bool>, free: nat, ndirs: nat, debt: nat, dirs: set<nat>, g: nat, i: nat, isDir: bool, firstIno: nat, count: nat)
    requires |b| > 0 && GroupBook(b, free, ndirs, debt, dirs, g, firstIno, count) && i < |b| && !b[i]
    requires Number(g, i, |b|) !in dirs
    ensures free > 0
    ensures GroupBook(b[i := true], free - 1, ndirs + if isDir then 1 else 0, NewDebt(debt, isDir),
                      dirs + if isDir then {Number(g, i, |b|)} else {}, g, firstIno, count)
  {
    hide DirsIn;
    ZeroBitsUpdate(b, i, true);
    NumberPlace(g, i, |b|);
    if isDir { DirAdded(dirs, Number(g, i, |b|), g, |b|); }
    assert dirs + {} == dirs;
  }

  lemma GroupFreed(b: seq<bool>, free: nat, ndirs: nat, debt: nat, dirs: set<nat>, g: nat, i: nat, isDir: bool, firstIno: nat, count: nat)
    requires |b| > 0 && GroupBook(b, free, ndirs, debt, dirs, g, firstIno, count) && i < |b| && b[i]
    requires isDir <==> Number(g, i, |b|) in dirs
    requires firstIno <= Number(g, i, |b|) <= count
    ensures isDir ==> ndirs > 0
    ensures GroupBook(b[i := false], free + 1, ndirs - if isDir then 1 else 0, debt,
                      dirs - if isDir then {Number(g, i, |b|)} else {}, g, firstIno, count)
  {
    hide DirsIn;
    ZeroBitsUpdate(b, i, false);
    NumberPlace(g, i, |b|);
    if isDir { DirRemoved(dirs, Number(g, i, |b|), g, |b|); }
    assert dirs - {} == dirs;
  }

  /** A directory that comes or goes elsewhere. */
  lemma OtherGroup(b: seq<bool>, free: nat, ndirs: nat, debt: nat, dirs: set<nat>, after: set<nat>, h: nat, g: nat, i: nat, firstIno: nat, count: nat)
    requires |b| > 0 && GroupBook(b, free, ndirs, debt, dirs, h, firstIno, count) && h != g && i < |b|
    requires dirs - {Number(g, i, |b|)} == after - {Number(g, i, |b|)}
    ensures GroupBook(b, free, ndirs, debt, after, h, firstIno, count)
  {
    NumberPlace(g, i, |b|);
    var n := Number(g, i, |b|);
    forall x ensures x != n ==> (x in after <==> x in dirs) {
      assert x in dirs - {n} <==> x in after - {n};
    }
    assert DirsIn(after, h, |b|) == DirsIn(dirs, h, |b|);
  }

  // ---------- the books of all groups ----------

  ghost predicate Books(bs: seq<seq<bool>>, free: seq<nat>, used: seq<nat>, debts: seq<nat>, dirs: set<nat>,
                        perGroup: nat, firstIno: nat, count: nat)
  {
    && perGroup > 0 && |free| == |used| == |debts| == |bs|
    && forall g :: 0 <= g < |bs| ==> |bs[g]| == perGroup && GroupBook(bs[g], free[g], used[g], debts[g], dirs, g, firstIno, count)
  }

  /** The directories are numbers in range whose bits are set. */
  ghost predicate DirsMarked(bs: seq<seq<bool>>, dirs: set<nat>, perGroup: nat, firstIno: nat, count: nat)
    requires perGroup > 0
  {
    forall x :: x in dirs ==> firstIno <= x <= count && Marked(bs, x, perGroup)
  }

  predicate Marked(bs: seq<seq<bool>>, x: nat, perGroup: nat)
    requires perGroup > 0
  {
    && x > 0 && GroupOf(x, perGroup) < |bs| && BitOf(x, perGroup) < |bs[GroupOf(x, perGroup)]|
    && bs[GroupOf(x, perGroup)][BitOf(x, perGroup)]
  }

  /** No inode of the group is free. */
  ghost predicate AllSet(b: seq<bool>) {
    forall i :: 0 <= i < |b| ==> b[i]
  }

  function SetBit(bs: seq<seq<bool>>, g: nat, i: nat, v: bool): seq<seq<bool>>
    requires g < |bs| && i < |bs[g]|
  {
    bs[g := bs[g][i := v]]
  }

  lemma BooksTaken(bs: seq<seq<bool>>, free: seq<nat>, used: seq<nat>, debts: seq<nat>, dirs: set<nat>,
                   perGroup: nat, firstIno: nat, count: nat, g: nat, i: nat, isDir: bool)
    requires Books(bs, free, used, debts, dirs, perGroup, firstIno, count) && g < |bs| && i < perGroup && !bs[g][i]
    requires Number(g, i, perGroup) !in dirs
    ensures free[g] > 0 && firstIno <= Number(g, i, perGroup) <= count
    ensures Books(SetBit(bs, g, i, true), free[g := free[g] - 1], used[g := used[g] + if isDir then 1 else 0],
                  debts[g := NewDebt(debts[g], isDir)], dirs + (if isDir then {Number(g, i, perGroup)} else {}),
                  perGroup, firstIno, count)
  {
    hide GroupBook, NewDebt, DirsIn, Number;
    assert GroupBook(bs[g], free[g], used[g], debts[g], dirs, g, firstIno, count);
    GroupTaken(bs[g], free[g], used[g], debts[g], dirs, g, i, isDir, firstIno, count);
    FreeInRange(bs[g], free[g], used[g], debts[g], dirs, g, i, firstIno, count);
    var after := dirs + if isDir then {Number(g, i, perGroup)} else {};
    forall h | 0 <= h < |bs| && h != g ensures GroupBook(bs[h], free[h], used[h], debts[h], after, h, firstIno, count) {
      OtherGroup(bs[h], free[h], used[h], debts[h], dirs, after, h, g, i, firstIno, count);
    }
  }

  lemma MarkedTaken(bs: seq<seq<bool>>, dirs: set<nat>, perGroup: nat, firstIno: nat, count: nat, g: nat, i: nat, isDir: bool)
    requires perGroup > 0 && DirsMarked(bs, dirs, perGroup, firstIno, count) && g < |bs| && i < perGroup == |bs[g]| && !bs[g][i]
    ensures Number(g, i, perGroup) !in dirs
    ensures firstIno <= Number(g, i, perGroup) <= count ==>
              DirsMarked(SetBit(bs, g, i, true), dirs + (if isDir then {Number(g, i, perGroup)} else {}), perGroup, firstIno, count)
  {
    hide GroupOf, BitOf, Number;
    var ino := Number(g, i, perGroup);
    NumberPlace(g, i, perGroup);
    assert !Marked(bs, ino, perGroup);
    forall x | x in dirs ensures Marked(SetBit(bs, g, i, true), x, perGroup) { assert Marked(bs, x, perGroup); }
    assert Marked(SetBit(bs, g, i, true), ino, perGroup);
  }

  lemma Taken(bs: seq<seq<bool>>, free: seq<nat>, used: seq<nat>, debts: seq<nat>, dirs: set<nat>,
              perGroup: nat, firstIno: nat, count: nat, g: nat, i: nat, isDir: bool)
    requires Books(bs, free, used, debts, dirs, perGroup, firstIno, count) && g < |bs| && i < perGroup && !bs[g][i]
    requires DirsMarked(bs, dirs, perGroup, firstIno, count)
    ensures free[g] > 0 && G.Sum(free[g := free[g] - 1]) == G.Sum(free) - 1
    ensures var ino := Number(g, i, perGroup);
            var after := dirs + if isDir then {ino} else {};
            && ino !in dirs && firstIno <= ino <= count && |after| == |dirs| + (if isDir then 1 else 0)
            && Books(SetBit(bs, g, i, true), free[g := free[g] - 1], used[g := used[g] + if isDir then 1 else 0],
                     debts[g := NewDebt(debts[g], isDir)], after, perGroup, firstIno, count)
            && DirsMarked(SetBit(bs, g, i, true), after, perGroup, firstIno, count)
  {
    hide GroupBook, NewDebt, DirsMarked, SetBit, Number;
    MarkedTaken(bs, dirs, perGroup, firstIno, count, g, i, isDir);
    BooksTaken(bs, free, used, debts, dirs, perGroup, firstIno, count, g, i, isDir);
    G.SumUpdate(free, g, free[g] - 1);
  }

  lemma BooksShape(bs: seq<seq<bool>>, free: seq<nat>, used: seq<nat>, debts: seq<nat>, dirs: set<nat>, perGroup: nat, firstIno: nat, count: nat)
    requires Books(bs, free, used, debts, dirs, perGroup, firstIno, count)
    ensures |free| == |used| == |debts| == |bs| && perGroup > 0 && forall g :: 0 <= g < |bs| ==> |bs[g]| == perGroup
  {
  }

  lemma FreeInRange(b: seq<bool>, free: nat, ndirs: nat, debt: nat, dirs: set<nat>, g: nat, i: nat, firstIno: nat, count: nat)
    requires |b| > 0 && GroupBook(b, free, ndirs, debt, dirs, g, firstIno, count) && i < |b| && !b[i]
    ensures firstIno <= Number(g, i, |b|) <= count
  {
  }

  lemma BooksFreed(bs: seq<seq<bool>>, free: seq<nat>, used: seq<nat>, debts: seq<nat>, dirs: set<nat>,
                   perGroup: nat, firstIno: nat, count: nat, g: nat, i: nat, isDir: bool)
    requires Books(bs, free, used, debts, dirs, perGroup, firstIno, count) && g < |bs| && i < perGroup && bs[g][i]
    requires firstIno <= Number(g, i, perGroup) <= count && (isDir <==> Number(g, i, perGroup) in dirs)
    ensures isDir ==> used[g] > 0
    ensures Books(SetBit(bs, g, i, false), free[g := free[g] + 1], used[g := used[g] - if isDir then 1 else 0],
                  debts, dirs - (if isDir then {Number(g, i, perGroup)} else {}), perGroup, firstIno, count)
  {
    hide GroupBook, DirsIn, Number;
    assert GroupBook(bs[g], free[g], used[g], debts[g], dirs, g, firstIno, count);
    GroupFreed(bs[g], free[g], used[g], debts[g], dirs, g, i, isDir, firstIno, count);
    var after := dirs - if isDir then {Number(g, i, perGroup)} else {};
    forall h | 0 <= h < |bs| && h != g ensures GroupBook(bs[h], free[h], used[h], debts[h], after, h, firstIno, count) {
      OtherGroup(bs[h], free[h], used[h], debts[h], dirs, after, h, g, i, firstIno, count);
    }
  }

  lemma MarkedFreed(bs: seq<seq<bool>>, dirs: set<nat>, perGroup: nat, firstIno: nat, count: nat, g: nat, i: nat)
    requires perGroup > 0 && DirsMarked(bs, dirs, perGroup, firstIno, count) && g < |bs| && i < perGroup == |bs[g]|
    ensures DirsMarked(SetBit(bs, g, i, false), dirs - {Number(g, i, perGroup)}, perGroup, firstIno, count)
  {
    hide GroupOf, BitOf, Number;
    forall x | x in dirs && x != Number(g, i, perGroup) ensures Marked(SetBit(bs, g, i, false), x, perGroup) {
      assert Marked(bs, x, perGroup);
      PlaceOf(x, perGroup);
    }
  }

  lemma Freed(bs: seq<seq<bool>>, free: seq<nat>, used: seq<nat>, debts: seq<nat>, dirs: set<nat>,
              perGroup: nat, firstIno: nat, count: nat, g: nat, i: nat, isDir: bool)
    requires Books(bs, free, used, debts, dirs, perGroup, firstIno, count) && g < |bs| && i < perGroup && bs[g][i]
    requires DirsMarked(bs, dirs, perGroup, firstIno, count)
    requires firstIno <= Number(g, i, perGroup) <= count && (isDir <==> Number(g, i, perGroup) in dirs)
    ensures G.Sum(free[g := free[g] + 1]) == G.Sum(free) + 1 && (isDir ==> used[g] > 0)
    ensures var after := dirs - {Number(g, i, perGroup)};
            && |after| == |dirs| - (if isDir then 1 else 0)
            && Books(SetBit(bs, g, i, false), free[g := free[g] + 1], used[g := used[g] - if isDir then 1 else 0],
                     debts, after, perGroup, firstIno, count)
            && DirsMarked(SetBit(bs, g, i, false), after, perGroup, firstIno, count)
  {
    hide GroupBook, DirsMarked, SetBit, Number;
    MarkedFreed(bs, dirs, perGroup, firstIno, count, g, i);
    BooksFreed(bs, free, used, debts, dirs, perGroup, firstIno, count, g, i, isDir);
    G.SumUpdate(free, g, free[g] + 1);
    assert dirs - (if isDir then {Number(g, i, perGroup)} else {}) == dirs - {Number(g, i, perGroup)};
  }

  /** A number is made of its place. */
  lemma PlaceOf(x: nat, perGroup: nat)
    requires x > 0 && perGroup > 0
    ensures Number(GroupOf(x, perGroup), BitOf(x, perGroup), perGroup) == x && BitOf(x, perGroup) < perGroup
  {
    DivMod(x - 1, perGroup);
  }

  // ---------- picking a group ----------

  /** What the counters say, as they are read: not below zero. */
  function Positive(counter: int): nat {
    if counter < 0 then 0 else counter
  }

  /** A 32-bit pattern, as a signed number. */
  function Signed32(x: int): int {
    var w := x % TWO32;
    if w >= TWO32 / 2 then w - TWO32 else w
  }

  /** What a group may owe, by find_group_orlov; from 1 to 255. */
  function MaxDebt(blocksPerGroup: nat, perGroup: nat, blocksPerDir: int): (d: nat)
    ensures 1 <= d <= MAX_DEBT
  {
    var d0 := blocksPerGroup / (if blocksPerDir > BLOCK_COST then blocksPerDir else BLOCK_COST);
    var d1 := if d0 * INODE_COST > perGroup then perGroup / INODE_COST else d0;
    if d1 > MAX_DEBT then MAX_DEBT else if d1 == 0 then 1 else d1
  }

  lemma Signed32Is(x: int)
    ensures -(TWO32 / 2) <= Signed32(x) < TWO32 / 2 && (x - Signed32(x)) % TWO32 == 0
  {
    assert x == x / TWO32 * TWO32 + x % TWO32;
    if x % TWO32 >= TWO32 / 2 {
      assert x - Signed32(x) == (x / TWO32 + 1) * TWO32;
    }
  }

  /** So many directories are within the debt just if there are blocks and inodes
      in a group for them, at their cost. */
  lemma MaxDebtIs(blocksPerGroup: nat, perGroup: nat, blocksPerDir: int, x: nat)
    requires 2 <= x <= MAX_DEBT
    ensures x <= MaxDebt(blocksPerGroup, perGroup, blocksPerDir) <==>
              && x * (if blocksPerDir > BLOCK_COST then blocksPerDir else BLOCK_COST) <= blocksPerGroup
              && x * INODE_COST <= perGroup
  {
    var cost := if blocksPerDir > BLOCK_COST then blocksPerDir else BLOCK_COST;
    QuotientAtLeast(blocksPerGroup, cost, x);
    QuotientAtLeast(perGroup, INODE_COST, x);
    var d0 := blocksPerGroup / cost;
    assert x <= d0 && d0 * INODE_COST <= perGroup ==> x * INODE_COST <= perGroup;
  }

  lemma QuotientAtLeast(n: nat, d: nat, x: nat)
    requires d > 0
    ensures x <= n / d <==> x * d <= n
  {
    DivMod(n, d);
    if x <= n / d {
      MulMono(x, n / d, d);
    } else {
      MulMono(n / d + 1, x, d);
    }
  }

  /** A directory's debt is worked off by the next other inode, unless it is at its limit. */
  lemma DebtWorkedOff(debt: nat)
    requires debt <= MAX_DEBT
    ensures if debt < MAX_DEBT then debt < NewDebt(debt, true) && NewDebt(NewDebt(debt, true), false) == debt else NewDebt(debt, true) == debt
    ensures debt > 0 ==> NewDebt(NewDebt(debt, false), true) == debt
    ensures if debt > 0 then NewDebt(debt, false) < debt else NewDebt(debt, false) == 0
  {
  }

  /** The free inodes and blocks, and the directories, that a group is asked for. */
  datatype Wanted = Wanted(maxDebt: int, maxDirs: int, minInodes: int, minBlocks: int)

  /** What the searches look at: of each group, its free inodes, free blocks,
      directories and debt; and the volume's (approximate) counters. */
  class Inodes {
    const groups: nat
    const perGroup: nat
    const blocksPerGroup: nat
    const blocksCount: nat
    /** s_first_ino and s_inodes_count */
    const firstIno: nat
    const count: nat
    const bits: seq<array<bool>>
    var freeInodes: seq<nat>
    var freeBlocks: seq<nat>
    var usedDirs: seq<nat>
    var debts: seq<nat>
    /** s_freeinodes_counter, s_freeblocks_counter, s_dirs_counter */
    var freeInodesCounter: int
    var freeBlocksCounter: int
    var dirsCounter: int
    /** the inodes in use that are directories */
    var dirs: set<nat>

    ghost predicate Shape()
      reads this
    {
      && groups > 0 && perGroup > 0 && |bits| == groups
      && |freeInodes| == |freeBlocks| == |usedDirs| == |debts| == groups
    }

    /** The sum of the groups' counts. */
    method CountFreeInodes() returns (sum: nat)
      requires Shape()
      ensures sum == G.Sum(freeInodes)
    {
      sum := 0;
      for i := 0 to groups
        invariant sum == G.Sum(freeInodes[..i])
      {
        sum := sum + freeInodes[i];
        assert freeInodes[..i + 1][..i] == freeInodes[..i];
      }
      assert freeInodes[..groups] == freeInodes;
    }

    /** Worth a new directory, to find_group_dir: no worse than average. */
    ghost predicate Average(g: nat, ave: nat)
      requires g < |freeInodes|
      reads this
    {
      freeInodes[g] > 0 && freeInodes[g] >= ave
    }

    /** Of the groups no worse than average, the first of those with the most free blocks. */
    ghost predicate DirChoice(best: int)
      requires Shape()
      reads this
    {
      var ave := G.Sum(freeInodes) / groups;
      && 0 <= best < groups && Average(best, ave)
      && (forall g :: 0 <= g < groups && Average(g, ave) ==> freeBlocks[g] <= freeBlocks[best])
      && (forall g :: 0 <= g < best && Average(g, ave) ==> freeBlocks[g] < freeBlocks[best])
    }

    /** find_group_dir */
    method FindGroupDir() returns (best: int)
      requires Shape()
      ensures best == -1 <==> forall g :: 0 <= g < groups ==> freeInodes[g] == 0
      ensures best != -1 ==> DirChoice(best)
    {
      var sum := CountFreeInodes();
      var ave := sum / groups;
      best := -1;
      for group := 0 to groups
        invariant best == -1 || (0 <= best < group && Average(best, ave))
        invariant forall g :: 0 <= g < group && Average(g, ave) ==> best != -1 && freeBlocks[g] <= freeBlocks[best]
        invariant forall g :: 0 <= g < best && Average(g, ave) ==> freeBlocks[g] < freeBlocks[best]
      {
        if freeInodes[group] == 0 || freeInodes[group] < ave { continue; }
        if best == -1 || freeBlocks[group] > freeBlocks[best] { best := group; }
      }
      if best == -1 {
        forall i | 0 <= i < |freeInodes| ensures freeInodes[i] == 0 || freeInodes[i] < ave { assert !Average(i, ave); }
        Pigeonhole(freeInodes);
        SumPositive(freeInodes);
      }
    }

    /** A group that a top-level directory may go to. */
    ghost predicate Spread(g: nat, aveInodes: nat, aveBlocks: nat)
      requires Shape() && g < groups
      reads this
    {
      freeInodes[g] > 0 && usedDirs[g] < perGroup && freeInodes[g] >= aveInodes && freeBlocks[g] >= aveBlocks
    }

    /** Of the groups no worse than average, the first from `start` of those with the fewest directories. */
    ghost predicate SpreadChoice(start: nat, aveInodes: nat, aveBlocks: nat, best: int)
      requires Shape() && start < groups
      reads this
    {
      && 0 <= best < groups && Spread(best, aveInodes, aveBlocks)
      && forall g :: 0 <= g < groups && Spread(g, aveInodes, aveBlocks) ==>
           usedDirs[best] < usedDirs[g] || (usedDirs[best] == usedDirs[g] && Distance(start, best, groups) <= Distance(start, g, groups))
    }

    /** For a top-level directory. */
    method FindSpread(start: nat, aveInodes: nat, aveBlocks: nat) returns (best: int)
      requires Shape() && start < groups
      ensures best == -1 <==> forall g :: 0 <= g < groups ==> !Spread(g, aveInodes, aveBlocks)
      ensures best != -1 ==> SpreadChoice(start, aveInodes, aveBlocks, best)
    {
      var bestDirs := perGroup;
      best := -1;
      for i := 0 to groups
        invariant best == -1 ==> bestDirs == perGroup
        invariant best != -1 ==> 0 <= best < groups && Spread(best, aveInodes, aveBlocks) && bestDirs == usedDirs[best]
        invariant best != -1 ==> Distance(start, best, groups) < i
        invariant forall g :: 0 <= g < groups && Passed(start, i, groups, g) && Spread(g, aveInodes, aveBlocks)
                              ==> best != -1 && (bestDirs < usedDirs[g]
                                                 || (bestDirs == usedDirs[g] && Distance(start, best, groups) <= Distance(start, g, groups)))
      {
        AroundMod(start, i, groups);
        var group := (start + i) % groups;
        if freeInodes[group] == 0 { continue; }
        if usedDirs[group] >= bestDirs { continue; }
        if freeInodes[group] < aveInodes { continue; }
        if freeBlocks[group] < aveBlocks { continue; }
        best, bestDirs := group, usedDirs[group];
      }
    }

    /** It is fine to put a directory there. */
    ghost predicate Fine(g: nat, w: Wanted)
      requires Shape() && g < groups
      reads this
    {
      && freeInodes[g] > 0 && debts[g] < w.maxDebt && usedDirs[g] < w.maxDirs
      && freeInodes[g] >= w.minInodes && freeBlocks[g] >= w.minBlocks
    }

    ghost predicate FineChoice(start: nat, w: Wanted, group: int)
      requires Shape() && start < groups
      reads this
    {
      && 0 <= group < groups && Fine(group, w)
      && forall g :: 0 <= g < groups && Fine(g, w) ==> Distance(start, group, groups) <= Distance(start, g, groups)
    }

    /** The first group, cyclically from `start`, that is fine. */
    method FindFine(start: nat, w: Wanted) returns (group: int)
      requires Shape() && start < groups
      ensures group == -1 <==> forall g :: 0 <= g < groups ==> !Fine(g, w)
      ensures group != -1 ==> FineChoice(start, w, group)
    {
      for i := 0 to groups
        invariant forall g :: 0 <= g < groups && Passed(start, i, groups, g) ==> !Fine(g, w)
      {
        AroundMod(start, i, groups);
        group := (start + i) % groups;
        if freeInodes[group] == 0 { continue; }
        if debts[group] >= w.maxDebt { continue; }
        if usedDirs[group] >= w.maxDirs { continue; }
        if freeInodes[group] < w.minInodes { continue; }
        if freeBlocks[group] < w.minBlocks { continue; }
        assert Fine(group, w);
        return;
      }
      group := -1;
    }

    ghost predicate AverageChoice(start: nat, ave: nat, group: int)
      requires Shape() && start < groups
      reads this
    {
      && 0 <= group < groups && Average(group, ave)
      && forall g :: 0 <= g < groups && Average(g, ave) ==> Distance(start, group, groups) <= Distance(start, g, groups)
    }

    /** The fallback: the first group from `start` with free inodes, and no fewer than average. */
    method FindAverage(start: nat, ave: nat) returns (group: int)
      requires Shape() && start < groups
      ensures group == -1 <==> forall g :: 0 <= g < groups ==> !Average(g, ave)
      ensures group != -1 ==> AverageChoice(start, ave, group)
    {
      for i := 0 to groups
        invariant forall g :: 0 <= g < groups && Passed(start, i, groups, g) ==> !Average(g, ave)
      {
        AroundMod(start, i, groups);
        group := (start + i) % groups;
        if freeInodes[group] == 0 { continue; }
        if freeInodes[group] >= ave {
          assert Average(group, ave);
          return;
        }
      }
      group := -1;
    }

    /** The averages, by the counters. */
    function AveInodes(): nat
      requires groups > 0
      reads this
    {
      Positive(freeInodesCounter) / groups
    }

    function AveBlocks(): nat
      requires groups > 0
      reads this
    {
      Positive(freeBlocksCounter) / groups
    }

    /** What find_group_orlov asks of a group, from the counters. */
    function WantedOf(): Wanted
      requires groups > 0
      reads this
    {
      var freeBlocks := Positive(freeBlocksCounter);
      var ndirs := if Positive(dirsCounter) == 0 then 1 else Positive(dirsCounter);
      var blocksPerDir := Signed32((blocksCount - freeBlocks) % TWO32 / ndirs);
      Wanted(MaxDebt(blocksPerGroup, perGroup, blocksPerDir), ndirs / groups + perGroup / 16,
             AveInodes() - perGroup / 4, AveBlocks() - blocksPerGroup / 4)
    }

    /** The directories, inodes and blocks asked for are the volume's averages, give or take
        a share of a group; and a directory's blocks are those in use over the directories. */
    lemma WantedMeans()
      requires Shape()
      ensures var n := if dirsCounter < 1 then 1 else dirsCounter;
              var inodes, blocks := if freeInodesCounter < 0 then 0 else freeInodesCounter, if freeBlocksCounter < 0 then 0 else freeBlocksCounter;
              var w := WantedOf();
              && AveInodes() == inodes / groups && AveBlocks() == blocks / groups
              && w.maxDirs == n / groups + perGroup / 16
              && w.minInodes == inodes / groups - perGroup / 4 && w.minBlocks == blocks / groups - blocksPerGroup / 4
              && w.maxDebt == MaxDebt(blocksPerGroup, perGroup, Signed32((blocksCount - blocks) % TWO32 / n))
    {
    }

    /** A top-level directory is spread, another goes to a group that is fine; and where
        there is none, to the first with an average number of free inodes, or any. */
    ghost predicate OrlovChoice(parentGroup: nat, top: bool, random: nat, group: int)
      requires Shape() && parentGroup < groups
      reads this
    {
      var aveInodes, aveBlocks, start := AveInodes(), AveBlocks(), if top then random % groups else parentGroup;
      && 0 <= group < groups && freeInodes[group] > 0
      && if top && exists g :: 0 <= g < groups && Spread(g, aveInodes, aveBlocks) then SpreadChoice(start, aveInodes, aveBlocks, group)
         else if !top && exists g :: 0 <= g < groups && Fine(g, WantedOf()) then FineChoice(start, WantedOf(), group)
         else if exists g :: 0 <= g < groups && Average(g, aveInodes) then AverageChoice(start, aveInodes, group)
         else AverageChoice(start, 0, group)
    }

    /** find_group_orlov, for any values of the counters. `random` stands for the
        random start of the search for a top-level directory. */
    method FindGroupOrlov(parentGroup: nat, top: bool, random: nat) returns (group: int)
      requires Shape() && parentGroup < groups
      ensures group == -1 <==> forall g :: 0 <= g < groups ==> freeInodes[g] == 0
      ensures group != -1 ==> OrlovChoice(parentGroup, top, random, group)
    {
      hide AveInodes, AveBlocks, WantedOf, AverageChoice;
      var aveInodes, aveBlocks := AveInodes(), AveBlocks();
      var start := parentGroup;
      if top {
        start := random % groups;
        group := FindSpread(start, aveInodes, aveBlocks);
      } else {
        group := FindFine(start, WantedOf());
      }
      if group >= 0 { return; }
      group := FindAnyway(start, aveInodes);
    }

    /** The fallback of find_group_orlov: the counter is approximate, and the average may be too much. */
    method FindAnyway(start: nat, ave: nat) returns (group: int)
      requires Shape() && start < groups
      ensures group == -1 <==> forall g :: 0 <= g < groups ==> freeInodes[g] == 0
      ensures group != -1 ==>
                && 0 <= group < groups && freeInodes[group] > 0
                && if exists g :: 0 <= g < groups && Average(g, ave) then AverageChoice(start, ave, group) else AverageChoice(start, 0, group)
    {
      group := FindAverage(start, ave);
      if group == -1 && ave > 0 {
        group := FindAverage(start, 0);
      }
      if group == -1 {
        forall g | 0 <= g < groups ensures freeInodes[g] == 0 { assert !Average(g, 0); }
      }
    }

    ghost predicate Roomy(g: nat)
      requires Shape() && g < groups
      reads this
    {
      freeInodes[g] > 0 && freeBlocks[g] > 0
    }

    /** The k-th group looked at is 1 + 2 + 4 + ..., in k terms, from the parent's own place. */
    ghost function Probe(parentGroup: nat, parentIno: nat, k: nat): (g: nat)
      requires groups > 0
      ensures g < groups
    {
      (parentGroup + parentIno + (Pow2(k) - 1)) % groups
    }

    /** The k-th probe is made, and is the first that finds an inode and a block. */
    ghost predicate FirstProbe(parentGroup: nat, parentIno: nat, k: nat)
      requires Shape() && parentGroup < groups
      reads this
    {
      && 0 < k && Pow2(k - 1) < groups && Roomy(Probe(parentGroup, parentIno, k))
      && forall j :: 0 < j < k ==> !Roomy(Probe(parentGroup, parentIno, j))
    }

    /** The parent's group, if it has an inode and a block; else the first of a few
        groups from a place of the parent's own that has both; else the first with an
        inode after the parent's. */
    ghost predicate OtherChoice(parentGroup: nat, parentIno: nat, group: int)
      requires Shape() && parentGroup < groups
      reads this
    {
      && 0 <= group < groups && freeInodes[group] > 0
      && (Roomy(parentGroup) ==> group == parentGroup)
      && (!Roomy(parentGroup) ==> forall k :: FirstProbe(parentGroup, parentIno, k) ==> group == Probe(parentGroup, parentIno, k))
      && (!Roomy(parentGroup) && (forall k :: !FirstProbe(parentGroup, parentIno, k)) ==>
            var next := if parentGroup + 1 == groups then 0 else parentGroup + 1;
            forall g :: 0 <= g < groups && freeInodes[g] > 0 ==> Distance(next, group, groups) <= Distance(next, g, groups))
    }

    /** find_group_other */
    method FindGroupOther(parentGroup: nat, parentIno: nat) returns (group: int)
      requires Shape() && parentGroup < groups
      ensures group == -1 <==> forall g :: 0 <= g < groups ==> freeInodes[g] == 0
      ensures group != -1 ==> OtherChoice(parentGroup, parentIno, group)
    {
      group := parentGroup;
      if freeInodes[group] > 0 && freeBlocks[group] > 0 { return; }
      group := QuadraticSearch(parentGroup, parentIno);
      if group >= 0 { return; }
      group := parentGroup;
      for j := 0 to groups
        invariant 0 <= group < groups && (j < groups ==> group == Around(parentGroup, j, groups))
        invariant forall g :: 0 <= g < groups && Passed(parentGroup + 1, j, groups, g) ==> freeInodes[g] == 0
      {
        group := group + 1;
        if group >= groups { group := 0; }
        if freeInodes[group] > 0 { return; }
      }
      group := -1;
      forall g | 0 <= g < groups ensures freeInodes[g] == 0 { assert Passed(parentGroup + 1, groups, groups, g); }
    }

    method QuadraticSearch(parentGroup: nat, parentIno: nat) returns (group: int)
      requires Shape() && parentGroup < groups
      ensures group == -1 ==> forall k :: !FirstProbe(parentGroup, parentIno, k)
      ensures group != -1 ==>
                && 0 <= group < groups && freeInodes[group] > 0
                && forall k :: FirstProbe(parentGroup, parentIno, k) ==> group == Probe(parentGroup, parentIno, k)
      ensures group != -1 ==> exists k :: FirstProbe(parentGroup, parentIno, k)
    {
      hide Pow2, Probe;
      group := (parentGroup + parentIno) % groups;
      var i := 1;
      ghost var k := 0;
      ProbeStart(parentGroup, parentIno);
      while i < groups
        invariant 1 <= i == Pow2(k) && group == Probe(parentGroup, parentIno, k)
        invariant forall j :: 0 < j <= k ==> !Roomy(Probe(parentGroup, parentIno, j))
        decreases groups - i
      {
        ProbeNext(parentGroup, parentIno, k);
        group := group + i;
        if group >= groups { group := group - groups; }
        k := k + 1;
        if freeInodes[group] > 0 && freeBlocks[group] > 0 {
          assert FirstProbe(parentGroup, parentIno, k);
          return;
        }
        i := i * 2;
      }
      forall j: nat | FirstProbe(parentGroup, parentIno, j)
        ensures false
      {
        PowMono(k, j - 1);
      }
      group := -1;
    }

    lemma ProbeStart(parentGroup: nat, parentIno: nat)
      requires groups > 0
      ensures Pow2(0) == 1 && Probe(parentGroup, parentIno, 0) == (parentGroup + parentIno) % groups
    {
    }

    lemma ProbeNext(parentGroup: nat, parentIno: nat, k: nat)
      requires Pow2(k) < groups
      ensures Pow2(k + 1) == 2 * Pow2(k)
      ensures var g := Probe(parentGroup, parentIno, k) + Pow2(k);
              Probe(parentGroup, parentIno, k + 1) == if g >= groups then g - groups else g
    {
      var i := Pow2(k);
      var x := parentGroup + parentIno + (i - 1);
      DivMod(x, groups);
      var g := x % groups + i;
      assert Pow2(k + 1) - 1 == i - 1 + i;
      if g >= groups {
        assert x + i == (x / groups + 1) * groups + (g - groups);
        DivUnique(x + i, groups, x / groups + 1, g - groups);
      } else {
        DivUnique(x + i, groups, x / groups, g);
      }
    }

    // ---------- allocating and freeing ----------

    ghost function BitSet(): set<array<bool>> {
      set b | b in bits
    }

    ghost predicate Bitmaps()
      reads this
    {
      && Shape() && 0 < firstIno && count <= groups * perGroup
      && (forall g :: 0 <= g < groups ==> bits[g].Length == perGroup)
      && forall g, h :: 0 <= g < h < groups ==> bits[g] != bits[h]
    }

    ghost function Bits(): (r: seq<seq<bool>>)
      reads BitSet()
      ensures |r| == |bits| && forall g :: 0 <= g < |bits| ==> r[g] == bits[g][..]
    {
      View(bits)
    }

    /** Counts and directories match the bitmaps; the counters match the groups, but
        for that of free inodes, which frees do not raise again. */
    ghost predicate Valid()
      reads this, BitSet()
    {
      && Bitmaps()
      && Books(Bits(), freeInodes, usedDirs, debts, dirs, perGroup, firstIno, count)
      && DirsMarked(Bits(), dirs, perGroup, firstIno, count)
      && freeInodesCounter <= G.Sum(freeInodes) && dirsCounter == |dirs|
    }

    ghost predicate Full(g: nat)
      requires g < |bits|
      reads bits[g]
    {
      AllSet(bits[g][..])
    }

    /** A group such as the policy for the kind of inode chooses. */
    ghost predicate Chosen(isDir: bool, oldAlloc: bool, top: bool, random: nat, parentGroup: nat, parentIno: nat, group: int)
      requires Shape() && parentGroup < groups
      reads this
    {
      if !isDir then OtherChoice(parentGroup, parentIno, group)
      else if oldAlloc then DirChoice(group)
      else OrlovChoice(parentGroup, top, random, group)
    }

    /** kr_find_group_*, for the kind of inode and the mount option */
    method PickGroup(isDir: bool, oldAlloc: bool, top: bool, random: nat, parentGroup: nat, parentIno: nat) returns (group: int)
      requires Valid() && parentGroup < groups
      ensures group == -1 <==> forall g :: 0 <= g < groups ==> Full(g)
      ensures group != -1 ==> 0 <= group < groups && !Full(group) && Chosen(isDir, oldAlloc, top, random, parentGroup, parentIno, group)
    {
      if isDir {
        if oldAlloc {
          group := FindGroupDir();
        } else {
          group := FindGroupOrlov(parentGroup, top, random);
        }
      } else {
        group := FindGroupOther(parentGroup, parentIno);
      }
      forall g | 0 <= g < groups ensures freeInodes[g] == 0 <==> Full(g) { FullCount(g); }
    }

    lemma FullCount(g: nat)
      requires Valid() && g < groups
      ensures freeInodes[g] == 0 <==> Full(g)
    {
      assert GroupBook(Bits()[g], freeInodes[g], usedDirs[g], debts[g], dirs, g, firstIno, count);
    }

    /** The search of the bitmaps, from the picked group on. */
    method FindBit(start: nat) returns (found: bool, group: nat, bit: nat)
      requires Bitmaps() && start < groups
      ensures found <==> exists g :: 0 <= g < groups && !Full(g)
      ensures found ==> group < groups && bit < perGroup && !bits[group][bit]
      ensures !Full(start) ==> group == start
      ensures found ==> forall j :: 0 <= j < bit ==> bits[group][j]
    {
      group, bit := start, 0;
      for i := 0 to groups
        invariant group < groups && (i < groups ==> group == Around(start, i, groups))
        invariant forall g :: 0 <= g < groups && Passed(start, i, groups, g) ==> Full(g)
        invariant i > 0 ==> Full(start)
      {
        bit := FindNextZeroBit(bits[group], perGroup, 0);
        if bit < perGroup {
          assert !bits[group][..][bit] && !Full(group);
          return true, group, bit;
        }
        group := group + 1;
        if group == groups { group := 0; }
      }
      found := false;
      forall g | 0 <= g < groups ensures Full(g) { assert Passed(start, groups, groups, g); }
    }

    /** A bit is set, and the counts follow (kr_new_inode, from `got` on). */
    method Take(g: nat, i: nat, isDir: bool)
      requires Valid() && g < groups && i < perGroup && !bits[g][i]
      modifies this, bits[g]
      ensures Valid() && Bits() == SetBit(old(Bits()), g, i, true)
      ensures dirs == old(dirs) + (if isDir then {Number(g, i, perGroup)} else {})
      ensures old(freeInodes)[g] > 0 && freeInodes == old(freeInodes)[g := old(freeInodes)[g] - 1]
      ensures debts == old(debts)[g := NewDebt(old(debts)[g], isDir)] && freeBlocks == old(freeBlocks)
      ensures freeInodesCounter == old(freeInodesCounter) - 1 && freeBlocksCounter == old(freeBlocksCounter)
      ensures firstIno <= Number(g, i, perGroup) <= count
    {
      hide Books, DirsMarked, NewDebt, Number, SetBit, G.Sum, View;
      ghost var bs := Bits();
      BooksShape(bs, freeInodes, usedDirs, debts, dirs, perGroup, firstIno, count);
      Taken(bs, freeInodes, usedDirs, debts, dirs, perGroup, firstIno, count, g, i, isDir);
      SetOneBit(g, i, true);
      freeInodesCounter := freeInodesCounter - 1;
      freeInodes := freeInodes[g := freeInodes[g] - 1];
      debts := debts[g := NewDebt(debts[g], isDir)];
      usedDirs := usedDirs[g := usedDirs[g] + if isDir then 1 else 0];
      if isDir { dirsCounter := dirsCounter + 1; }
      dirs := dirs + if isDir then {Number(g, i, perGroup)} else {};
    }

    /** ext2_set_bit_atomic and ext2_clear_bit_atomic */
    method SetOneBit(g: nat, i: nat, v: bool)
      requires Bitmaps() && g < groups && i < perGroup
      modifies bits[g]
      ensures Bits() == SetBit(old(Bits()), g, i, v)
    {
      bits[g][i] := v;
      assert forall h :: 0 <= h < groups && h != g ==> bits[h] != bits[g];
      assert Bits()[g] == old(Bits())[g][i := v];
    }

    /** kr_release_inode, and the bit before it */
    method Drop(g: nat, i: nat, isDir: bool)
      requires Valid() && g < groups && i < perGroup && bits[g][i]
      requires firstIno <= Number(g, i, perGroup) <= count && (isDir <==> Number(g, i, perGroup) in dirs)
      modifies this, bits[g]
      ensures Valid() && Bits() == SetBit(old(Bits()), g, i, false)
      ensures dirs == old(dirs) - {Number(g, i, perGroup)}
      ensures freeInodes == old(freeInodes)[g := old(freeInodes)[g] + 1] && freeInodesCounter == old(freeInodesCounter)
      ensures debts == old(debts) && freeBlocks == old(freeBlocks) && freeBlocksCounter == old(freeBlocksCounter)
    {
      hide Books, DirsMarked, Number, SetBit, G.Sum, View;
      ghost var bs := Bits();
      BooksShape(bs, freeInodes, usedDirs, debts, dirs, perGroup, firstIno, count);
      Freed(bs, freeInodes, usedDirs, debts, dirs, perGroup, firstIno, count, g, i, isDir);
      SetOneBit(g, i, false);
      freeInodes := freeInodes[g := freeInodes[g] + 1];
      usedDirs := usedDirs[g := usedDirs[g] - if isDir then 1 else 0];
      if isDir { dirsCounter := dirsCounter - 1; }
      dirs := dirs - {Number(g, i, perGroup)};
    }

    /** What a new inode changes. */
    twostate predicate Entered(ino: nat, isDir: bool)
      requires old(Valid()) && Valid()
      reads this, BitSet()
    {
      && firstIno <= ino <= count && !Marked(old(Bits()), ino, perGroup)
      && var g, i := GroupOf(ino, perGroup), BitOf(ino, perGroup);
         && g < groups && i < perGroup && Bits() == SetBit(old(Bits()), g, i, true)
         && (forall j :: 0 <= j < i ==> old(Bits())[g][j])
         && dirs == old(dirs) + (if isDir then {ino} else {})
         && old(freeInodes)[g] > 0 && freeInodes == old(freeInodes)[g := old(freeInodes)[g] - 1]
         && freeInodesCounter == old(freeInodesCounter) - 1
         && debts == old(debts)[g := NewDebt(old(debts)[g], isDir)]
    }

    twostate predicate SameInodes()
      requires old(Valid()) && Valid()
      reads this, BitSet()
    {
      Bits() == old(Bits()) && freeInodes == old(freeInodes) && dirs == old(dirs) && debts == old(debts)
      && freeInodesCounter == old(freeInodesCounter)
    }

    /** kr_new_inode: the first free inode of the group that the policy chooses. It
        fails only when every inode is in use. */
    method NewInode(isDir: bool, oldAlloc: bool, top: bool, random: nat, parentGroup: nat, parentIno: nat)
      returns (ok: bool, ino: nat)
      requires Valid() && parentGroup < groups
      modifies this, BitSet()
      ensures Valid() && freeBlocks == old(freeBlocks) && freeBlocksCounter == old(freeBlocksCounter)
      ensures ok <==> exists g :: 0 <= g < groups && !AllSet(old(Bits())[g])
      ensures if ok then Entered(ino, isDir) else SameInodes()
      ensures ok ==> old(Chosen(isDir, oldAlloc, top, random, parentGroup, parentIno, GroupOf(ino, perGroup)))
    {
      hide Books, DirsMarked, NewDebt, SetBit, View, AllSet, DirChoice, OrlovChoice, OtherChoice;
      ino := 0;
      ghost var bs := Bits();
      var group := PickGroup(isDir, oldAlloc, top, random, parentGroup, parentIno);
      if group == -1 {
        forall h | 0 <= h < groups ensures AllSet(bs[h]) { assert Full(h) && bs[h] == bits[h][..]; }
        return false, 0;
      }
      var g, i;
      ok, g, i := FindBit(group);
      forall h | 0 <= h < groups ensures Full(h) <==> AllSet(bs[h]) { assert bs[h] == bits[h][..]; }
      if !ok { return; }
      assert forall j :: 0 <= j < i ==> bs[g][j] == bits[g][j];
      Take(g, i, isDir);
      NumberPlace(g, i, perGroup);
      ino := Number(g, i, perGroup);
    }

    /** kr_free_inode. Inodes that are reserved, not there or free already are left alone. */
    method FreeInode(ino: nat, isDir: bool)
      requires Valid() && (isDir <==> ino in dirs)
      modifies this, BitSet()
      ensures Valid() && debts == old(debts) && freeInodesCounter == old(freeInodesCounter)
      ensures freeBlocks == old(freeBlocks) && freeBlocksCounter == old(freeBlocksCounter)
      ensures if firstIno <= ino <= count && Marked(old(Bits()), ino, perGroup)
              then (var g, i := GroupOf(ino, perGroup), BitOf(ino, perGroup);
                    && g < groups && i < perGroup && Bits() == SetBit(old(Bits()), g, i, false)
                    && freeInodes == old(freeInodes)[g := old(freeInodes)[g] + 1] && dirs == old(dirs) - {ino})
              else Bits() == old(Bits()) && freeInodes == old(freeInodes) && dirs == old(dirs)
    {
      hide Books, DirsMarked, SetBit, View;
      if ino < firstIno || ino > count { return; }
      PlaceNumber(ino, perGroup, groups);
      var g, i := (ino - 1) / perGroup, (ino - 1) % perGroup;
      if !bits[g][i] { return; }
      Drop(g, i, isDir);
    }

    /** One operation. */
    method Step(op: InodeOp, ghost was: State)
      requires Valid() && was == Now()
      modifies this, BitSet()
      ensures Valid() && Effect(groups, perGroup, firstIno, count, op, was, Now())
    {
      hide Books, DirsMarked, SetBit, View, Chosen, AllSet;
      match op
      case New(isDir, oldAlloc, top, random, parentGroup, parentIno) =>
        if parentGroup < groups {
          var ok, ino := NewInode(isDir, oldAlloc, top, random, parentGroup, parentIno);
          assert ok ==> NewlyMarked(perGroup, firstIno, count, was, Now(), ino, isDir);
        }
      case Free(ino, wasDir) =>
        if wasDir == (ino in dirs) { FreeInode(ino, wasDir); }
    }

    ghost function Now(): State
      reads this, BitSet()
    {
      State(Bits(), dirs)
    }

    /** After any run of allocations and frees, counts, directories and debts are
        right; and each operation marks or clears just one inode's bit, or nothing. */
    method RunOps(ops: seq<InodeOp>) returns (ghost trace: seq<State>)
      requires Valid()
      modifies this, BitSet()
      ensures Valid()
      ensures forall g :: 0 <= g < groups ==> freeInodes[g] == ZeroBits(bits[g][..]) && debts[g] <= MAX_DEBT
      ensures forall g :: 0 <= g < groups ==> usedDirs[g] == |DirsIn(dirs, g, perGroup)|
      ensures freeInodesCounter <= G.Sum(freeInodes) && dirsCounter == |dirs|
      ensures |trace| == |ops| + 1 && trace[0] == old(Now()) && trace[|ops|] == Now()
      ensures forall i :: 0 <= i < |ops| ==> Effect(groups, perGroup, firstIno, count, ops[i], trace[i], trace[i + 1])
    {
      hide Effect, Now, Valid;
      BooksAre();
      trace := [Now()];
      for n := 0 to |ops|
        invariant Valid() && |trace| == n + 1 && trace[0] == old(Now()) && trace[n] == Now()
        invariant forall i :: 0 <= i < n ==> Effect(groups, perGroup, firstIno, count, ops[i], trace[i], trace[i + 1])
      {
        Step(ops[n], trace[n]);
        trace := trace + [Now()];
      }
      BooksAre();
    }

    lemma BooksAre()
      requires Valid()
      ensures |freeInodes| == |debts| == |usedDirs| == |bits| == groups && perGroup > 0
      ensures forall g :: 0 <= g < groups ==> freeInodes[g] == ZeroBits(bits[g][..]) && debts[g] <= MAX_DEBT
      ensures forall g :: 0 <= g < groups ==> usedDirs[g] == |DirsIn(dirs, g, perGroup)|
      ensures freeInodesCounter <= G.Sum(freeInodes) && dirsCounter == |dirs|
    {
      forall g | 0 <= g < groups
        ensures freeInodes[g] == ZeroBits(bits[g][..]) && debts[g] <= MAX_DEBT && usedDirs[g] == |DirsIn(dirs, g, perGroup)|
      {
        assert GroupBook(Bits()[g], freeInodes[g], usedDirs[g], debts[g], dirs, g, firstIno, count);
      }
    }
  }

  /** The bitmaps of the groups, and the inodes in use that are directories. */
  datatype State = State(bits: seq<seq<bool>>, dirs: set<nat>)

  /** The inode was not in use, and is now. */
  ghost predicate NewlyMarked(perGroup: nat, firstIno: nat, count: nat, was: State, now: State, ino: nat, isDir: bool)
    requires perGroup > 0
  {
    && firstIno <= ino <= count && ino > 0 && !Marked(was.bits, ino, perGroup)
    && var g, i := GroupOf(ino, perGroup), BitOf(ino, perGroup);
       && g < |was.bits| && i < |was.bits[g]| && now.bits == SetBit(was.bits, g, i, true)
       && now.dirs == was.dirs + if isDir then {ino} else {}
  }

  /** What an operation does. An inode is freed as what it is. */
  ghost predicate Effect(groups: nat, perGroup: nat, firstIno: nat, count: nat, op: InodeOp, was: State, now: State)
    requires perGroup > 0
  {
    match op
    case New(isDir, oldAlloc, top, random, parentGroup, parentIno) =>
      if parentGroup < groups && exists g :: 0 <= g < |was.bits| && !AllSet(was.bits[g]) then
        exists ino :: NewlyMarked(perGroup, firstIno, count, was, now, ino, isDir)
      else now == was
    case Free(ino, wasDir) =>
      if wasDir == (ino in was.dirs) && firstIno <= ino <= count && Marked(was.bits, ino, perGroup) then
        && now.bits == SetBit(was.bits, GroupOf(ino, perGroup), BitOf(ino, perGroup), false)
        && now.dirs == was.dirs - {ino}
      else now == was
  }

  datatype InodeOp =
    | New(isDir: bool, oldAlloc: bool, top: bool, random: nat, parentGroup: nat, parentIno: nat)
    | Free(ino: nat, wasDir: bool)

  ghost function View(bits: seq<array<bool>>): (r: seq<seq<bool>>)
    reads set b | b in bits
    ensures |r| == |bits| && forall g :: 0 <= g < |bits| ==> r[g] == bits[g][..]
  {
    if |bits| == 0 then [] else View(bits[..|bits| - 1]) + [bits[|bits| - 1][..]]
  }

  // ---------- going around ----------

  lemma {:induction false} PowMono(j: nat, k: int)
    requires 0 <= k
    ensures Pow2(j) > 0 && (j <= k ==> Pow2(j) <= Pow2(k))
    decreases k
  {
    if j < k {
      PowMono(j, k - 1);
    }
  }

  /** The i-th place from `start` on, cyclically. */
  function Around(start: nat, i: nat, n: nat): nat
    requires start <= n && i < n
  {
    if start + i < n then start + i else start + i - n
  }

  lemma AroundMod(start: nat, i: nat, n: nat)
    requires start <= n && i < n
    ensures (start + i) % n == Around(start, i, n) < n
  {
    if start + i < n {
      DivUnique(start + i, n, 0, start + i);
    } else {
      DivUnique(start + i, n, 1, start + i - n);
    }
  }

  /** How many places g is from `start`, going up and around. */
  function Distance(start: nat, g: nat, n: nat): nat
    requires start <= n
  {
    if start <= g then g - start else g + n - start
  }

  /** g is one of the first i places from `start` on. */
  predicate Passed(start: nat, i: nat, n: nat, g: nat) {
    start <= g < start + i || g < start + i - n
  }
}
