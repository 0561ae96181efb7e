/**
 Reading a branch without the truncate mutex, while others detach branches and
 splice new ones in: a chain that is returned as complete was linked end to end
 at one moment.

 Other threads' stores are single steps. A slot may be cleared under the write
 lock on the inode's metadata, or without a lock unless it is one of those that
 the reader has just verified; a slot that is empty may be filled at any time;
 the slots of a block that nothing points at may be written at any time (a
 branch being built, or one being freed after it was detached).
 */
module Lockless {
  /** A pointer slot: of an indirect block, or (for block 0) of the inode. */
  datatype Slot = Slot(block: nat, offs: nat)

  datatype Link = Link(slot: Slot, key: nat)

  /** Where kr_get_branch stands. It holds the read lock in Verify and Append. */
  datatype Pc = Start | Fetch | Verify(j: nat) | Append | Complete | Incomplete | Again

  datatype State = State(mem: map<Slot, nat>, offsets: seq<nat>, chain: seq<Link>, pc: Pc)

  function Read(mem: map<Slot, nat>, s: Slot): nat {
    if s in mem then mem[s] else 0
  }

  predicate ReadLocked(s: State) {
    s.pc.Verify? || s.pc.Append?
  }

  // ---------- steps of the reader ----------

  function AddChain(s: State, slot: Slot): seq<Link> {
    s.chain + [Link(slot, Read(s.mem, slot))]
  }

  /** After a key has been read: an empty slot or the last one ends the walk. */
  function After(chain: seq<Link>, depth: nat): Pc {
    if |chain| == 0 || chain[|chain| - 1].key == 0 then Incomplete
    else if |chain| >= depth then Complete
    else Fetch
  }

  /** The reader's next step; none once it is through. */
  function ReaderStep(s: State): State {
    match s.pc
    case Start =>
      if |s.offsets| == 0 then s else
      var chain := AddChain(s.(chain := []), Slot(0, s.offsets[0]));
      s.(chain := chain, pc := After(chain, |s.offsets|))
    case Fetch => s.(pc := Verify(0))
    case Verify(j) =>
      if j >= |s.chain| then s.(pc := Append)
      else if Read(s.mem, s.chain[j].slot) == s.chain[j].key then s.(pc := Verify(j + 1))
      else s.(pc := Again)
    case Append =>
      if |s.chain| == 0 || |s.chain| >= |s.offsets| then s
      else
        var chain := AddChain(s, Slot(s.chain[|s.chain| - 1].key, s.offsets[|s.chain|]));
        s.(chain := chain, pc := After(chain, |s.offsets|))
    case _ => s
  }

  // ---------- steps of the others ----------

  /** Nothing points at the block. */
  ghost predicate Unlinked(mem: map<Slot, nat>, b: nat) {
    b != 0 && forall s: Slot :: Read(mem, s) != b
  }

  function Store(s: State, slot: Slot, v: nat): State {
    s.(mem := s.mem[slot := v])
  }

  ghost predicate Detach(s: State, s': State) {
    !ReadLocked(s) && exists slot: Slot :: s' == Store(s, slot, 0)
  }

  ghost predicate SpliceIn(s: State, s': State) {
    exists slot: Slot, v: nat :: s' == Store(s, slot, v) && Read(s.mem, slot) == 0
  }

  ghost predicate OutOfTree(s: State, s': State) {
    exists slot: Slot, v: nat :: s' == Store(s, slot, v) && Unlinked(s.mem, slot.block)
  }

  /** How many links of the chain the reader has verified in this round. */
  function Verified(s: State): (n: nat)
    ensures n <= |s.chain|
  {
    match s.pc
    case Verify(j) => if j <= |s.chain| then j else |s.chain|
    case Append => |s.chain|
    case _ => 0
  }

  /** The reader relies on the slot: it has verified it and not yet read the
      last key, which is the only one that no later round verifies. */
  ghost predicate Exposed(s: State, slot: Slot) {
    |s.chain| + 1 == |s.offsets| && exists i :: 0 <= i < Verified(s) && s.chain[i].slot == slot
  }

  /** A slot cleared without the lock. */
  ghost predicate ClearUnlocked(s: State, s': State, slot: Slot) {
    s' == Store(s, slot, 0)
  }

  ghost predicate ClearAside(s: State, s': State) {
    exists slot: Slot :: ClearUnlocked(s, s', slot) && !Exposed(s, slot)
  }

  ghost predicate Next(s: State, s': State) {
    s' == ReaderStep(s) || Detach(s, s') || ClearAside(s, s') || SpliceIn(s, s') || OutOfTree(s, s')
  }

  // ---------- what holds in every state ----------

  /** The first n links of the chain hold in memory now. */
  ghost predicate LinkedNow(s: State, n: nat) {
    n <= |s.chain| && forall i :: 0 <= i < n ==> Read(s.mem, s.chain[i].slot) == s.chain[i].key
  }

  /** The i-th link was read where the one before it points. */
  predicate InPlace(chain: seq<Link>, offsets: seq<nat>, i: nat)
    requires i < |chain| <= |offsets|
  {
    chain[i].slot == Slot(if i == 0 then 0 else chain[i - 1].key, offsets[i])
  }

  /** The chain follows the offsets, from the inode down. */
  ghost predicate Follows(chain: seq<Link>, offsets: seq<nat>) {
    |chain| <= |offsets| && |offsets| > 0 && forall i :: 0 <= i < |chain| ==> InPlace(chain, offsets, i)
  }

  ghost predicate NonZero(chain: seq<Link>) {
    forall i :: 0 <= i < |chain| ==> chain[i].key != 0
  }

  /** What the last round has verified stays verified. */
  ghost predicate Inv(s: State) {
    && Follows(s.chain, s.offsets)
    && (s.pc.Start? ==> s.chain == [])
    && (s.pc.Fetch? || ReadLocked(s) ==> 0 < |s.chain| < |s.offsets| && NonZero(s.chain))
    && (|s.chain| + 1 == |s.offsets| ==> LinkedNow(s, Verified(s)))
    && (s.pc.Complete? ==> |s.chain| == |s.offsets| && NonZero(s.chain))
  }

  /** A store by another thread leaves verified links alone: none of them is
      empty, none of those relied on is cleared, and their blocks are linked. */
  lemma StoreKeeps(s: State, slot: Slot, v: nat, n: nat)
    requires Follows(s.chain, s.offsets) && NonZero(s.chain) && LinkedNow(s, n)
    requires Read(s.mem, slot) == 0 || Unlinked(s.mem, slot.block) || forall i :: 0 <= i < n ==> s.chain[i].slot != slot
    ensures LinkedNow(Store(s, slot, v), n)
  {
    forall i | 0 <= i < n && (Read(s.mem, slot) == 0 || Unlinked(s.mem, slot.block))
      ensures s.chain[i].slot != slot
    {
      var link := s.chain[i];
      assert Read(s.mem, link.slot) == link.key && link.key != 0 && InPlace(s.chain, s.offsets, i);
      if i > 0 {
        var above := s.chain[i - 1];
        assert Read(s.mem, above.slot) == above.key == link.slot.block;
      } else {
        assert link.slot.block == 0;
      }
    }
  }

  lemma StoreKeepsInv(s: State, slot: Slot, v: nat)
    requires Inv(s) && (!Exposed(s, slot) || Read(s.mem, slot) == 0 || Unlinked(s.mem, slot.block))
    ensures Inv(Store(s, slot, v))
  {
    hide Unlinked;
    var s' := Store(s, slot, v);
    assert s'.chain == s.chain && s'.pc == s.pc && Verified(s') == Verified(s);
    if ReadLocked(s) && |s.chain| + 1 == |s.offsets| {
      StoreKeeps(s, slot, v, Verified(s));
    }
  }

  lemma ReaderKeepsInv(s: State)
    requires Inv(s)
    ensures Inv(ReaderStep(s)) && ReaderStep(s).offsets == s.offsets && ReaderStep(s).mem == s.mem
    ensures ReaderStep(s).pc.Complete? && !s.pc.Complete? ==> LinkedNow(ReaderStep(s), |ReaderStep(s).chain|)
  {
    if s.pc.Append? {
      AppendKeepsInv(s);
    }
  }

  lemma AppendKeepsInv(s: State)
    requires Inv(s) && s.pc.Append?
    ensures Inv(ReaderStep(s)) && ReaderStep(s).offsets == s.offsets && ReaderStep(s).mem == s.mem
    ensures ReaderStep(s).pc.Complete? ==> LinkedNow(ReaderStep(s), |ReaderStep(s).chain|)
  {
    var s' := ReaderStep(s);
    var slot := Slot(s.chain[|s.chain| - 1].key, s.offsets[|s.chain|]);
    assert s'.chain == s.chain + [Link(slot, Read(s.mem, slot))];
    assert Verified(s') == 0;
    forall i | 0 <= i < |s'.chain|
      ensures InPlace(s'.chain, s.offsets, i)
    {
      if i < |s.chain| {
        assert s'.chain[i] == s.chain[i] && InPlace(s.chain, s.offsets, i);
      }
    }
    if |s.chain| + 1 == |s.offsets| {
      assert LinkedNow(s, |s.chain|);
    }
  }

  lemma InvKept(s: State, s': State)
    requires Inv(s) && Next(s, s')
    ensures Inv(s')
    ensures s'.pc.Complete? && !s.pc.Complete? ==> LinkedNow(s', |s'.chain|)
    ensures s.pc.Complete? ==> s'.pc.Complete? && s'.chain == s.chain
    ensures s'.offsets == s.offsets
  {
    hide Inv, LinkedNow, Unlinked;
    if s' == ReaderStep(s) {
      ReaderKeepsInv(s);
    } else if Detach(s, s') {
      var slot: Slot :| s' == Store(s, slot, 0);
      StoreKeepsInv(s, slot, 0);
    } else if ClearAside(s, s') {
      var slot: Slot :| ClearUnlocked(s, s', slot) && !Exposed(s, slot);
      StoreKeepsInv(s, slot, 0);
    } else {
      var slot: Slot, v: nat :| s' == Store(s, slot, v) && (Read(s.mem, slot) == 0 || Unlinked(s.mem, slot.block));
      StoreKeepsInv(s, slot, v);
    }
  }

  // ---------- whole runs ----------

  /** A run from the moment kr_get_branch is called with these offsets. */
  ghost predicate IsRun(run: seq<State>, offsets: seq<nat>) {
    && |run| > 0 && |offsets| > 0 && run[0].pc.Start? && run[0].chain == [] && run[0].offsets == offsets
    && forall t :: 0 <= t < |run| - 1 ==> Next(run[t], run[t + 1])
  }

  /** At moment t of the run the chain was linked end to end. */
  ghost predicate LinkedAt(run: seq<State>, t: nat, chain: seq<Link>) {
    t < |run| && forall i :: 0 <= i < |chain| ==> Read(run[t].mem, chain[i].slot) == chain[i].key
  }

  lemma {:induction false} RunKeepsInv(run: seq<State>, offsets: seq<nat>, t: nat)
    requires IsRun(run, offsets) && t < |run|
    ensures Inv(run[t]) && run[t].offsets == offsets
    decreases t
  {
    if t > 0 {
      RunKeepsInv(run, offsets, t - 1);
      InvKept(run[t - 1], run[t]);
    }
  }

  /** A chain returned as complete goes from the inode down to a data block
      along the offsets, and was linked end to end at a single moment. */
  lemma {:induction false} CompleteChainWasLinked(run: seq<State>, offsets: seq<nat>, t: nat)
    requires IsRun(run, offsets) && t < |run| && run[t].pc.Complete?
    ensures Follows(run[t].chain, offsets) && NonZero(run[t].chain) && |run[t].chain| == |offsets|
    ensures exists u :: 0 <= u <= t && LinkedAt(run, u, run[t].chain)
    decreases t
  {
    RunKeepsInv(run, offsets, t);
    if t > 0 {
      RunKeepsInv(run, offsets, t - 1);
      InvKept(run[t - 1], run[t]);
      if run[t - 1].pc.Complete? {
        CompleteChainWasLinked(run, offsets, t - 1);
      } else {
        assert LinkedAt(run, t, run[t].chain);
      }
    }
  }

  // ---------- without the lock ----------

  /** A reader that finds block 7, while the root slot is cleared without the
      lock and block 7, taken anew, gets a pointer before it is linked again. */
  function Torn(): seq<State> {
    var root, inner := Slot(0, 12), Slot(7, 3);
    var link := Link(root, 7);
    [State(map[root := 7], [12, 3], [], Start),
     State(map[root := 7], [12, 3], [link], Fetch),
     State(map[root := 7], [12, 3], [link], Verify(0)),
     State(map[root := 7], [12, 3], [link], Verify(1)),
     State(map[root := 0], [12, 3], [link], Verify(1)),
     State(map[root := 0, inner := 9], [12, 3], [link], Verify(1)),
     State(map[root := 0, inner := 9], [12, 3], [link], Append),
     State(map[root := 0, inner := 9], [12, 3], [link, Link(inner, 9)], Complete)]
  }

  /** The slots that a truncation clears without the lock break the promise:
      the chain returned was linked at no moment. Just one step of this run is
      not one that the theorem above allows, and that one is such a clearing. */
  lemma UnlockedClearBreaks()
    ensures var run := Torn();
            && (forall t :: 0 <= t < |run| - 1 && t != 3 ==> Next(run[t], run[t + 1]))
            && ClearUnlocked(run[3], run[4], Slot(0, 12)) && Exposed(run[3], Slot(0, 12))
            && run[7].pc.Complete? && |run[7].chain| == 2
            && !exists u :: 0 <= u < |run| && LinkedAt(run, u, run[7].chain)
  {
    var run := Torn();
    var root, inner := Slot(0, 12), Slot(7, 3);
    assert run[4] == Store(run[3], root, 0);
    assert run[5] == Store(run[4], inner, 9) && Read(run[4].mem, inner) == 0;
    forall u | 0 <= u < |run|
      ensures !LinkedAt(run, u, run[7].chain)
    {
      assert run[7].chain[0] == Link(root, 7) && run[7].chain[1] == Link(inner, 9);
      assert Read(run[u].mem, root) != 7 || Read(run[u].mem, inner) != 9;
    }
    assert run[1] == ReaderStep(run[0]);
    assert run[2] == ReaderStep(run[1]);
    assert run[3] == ReaderStep(run[2]);
    assert SpliceIn(run[4], run[5]);
    assert run[6] == ReaderStep(run[5]);
    assert run[7] == ReaderStep(run[6]);
  }

  ghost predicate Steps(run: seq<State>) {
    forall t :: 0 <= t < |run| - 1 ==> Next(run[t], run[t + 1])
  }

  /** The slot that the reader reads next. */
  function NextSlot(s: State): Slot
    requires 0 < |s.chain| < |s.offsets|
  {
    Slot(s.chain[|s.chain| - 1].key, s.offsets[|s.chain|])
  }

  /** As in a tree, the walk comes to no slot twice. */
  ghost predicate Apart(s: State)
    requires 0 < |s.chain| < |s.offsets|
  {
    && (forall i, j :: 0 <= i < j < |s.chain| ==> s.chain[i].slot != s.chain[j].slot)
    && (forall i :: 0 <= i < |s.chain| ==> s.chain[i].slot != NextSlot(s))
  }

  /** The reader verifies the rest of its chain. */
  lemma {:induction false} VerifyOn(s: State) returns (run: seq<State>)
    requires s.pc.Verify? || s.pc.Append?
    requires forall k :: Verified(s) <= k < |s.chain| ==> Read(s.mem, s.chain[k].slot) == s.chain[k].key
    ensures |run| > 0 && run[0] == s && Steps(run) && run[|run| - 1] == s.(pc := Append)
    ensures forall u :: 0 <= u < |run| ==> run[u].mem == s.mem
    decreases |s.chain| - Verified(s), s.pc.Verify?
  {
    run := [s];
    if s.pc.Verify? {
      var rest := VerifyOn(ReaderStep(s));
      run := run + rest;
    }
  }

  /** A key that the slot has held at no moment of the run. */
  lemma {:induction false} FreshKey(run: seq<State>, slot: Slot) returns (key: nat)
    ensures key > 0 && forall u :: 0 <= u < |run| ==> Read(run[u].mem, slot) < key
  {
    key := 1;
    if |run| > 0 {
      var n := |run| - 1;
      key := FreshKey(run[..n], slot);
      if Read(run[n].mem, slot) >= key {
        key := Read(run[n].mem, slot) + 1;
      }
      assert forall u :: 0 <= u < n ==> run[..n][u] == run[u];
    }
  }

  /** The slot read next is emptied and filled, and the reader completes its chain. */
  lemma LastSteps(s: State, s': State, s'': State, key: nat)
    requires s.pc.Append? && 0 < |s.chain| && |s.chain| + 1 == |s.offsets| && key > 0
    requires forall i :: 0 <= i < |s.chain| ==> s.chain[i].slot != NextSlot(s)
    requires s' == Store(s, NextSlot(s), 0) && s'' == Store(s', NextSlot(s), key)
    ensures Next(s, s') && Next(s', s'') && Next(s'', ReaderStep(s'')) && ReaderStep(s'').pc.Complete?
    ensures ReaderStep(s'').chain == s.chain + [Link(NextSlot(s), key)]
    ensures ReaderStep(s'').mem == s.mem[NextSlot(s) := 0][NextSlot(s) := key]
  {
    assert ClearAside(s, s') by {
      assert ClearUnlocked(s, s', NextSlot(s)) && !Exposed(s, NextSlot(s));
    }
    assert SpliceIn(s', s'');
  }

  /** The condition cannot be weakened: whenever the reader relies on a slot,
      and the rest of its chain holds, clearing that slot without the lock can
      make it return a chain that was linked at no moment. */
  lemma ExposedClearBreaks(run: seq<State>, offsets: seq<nat>, slot: Slot) returns (more: seq<State>)
    requires IsRun(run, offsets)
    requires var s := run[|run| - 1];
             Exposed(s, slot) && LinkedNow(s, |s.chain|) && Apart(s)
    ensures |more| > 0 && ClearUnlocked(run[|run| - 1], more[0], slot) && Steps(more)
    ensures var chain := more[|more| - 1].chain;
            more[|more| - 1].pc.Complete? && !exists u :: 0 <= u < |run + more| && LinkedAt(run + more, u, chain)
  {
    hide Next, ReaderStep;
    var s := run[|run| - 1];
    RunKeepsInv(run, offsets, |run| - 1);
    var i :| 0 <= i < Verified(s) && s.chain[i].slot == slot;
    var cleared, next := Store(s, slot, 0), NextSlot(s);
    var walk := VerifyOn(cleared);
    var key := FreshKey(run, next);
    var s1 := cleared.(pc := Append);
    var s2 := Store(s1, next, 0);
    var s3 := Store(s2, next, key);
    var s4 := ReaderStep(s3);
    LastSteps(s1, s2, s3, key);
    more := walk + [s2, s3, s4];
    assert forall u :: 0 <= u < |more| ==> Read(more[u].mem, slot) == 0;
    NeverLinked(run, more, s4.chain, i, |s.chain|);
  }

  /** One link held at no moment of the first run, another one at none of the second. */
  lemma NeverLinked(run: seq<State>, more: seq<State>, chain: seq<Link>, i: nat, j: nat)
    requires i < |chain| && j < |chain|
    requires forall u :: 0 <= u < |run| ==> Read(run[u].mem, chain[j].slot) != chain[j].key
    requires forall u :: 0 <= u < |more| ==> Read(more[u].mem, chain[i].slot) != chain[i].key
    ensures !exists u :: 0 <= u < |run + more| && LinkedAt(run + more, u, chain)
  {
    forall u | 0 <= u < |run + more|
      ensures !LinkedAt(run + more, u, chain)
    {
      assert (run + more)[u] == if u < |run| then run[u] else more[u - |run|];
    }
  }
}
