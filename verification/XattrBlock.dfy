/**
 An attribute block as a buffer of bytes: looking an attribute up, and editing
 the block in place.
 */
module XattrBlock {
  import opened ByteBuffer
  import opened XattrEdit
  import opened XattrLayout

  // ---------- reading fields ----------

  predicate IsLast(s: seq<byte>, at: nat)
    requires at + 4 <= |s|
  {
    Get32(s, at) == 0
  }

  /** From `at` the entries can be walked to the end of the list within s. */
  predicate Walks(s: seq<byte>, at: nat)
    requires |s| % 4 == 0 && at % 4 == 0 && at + 4 <= |s|
    decreases |s| - at
  {
    IsLast(s, at) || (at + EntryLen(s[at]) < |s| && Walks(s, at + EntryLen(s[at])))
  }

  /** A layout whose bytes can be read entry by entry. */
  predicate Readable(l: Layout, bs: nat) {
    && |l.hdr| == HEADER && GoodEntries(l.es) && l.gap >= 4
    && HEADER + |EncAll(l.es)| + l.gap + |l.vals| == bs
  }

  /** The three parts around the k-th entry. */
  lemma Around(l: Layout, bs: nat, k: nat)
    requires Readable(l, bs) && k < |l.es|
    ensures Bytes(l) == (l.hdr + EncAll(l.es[..k])) + Enc(l.es[k]) + (EncAll(l.es[k + 1..]) + Zeros(l.gap) + l.vals)
    ensures |l.hdr + EncAll(l.es[..k])| == Off(l.es, k) && Off(l.es, k) % 4 == 0
    ensures Off(l.es, k + 1) == Off(l.es, k) + EntryLen(|l.es[k].key.name|)
  {
    hide Enc, EncAll, GoodEntry;
    EncAllAt(l.es, k);
    EncAllAt(l.es[..k + 1], k);
    assert l.es[..k + 1][..k] == l.es[..k] && l.es[..k + 1][k + 1..] == [];
    EncNone();
    EncLength(l.es[k]);
  }

  lemma EncNone()
    ensures EncAll([]) == []
  {
  }

  /** The fields of an entry in the middle of some bytes. */
  lemma Fields(a: seq<byte>, e: Entry, c: seq<byte>)
    requires GoodEntry(e)
    ensures var s, at := a + Enc(e) + c, |a|;
            && at + ENTRY + |e.key.name| <= |s|
            && s[at] == |e.key.name| && s[at + 1] == e.key.index && Get16(s, at + 2) == e.offs
            && Get32(s, at + 4) == 0 && Get32(s, at + 8) == e.size && Get32(s, at + 12) == e.hash
            && s[at + ENTRY..at + ENTRY + |e.key.name|] == e.key.name
            && !IsLast(s, at)
  {
    var s, at, x := a + Enc(e) + c, |a|, Enc(e);
    assert s[at + 2..at + 4] == x[2..4] == LE16(e.offs);
    assert s[at + 4..at + 8] == x[4..8] == LE32(0);
    assert s[at + 8..at + 12] == x[8..12] == LE32(e.size);
    assert s[at + 12..at + 16] == x[12..16] == LE32(e.hash);
    Read16(e.offs, s, at + 2);
    Read32(0, s, at + 4);
    Read32(e.size, s, at + 8);
    Read32(e.hash, s, at + 12);
  }

  /** What is found where the k-th entry starts. */
  lemma EntryAt(l: Layout, bs: nat, k: nat)
    requires Readable(l, bs) && k < |l.es|
    ensures var s, at, e := Bytes(l), Off(l.es, k), l.es[k];
            && |s| == bs && at % 4 == 0 && at + ENTRY + |e.key.name| <= bs && at + EntryLen(|e.key.name|) + 4 <= bs
            && s[at] == |e.key.name| && s[at + 1] == e.key.index && Get16(s, at + 2) == e.offs
            && Get32(s, at + 4) == 0 && Get32(s, at + 8) == e.size && Get32(s, at + 12) == e.hash
            && s[at + ENTRY..at + ENTRY + |e.key.name|] == e.key.name
            && !IsLast(s, at) && Off(l.es, k + 1) == at + EntryLen(|e.key.name|)
  {
    hide Enc, EncAll, GoodEntry, IsLast, Get32, Get16, EntryLen;
    Around(l, bs, k);
    EncLength(l.es[k]);
    assert GoodEntry(l.es[k]);
    Fields(l.hdr + EncAll(l.es[..k]), l.es[k], EncAll(l.es[k + 1..]) + Zeros(l.gap) + l.vals);
  }

  lemma EndAt(l: Layout, bs: nat)
    requires Readable(l, bs)
    ensures var s, at := Bytes(l), Off(l.es, |l.es|);
            |s| == bs && at % 4 == 0 && at + l.gap + |l.vals| == bs && IsLast(s, at)
  {
    assert l.es[..|l.es|] == l.es;
    var s, at := Bytes(l), Off(l.es, |l.es|);
    forall i | 0 <= i < 4
      ensures s[at + i] == Zeros(l.gap)[i] == 0
    {
      assert s[at + i] == (Zeros(l.gap) + l.vals)[i];
    }
    assert s[at] == 0 && s[at + 1] == 0 && s[at + 2] == 0 && s[at + 3] == 0;
  }

  lemma {:induction false} ReadableWalks(l: Layout, bs: nat, k: nat)
    requires Readable(l, bs) && k <= |l.es| && bs % 4 == 0
    ensures |Bytes(l)| == bs && Off(l.es, k) % 4 == 0 && Off(l.es, k) + 4 <= bs && Walks(Bytes(l), Off(l.es, k))
    decreases |l.es| - k
  {
    hide EncAll, Enc, IsLast, Bytes, Off, Get32, Get16;
    EndAt(l, bs);
    if k < |l.es| {
      EntryAt(l, bs, k);
      ReadableWalks(l, bs, k + 1);
    }
  }

  // ---------- the lowest value ----------

  function MinOffs(es: seq<Entry>, bs: nat): nat {
    if |es| == 0 then bs
    else
      var e, m := es[|es| - 1], MinOffs(es[..|es| - 1], bs);
      if e.size > 0 && e.offs < m then e.offs else m
  }

  lemma {:induction false} MinOffsIs(es: seq<Entry>, bs: nat)
    ensures MinOffs(es, bs) == bs || exists j :: 0 <= j < |es| && es[j].size > 0 && es[j].offs == MinOffs(es, bs)
    ensures MinOffs(es, bs) <= bs && forall j :: 0 <= j < |es| && es[j].size > 0 ==> MinOffs(es, bs) <= es[j].offs
    decreases |es|
  {
    if |es| > 0 {
      var n := |es| - 1;
      MinOffsIs(es[..n], bs);
      forall j | 0 <= j < |es| && es[j].size > 0
        ensures MinOffs(es, bs) <= es[j].offs
      {
        if j < n {
          assert es[j] == es[..n][j];
        }
      }
    }
  }

  /** With packed values the lowest one starts right where they all do. */
  lemma MinIsBase(es: seq<Entry>, base: nat, bs: nat)
    requires Packed(es, base, bs)
    ensures MinOffs(es, bs) == base
  {
    MinOffsIs(es, bs);
    var m := MinOffs(es, bs);
    if m != bs {
      var j :| 0 <= j < |es| && es[j].size > 0 && es[j].offs == m;
      assert Fits(es, es[j], base, bs);
    }
  }

  // ---------- searching ----------

  /** If the block is good, its bytes are those of a well-formed layout. */
  ghost predicate Holds(s: seq<byte>, good: bool, l: Layout) {
    good ==> WellFormed(l, |s|) && s == Bytes(l)
  }

  lemma WalksOn(s: seq<byte>, l: Layout, good: bool)
    requires Holds(s, good, l) && |s| % 4 == 0 && |s| >= HEADER + 4
    ensures good ==> Walks(s, HEADER) && Off(l.es, 0) == HEADER
  {
    hide IsLast, Bytes, EncAll, Packed, Room, Sorted;
    if good {
      EncNone();
      ReadableWalks(l, |s|, 0);
    }
  }

  /** The key of the entry at `at`. */
  function KeyAt(s: seq<byte>, at: nat): Key
    requires at + ENTRY + 255 < |s| || (at < |s| && at + EntryLen(s[at]) < |s|)
    requires at + ENTRY < |s| && at + ENTRY + s[at] <= |s|
  {
    Key(s[at + 1], s[at + ENTRY..at + ENTRY + s[at]])
  }

  /** The lowest value offset so far. */
  function Lower(s: seq<byte>, at: nat, minOffs: nat): nat
    requires at + ENTRY <= |s|
  {
    if Get32(s, at + 4) == 0 && Get32(s, at + 8) > 0 && Get16(s, at + 2) < minOffs then Get16(s, at + 2) else minOffs
  }

  /** The walk over the entries stands before the i-th one; the values seen so
      far have been taken into account, perhaps further ones as well. */
  ghost predicate Standing(bs: nat, l: Layout, at: nat, i: nat, minOffs: nat)
    requires GoodEntries(l.es)
  {
    i <= |l.es| && at == Off(l.es, i) && MinOffs(l.es, bs) <= minOffs <= MinOffs(l.es[..i], bs)
  }

  lemma StandingFirst(bs: nat, l: Layout)
    requires GoodEntries(l.es)
    ensures Standing(bs, l, HEADER, 0, bs)
  {
    EncNone();
    MinOffsIs(l.es, bs);
  }

  lemma LowerMin(bs: nat, es: seq<Entry>, i: nat, minOffs: nat)
    requires i < |es| && MinOffs(es, bs) <= minOffs <= MinOffs(es[..i], bs)
    ensures var e := es[i];
            var lower := if e.size > 0 && e.offs < minOffs then e.offs else minOffs;
            MinOffs(es, bs) <= lower <= MinOffs(es[..i + 1], bs) && lower <= minOffs
  {
    MinOffsIs(es, bs);
    assert es[..i + 1][..i] == es[..i];
  }

  lemma StepOver(s: seq<byte>, l: Layout, at: nat, i: nat, minOffs: nat)
    requires Readable(l, |s|) && s == Bytes(l) && Standing(|s|, l, at, i, minOffs)
    ensures at + 4 <= |s| && at % 4 == 0 && i <= |l.es| && (IsLast(s, at) <==> i == |l.es|)
    ensures i < |l.es| ==>
              && at + EntryLen(s[at]) + 4 <= |s| && KeyAt(s, at) == l.es[i].key
              && Standing(|s|, l, at, i, Lower(s, at, minOffs))
              && Standing(|s|, l, at + EntryLen(s[at]), i + 1, Lower(s, at, minOffs))
  {
    hide Bytes, EncAll, IsLast, Get16, Get32, MinOffs, EntryLen;
    EndAt(l, |s|);
    if i < |l.es| {
      EntryAt(l, |s|, i);
      LowerMin(|s|, l.es, i, minOffs);
    }
  }

  lemma AllSeen(bs: nat, l: Layout, at: nat, minOffs: nat)
    requires WellFormed(l, bs) && Standing(bs, l, at, |l.es|, minOffs)
    ensures minOffs == bs - |l.vals| && at + l.gap == minOffs
  {
    assert l.es[..|l.es|] == l.es;
    MinIsBase(l.es, bs - |l.vals|, bs);
  }

  lemma GoodReads(s: seq<byte>, l: Layout)
    requires Holds(s, true, l)
    ensures Readable(l, |s|) && s == Bytes(l) && Sorted(l.es)
  {
  }

  /** All entries before the k-th one are smaller than the key. */
  predicate Before(es: seq<Entry>, key: Key, k: nat) {
    k <= |es| && forall i :: 0 <= i < k ==> Compare(es[i].key, key) < 0
  }

  lemma BeforeNext(es: seq<Entry>, key: Key, k: nat)
    requires Before(es, key, k) && k < |es| && Compare(key, es[k].key) > 0
    ensures Before(es, key, k + 1)
  {
    CompareSwap(es[k].key, key);
  }

  lemma PlaceFound(es: seq<Entry>, key: Key, k: nat, notFound: int)
    requires Sorted(es) && Before(es, key, k)
    requires if k < |es| then notFound == Compare(key, es[k].key) <= 0 else notFound > 0
    ensures Place(es, key, k, notFound == 0)
  {
    hide Compare;
    if notFound != 0 {
      forall i | k < i < |es|
        ensures Compare(key, es[i].key) < 0
      {
        CompareOrder(key, es[k].key, es[i].key);
      }
    } else {
      SameKey(key, es[k].key);
    }
  }

  lemma SameKey(a: Key, b: Key)
    ensures Compare(a, b) == 0 <==> a == b
  {
  }

  lemma WalkStep(s: seq<byte>, at: nat)
    requires |s| % 4 == 0 && at % 4 == 0 && at + 4 <= |s| && !IsLast(s, at)
    ensures at + EntryLen(s[at]) < |s| ==> at + EntryLen(s[at]) + 4 <= |s|
    ensures Walks(s, at) <==> at + EntryLen(s[at]) < |s| && Walks(s, at + EntryLen(s[at]))
  {
  }

  /** Walk to the place of the key, as far as that goes. */
  method SearchKey(b: array<byte>, key: Key, ghost l: Layout, ghost good: bool)
    returns (bad: bool, here: nat, minOffs: nat, notFound: int, ghost k: nat)
    requires b.Length % 4 == 0 && b.Length >= HEADER + 4 && Holds(b[..], good, l)
    ensures here % 4 == 0 && here + 4 <= b.Length
    ensures if bad then !Walks(b[..], HEADER) else Walks(b[..], here) <==> Walks(b[..], HEADER)
    ensures !bad && notFound > 0 ==> IsLast(b[..], here)
    ensures good ==> !bad && Place(l.es, key, k, notFound == 0) && Standing(b.Length, l, here, k, minOffs)
  {
    hide Bytes, EncAll, IsLast, Get16, Get32, Walks, Standing, Compare, Packed, Room, KeyAt, GoodEntry, Lower, EntryLen, Holds;
    ghost var s := b[..];
    bad, here, minOffs, notFound, k := false, HEADER, b.Length, 1, 0;
    WalksOn(s, l, good);
    if good {
      GoodReads(s, l);
      StandingFirst(b.Length, l);
    }
    while !IsLast(b[..], here)
      invariant here % 4 == 0 && here + 4 <= b.Length && (Walks(s, here) <==> Walks(s, HEADER))
      invariant good ==> Standing(b.Length, l, here, k, minOffs) && Before(l.es, key, k) && notFound > 0
      decreases b.Length - here
    {
      WalkStep(s, here);
      if good {
        StepOver(s, l, here, k, minOffs);
      }
      var next := here + EntryLen(b[here]);
      if next >= b.Length {
        bad := true;
        return;
      }
      minOffs := Lower(b[..], here, minOffs);
      notFound := Compare(key, KeyAt(b[..], here));
      if notFound <= 0 {
        break;
      }
      if good {
        BeforeNext(l.es, key, k);
      }
      here, k := next, k + 1;
    }
    if good {
      StepOver(s, l, here, k, minOffs);
      PlaceFound(l.es, key, k, notFound);
    }
  }

  /** Go on to the end of the list. */
  method SearchEnd(b: array<byte>, here: nat, lowest: nat, ghost l: Layout, ghost good: bool, ghost k: nat)
    returns (bad: bool, last: nat, minOffs: nat)
    requires b.Length % 4 == 0 && b.Length >= HEADER + 4 && here % 4 == 0 && here + 4 <= b.Length
    requires Holds(b[..], good, l) && (good ==> Standing(b.Length, l, here, k, lowest))
    ensures bad <==> !Walks(b[..], here)
    ensures good ==>
              !bad && last == Off(l.es, |l.es|) && minOffs == b.Length - |l.vals| && last + l.gap == minOffs
  {
    hide Bytes, EncAll, IsLast, Get16, Get32, Walks, Standing, Packed, Room, GoodEntry, Lower, EntryLen, Holds, Off;
    ghost var s := b[..];
    ghost var i := k;
    bad, last, minOffs := false, here, lowest;
    if good {
      GoodReads(s, l);
    }
    while !IsLast(b[..], last)
      invariant last % 4 == 0 && last + 4 <= b.Length && (Walks(s, last) <==> Walks(s, here))
      invariant good ==> Standing(b.Length, l, last, i, minOffs)
      decreases b.Length - last
    {
      WalkStep(s, last);
      if good {
        StepOver(s, l, last, i, minOffs);
      }
      var next := last + EntryLen(b[last]);
      if next >= b.Length {
        bad := true;
        return;
      }
      minOffs := Lower(b[..], last, minOffs);
      last, i := next, i + 1;
    }
    WalkEnd(s, last);
    if good {
      StepOver(s, l, last, i, minOffs);
      AllSeenHere(s, l, last, i, minOffs);
    }
  }

  lemma WalkEnd(s: seq<byte>, at: nat)
    requires |s| % 4 == 0 && at % 4 == 0 && at + 4 <= |s| && IsLast(s, at)
    ensures Walks(s, at)
  {
  }

  lemma AllSeenHere(s: seq<byte>, l: Layout, at: nat, i: nat, minOffs: nat)
    requires Holds(s, true, l) && Standing(|s|, l, at, i, minOffs) && i == |l.es|
    ensures at == Off(l.es, |l.es|) && minOffs == |s| - |l.vals| && at + l.gap == minOffs
  {
    AllSeen(|s|, l, at, minOffs);
  }

  // ---------- getting a value ----------

  datatype Status = OK | EDQUOT | EEXIST | EIO | ENODATA | ENOMEM | ENOSPC | ERANGE

  lemma ValueFound(s: seq<byte>, l: Layout, at: nat, i: nat)
    requires Holds(s, true, l) && i < |l.es| && at == Off(l.es, i)
    ensures at + ENTRY <= |s| && Get32(s, at + 4) == 0
    ensures var offs, size := Get16(s, at + 2), Get32(s, at + 8);
            offs + size <= |s| && Attr(l, |s|, l.es[i].key) == Some(s[offs..offs + size])
  {
    hide Enc, EncAll, Get16, Get32, Sorted, StartsAt, Beside, Room, Attr;
    EntryAt(l, |s|, i);
    AttrAt(l, |s|, i);
    assert Fits(l.es, l.es[i], |s| - |l.vals|, |s|);
    var e, base := l.es[i], |s| - |l.vals|;
    var head := l.hdr + EncAll(l.es) + Zeros(l.gap);
    assert s == head + l.vals && |head| == base;
    if e.size > 0 {
      assert s[e.offs..e.offs + e.size] == l.vals[e.offs - base..e.offs - base + e.size];
    } else {
      assert s[e.offs..e.offs] == [];
    }
  }

  /** The part of ext2_xattr_get that works on the block. */
  method GetValue(b: array<byte>, key: Key, bufferSize: Option<nat>, ghost l: Layout, ghost good: bool)
    returns (err: Status, size: nat, value: seq<byte>)
    requires b.Length % 4 == 0 && b.Length >= HEADER + 4 && Holds(b[..], good, l)
    ensures good ==>
              match Attr(l, b.Length, key)
              case None => err == ENODATA
              case Some(v) =>
                if bufferSize.Some? && |v| > bufferSize.value then err == ERANGE
                else err == OK && size == |v| && (bufferSize.Some? ==> value == v)
  {
    hide Bytes, EncAll, IsLast, Get16, Get32, Walks, Standing, Packed, Room, GoodEntry, EntryLen, Holds, Off, Compare, KeyAt;
    ghost var s := b[..];
    ghost var k := 0;
    err, size, value := ENODATA, 0, [];
    var entry := HEADER;
    WalksOn(s, l, good);
    if good {
      GoodReads(s, l);
      StandingFirst(b.Length, l);
    }
    while !IsLast(b[..], entry)
      invariant entry % 4 == 0 && entry + 4 <= b.Length
      invariant good ==> NotBefore(l.es, key, k) && Standing(b.Length, l, entry, k, MinOffs(l.es[..k], b.Length))
      decreases b.Length - entry
    {
      if good {
        StepHere(s, l, entry, k);
      }
      WalkStep(s, entry);
      var next := entry + EntryLen(b[entry]);
      if next >= b.Length {
        return EIO, 0, [];
      }
      if KeyAt(b[..], entry) == key {
        if good {
          ValueFound(s, l, entry, k);
        }
        if Get32(b[..], entry + 4) != 0 {
          return EIO, 0, [];
        }
        size := Get32(b[..], entry + 8);
        var offs := Get16(b[..], entry + 2);
        if size > b.Length || offs + size > b.Length {
          return EIO, 0, [];
        }
        if bufferSize.Some? {
          if size > bufferSize.value {
            return ERANGE, 0, [];
          }
          value := b[offs..offs + size];
          assert value == s[offs..offs + size];
        }
        return OK, size, value;
      }
      entry, k := next, k + 1;
    }
    if good {
      NotThere(s, l, entry, k, key);
    }
  }

  predicate NotBefore(es: seq<Entry>, key: Key, k: nat) {
    k <= |es| && forall i :: 0 <= i < k ==> es[i].key != key
  }

  lemma StepHere(s: seq<byte>, l: Layout, at: nat, i: nat)
    requires Holds(s, true, l) && i <= |l.es| && Standing(|s|, l, at, i, MinOffs(l.es[..i], |s|)) && at + 4 <= |s| && !IsLast(s, at)
    ensures i < |l.es| && at == Off(l.es, i) && at + EntryLen(s[at]) < |s| && KeyAt(s, at) == l.es[i].key
    ensures Standing(|s|, l, at + EntryLen(s[at]), i + 1, MinOffs(l.es[..i + 1], |s|))
  {
    hide EncAll, Get16, Get32, IsLast, EntryLen, Bytes;
    StepOver(s, l, at, i, MinOffs(l.es[..i], |s|));
    MinOffsIs(l.es, |s|);
  }

  lemma NotThere(s: seq<byte>, l: Layout, at: nat, i: nat, key: Key)
    requires Holds(s, true, l) && i <= |l.es| && Standing(|s|, l, at, i, MinOffs(l.es[..i], |s|)) && at + 4 <= |s|
    requires IsLast(s, at) && NotBefore(l.es, key, i)
    ensures Attr(l, |s|, key) == None
  {
    hide EncAll, Get16, Get32, IsLast, EntryLen, Bytes, Attr;
    StepOver(s, l, at, i, MinOffs(l.es[..i], |s|));
    NoAttr(l, |s|, key);
  }
}
