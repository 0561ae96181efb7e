/**
 Setting and removing an attribute in a block, and the hashes that go with it.
 */
module XattrSet {
  import opened XattrBlock
  import opened ByteBuffer
  import opened HashMix
  import opened XattrEdit
  import opened XattrHash
  import opened XattrLayout
  import opened XattrValue
  import opened XattrWrite

  function Len(value: Option<seq<byte>>): nat {
    if value.Some? then |value.value| else 0
  }

  /** Room there would be for the k-th name and value once the old ones are gone. */
  function Free(l: Layout, k: nat, found: bool): int
    requires found ==> k < |l.es|
  {
    l.gap - 4 + if found then EntryLen(|l.es[k].key.name|) + Round(l.es[k].size) else 0
  }

  /** What the block needs if the attribute is set to that value. */
  function Need(l: Layout, k: nat, found: bool, key: Key, value: Option<seq<byte>>): int
    requires GoodEntries(l.es) && (found ==> k < |l.es|)
  {
    HEADER + |EncAll(l.es)| + 4 + Room(l.es)
    - (if found then EntryLen(|l.es[k].key.name|) + Round(l.es[k].size) else 0)
    + (if value.Some? then EntryLen(|key.name|) + Round(|value.value|) else 0)
  }

  /** The source's free-space check is exact: it fails just when the block with
      the new attribute would not fit. */
  lemma CheckIsExact(l: Layout, bs: nat, k: nat, found: bool, key: Key, value: Option<seq<byte>>)
    requires WellFormed(l, bs) && Place(l.es, key, k, found) && (!found ==> value.Some?)
    ensures Free(l, k, found) < EntryLen(|key.name|) + Round(Len(value)) <==> Need(l, k, found, key, value) > bs
  {
    hide EncAll, Packed, Sorted, Compare, Room;
    if found {
      RoomAtLeast(l.es, k);
    }
  }

  lemma RoomAtLeast(es: seq<Entry>, k: nat)
    requires k < |es|
    ensures Room(es) >= Round(es[k].size)
  {
    RoomAt(es, k);
  }

  lemma Reads(l: Layout, bs: nat)
    requires WellFormed(l, bs)
    ensures Readable(l, bs) && bs % 4 == 0 && bs <= 0x10000 && |l.vals| <= bs && GoodEntries(l.es)
  {
  }

  lemma SameStart(l: Layout, m: Layout, k: nat)
    requires GoodEntries(l.es) && GoodEntries(m.es) && k <= |l.es| && k <= |m.es| && m.es[..k] == l.es[..k]
    ensures Off(m.es, k) == Off(l.es, k)
  {
  }

  /** A value given where a stale size was left is given to an empty entry. */
  lemma GivenStale(l: Layout, bs: nat, k: nat, value: seq<byte>)
    requires k < |l.es| && |l.vals| + Round(|value|) <= bs && Round(|value|) <= l.gap
    ensures Given(l, bs, k, value) == Given(Emptied(l, k), bs, k, value)
  {
    assert l.es[k := l.es[k].(size := 0)][k := l.es[k].(size := 0)] == l.es[k := l.es[k].(size := 0)];
    var e := l.es[k].(size := |value|, offs := bs - |l.vals| - Round(|value|));
    assert l.es[k := l.es[k].(size := 0)][k := e] == l.es[k := e];
  }

  lemma RemovedStale(l: Layout, k: nat)
    requires k < |l.es|
    ensures Removed(l, k) == Removed(Emptied(l, k), k)
  {
    var t := l.es[k := l.es[k].(size := 0)];
    assert t[..k] == l.es[..k] && t[k + 1..] == l.es[k + 1..];
  }

  /** Insert a new attribute. */
  method InsertAttr(b: array<byte>, key: Key, value: seq<byte>, here: nat, last: nat, minOffs: nat, ghost l: Layout, ghost k: nat)
    returns (ghost m: Layout)
    requires WellFormed(l, b.Length) && b[..] == Bytes(l) && GoodKey(key) && Place(l.es, key, k, false)
    requires here == Off(l.es, k) && last == Off(l.es, |l.es|) && minOffs == b.Length - |l.vals|
    requires |value| <= b.Length && EntryLen(|key.name|) + Round(|value|) + 4 <= l.gap
    modifies b
    ensures WellFormed(m, b.Length) && b[..] == Bytes(m) && m.hdr == l.hdr && Place(m.es, key, k, true) && here == Off(m.es, k)
    ensures forall other: Key :: Attr(m, b.Length, other) == if other == key then Some(value) else Attr(l, b.Length, other)
    ensures Hashed(l, b.Length, None) ==> Hashed(m, b.Length, Some(key))
  {
    hide Bytes, EncAll, WellFormed, Off, Attr, EntryLen, Compare, Readable, Hashed;
    Reads(l, b.Length);
    InsertName(l, b.Length, k, key);
    InsertNameAt(b, here, last, key, l, k);
    ghost var n := Inserted(l, k, key);
    Reads(n, b.Length);
    SameStart(l, n, k);
    GiveValue(n, b.Length, k, value);
    GiveValueAt(b, here, minOffs, value, n, k);
    m := Given(n, b.Length, k, value);
    PlaceKeys(n.es, m.es, key, k, true);
    Reads(m, b.Length);
    KeyedOff(n.es, m.es, k);
    if Hashed(l, b.Length, None) {
      AnyBut(l, b.Length, key);
      InsertedHashes(l, b.Length, k, key);
      GivenHashes(n, b.Length, k, key, value);
    }
  }

  lemma KeyedOff(es: seq<Entry>, t: seq<Entry>, k: nat)
    requires GoodEntries(es) && GoodEntries(t) && |t| == |es| && k <= |es|
    requires forall i :: 0 <= i < |es| ==> t[i].key == es[i].key
    ensures Off(t, k) == Off(es, k)
  {
    hide EncAll;
    EncAllLength(es[..k], t[..k]);
  }

  /** Change or remove an attribute that is there. */
  method ReplaceAttr(b: array<byte>, key: Key, value: Option<seq<byte>>, here: nat, end: nat, minOffs: nat, ghost l: Layout, ghost k: nat)
    returns (ghost m: Layout)
    requires WellFormed(l, b.Length) && b[..] == Bytes(l) && Place(l.es, key, k, true)
    requires here == Off(l.es, k) && end == Off(l.es, |l.es|) && minOffs == b.Length - |l.vals|
    requires Len(value) <= b.Length && Round(Len(value)) + 4 <= l.gap + Round(l.es[k].size)
    modifies b
    ensures WellFormed(m, b.Length) && b[..] == Bytes(m) && m.hdr == l.hdr
    ensures value.Some? ==> Place(m.es, key, k, true) && here == Off(m.es, k)
    ensures value.None? ==> k <= |m.es| == |l.es| - 1 && here == Off(m.es, k) && m.gap >= ENTRY + 4
    ensures forall other: Key :: Attr(m, b.Length, other) == if other == key then value else Attr(l, b.Length, other)
    ensures Hashed(l, b.Length, None) ==> Hashed(m, b.Length, Some(key))
  {
    hide Bytes, EncAll, WellFormed, Off, Attr, EntryLen, Compare, Readable, CutOut, Given, Removed, Overwritten, Get16, Get32, Round,
         Hashed;
    Reads(l, b.Length);
    ghost var hashed := Hashed(l, b.Length, None);
    if hashed {
      AnyBut(l, b.Length, key);
    }
    EntryAt(l, b.Length, k);
    var oldSize := Get32(b[..], here + 8);
    var last, lowest := end, minOffs;
    ghost var n := l;
    ghost var e := l;
    if Get32(b[..], here + 4) == 0 && oldSize > 0 {
      var size := Round(oldSize);
      RoundMore(oldSize);
      if size == Round(Len(value)) {
        RoundNone();
        OverwriteValue(l, b.Length, k, value.value);
        OverwriteValueAt(b, here, value.value, l, k);
        m := Overwritten(l, b.Length, k, value.value);
        Keys(l, m, key, k);
        Reads(m, b.Length);
        KeyedOff(l.es, m.es, k);
        if hashed {
          OverwrittenHashes(l, b.Length, k, key, value.value);
        }
        return;
      }
      CutOutValue(l, b.Length, k);
      last, lowest := RemoveValueAt(b, here, minOffs, l, k);
      n := CutOut(l, b.Length, k);
      e := Emptied(n, k);
      CutOutGap(l, b.Length, k);
      if hashed {
        CutHashes(l, b.Length, k, key);
      }
    } else {
      EmptiedSame(l, k);
    }
    Reads(e, b.Length);
    if value.None? {
      RemovedStale(n, k);
      RemoveName(e, b.Length, k);
      RemoveNameAt(b, here, last, |key.name|, n, k);
      m := Removed(n, k);
      RemovedParts(n, b.Length, k);
      if hashed {
        RemovedHashes(e, b.Length, k, key);
      }
    } else {
      GiveValue(e, b.Length, k, value.value);
      GivenStale(n, b.Length, k, value.value);
      GiveValueAt(b, here, lowest, value.value, n, k);
      m := Given(n, b.Length, k, value.value);
      Keys(l, m, key, k);
      Reads(m, b.Length);
      KeyedOff(l.es, m.es, k);
      if hashed {
        GivenHashes(e, b.Length, k, key, value.value);
      }
    }
  }

  lemma RoundNone()
    ensures Round(0) == 0
  {
  }

  lemma EmptiedSame(l: Layout, k: nat)
    requires k < |l.es| && l.es[k].size == 0
    ensures Emptied(l, k) == l
  {
  }

  lemma Keys(l: Layout, m: Layout, key: Key, k: nat)
    requires Place(l.es, key, k, true) && |m.es| == |l.es| && forall i :: 0 <= i < |l.es| ==> m.es[i].key == l.es[i].key
    ensures Place(m.es, key, k, true)
  {
    PlaceKeys(l.es, m.es, key, k, true);
  }

  lemma CutOutGap(l: Layout, bs: nat, k: nat)
    requires WellFormed(l, bs) && k < |l.es| && l.es[k].size > 0
    requires bs - |l.vals| <= l.es[k].offs && l.es[k].offs + Round(l.es[k].size) <= bs
    ensures var m := CutOut(l, bs, k);
            && m.gap == l.gap + Round(l.es[k].size) && m.hdr == l.hdr && |m.es| == |l.es|
            && forall i :: 0 <= i < |l.es| ==> m.es[i].key == l.es[i].key
  {
    hide EncAll, Packed, Sorted;
  }

  lemma RemovedParts(l: Layout, bs: nat, k: nat)
    requires Readable(l, bs) && k < |l.es|
    ensures var m := Removed(l, k);
            && m.hdr == l.hdr && |m.es| == |l.es| - 1 && m.gap >= ENTRY + 4
            && GoodEntries(m.es) && Off(m.es, k) == Off(l.es, k)
  {
    assert Removed(l, k).es[..k] == l.es[..k];
  }

  // ---------- hashes ----------

  /** An entry, or the end of the entries, whose name and value lie within the block. */
  predicate HashReady(s: seq<byte>, at: nat) {
    && at + ENTRY <= |s| && at + ENTRY + s[at] <= |s|
    && (Get32(s, at + 8) > 0 ==> Get16(s, at + 2) + Round(Get32(s, at + 8)) <= |s|)
  }

  /** The hash of the entry that the bytes at `at` spell out. */
  function EntryHash(s: seq<byte>, at: nat): (h: nat)
    requires HashReady(s, at)
  {
    var name := HashName(s[at + ENTRY..at + ENTRY + s[at]]);
    if Get32(s, at + 4) == 0 && Get32(s, at + 8) != 0
    then HashWords(name, s[Get16(s, at + 2)..Get16(s, at + 2) + Round(Get32(s, at + 8))]) else name
  }

  lemma HashNameMore(s: seq<byte>, at: nat, n: nat)
    requires at + n < |s|
    ensures HashName(s[at..at + n + 1]) == Mix(HashName(s[at..at + n]), 5, Signed(s[at + n]))
  {
    hide Mix, Signed;
    assert s[at..at + n + 1][..n] == s[at..at + n];
  }

  lemma HashWordsMore(hash: nat, s: seq<byte>, at: nat, n: nat)
    requires hash < MAX32 && at + n + 4 <= |s|
    ensures HashWords(hash, s[at..at + n + 4]) == Mix(HashWords(hash, s[at..at + n]), 16, Get32(s, at + n))
  {
    hide Mix;
    assert s[at..at + n + 4][..n] == s[at..at + n];
    assert Get32(s[at..at + n + 4], n) == Get32(s, at + n);
  }

  lemma HashNothing(s: seq<byte>, at: nat, hash: nat)
    requires at <= |s| && hash < MAX32
    ensures HashName(s[at..at + 0]) == 0 && HashWords(hash, s[at..at + 0]) == hash
  {
  }

  /** ext2_xattr_hash_entry: mix the name and the words of the value. */
  method HashEntry(b: array<byte>, at: nat) returns (h: nat)
    requires HashReady(b[..], at)
    ensures h == EntryHash(b[..], at) < MAX32 && (b[at] == 0 && Get32(b[..], at + 8) == 0 ==> h == 0)
  {
    hide Mix, Get32, Get16, HashName, HashWords, Round;
    var s := b[..];
    h := HashNameAt(s, at + ENTRY, b[at]);
    var size := Get32(s, at + 8);
    if Get32(s, at + 4) == 0 && size != 0 {
      RoundWords(size);
      h := HashWordsAt(s, Get16(s, at + 2), Round(size) / 4, h);
    }
  }

  method HashNameAt(s: seq<byte>, at: nat, len: nat) returns (h: nat)
    requires at + len <= |s|
    ensures h == HashName(s[at..at + len]) < MAX32 && (len == 0 ==> h == 0)
  {
    hide Mix, HashName, Signed;
    h := 0;
    HashNothing(s, at, 0);
    for n := 0 to len
      invariant h == HashName(s[at..at + n]) < MAX32
    {
      HashNameMore(s, at, n);
      h := Mix(h, 5, Signed(s[at + n]));
    }
  }

  method HashWordsAt(s: seq<byte>, at: nat, words: nat, hash: nat) returns (h: nat)
    requires at + 4 * words <= |s| && hash < MAX32
    ensures h == HashWords(hash, s[at..at + 4 * words]) < MAX32
  {
    hide Mix, HashWords, Get32;
    h := hash;
    HashNothing(s, at, hash);
    for n := 0 to words
      invariant h == HashWords(hash, s[at..at + 4 * n]) < MAX32
    {
      HashWordsMore(hash, s, at, 4 * n);
      h := Mix(h, 16, Get32(s, at + 4 * n));
      assert 4 * n + 4 == 4 * (n + 1);
    }
  }

  lemma RoundWords(size: nat)
    ensures Round(size) == 4 * (Round(size) / 4)
  {
  }

  /** The block's layout with other hashes. */
  predicate SameButHashes(l: Layout, m: Layout) {
    && |m.hdr| == |l.hdr| && (forall i :: 0 <= i < |l.hdr| && !(12 <= i < 16) ==> m.hdr[i] == l.hdr[i])
    && m.gap == l.gap && m.vals == l.vals && |m.es| == |l.es|
    && forall i :: 0 <= i < |l.es| ==> m.es[i].(hash := 0) == l.es[i].(hash := 0)
  }

  lemma HashesAside(l: Layout, m: Layout, bs: nat)
    requires WellFormed(l, bs) && SameButHashes(l, m) && GoodEntries(m.es)
    ensures WellFormed(m, bs) && forall other: Key :: Attr(m, bs, other) == Attr(l, bs, other)
  {
    hide EncAll, Enc, Compare, Packed, Room, Attr, GoodEntry;
    EncAllLength(l.es, m.es);
    SortedKeys(l.es, m.es);
    RoomSame(l.es, m.es);
    HashesPacked(l, m, bs);
    forall other: Key
      ensures Attr(m, bs, other) == Attr(l, bs, other)
    {
      HashesAttr(l, m, bs, other);
    }
  }

  lemma HashesPacked(l: Layout, m: Layout, bs: nat)
    requires SameButHashes(l, m) && |l.vals| <= bs && Packed(l.es, bs - |l.vals|, bs)
    ensures Packed(m.es, bs - |l.vals|, bs)
  {
    SameRoomPacked(l.es, m.es, bs - |l.vals|, bs);
  }

  lemma HashesAttr(l: Layout, m: Layout, bs: nat, other: Key)
    requires WellFormed(l, bs) && WellFormed(m, bs) && SameButHashes(l, m)
    ensures Attr(m, bs, other) == Attr(l, bs, other)
  {
    hide EncAll, Compare, Room, Packed, Sorted, Attr;
    AttrIndex(l, bs, other);
    var i := Index(l.es, other);
    if i < |l.es| {
      AttrAt(m, bs, i);
    } else {
      NotAmong(l.es, other);
      NoAttr(m, bs, other);
    }
  }

  lemma HashRoom(l: Layout, bs: nat, k: nat)
    requires WellFormed(l, bs) && k <= |l.es| && (k == |l.es| ==> l.gap >= ENTRY + 4)
    ensures var s, at := Bytes(l), Off(l.es, k);
            && |s| == bs && at + ENTRY <= bs && at + ENTRY + s[at] <= bs
            && (Get32(s, at + 8) > 0 ==> Get16(s, at + 2) + Round(Get32(s, at + 8)) <= bs)
            && (k == |l.es| ==> s[at] == 0 && Get32(s, at + 8) == 0)
            && (k < |l.es| ==> Get32(s, at + 12) == l.es[k].hash)
  {
    hide EncAll, Enc, Sorted, Room, Beside, StartsAt;
    EndAt(l, bs);
    if k < |l.es| {
      EntryAt(l, bs, k);
      assert Fits(l.es, l.es[k], bs - |l.vals|, bs);
    } else {
      var s, at := Bytes(l), Off(l.es, k);
      assert l.es[..k] == l.es;
      forall i | at <= i < at + ENTRY
        ensures s[i] == 0
      {
        assert s[i] == (Zeros(l.gap) + l.vals)[i - at];
      }
    }
  }

  /** Writing zeros over zeros of the gap. */
  lemma GapHash(l: Layout, bs: nat)
    requires Readable(l, bs) && l.gap >= ENTRY
    ensures var at := Off(l.es, |l.es|); at + ENTRY <= |Bytes(l)| && Over(Bytes(l), at + 12, LE32(0)) == Bytes(l)
  {
    hide EncAll;
    assert l.es[..|l.es|] == l.es;
    var s, at := Bytes(l), Off(l.es, |l.es|);
    EndAt(l, bs);
    forall i | at <= i < at + ENTRY
      ensures s[i] == 0
    {
      assert s[i] == (Zeros(l.gap) + l.vals)[i - at];
    }
    var r := Over(s, at + 12, LE32(0));
    forall i | 0 <= i < |s|
      ensures r[i] == s[i]
    {
      if at + 12 <= i < at + 16 {
        assert r[i] == LE32(0)[i - at - 12];
      }
    }
  }

  lemma HeaderWritten(l: Layout, bs: nat, at: nat, v: nat)
    requires Readable(l, bs) && at + 4 <= HEADER && v < MAX32
    ensures var m := l.(hdr := Over(l.hdr, at, LE32(v)));
            Readable(m, bs) && |Bytes(l)| == bs && Over(Bytes(l), at, LE32(v)) == Bytes(m)
  {
    hide EncAll, Over, LE32, Zeros;
    var r := EncAll(l.es) + Zeros(l.gap) + l.vals;
    assert Bytes(l) == [] + l.hdr + r;
    OverInside([], l.hdr, r, at, LE32(v));
    assert [] + Over(l.hdr, at, LE32(v)) + r == Over(l.hdr, at, LE32(v)) + EncAll(l.es) + Zeros(l.gap) + l.vals;
  }

  lemma MixedMore(es: seq<Entry>, i: nat)
    requires GoodEntries(es) && i < |es|
    ensures GoodEntries(es[..i]) && GoodEntries(es[..i + 1]) && es[i].hash < MAX32
    ensures MixedHashes(es[..i + 1]) == Mix(MixedHashes(es[..i]), 16, es[i].hash)
  {
    hide Mix;
    assert GoodEntry(es[i]) && es[..i + 1][..i] == es[..i];
  }

  /** The second half of ext2_xattr_rehash: the block's hash from its entries'. */
  method HashBlock(b: array<byte>, ghost l: Layout) returns (h: nat)
    requires WellFormed(l, b.Length) && b[..] == Bytes(l)
    ensures GoodEntries(l.es) && h == SealOf(l.es) < MAX32
  {
    hide Bytes, EncAll, WellFormed, Off, EntryLen, Compare, Readable, IsLast, Get32, Get16, Mix, GoodEntries, MixedHashes;
    Reads(l, b.Length);
    var at := HEADER;
    h := 0;
    ghost var i := 0;
    OffFirst(l);
    ReadNext(l, b.Length, 0);
    NoneMixed(l.es);
    while !IsLast(b[..], at)
      invariant i <= |l.es| && GoodEntries(l.es[..i]) && h == MixedHashes(l.es[..i]) < MAX32
      invariant at == Off(l.es, i) && at + 4 <= b.Length && (IsLast(b[..], at) <==> i == |l.es|)
      invariant forall j :: 0 <= j < i ==> l.es[j].hash != 0
      decreases |l.es| - i
    {
      EntryAt(l, b.Length, i);
      MixedMore(l.es, i);
      var e := Get32(b[..], at + 12);
      if e == 0 {
        return 0;
      }
      h := Mix(h, 16, e);
      at := at + EntryLen(b[at]);
      i := i + 1;
      ReadNext(l, b.Length, i);
    }
    assert l.es[..i] == l.es;
  }

  lemma NoneMixed(es: seq<Entry>)
    ensures GoodEntries(es[..0]) && MixedHashes(es[..0]) == 0
  {
  }

  lemma OffFirst(l: Layout)
    requires GoodEntries(l.es)
    ensures Off(l.es, 0) == HEADER
  {
    EncNone();
  }

  /** The first half of ext2_xattr_rehash: the hash of the k-th entry, or, behind
      the last one, a 0 over the free space. */
  method HashHere(b: array<byte>, here: nat, ghost l: Layout, ghost k: nat) returns (ghost n: Layout)
    requires WellFormed(l, b.Length) && b[..] == Bytes(l) && k <= |l.es| && here == Off(l.es, k)
    requires k == |l.es| ==> l.gap >= ENTRY + 4
    modifies b
    ensures WellFormed(n, b.Length) && b[..] == Bytes(n) && SameButHashes(l, n) && |n.hdr| == HEADER && |n.es| == |l.es|
    ensures HashReady(old(b[..]), here) && (k < |l.es| ==> n.es[k].hash == old(EntryHash(b[..], here)))
    ensures forall i :: 0 <= i < |l.es| && i != k ==> n.es[i].hash == l.es[i].hash
  {
    hide Bytes, EncAll, WellFormed, Off, Attr, EntryLen, Compare, Get16, Get32, Round, Over, LE32, SameButHashes, EntryHash;
    Reads(l, b.Length);
    HashRoom(l, b.Length, k);
    var h := HashEntry(b, here);
    n := l;
    if k < |l.es| {
      n := With(l, k, l.es[k].(hash := h));
      FieldsWritten(l, b.Length, k, 0, 0, h);
    } else {
      GapHash(l, b.Length);
    }
    MemCopy(b, here + 12, LE32(h));
    OneHash(l, n, k, h);
    HashesAside(l, n, b.Length);
  }

  /** ext2_xattr_rehash after the k-th entry has changed or gone. */
  method Rehash(b: array<byte>, here: nat, ghost l: Layout, ghost k: nat) returns (ghost m: Layout)
    requires WellFormed(l, b.Length) && b[..] == Bytes(l) && k <= |l.es| && here == Off(l.es, k)
    requires k == |l.es| ==> l.gap >= ENTRY + 4
    modifies b
    ensures WellFormed(m, b.Length) && b[..] == Bytes(m) && SameButHashes(l, m)
    ensures HashReady(old(b[..]), here) && (k < |l.es| ==> k < |m.es| && m.es[k].hash == old(EntryHash(b[..], here)))
    ensures |m.es| == |l.es| && forall i :: 0 <= i < |l.es| && i != k ==> m.es[i].hash == l.es[i].hash
    ensures GoodEntries(m.es) && |m.hdr| == HEADER && Get32(m.hdr, 12) == SealOf(m.es)
    ensures forall other: Key :: Attr(m, b.Length, other) == Attr(l, b.Length, other)
  {
    hide Bytes, EncAll, WellFormed, Off, Attr, EntryLen, Compare, Get16, Get32, Round, Over, LE32, SameButHashes,
         EntryHash, GoodEntries, SealOf;
    ghost var n := HashHere(b, here, l, k);
    Reads(n, b.Length);
    var blockHash := HashBlock(b, n);
    HeaderWritten(n, b.Length, 12, blockHash);
    MemCopy(b, 12, LE32(blockHash));
    m := n.(hdr := Over(n.hdr, 12, LE32(blockHash)));
    BlockHash(l, n, m, blockHash);
    HashesAside(l, m, b.Length);
  }

  lemma OneHash(l: Layout, n: Layout, k: nat, h: nat)
    requires k <= |l.es| && n == if k < |l.es| then With(l, k, l.es[k].(hash := h)) else l
    ensures SameButHashes(l, n)
  {
  }

  lemma BlockHash(l: Layout, n: Layout, m: Layout, h: nat)
    requires SameButHashes(l, n) && |n.hdr| == HEADER && h < MAX32 && m == n.(hdr := Over(n.hdr, 12, LE32(h)))
    ensures SameButHashes(l, m) && |m.hdr| == HEADER && Get32(m.hdr, 12) == h
  {
    hide LE32, Get32;
    assert m.hdr[12..16] == LE32(h);
    Read32(h, m.hdr, 12);
  }

  /** The hash that the bytes of an entry yield. */
  lemma EntryHashed(l: Layout, bs: nat, k: nat)
    requires WellFormed(l, bs) && k < |l.es| && ValueIs(l, bs, k, ValueAt(l, bs, k))
    ensures HashReady(Bytes(l), Off(l.es, k))
    ensures EntryHash(Bytes(l), Off(l.es, k)) == KeyHash(l.es[k].key, ValueAt(l, bs, k))
  {
    hide WellFormed, Off, Bytes, Get32, Get16, HashWords, HashName, Round, IsLast, EntryLen, Slot, Padded, ValueAt;
    Reads(l, bs);
    EntryAt(l, bs, k);
    var e, v := l.es[k], ValueAt(l, bs, k);
    PaddedLength(v);
    NoWords(HashName(e.key.name));
    if e.size > 0 {
      SlotRead(l, bs, k);
    }
  }

  lemma NoWords(hash: nat)
    requires hash < MAX32
    ensures HashWords(hash, []) == hash
  {
  }

  /** The room of a value in the block's bytes. */
  lemma SlotRead(l: Layout, bs: nat, k: nat)
    requires WellFormed(l, bs) && Lies(l, bs, k) && l.es[k].size > 0
    ensures |Bytes(l)| == bs && Bytes(l)[l.es[k].offs..l.es[k].offs + Round(l.es[k].size)] == Slot(l, bs, k)
  {
    hide EncAll, Sorted, Room, Round, Packed;
    var front := l.hdr + EncAll(l.es) + Zeros(l.gap);
    assert Bytes(l) == front + l.vals && |front| == bs - |l.vals|;
  }
}
