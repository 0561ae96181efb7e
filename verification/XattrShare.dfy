/**
 Attribute blocks shared between inodes: blocks with equal attributes are shared
 through a cache, copied before they are changed, and counted.
 */
module XattrShare {
  import opened XattrBlock
  import opened ByteBuffer
  import opened XattrEdit
  import opened XattrHash
  import opened XattrLayout
  import opened XattrSet
  import opened XattrWrite

  const MAGIC: nat := 0xEA02_0000
  const REFCOUNT_MAX: nat := 1024

  /** What an inode has to do with attributes: its block and the blocks it is charged for. */
  class Holder {
    var fileAcl: nat
    var charge: int

    constructor ()
      ensures fileAcl == 0 && charge == 0
    {
      fileAcl, charge := 0, 0;
    }
  }

  predicate GoodHeader(hdr: seq<byte>) {
    |hdr| == HEADER && Get32(hdr, 0) == MAGIC && Get32(hdr, 8) == 1
  }

  function RefCount(l: Layout): nat
    requires |l.hdr| == HEADER
  {
    Get32(l.hdr, 4)
  }

  /** The block's reference count is n, and a legal one. */
  predicate RefsAre(l: Layout, n: nat) {
    |l.hdr| == HEADER && RefCount(l) == n && 0 < n <= REFCOUNT_MAX + 1
  }

  /** Equal but for the header. */
  predicate SameBody(l: Layout, m: Layout) {
    m.es == l.es && m.gap == l.gap && m.vals == l.vals
  }

  lemma SameBodyAttr(l: Layout, m: Layout, bs: nat)
    requires WellFormed(l, bs) && WellFormed(m, bs) && SameBody(l, m)
    ensures forall key: Key :: Attr(m, bs, key) == Attr(l, bs, key)
  {
    hide EncAll, Packed, Sorted, Room;
  }

  /** A header with another reference count. */
  lemma CountWritten(l: Layout, bs: nat, n: nat)
    requires WellFormed(l, bs) && GoodHeader(l.hdr) && n < MAX32
    ensures var m := l.(hdr := Over(l.hdr, 4, LE32(n)));
            && WellFormed(m, bs) && |Bytes(l)| == bs && Over(Bytes(l), 4, LE32(n)) == Bytes(m)
            && GoodHeader(m.hdr) && RefCount(m) == n && Get32(m.hdr, 12) == Get32(l.hdr, 12)
  {
    hide EncAll, Packed, Sorted, Room, LE32;
    HeaderWritten(l, bs, 4, n);
    var h := Over(l.hdr, 4, LE32(n));
    assert h[4..8] == LE32(n);
    Read32(n, h, 4);
    assert h[12] == l.hdr[12] && h[13] == l.hdr[13] && h[14] == l.hdr[14] && h[15] == l.hdr[15];
  }

  function Count(acls: seq<nat>, b: nat): nat {
    if |acls| == 0 then 0 else Count(acls[..|acls| - 1], b) + if acls[|acls| - 1] == b then 1 else 0
  }

  lemma {:induction false} CountUpdate(acls: seq<nat>, k: nat, v: nat, b: nat)
    requires k < |acls|
    ensures Count(acls[k := v], b) == Count(acls, b) - (if acls[k] == b then 1 else 0) + (if v == b then 1 else 0)
    decreases |acls|
  {
    var n := |acls| - 1;
    if k < n {
      assert acls[k := v][..n] == acls[..n][k := v];
      CountUpdate(acls[..n], k, v, b);
    } else {
      assert acls[k := v][..n] == acls[..n];
    }
  }

  lemma {:induction false} CountHas(acls: seq<nat>, k: nat)
    requires k < |acls|
    ensures Count(acls, acls[k]) > 0
    decreases |acls|
  {
    if k < |acls| - 1 {
      CountHas(acls[..|acls| - 1], k);
    }
  }

  lemma {:induction false} NotCounted(acls: seq<nat>, b: nat)
    requires b !in acls
    ensures Count(acls, b) == 0
    decreases |acls|
  {
    if |acls| > 0 {
      NotCounted(acls[..|acls| - 1], b);
    }
  }

  ghost function Acls(files: seq<Holder>): (r: seq<nat>)
    reads files
    ensures |r| == |files| && forall i :: 0 <= i < |files| ==> r[i] == files[i].fileAcl
  {
    if |files| == 0 then [] else Acls(files[..|files| - 1]) + [files[|files| - 1].fileAcl]
  }

  ghost function Charges(files: seq<Holder>): (r: seq<int>)
    reads files
    ensures |r| == |files| && forall i :: 0 <= i < |files| ==> r[i] == files[i].charge
  {
    if |files| == 0 then [] else Charges(files[..|files| - 1]) + [files[|files| - 1].charge]
  }

  // ---------- references ----------

  /** Reference counts and charges are right, but that inode k holds one more
      reference to block `plus` (if not 0), and is charged for it. */
  ghost predicate Held(lay: map<nat, Layout>, acls: seq<nat>, charges: seq<int>, k: nat, plus: nat) {
    && |charges| == |acls| && 0 !in lay && (plus != 0 ==> plus in lay)
    && (forall i :: 0 <= i < |acls| ==> acls[i] == 0 || acls[i] in lay)
    && (forall i :: 0 <= i < |acls| ==>
          charges[i] == (if acls[i] == 0 then 0 else 1) + (if i == k && plus != 0 then 1 else 0))
    && (forall b :: b in lay ==> RefsAre(lay[b], Count(acls, b) + if b == plus then 1 else 0))
  }

  lemma HeldTake(lay: map<nat, Layout>, acls: seq<nat>, charges: seq<int>, k: nat, b: nat, l: Layout)
    requires Held(lay, acls, charges, k, 0) && k < |acls| && b in lay && RefsAre(lay[b], Count(acls, b))
    requires RefCount(lay[b]) <= REFCOUNT_MAX && |l.hdr| == HEADER && RefCount(l) == RefCount(lay[b]) + 1
    ensures Held(lay[b := l], acls, charges[k := charges[k] + 1], k, b)
  {
    hide RefCount, Count;
  }

  lemma HeldNew(lay: map<nat, Layout>, acls: seq<nat>, charges: seq<int>, k: nat, b: nat, l: Layout)
    requires Held(lay, acls, charges, k, 0) && k < |acls| && b != 0 && b !in lay && |l.hdr| == HEADER && RefCount(l) == 1
    ensures Held(lay[b := l], acls, charges[k := charges[k] + 1], k, b)
  {
    hide RefCount;
    NotCounted(acls, b);
  }

  lemma HeldSwitch(lay: map<nat, Layout>, acls: seq<nat>, charges: seq<int>, k: nat, b: nat)
    requires Held(lay, acls, charges, k, b) && k < |acls| && b != acls[k]
    ensures Held(lay, acls[k := b], charges, k, acls[k])
  {
    hide RefCount;
    var a := acls[k];
    forall c | c in lay
      ensures RefsAre(lay[c], Count(acls[k := b], c) + if c == a then 1 else 0)
    {
      CountUpdate(acls, k, b, c);
    }
  }

  lemma HeldDrop(lay: map<nat, Layout>, acls: seq<nat>, charges: seq<int>, k: nat, b: nat, l: Layout)
    requires Held(lay, acls, charges, k, b) && k < |acls| && b != 0 && |l.hdr| == HEADER && RefCount(l) == RefCount(lay[b]) - 1
    requires RefCount(lay[b]) != 1
    ensures Held(lay[b := l], acls, charges[k := charges[k] - 1], 0, 0) && Count(acls, b) > 0
  {
    hide RefCount, Count;
  }

  lemma HeldFree(lay: map<nat, Layout>, acls: seq<nat>, charges: seq<int>, k: nat, b: nat)
    requires Held(lay, acls, charges, k, b) && k < |acls| && b != 0 && |lay[b].hdr| == HEADER && RefCount(lay[b]) == 1
    ensures Held(lay - {b}, acls, charges[k := charges[k] - 1], 0, 0) && Count(acls, b) == 0
  {
    hide RefCount;
    assert RefsAre(lay[b], Count(acls, b) + 1);
    forall i | 0 <= i < |acls|
      ensures acls[i] != b
    {
      CountHas(acls, i);
    }
  }

  lemma HeldRefs(lay: map<nat, Layout>, acls: seq<nat>, charges: seq<int>, k: nat, plus: nat, b: nat)
    requires Held(lay, acls, charges, k, plus) && b in lay
    ensures |lay[b].hdr| == HEADER && 0 < RefCount(lay[b]) <= REFCOUNT_MAX + 1
    ensures RefsAre(lay[b], Count(acls, b) + if b == plus then 1 else 0)
  {
  }

  // ---------- comparing two blocks ----------

  /** What the comparison reads of an entry. */
  predicate EntryReads(s: seq<byte>, at: nat, e: Entry, v: seq<byte>) {
    && at + ENTRY <= |s| && at + ENTRY + s[at] <= |s| && at + EntryLen(s[at]) < |s|
    && KeyAt(s, at) == e.key && Get32(s, at + 12) == e.hash && Get32(s, at + 8) == |v| && Get32(s, at + 4) == 0
    && Get16(s, at + 2) + |v| <= |s| && s[Get16(s, at + 2)..Get16(s, at + 2) + |v|] == v
  }

  lemma EntryRead(l: Layout, bs: nat, i: nat)
    requires WellFormed(l, bs) && i < |l.es|
    ensures |Bytes(l)| == bs && EntryReads(Bytes(l), Off(l.es, i), l.es[i], ValueAt(l, bs, i))
    ensures |ValueAt(l, bs, i)| == l.es[i].size
    ensures Off(l.es, i + 1) == Off(l.es, i) + EntryLen(Bytes(l)[Off(l.es, i)])
  {
    hide EncAll, Enc, Get16, Get32, Packed, Sorted, Room, Off, Bytes, EntryLen;
    EntryAt(l, bs, i);
    ValueFound(Bytes(l), l, Off(l.es, i), i);
    AttrAt(l, bs, i);
    ValueSize(l, bs, i);
  }

  lemma ValueSize(l: Layout, bs: nat, i: nat)
    requires WellFormed(l, bs) && i < |l.es|
    ensures |ValueAt(l, bs, i)| == l.es[i].size
  {
    assert Fits(l.es, l.es[i], bs - |l.vals|, bs);
  }

  lemma EndRead(l: Layout, bs: nat, i: nat)
    requires WellFormed(l, bs) && i <= |l.es|
    ensures var s, at := Bytes(l), Off(l.es, i);
            |s| == bs && at % 4 == 0 && at + 4 <= bs && (IsLast(s, at) <==> i == |l.es|)
  {
    hide EncAll, Packed, Sorted, Room, IsLast;
    ReadNext(l, bs, i);
  }

  /** ext2_xattr_cmp: 0 if equal. */
  method CompareBlocks(b: array<byte>, c: array<byte>, ghost l: Layout, ghost m: Layout) returns (r: int)
    requires WellFormed(l, b.Length) && b[..] == Bytes(l) && c.Length == b.Length
    requires WellFormed(m, b.Length) && c[..] == Bytes(m)
    ensures r == 0 <==> SameEntries(l, m, b.Length)
  {
    hide EncAll, Enc, Get16, Get32, WellFormed, Off, Bytes, EntryLen, IsLast, KeyAt, ValueAt;
    FirstEntry(l, b.Length);
    FirstEntry(m, b.Length);
    var at1, at2 := HEADER, HEADER;
    ghost var i := 0;
    EndRead(l, b.Length, 0);
    EndRead(m, b.Length, 0);
    while !IsLast(b[..], at1)
      invariant i <= |l.es| && i <= |m.es| && at1 == Off(l.es, i) && at2 == Off(m.es, i)
      invariant at1 + 4 <= b.Length && at2 + 4 <= b.Length
      invariant (IsLast(b[..], at1) <==> i == |l.es|) && (IsLast(c[..], at2) <==> i == |m.es|)
      invariant forall j :: 0 <= j < i ==> SameEntry(l, m, b.Length, j)
      decreases |l.es| - i
    {
      if IsLast(c[..], at2) {
        return 1;
      }
      EntryRead(l, b.Length, i);
      EntryRead(m, b.Length, i);
      var size1, size2 := Get32(b[..], at1 + 8), Get32(c[..], at2 + 8);
      if Get32(b[..], at1 + 12) != Get32(c[..], at2 + 12) || KeyAt(b[..], at1) != KeyAt(c[..], at2) || size1 != size2 {
        assert !SameEntry(l, m, b.Length, i);
        return 1;
      }
      if Get32(b[..], at1 + 4) != 0 || Get32(c[..], at2 + 4) != 0 {
        assert false; // values in blocks of their own do not occur
      }
      var offs1, offs2 := Get16(b[..], at1 + 2), Get16(c[..], at2 + 2);
      if b[..][offs1..offs1 + size1] != c[..][offs2..offs2 + size2] {
        assert !SameEntry(l, m, b.Length, i);
        return 1;
      }
      at1, at2, i := at1 + EntryLen(b[at1]), at2 + EntryLen(c[at2]), i + 1;
      EndRead(l, b.Length, i);
      EndRead(m, b.Length, i);
    }
    r := if IsLast(c[..], at2) then 0 else 1;
  }

  lemma FirstEntry(l: Layout, bs: nat)
    requires WellFormed(l, bs)
    ensures GoodEntries(l.es) && Off(l.es, 0) == HEADER && |l.vals| <= bs
  {
    EncNone();
  }

  // ---------- changing a block ----------

  /** The attribute is set to the value (or removed, for None) and no other changes. */
  ghost predicate Updated(l: Layout, m: Layout, bs: nat, key: Key, value: Option<seq<byte>>)
    requires WellFormed(l, bs) && WellFormed(m, bs)
  {
    forall other: Key :: Attr(m, bs, other) == if other == key then value else Attr(l, bs, other)
  }

  lemma HashedHeader(l: Layout, m: Layout)
    requires SameButHashes(l, m) && GoodHeader(l.hdr)
    ensures GoodHeader(m.hdr) && RefCount(m) == RefCount(l)
  {
  }

  /** All hashes of a block are right; an empty one needs none of its own. */
  ghost predicate Canonical(l: Layout, bs: nat)
    requires WellFormed(l, bs)
  {
    Hashed(l, bs, None) && (l.es != [] ==> Get32(l.hdr, 12) == SealOf(l.es))
  }

  lemma SameBodyHashes(l: Layout, m: Layout, bs: nat)
    requires WellFormed(l, bs) && WellFormed(m, bs) && Canonical(l, bs) && SameBody(l, m)
    requires Get32(m.hdr, 12) == Get32(l.hdr, 12)
    ensures Canonical(m, bs)
  {
    hide EncAll, Packed, Sorted, Room, KeyHash, Compare, Get32, HashedAt, Lies, Slot, SealOf;
    forall i | 0 <= i < |m.es|
      ensures HashedAt(m, bs, i, None)
    {
      LiesAt(l, bs, i);
      LiesAt(m, bs, i);
      SameSlot(l, m, bs, i, i);
      SameHashed(l, m, bs, i, i, None);
    }
  }

  lemma OthersDiffer(l: Layout, bs: nat, key: Key, k: nat, value: Option<seq<byte>>)
    requires WellFormed(l, bs) && Attr(l, bs, key) == value && (value.Some? ==> k < |l.es| && l.es[k].key == key)
    ensures forall i :: 0 <= i < |l.es| && i != k ==> l.es[i].key != key
  {
    hide EncAll, Packed, Room, Compare, Attr;
    forall i | 0 <= i < |l.es| && i != k
      ensures l.es[i].key != key
    {
      AttrAt(l, bs, i);
      if value.Some? && l.es[i].key == key {
        DistinctKeys(l.es, i, k);
      }
    }
  }

  /** The hashes are right again after the k-th entry has been changed or taken out. */
  lemma Rehashed(n: Layout, m: Layout, bs: nat, k: nat, key: Key, value: Option<seq<byte>>)
    requires WellFormed(n, bs) && WellFormed(m, bs) && Hashed(n, bs, Some(key)) && Attr(n, bs, key) == value
    requires value.Some? ==> k < |n.es| && n.es[k].key == key
    requires SameButHashes(n, m) && forall i :: 0 <= i < |n.es| && i != k ==> m.es[i].hash == n.es[i].hash
    requires k < |n.es| ==> HashReady(Bytes(n), Off(n.es, k)) && m.es[k].hash == EntryHash(Bytes(n), Off(n.es, k))
    requires Get32(m.hdr, 12) == SealOf(m.es)
    ensures Canonical(m, bs)
  {
    hide EncAll, Packed, Sorted, Room, KeyHash, Compare, Attr, Get32, EntryHash, HashReady, Bytes, SealOf;
    OthersDiffer(n, bs, key, k, value);
    if k < |n.es| {
      assert HashedAt(n, bs, k, Some(key));
      EntryHashed(n, bs, k);
    }
    AllHashed(n, m, bs, k, key);
  }

  /** Edit a block in a buffer of its own and bring its hashes up to date. */
  method Edit(b: array<byte>, key: Key, value: Option<seq<byte>>, here: nat, last: nat, minOffs: nat, notFound: bool,
              ghost l: Layout, ghost k: nat)
    returns (empty: bool, ghost m: Layout)
    requires WellFormed(l, b.Length) && b[..] == Bytes(l) && GoodHeader(l.hdr) && GoodKey(key)
    requires Place(l.es, key, k, !notFound) && (notFound ==> value.Some?)
    requires here == Off(l.es, k) && last == Off(l.es, |l.es|) && minOffs == b.Length - |l.vals|
    requires Len(value) <= b.Length && EntryLen(|key.name|) + Round(Len(value)) <= Free(l, k, !notFound)
    requires Hashed(l, b.Length, None)
    modifies b
    ensures WellFormed(m, b.Length) && b[..] == Bytes(m) && GoodHeader(m.hdr) && RefCount(m) == RefCount(l)
    ensures Canonical(m, b.Length)
    ensures Updated(l, m, b.Length, key, value) && (empty <==> m.es == [])
  {
    hide Bytes, EncAll, WellFormed, Off, Attr, EntryLen, Compare, Get16, Get32, GoodHeader, SameButHashes, IsLast, Place,
         HashReady, EntryHash, Hashed, SealOf, Canonical;
    ghost var n;
    PlaceKey(l.es, key, k, !notFound);
    if notFound {
      n := InsertAttr(b, key, value.value, here, last, minOffs, l, k);
      PlaceKey(n.es, key, k, true);
    } else {
      n := ReplaceAttr(b, key, value, here, last, minOffs, l, k);
      if value.Some? {
        PlaceKey(n.es, key, k, true);
      }
    }
    Reads(n, b.Length);
    m := n;
    EndRead(n, b.Length, 0);
    FirstEntry(n, b.Length);
    empty := IsLast(b[..], HEADER);
    if !empty {
      m := Rehash(b, here, n, k);
      HashedHeader(n, m);
      SameCount(n, m);
      Rehashed(n, m, b.Length, k, key, value);
    } else {
      NoHashes(n, b.Length);
    }
  }

  lemma AllRight(l: Layout, bs: nat)
    requires WellFormed(l, bs) && Canonical(l, bs)
    ensures Hashed(l, bs, None)
  {
  }

  lemma NoHashes(l: Layout, bs: nat)
    requires WellFormed(l, bs) && l.es == []
    ensures Canonical(l, bs)
  {
  }

  lemma SameCount(l: Layout, m: Layout)
    requires SameButHashes(l, m)
    ensures |m.es| == |l.es|
  {
  }

  lemma PlaceKey(es: seq<Entry>, key: Key, k: nat, found: bool)
    requires Place(es, key, k, found)
    ensures k <= |es| && (found ==> k < |es| && es[k].key == key)
  {
  }

  /** What an inode sees through the block it points at. */
  ghost function View(lay: map<nat, Layout>, bs: nat, acl: nat, key: Key): Option<seq<byte>> {
    if acl in lay && WellFormed(lay[acl], bs) then Attr(lay[acl], bs, key) else None
  }

  lemma ViewKept(lay: map<nat, Layout>, lay': map<nat, Layout>, bs: nat, acl: nat)
    requires acl in lay <==> acl in lay'
    requires acl in lay ==> WellFormed(lay[acl], bs) && WellFormed(lay'[acl], bs) && SameBody(lay[acl], lay'[acl])
    ensures forall key: Key :: View(lay', bs, acl, key) == View(lay, bs, acl, key)
  {
    hide Attr, WellFormed;
    if acl in lay {
      SameBodyAttr(lay[acl], lay'[acl], bs);
    }
  }

  /** Block c can be shared by an inode with the attributes of layout l. */
  ghost predicate CopyAt(lay: map<nat, Layout>, cache: map<nat, nat>, bs: nat, c: nat, l: Layout)
    requires WellFormed(l, bs)
  {
    && c in cache && c in lay && cache[c] != 0 && |lay[c].hdr| == HEADER && RefCount(lay[c]) <= REFCOUNT_MAX
    && WellFormed(lay[c], bs) && forall key: Key :: Attr(lay[c], bs, key) == Attr(l, bs, key)
  }

  ghost predicate Copied(lay: map<nat, Layout>, cache: map<nat, nat>, bs: nat, l: Layout)
    requires WellFormed(l, bs)
  {
    exists c :: CopyAt(lay, cache, bs, c, l)
  }

  lemma CopiedAt(lay: map<nat, Layout>, cache: map<nat, nat>, bs: nat, c: nat, l: Layout)
    requires WellFormed(l, bs) && CopyAt(lay, cache, bs, c, l)
    ensures Copied(lay, cache, bs, l) && c in cache && c in lay && |lay[c].hdr| == HEADER && RefCount(lay[c]) <= REFCOUNT_MAX
    ensures WellFormed(lay[c], bs) && forall key: Key :: Attr(lay[c], bs, key) == Attr(l, bs, key)
  {
    hide WellFormed, Attr, RefCount;
  }

  /** An inode that points at a block alone. */
  lemma OnlyOne(acls: seq<nat>, k: nat)
    requires k < |acls| && Count(acls, acls[k]) == 1
    ensures forall i :: 0 <= i < |acls| && i != k ==> acls[i] != acls[k]
  {
    var b := acls[k];
    var rest := acls[k := b + 1];
    CountUpdate(acls, k, b + 1, b);
    forall i | 0 <= i < |acls| && i != k
      ensures acls[i] != b
    {
      CountHas(rest, i);
    }
  }

  lemma HeldBody(lay: map<nat, Layout>, acls: seq<nat>, charges: seq<int>, b: nat, m: Layout)
    requires Held(lay, acls, charges, 0, 0) && b in lay && |lay[b].hdr| == |m.hdr| == HEADER && RefCount(m) == RefCount(lay[b])
    ensures Held(lay[b := m], acls, charges, 0, 0)
  {
    hide RefCount, Count;
  }

  lemma OverWhole(u: seq<byte>, s: seq<byte>)
    requires |u| == |s|
    ensures Over(u, 0, s) == s
  {
  }

  /** A buffer of its own with the same bytes. */
  method CopyOf(b: array<byte>) returns (c: array<byte>)
    ensures fresh(c) && c.Length == b.Length && c[..] == b[..]
  {
    c := new byte[b.Length](_ => 0);
    ghost var u := c[..];
    MemCopy(c, 0, b[..]);
    OverWhole(u, b[..]);
  }

  function EmptyLayout(bs: nat): (l: Layout)
    requires bs >= HEADER
    ensures l.es == [] && l.vals == [] && l.gap == bs - HEADER
  {
    Layout(LE32(MAGIC) + LE32(1) + LE32(1) + Zeros(20), [], bs - HEADER, [])
  }

  lemma EmptyBlock(bs: nat)
    requires bs % 4 == 0 && 64 <= bs <= 0x10000
    ensures var l := EmptyLayout(bs);
            && WellFormed(l, bs) && GoodHeader(l.hdr) && RefCount(l) == 1
            && Bytes(l) == Over(Over(Over(Zeros(bs), 0, LE32(MAGIC)), 8, LE32(1)), 4, LE32(1))
  {
    hide Over, Zeros, LE32;
    var l, m, one := EmptyLayout(bs), LE32(MAGIC), LE32(1);
    EmptyHeader(l.hdr);
    var z4, z20, r := Zeros(4), Zeros(20), Zeros(bs - HEADER);
    assert Zeros(bs) == z4 + z4 + z4 + z20 + r by {
      ZerosAre(z4 + z4 + z4 + z20 + r);
    }
    var s0 := Zeros(bs);
    assert s0 == [] + z4 + (z4 + z4 + z20 + r);
    OverPart([], z4, z4 + z4 + z20 + r, m, s0);
    var s1 := Over(s0, 0, m);
    assert s1 == (m + z4) + z4 + (z20 + r);
    OverPart(m + z4, z4, z20 + r, one, s1);
    var s2 := Over(s1, 8, one);
    assert s2 == m + z4 + (one + z20 + r);
    OverPart(m, z4, one + z20 + r, one, s2);
    EncNone();
    assert Bytes(l) == m + one + (one + z20 + r);
  }

  lemma EmptyHeader(hdr: seq<byte>)
    requires hdr == LE32(MAGIC) + LE32(1) + LE32(1) + Zeros(20)
    ensures |hdr| == HEADER && Get32(hdr, 0) == MAGIC && Get32(hdr, 4) == 1 && Get32(hdr, 8) == 1
  {
    hide LE32;
    Read32(MAGIC, hdr, 0);
    Read32(1, hdr, 4);
    Read32(1, hdr, 8);
  }

  // ---------- what a request meets ----------

  ghost predicate RoomIn(lay: map<nat, Layout>, bs: nat, acl: nat, key: Key, value: Option<seq<byte>>) {
    if acl in lay && WellFormed(lay[acl], bs) then
      var l := lay[acl];
      Need(l, Index(l.es, key), Index(l.es, key) < |l.es|, key, value) <= bs
    else
      HEADER + 4 + EntryLen(|key.name|) + Round(Len(value)) <= bs
  }

  /** The outcome of a request that has been checked against what is there:
      an error, or None to go on with it. */
  function Refusal(present: bool, value: Option<seq<byte>>, create: bool, replace: bool): Option<Status> {
    if !present then
      if replace then Some(ENODATA) else if value.None? then Some(OK) else None
    else if create then Some(EEXIST)
    else None
  }

  /** How a request fares that finds the attribute present or not, and room or
      not, if the allocator is failing, and with or without quota and memory. */
  predicate Fares(err: Status, refusal: Option<Status>, room: bool, failing: bool, quota: bool, memory: bool) {
    match refusal
    case Some(e) => err == e
    case None =>
      if !room then err == ENOSPC
      else err == OK || (err == EDQUOT && !quota) || (err == ENOMEM && !memory) || (err == ENOSPC && failing)
  }

  /** The block has one reference. */
  ghost predicate Sole(lay: map<nat, Layout>, acl: nat) {
    acl in lay && |lay[acl].hdr| == HEADER && RefCount(lay[acl]) == 1
  }

  /** The cache offers another block that holds just what the inode would have
      once the attribute is set. */
  ghost predicate Twin(lay: map<nat, Layout>, cache: map<nat, nat>, bs: nat, acl: nat, key: Key, value: Option<seq<byte>>) {
    exists c :: TwinAt(lay, cache, bs, acl, key, value, c)
  }

  ghost predicate TwinAt(lay: map<nat, Layout>, cache: map<nat, nat>, bs: nat, acl: nat, key: Key, value: Option<seq<byte>>,
                         c: nat)
  {
    && c in cache && c in lay && c != acl && cache[c] != 0 && |lay[c].hdr| == HEADER && RefCount(lay[c]) <= REFCOUNT_MAX
    && forall other: Key :: View(lay, bs, c, other) == if other == key then value else View(lay, bs, acl, other)
  }

  /** Without quota the change is made in place, in a block that the inode alone
      uses, before a twin of the outcome is found that it may not be charged for. */
  ghost predicate Spoiling(lay: map<nat, Layout>, cache: map<nat, nat>, bs: nat, acl: nat, key: Key, value: Option<seq<byte>>,
                           create: bool, replace: bool, quota: bool)
  {
    && !quota && |key.name| <= 255 && Len(value) <= bs && Sole(lay, acl)
    && Refusal(View(lay, bs, acl, key).Some?, value, create, replace).None? && RoomIn(lay, bs, acl, key, value)
    && Twin(lay, cache, bs, acl, key, value)
  }

  /** After the change in place a twin is a copy of the inode's own block. */
  lemma TwinIsCopy(was: map<nat, Layout>, cache: map<nat, nat>, bs: nat, b: nat, m: Layout, key: Key, value: Option<seq<byte>>)
    requires b in was && WellFormed(was[b], bs) && WellFormed(m, bs) && Updated(was[b], m, bs, key, value)
    requires forall c :: c in was ==> WellFormed(was[c], bs)
    ensures Copied(was[b := m], cache - {b}, bs, m) <==> Twin(was, cache, bs, b, key, value)
  {
    hide WellFormed, Attr, RefCount;
    var now := was[b := m];
    forall c
      ensures CopyAt(now, cache - {b}, bs, c, m) <==> TwinAt(was, cache, bs, b, key, value, c)
    {
      if c in cache && c in was && c != b {
        assert now[c] == was[c];
        assert forall other: Key :: View(was, bs, c, other) == Attr(was[c], bs, other);
        assert forall other: Key :: Attr(m, bs, other) == if other == key then value else View(was, bs, b, other);
      }
    }
  }

  // ---------- the blocks of all inodes ----------

  class Store {
    const bs: nat
    var blocks: map<nat, array<byte>>   // the attribute blocks in use
    var cache: map<nat, nat>            // blocks that may be shared, with their hashes
    ghost var lay: map<nat, Layout>

    ghost predicate BlockOk(b: nat)
      reads this, blocks.Values
    {
      && b in blocks && b in lay && blocks[b].Length == bs
      && WellFormed(lay[b], bs) && blocks[b][..] == Bytes(lay[b]) && GoodHeader(lay[b].hdr) && Canonical(lay[b], bs)
    }

    /** The cache knows the hash of the block. */
    ghost predicate CachedOk(b: nat)
      reads this, blocks.Values
    {
      b in cache && BlockOk(b) && cache[b] == SealOf(lay[b].es)
    }

    /** The blocks in themselves: each has a buffer of its own, with a well-formed
        layout and the hashes that belong to its attributes. */
    ghost predicate Sound()
      reads this, blocks.Values
    {
      && bs % 4 == 0 && 64 <= bs <= 0x10000
      && 0 !in blocks && lay.Keys == blocks.Keys && cache.Keys <= blocks.Keys
      && (forall b :: b in blocks ==> BlockOk(b))
      && (forall b :: b in cache ==> CachedOk(b))
      && (forall b, c :: b in blocks && c in blocks && b != c ==> blocks[b] != blocks[c])
    }

    /** The inodes' references: see Held. */
    ghost predicate Counted(files: seq<Holder>, k: nat, plus: nat)
      reads this, files
    {
      && (forall i, j :: 0 <= i < j < |files| ==> files[i] != files[j])
      && Held(lay, Acls(files), Charges(files), k, plus)
    }

    /** Every block in use is well-formed, and its count is the number of inodes
        that point at it, which is not 0. */
    ghost predicate Valid(files: seq<Holder>)
      reads this, blocks.Values, files
    {
      Sound() && Counted(files, 0, 0)
    }

    /** An inode's attributes. */
    ghost function AttrOf(f: Holder, key: Key): Option<seq<byte>>
      reads this, f
    {
      View(lay, bs, f.fileAcl, key)
    }

    constructor (bs: nat)
      requires bs % 4 == 0 && 64 <= bs <= 0x10000
      ensures Valid([]) && this.bs == bs && blocks == map[]
    {
      this.bs := bs;
      blocks, cache, lay := map[], map[], map[];
    }

    /** ext2_xattr_cache_find: a block in use, not shared too often yet, whose
        entries equal those of the buffer. 0 just if there is none: whatever
        block has the same attributes has the same hash. */
    method CacheFind(header: array<byte>, ghost l: Layout) returns (found: nat)
      requires Sound() && header.Length == bs && WellFormed(l, bs) && header[..] == Bytes(l) && Canonical(l, bs) && l.es != []
      ensures found != 0 ==> found in blocks && CopyAt(lay, cache, bs, found, l) && SameEntries(l, lay[found], bs)
      ensures found == 0 ==> !Copied(lay, cache, bs, l)
    {
      hide WellFormed, Bytes, Get32, SameEntries, SealOf, CopyAt, Copied, Canonical;
      HeaderRead(l, bs);
      var hash := Get32(header[..], 12);
      HeaderHash(l, bs);
      if hash == 0 {
        NotShared(l);
        return 0; // never share
      }
      var rest := set b | b in cache && cache[b] == hash;
      while rest != {}
        invariant rest <= cache.Keys
        invariant forall c :: c in cache && cache[c] == hash && c !in rest ==> !CopyAt(lay, cache, bs, c, l)
        decreases rest
      {
        var b :| b in rest; // in whatever order the cache hands them out
        rest := rest - {b};
        assert CachedOk(b);
        HeaderRead(lay[b], bs);
        CopyReads(b, l);
        if Get32(blocks[b][..], 4) <= REFCOUNT_MAX {
          var r := CompareBlocks(header, blocks[b], l, lay[b]);
          if r == 0 {
            return b;
          }
        }
      }
      NotShared(l);
      found := 0;
    }

    lemma HeaderHash(l: Layout, bs: nat)
      requires WellFormed(l, bs) && Canonical(l, bs) && l.es != []
      ensures |l.hdr| == HEADER && GoodEntries(l.es) && Get32(l.hdr, 12) == SealOf(l.es)
    {
    }

    /** A copy has the same hash. */
    lemma CopyHash(c: nat, l: Layout)
      requires Sound() && WellFormed(l, bs) && Canonical(l, bs) && CopyAt(lay, cache, bs, c, l)
      ensures c in cache && WellFormed(lay[c], bs) && SameEntries(l, lay[c], bs) && cache[c] == SealOf(l.es) != 0
    {
      hide WellFormed, Bytes, Get32, SameEntries, SealOf, Hashed, Attr;
      assert CachedOk(c);
      EqualEntries(l, lay[c], bs);
      SameSeal(l, lay[c], bs);
    }

    lemma NotShared(l: Layout)
      requires Sound() && WellFormed(l, bs) && Canonical(l, bs) && GoodEntries(l.es)
      requires SealOf(l.es) == 0 || forall c :: c in cache && cache[c] == SealOf(l.es) ==> !CopyAt(lay, cache, bs, c, l)
      ensures !Copied(lay, cache, bs, l)
    {
      hide WellFormed, Bytes, SealOf, CopyAt, Canonical, SameEntries, Store.Sound, GoodEntries;
      forall c | CopyAt(lay, cache, bs, c, l)
        ensures false
      {
        CopyHash(c, l);
      }
    }

    /** What the search for a copy reads of a block with the right hash. */
    lemma CopyReads(b: nat, l: Layout)
      requires Sound() && WellFormed(l, bs) && Canonical(l, bs) && b in cache && b in lay && b in blocks
      requires GoodEntries(l.es) && cache[b] == SealOf(l.es) != 0
      ensures WellFormed(lay[b], bs) && |blocks[b][..]| >= HEADER
      ensures CopyAt(lay, cache, bs, b, l) <==> Get32(blocks[b][..], 4) <= REFCOUNT_MAX && SameEntries(l, lay[b], bs)
    {
      hide WellFormed, Bytes, Get32, SameEntries, SealOf, Hashed, Attr;
      BlockFacts(b);
      if CopyAt(lay, cache, bs, b, l) {
        CopyHash(b, l);
      }
      if SameEntries(l, lay[b], bs) {
        SameAttributes(l, lay[b], bs);
      }
    }

    /** Change a block's reference count. */
    method SetRefCount(b: nat, n: nat)
      requires Sound() && b in blocks && n < MAX32
      modifies this`lay, blocks[b]
      ensures Sound() && |lay[b].hdr| == HEADER && RefCount(lay[b]) == n && SameBody(old(lay)[b], lay[b])
      ensures lay == old(lay)[b := lay[b]]
    {
      hide WellFormed, Bytes, Get32, SameEntries, GoodHeader, Over, Canonical, SealOf;
      BlockFacts(b);
      CountWritten(lay[b], bs, n);
      HeaderRead(lay[b].(hdr := Over(lay[b].hdr, 4, LE32(n))), bs);
      SameBodyHashes(lay[b], lay[b].(hdr := Over(lay[b].hdr, 4, LE32(n))), bs);
      MemCopy(blocks[b], 4, LE32(n));
      lay := lay[b := lay[b].(hdr := Over(lay[b].hdr, 4, LE32(n)))];
      forall c | c in blocks
        ensures BlockOk(c)
      {
        assert c != b ==> old(BlockOk(c));
      }
      forall c | c in cache
        ensures CachedOk(c)
      {
        assert old(CachedOk(c));
      }
    }

    /** One more reference to a block, for inode k to hold. */
    method TakeRef(ghost files: seq<Holder>, ghost k: nat, f: Holder, b: nat)
      requires Sound() && Counted(files, k, 0) && k < |files| && files[k] == f
      requires b in blocks && b in lay && |lay[b].hdr| == HEADER && RefCount(lay[b]) <= REFCOUNT_MAX
      modifies this`lay, blocks[b], f`charge
      ensures Sound() && Counted(files, k, b)
      ensures lay == old(lay)[b := lay[b]] && SameBody(old(lay)[b], lay[b])
    {
      hide WellFormed, Bytes, Get32, Sound, Held, Count;
      ghost var acls, charges := Acls(files), Charges(files);
      BlockFacts(b);
      HeldRefs(lay, acls, charges, k, 0, b);
      var refs := Get32(blocks[b][..], 4);
      SetRefCount(b, refs + 1);
      f.charge := f.charge + 1;
      HeldTake(old(lay), acls, charges, k, b, lay[b]);
      assert Acls(files) == acls && Charges(files) == charges[k := charges[k] + 1];
    }

    lemma BlockFacts(b: nat)
      requires Sound() && b in blocks
      ensures b != 0 && b in lay && blocks[b].Length == bs && WellFormed(lay[b], bs) && blocks[b][..] == Bytes(lay[b])
      ensures |blocks[b][..]| >= HEADER && |lay[b].hdr| == HEADER && GoodHeader(lay[b].hdr) && GoodEntries(lay[b].es)
      ensures RefCount(lay[b]) == Get32(blocks[b][..], 4)
      ensures forall at: nat :: at + 4 <= HEADER ==> Get32(blocks[b][..], at) == Get32(lay[b].hdr, at)
      ensures lay.Keys == blocks.Keys && Canonical(lay[b], bs)
    {
      hide WellFormed, Bytes, Get32, Canonical, SealOf;
      assert BlockOk(b);
      Reads(lay[b], bs);
      HeaderRead(lay[b], bs);
    }

    /** Move inode k's reference over to block `b` (0 for none). */
    method Switch(ghost files: seq<Holder>, ghost k: nat, f: Holder, b: nat)
      requires Sound() && Counted(files, k, b) && k < |files| && files[k] == f && b != f.fileAcl
      modifies f`fileAcl
      ensures Sound() && f.fileAcl == b && Counted(files, k, old(f.fileAcl))
    {
      hide Sound, Held, Count;
      ghost var acls, charges := Acls(files), Charges(files);
      f.fileAcl := b;
      HeldSwitch(lay, acls, charges, k, b);
      assert Acls(files) == acls[k := b] && Charges(files) == charges;
    }

    /** Release inode k's extra reference to `b`: the last one frees the block. */
    method Drop(ghost files: seq<Holder>, ghost k: nat, f: Holder, b: nat)
      requires Sound() && Counted(files, k, b) && k < |files| && files[k] == f && b != 0
      requires b in blocks
      modifies this, blocks[b], f`charge
      ensures Sound() && Counted(files, 0, 0)
      ensures blocks == if b in blocks then old(blocks) else old(blocks) - {b}
      ensures b in blocks <==> Count(Acls(files), b) > 0
      ensures forall c :: c in lay ==> c in old(lay) && SameBody(old(lay)[c], lay[c])
      ensures forall c :: c in old(cache) && c in blocks ==> c in cache
    {
      hide WellFormed, Bytes, Get32, Sound, Held, Count, GoodHeader, Canonical, RefCount;
      ghost var acls, charges := Acls(files), Charges(files);
      BlockFacts(b);
      HeldRefs(lay, acls, charges, k, b, b);
      var gone := Unref(b);
      f.charge := f.charge - 1;
      if gone {
        HeldFree(old(lay), acls, charges, k, b);
      } else {
        HeldDrop(old(lay), acls, charges, k, b, lay[b]);
      }
      assert Acls(files) == acls && Charges(files) == charges[k := charges[k] - 1];
    }

    /** One reference less; without any the block is freed. */
    method Unref(b: nat) returns (gone: bool)
      requires Sound() && b in blocks && b in lay && |lay[b].hdr| == HEADER && RefCount(lay[b]) > 0
      modifies this, blocks[b]
      ensures Sound() && (gone <==> old(RefCount(lay[b])) == 1)
      ensures gone ==> lay == old(lay) - {b} && blocks == old(blocks) - {b} && cache == old(cache) - {b}
      ensures !gone ==> b in lay && lay == old(lay)[b := lay[b]] && blocks == old(blocks) && cache == old(cache)
      ensures !gone ==> |lay[b].hdr| == HEADER && RefCount(lay[b]) == old(RefCount(lay[b])) - 1 && SameBody(old(lay)[b], lay[b])
    {
      hide WellFormed, Bytes, Get32, Sound, GoodHeader, Canonical, RefCount;
      BlockFacts(b);
      gone := Get32(blocks[b][..], 4) == 1;
      if gone {
        Forget(b);
      } else {
        SetRefCount(b, Get32(blocks[b][..], 4) - 1);
      }
    }

    /** Free a block, and take it out of the cache first. */
    method Forget(b: nat)
      requires Sound() && b in blocks
      modifies this
      ensures Sound() && blocks == old(blocks) - {b} && lay == old(lay) - {b} && cache == old(cache) - {b}
    {
      hide WellFormed, Bytes, GoodHeader, Canonical, SealOf;
      cache := cache - {b};
      blocks := blocks - {b};
      lay := lay - {b};
      forall c | c in blocks
        ensures BlockOk(c)
      {
        assert old(BlockOk(c));
      }
      forall c | c in cache
        ensures CachedOk(c)
      {
        assert old(CachedOk(c));
      }
    }

    /** Write the buffer to a new block, the number `b` of which the allocator
        has handed out. */
    method Create(b: nat, header: array<byte>, ghost l: Layout)
      requires Sound() && b != 0 && b !in blocks && GoodEntries(l.es)
      requires header.Length == bs && header[..] == Bytes(l) && WellFormed(l, bs) && GoodHeader(l.hdr)
      requires Canonical(l, bs) && l.es != []
      modifies this
      ensures Sound() && lay == old(lay)[b := l] && blocks == old(blocks)[b := blocks[b]] && fresh(blocks[b])
      ensures cache.Keys == old(cache).Keys + {b}
    {
      hide WellFormed, Bytes, Get32, GoodHeader, Canonical, SealOf;
      var buffer := CopyOf(header);
      HeaderRead(l, bs);
      HeaderHash(l, bs);
      cache := cache[b := Get32(header[..], 12)];
      blocks := blocks[b := buffer];
      lay := lay[b := l];
      forall c | c in blocks
        ensures BlockOk(c)
      {
        assert c != b ==> old(BlockOk(c));
      }
      forall c | c in cache
        ensures CachedOk(c)
      {
        assert c != b ==> old(CachedOk(c));
      }
    }

    /** A new block for inode k to hold. */
    method NewBlock(ghost files: seq<Holder>, ghost k: nat, f: Holder, b: nat, header: array<byte>, ghost l: Layout)
      requires Sound() && Counted(files, k, 0) && k < |files| && files[k] == f && b != 0 && b !in blocks && GoodEntries(l.es)
      requires header.Length == bs && header[..] == Bytes(l) && WellFormed(l, bs) && GoodHeader(l.hdr) && RefCount(l) == 1
      requires Canonical(l, bs) && l.es != []
      modifies this, f`charge
      ensures Sound() && Counted(files, k, b)
      ensures lay == old(lay)[b := l] && blocks == old(blocks)[b := blocks[b]] && fresh(blocks[b])
      ensures cache.Keys == old(cache).Keys + {b}
    {
      hide WellFormed, Bytes, Get32, Held, Count, Canonical;
      ghost var acls, charges := Acls(files), Charges(files);
      HeldNew(lay, acls, charges, k, b, l);
      Create(b, header, l);
      f.charge := f.charge + 1;
      assert Acls(files) == acls && Charges(files) == charges[k := charges[k] + 1];
    }

    /** The first half of ext2_xattr_set2: an equal block from the cache, the
        inode's own, or a new one, with a reference for the inode. */
    method Obtain(ghost files: seq<Holder>, ghost k: nat, f: Holder, header: array<byte>, inPlace: bool, ghost l: Layout,
                  grant: nat, quota: bool, memory: bool)
      returns (err: Status, next: nat)
      requires Valid(files) && k < |files| && files[k] == f && (f.fileAcl == 0 || f.fileAcl in blocks)
      requires header.Length == bs && WellFormed(l, bs) && header[..] == Bytes(l) && GoodHeader(l.hdr) && RefCount(l) == 1
      requires Canonical(l, bs) && l.es != []
      requires if inPlace then f.fileAcl != 0 && header == blocks[f.fileAcl] && f.fileAcl in lay && lay[f.fileAcl] == l && f.fileAcl !in cache
               else header !in blocks.Values
      modifies this, blocks.Values, f`charge
      ensures Sound() && Counted(files, k, if err != OK || next == f.fileAcl then 0 else next)
      ensures err == OK ==> next != 0 && next in blocks && next in lay && WellFormed(lay[next], bs)
      ensures err == OK ==> forall key: Key :: Attr(lay[next], bs, key) == Attr(l, bs, key)
      ensures err != OK ==> lay == old(lay) && blocks == old(blocks)
      ensures Copied(old(lay), old(cache), bs, l) ==> blocks == old(blocks) && (err == OK || err == EDQUOT)
      ensures old(cache.Keys) <= cache.Keys && (err == OK ==> next in cache)
      ensures SameBodies(old(lay), lay) && old(lay).Keys <= lay.Keys
      ensures forall c :: c in blocks ==> blocks[c] in old(blocks.Values) || fresh(blocks[c])
      ensures blocks.Keys <= old(blocks.Keys) + {grant}
      ensures err == OK || err == EDQUOT || err == ENOSPC || err == ENOMEM
      ensures if inPlace then err == if Copied(old(lay), old(cache), bs, l) && !quota then EDQUOT else OK
              else (err == EDQUOT ==> !quota) && (err == ENOMEM ==> !memory)
      ensures err == ENOSPC ==> grant == 0 || grant in old(blocks)
    {
      hide WellFormed, Bytes, Get32, Held, Count, Attr, SameEntries, Sound, GoodHeader, SameBody, CopyAt, Copied, Canonical;
      Reads(l, bs);
      AnyInode(files, k);
      BodiesSame(lay, lay, 0);
      InLay();
      var found := CacheFind(header, l);
      err, next := OK, found;
      if found != 0 {
        CopiedAt(lay, cache, bs, found, l);
        ghost var m := lay[found];
        BodySame(m);
        if found != f.fileAcl {
          if !quota {
            return EDQUOT, 0;
          }
          TakeRef(files, k, f, found);
        }
        BodyView(m, found);
      } else if inPlace {
        next := f.fileAcl;
        HeaderHash(l, bs);
        HeaderRead(l, bs);
        CacheInsert(next, Get32(header[..], 12));
      } else {
        if !quota {
          return EDQUOT, 0;
        }
        if grant == 0 || grant in blocks {
          return ENOSPC, 0;
        }
        if !memory {
          return ENOMEM, 0; // the block just taken is given back
        }
        NewBlock(files, k, f, grant, header, l);
        next := grant;
      }
      BlockFacts(next);
      BodiesSame(old(lay), lay, next);
    }

    lemma BodyView(m: Layout, b: nat)
      requires Sound() && b in blocks && b in lay && WellFormed(m, bs) && SameBody(m, lay[b])
      ensures WellFormed(lay[b], bs) && forall key: Key :: Attr(lay[b], bs, key) == Attr(m, bs, key)
    {
      hide Bytes, Attr;
      BlockFacts(b);
      SameBodyAttr(m, lay[b], bs);
    }

    /** ext2_xattr_set2 for a block with attributes. `grant` is what the block
        allocator hands out (0 or a block in use stands for its failure). */
    method Install(ghost files: seq<Holder>, ghost k: nat, f: Holder, header: array<byte>, inPlace: bool, ghost l: Layout,
                   grant: nat, quota: bool, memory: bool)
      returns (err: Status)
      requires Valid(files) && k < |files| && files[k] == f && (f.fileAcl == 0 || f.fileAcl in blocks)
      requires header.Length == bs && WellFormed(l, bs) && header[..] == Bytes(l) && GoodHeader(l.hdr) && RefCount(l) == 1
      requires Canonical(l, bs) && l.es != []
      requires if inPlace then f.fileAcl != 0 && header == blocks[f.fileAcl] && f.fileAcl in lay && lay[f.fileAcl] == l && f.fileAcl !in cache
               else header !in blocks.Values
      modifies this, blocks.Values, f
      ensures Valid(files) && (f.fileAcl == 0 || f.fileAcl in blocks)
      ensures err == OK ==> f.fileAcl != 0 && forall key: Key :: AttrOf(f, key) == Attr(l, bs, key)
      ensures err != OK ==> f.fileAcl == old(f.fileAcl) && lay == old(lay) && blocks == old(blocks)
      ensures SameBodies(old(lay), lay)
      ensures forall c :: c in blocks ==> blocks[c] in old(blocks.Values) || fresh(blocks[c])
      ensures blocks.Keys <= old(blocks.Keys) + {grant}
      ensures err == OK || err == EDQUOT || err == ENOSPC || err == ENOMEM
      ensures if inPlace then err == if Copied(old(lay), old(cache), bs, l) && !quota then EDQUOT else OK
              else (err == EDQUOT ==> !quota) && (err == ENOMEM ==> !memory)
      ensures err == ENOSPC ==> grant == 0 || grant in old(blocks)
      ensures (err == OK ==> f.fileAcl in cache) && forall c :: c in old(cache) && c in blocks ==> c in cache
    {
      hide WellFormed, Bytes, Get32, Held, Attr, Sound, GoodHeader, SameBody, RefCount, SameBodies, View, Store.Counted,
           Copied, Canonical;
      var next;
      InLay();
      err, next := Obtain(files, k, f, header, inPlace, l, grant, quota, memory);
      ghost var now := lay;
      if err != OK {
        BackToFirst(files, k);
        return;
      }
      ghost var m := lay[next];
      InLay();
      MoveTo(files, k, f, next);
      BodiesTwice(old(lay), now, lay);
      BodyIn(now, lay, next);
      AttrFrom(f, m);
    }

    lemma BodyIn(lay: map<nat, Layout>, lay': map<nat, Layout>, b: nat)
      requires SameBodies(lay, lay') && b in lay && b in lay'
      ensures SameBody(lay[b], lay'[b])
    {
    }

    lemma AnyInode(files: seq<Holder>, k: nat)
      requires Counted(files, 0, 0)
      ensures Counted(files, k, 0)
    {
    }

    lemma AttrFrom(f: Holder, m: Layout)
      requires Sound() && f.fileAcl in blocks && f.fileAcl in lay && WellFormed(m, bs) && SameBody(m, lay[f.fileAcl])
      ensures f.fileAcl != 0 && forall key: Key :: AttrOf(f, key) == Attr(m, bs, key)
    {
      hide Bytes, Attr;
      BlockFacts(f.fileAcl);
      SameBodyAttr(m, lay[f.fileAcl], bs);
    }

    method CacheInsert(b: nat, hash: nat)
      requires Sound() && b in blocks && b in lay && GoodEntries(lay[b].es) && hash == SealOf(lay[b].es)
      modifies this`cache
      ensures Sound() && cache == old(cache)[b := hash]
    {
      hide WellFormed, Bytes, GoodHeader, Canonical, SealOf;
      cache := cache[b := hash];
      forall c | c in cache
        ensures CachedOk(c)
      {
        assert c != b ==> old(CachedOk(c));
      }
    }

    /** The inode is to point at `next`, a reference to which it holds by now if
        it did not before; the block it pointed at before is released. */
    method MoveTo(ghost files: seq<Holder>, ghost k: nat, f: Holder, next: nat)
      requires Sound() && k < |files| && files[k] == f && (f.fileAcl == 0 || f.fileAcl in blocks) && (next == 0 || next in blocks)
      requires Counted(files, k, if next == f.fileAcl then 0 else next)
      modifies this, blocks.Values, f
      ensures Valid(files) && f.fileAcl == next && (next == 0 || next in blocks)
      ensures SameBodies(old(lay), lay) && (next != 0 ==> next in lay && next in old(lay))
      ensures forall c :: c in blocks ==> blocks[c] in old(blocks.Values) || fresh(blocks[c])
      ensures blocks.Keys <= old(blocks.Keys)
      ensures old(f.fileAcl) != 0 && old(f.fileAcl) != next ==>
                (old(f.fileAcl) in blocks <==> Count(Acls(files), old(f.fileAcl)) > 0)
      ensures forall c :: c in old(cache) && c in blocks ==> c in cache
    {
      hide WellFormed, Bytes, Get32, Held, Count, Attr, Sound;
      var was := f.fileAcl;
      InLay();
      if next != was {
        Switch(files, k, f, next);
        if was != 0 {
          Drop(files, k, f, was);
          InLay();
          Pointed(files, k);
        }
      }
      BackToFirst(files, k);
    }

    lemma InLay()
      requires Sound()
      ensures lay.Keys == blocks.Keys
    {
      hide WellFormed, Bytes, GoodHeader;
    }

    lemma Pointed(files: seq<Holder>, k: nat)
      requires Counted(files, 0, 0) && k < |files|
      ensures files[k].fileAcl == 0 || files[k].fileAcl in lay
    {
      assert Acls(files)[k] == files[k].fileAcl;
    }

    lemma BackToFirst(files: seq<Holder>, k: nat)
      requires Counted(files, k, 0) || Counted(files, 0, 0)
      ensures Counted(files, 0, 0)
    {
    }

    // ---------- setting an attribute ----------

    /** Does the inode's block, or a new one, have room for the attribute? */
    ghost predicate RoomFor(f: Holder, key: Key, value: Option<seq<byte>>)
      reads this, f
    {
      RoomIn(lay, bs, f.fileAcl, key, value)
    }

    /** The set fails, but not without effect: see Spoiling. */
    ghost predicate Spoils(f: Holder, key: Key, value: Option<seq<byte>>, create: bool, replace: bool, quota: bool)
      reads this, f
    {
      Spoiling(lay, cache, bs, f.fileAcl, key, value, create, replace, quota)
    }

    /** The request is not refused for what is there. */
    ghost predicate Goes(f: Holder, key: Key, value: Option<seq<byte>>, create: bool, replace: bool)
      reads this, f
    {
      Refusal(AttrOf(f, key).Some?, value, create, replace).None?
    }

    method Uncache(ghost files: seq<Holder>, b: nat)
      requires Valid(files)
      modifies this`cache
      ensures Valid(files) && cache == old(cache) - {b}
    {
      hide WellFormed, Bytes, GoodHeader, Held, Canonical, SealOf;
      cache := cache - {b};
    }

    /** Edit the block in place; it has left the cache first. */
    method EditOwn(ghost files: seq<Holder>, b: nat, key: Key, value: Option<seq<byte>>,
                   here: nat, last: nat, minOffs: nat, notFound: bool, ghost p: nat)
      returns (empty: bool, ghost m: Layout)
      requires Valid(files) && b in blocks && b in lay && b !in cache && |lay[b].hdr| == HEADER && GoodKey(key)
      requires GoodEntries(lay[b].es)
      requires var l := lay[b];
               && Place(l.es, key, p, !notFound) && (notFound ==> value.Some?)
               && here == Off(l.es, p) && last == Off(l.es, |l.es|) && minOffs + |l.vals| == bs
               && Len(value) <= bs && EntryLen(|key.name|) + Round(Len(value)) <= Free(l, p, !notFound)
      modifies this`lay, blocks[b]
      ensures Valid(files) && lay == old(lay)[b := m]
      ensures WellFormed(m, bs) && blocks[b][..] == Bytes(m) && GoodHeader(m.hdr) && RefCount(m) == RefCount(old(lay)[b])
      ensures WellFormed(old(lay)[b], bs) && Updated(old(lay)[b], m, bs, key, value) && (empty <==> m.es == [])
      ensures Canonical(m, bs)
    {
      hide WellFormed, Bytes, Get32, Held, Count, Attr, GoodHeader, SameBody, Place, Off, EncAll, Free, Updated, Canonical, SealOf,
           Hashed, RefCount, EntryLen, Round, Len, GoodEntries;
      ghost var acls, charges, l := Acls(files), Charges(files), lay[b];
      BlockFacts(b);
      AllRight(l, bs);
      empty, m := Edit(blocks[b], key, value, here, last, minOffs, notFound, l, p);
      HeaderRead(m, bs);
      HeldBody(lay, acls, charges, b, m);
      lay := lay[b := m];
      forall c | c in blocks
        ensures BlockOk(c)
      {
        assert c != b ==> old(BlockOk(c));
      }
      forall c | c in cache
        ensures CachedOk(c)
      {
        assert old(CachedOk(c));
      }
    }

    lemma OtherViews(files: seq<Holder>, k: nat, was: map<nat, Layout>, now: map<nat, Layout>, b: nat)
      requires Valid(files) && k < |files|
      requires was.Keys == now.Keys && (forall c :: c in was && c != b ==> now[c] == was[c] && WellFormed(was[c], bs))
      requires SameBodies(now, lay) && 0 !in was
      requires forall i :: 0 <= i < |files| && i != k ==> (b == 0 || files[i].fileAcl != b) && (files[i].fileAcl == 0 || files[i].fileAcl in was)
      ensures forall i, other: Key :: 0 <= i < |files| && i != k ==> AttrOf(files[i], other) == View(was, bs, files[i].fileAcl, other)
    {
      hide WellFormed, Bytes, Attr, SameBody, Held, GoodHeader;
      forall i | 0 <= i < |files| && i != k
        ensures forall other: Key :: AttrOf(files[i], other) == View(was, bs, files[i].fileAcl, other)
      {
        var a := files[i].fileAcl;
        Pointed(files, i);
        if a != 0 {
          InLay();
          BlockFacts(a);
        } else {
          NoBlockZero();
        }
        ViewKept(was, lay, bs, a);
      }
    }

    lemma NoBlockZero()
      requires Sound()
      ensures 0 !in lay
    {
      hide WellFormed, Bytes, GoodHeader;
    }

    lemma EmptyView(m: Layout)
      requires WellFormed(m, bs) && m.es == []
      ensures forall other: Key :: Attr(m, bs, other) == None
    {
    }

    /** Before the edit: nobody else points at the block. */
    lemma Alone(files: seq<Holder>, k: nat)
      requires Valid(files) && k < |files| && files[k].fileAcl in lay && |lay[files[k].fileAcl].hdr| == HEADER
      requires RefCount(lay[files[k].fileAcl]) == 1
      ensures forall i :: 0 <= i < |files| && i != k ==> files[i].fileAcl != files[k].fileAcl
      ensures forall i :: 0 <= i < |files| ==> files[i].fileAcl == 0 || files[i].fileAcl in lay
      ensures 0 !in lay && forall c :: c in lay ==> WellFormed(lay[c], bs)
    {
      hide WellFormed, Bytes, RefCount, Count, GoodHeader;
      var acls := Acls(files);
      var b := acls[k];
      assert RefsAre(lay[b], Count(acls, b));
      OnlyOne(acls, k);
      forall i | 0 <= i < |files|
        ensures files[i].fileAcl == 0 || files[i].fileAcl in lay
      {
        Pointed(files, i);
      }
      forall c | c in lay
        ensures WellFormed(lay[c], bs)
      {
        BlockFacts(c);
      }
    }

    /** The edited block is given up if it is empty now, else installed. */
    method SettleOwn(ghost files: seq<Holder>, ghost k: nat, f: Holder, empty: bool, ghost m: Layout,
                     grant: nat, quota: bool, memory: bool)
      returns (err: Status)
      requires Valid(files) && k < |files| && files[k] == f && f.fileAcl in blocks && f.fileAcl in lay && f.fileAcl !in cache
      requires lay[f.fileAcl] == m && WellFormed(m, bs) && GoodHeader(m.hdr) && RefCount(m) == 1 && (empty <==> m.es == [])
      requires Canonical(m, bs)
      modifies this, blocks.Values, f
      ensures forall c :: c in blocks ==> blocks[c] in old(blocks.Values) || fresh(blocks[c])
      ensures blocks.Keys <= old(blocks.Keys) + {grant}
      ensures Valid(files) && SameBodies(old(lay), lay)
      ensures forall other: Key :: AttrOf(f, other) == Attr(m, bs, other)
      ensures err == if Copied(old(lay), old(cache), bs, m) && !quota then EDQUOT else OK
      ensures CacheKept(old(cache), err, f, 0)
    {
      hide WellFormed, Bytes, Get32, Held, Count, Attr, GoodHeader, SameBody, Sound, RefCount, SameBodies, View, Copied, Canonical;
      BlockFacts(f.fileAcl);
      OwnBlock(f, m);
      if empty {
        NoCopies(m);
        AnyInode(files, k);
        MoveTo(files, k, f, 0);
        err := OK;
        EmptyView(m);
        NoBlockView(f);
      } else {
        Reads(m, bs);
        err := Install(files, k, f, blocks[f.fileAcl], true, m, grant, quota, memory);
      }
    }

    /** The other cached blocks in use stay in the cache, and an installed block is there, too. */
    ghost predicate CacheKept(was: map<nat, nat>, err: Status, f: Holder, own: nat)
      reads this, f
    {
      && (forall c :: c in was && c in blocks && c != own ==> c in cache)
      && (err == OK && f.fileAcl != 0 ==> f.fileAcl in cache)
    }

    lemma KeptBut(was: map<nat, nat>, err: Status, f: Holder, own: nat)
      requires Sound() && CacheKept(was - {own}, err, f, 0)
      ensures CacheKept(was, err, f, own)
    {
      hide WellFormed, Bytes, GoodHeader, Canonical, SealOf;
    }

    lemma KeptAll(was: map<nat, nat>, err: Status, f: Holder, own: nat)
      requires Sound() && CacheKept(was, err, f, 0)
      ensures CacheKept(was, err, f, own)
    {
      hide WellFormed, Bytes, GoodHeader, Canonical, SealOf;
    }

    lemma KeptSame(f: Holder, own: nat)
      ensures forall err: Status :: err != OK ==> CacheKept(cache, err, f, own)
    {
    }

    lemma SpoilsWhen(f: Holder, key: Key, value: Option<seq<byte>>, create: bool, replace: bool, quota: bool)
      requires |key.name| <= 255 && Len(value) <= bs && f.fileAcl in lay && |lay[f.fileAcl].hdr| == HEADER
      ensures Spoils(f, key, value, create, replace, quota) <==>
              && !quota && RefCount(lay[f.fileAcl]) == 1 && Goes(f, key, value, create, replace) && RoomFor(f, key, value)
              && Twin(lay, cache, bs, f.fileAcl, key, value)
      ensures Goes(f, key, value, create, replace) <==> Refusal(AttrOf(f, key).Some?, value, create, replace).None?
    {
      hide RoomIn, Twin, Refusal, View, RefCount;
    }

    /** An empty block is not shared. */
    lemma NoCopies(m: Layout)
      requires Sound() && WellFormed(m, bs) && m.es == []
      ensures !Copied(lay, cache, bs, m)
    {
      hide WellFormed, Bytes, Get32, GoodHeader, Attr;
      forall c | CopyAt(lay, cache, bs, c, m)
        ensures false
      {
        assert CachedOk(c);
        EmptyView(m);
        NotEmpty(lay[c], bs);
      }
    }

    lemma NotEmpty(l: Layout, bs: nat)
      requires WellFormed(l, bs) && SealOf(l.es) != 0
      ensures exists key: Key :: Attr(l, bs, key) != None
    {
      hide Attr;
      AttrAt(l, bs, 0);
    }

    lemma OwnBlock(f: Holder, m: Layout)
      requires f.fileAcl in lay && lay[f.fileAcl] == m && WellFormed(m, bs)
      ensures forall other: Key :: AttrOf(f, other) == Attr(m, bs, other)
    {
      hide WellFormed, Attr;
    }

    lemma NoBlockView(f: Holder)
      requires Sound() && f.fileAcl == 0
      ensures forall other: Key :: AttrOf(f, other) == None
    {
      hide WellFormed, Bytes, Attr, GoodHeader;
    }

    lemma OwnView(f: Holder, was: map<nat, Layout>, b: nat, m: Layout, key: Key, value: Option<seq<byte>>)
      requires b in was && WellFormed(was[b], bs) && WellFormed(m, bs) && Updated(was[b], m, bs, key, value)
      requires forall other: Key :: AttrOf(f, other) == Attr(m, bs, other)
      ensures forall other: Key :: AttrOf(f, other) == if other == key then value else View(was, bs, b, other)
    {
      hide WellFormed, Attr;
    }

    /** Change an attribute in a block that no other inode uses. */
    method ChangeOwn(ghost files: seq<Holder>, ghost k: nat, f: Holder, key: Key, value: Option<seq<byte>>,
                     here: nat, last: nat, minOffs: nat, notFound: bool, ghost p: nat,
                     grant: nat, quota: bool, memory: bool)
      returns (err: Status)
      requires Valid(files) && k < |files| && files[k] == f && f.fileAcl in blocks && f.fileAcl in lay
      requires |lay[f.fileAcl].hdr| == HEADER && RefCount(lay[f.fileAcl]) == 1 && GoodKey(key)
      requires GoodEntries(lay[f.fileAcl].es)
      requires var l := lay[f.fileAcl];
               && Place(l.es, key, p, !notFound) && (notFound ==> value.Some?)
               && here == Off(l.es, p) && last == Off(l.es, |l.es|) && minOffs + |l.vals| == bs
               && Len(value) <= bs && EntryLen(|key.name|) + Round(Len(value)) <= Free(l, p, !notFound)
      modifies this, blocks.Values, f
      ensures forall c :: c in blocks ==> blocks[c] in old(blocks.Values) || fresh(blocks[c])
      ensures blocks.Keys <= old(blocks.Keys) + {grant}
      ensures Valid(files)
      ensures forall other: Key :: AttrOf(f, other) == if other == key then value else old(AttrOf(f, other))
      ensures forall g, other: Key :: g in files && g != f ==> AttrOf(g, other) == old(AttrOf(g, other))
      ensures err == if Twin(old(lay), old(cache), bs, old(f.fileAcl), key, value) && !quota then EDQUOT else OK
      ensures CacheKept(old(cache), err, f, old(f.fileAcl))
    {
      hide WellFormed, Bytes, Get32, Held, Count, Attr, GoodHeader, SameBody, Place, Off, EncAll, Free, Sound, RefCount, SameBodies,
           View, Updated, Copied, Twin, Canonical, CacheKept;
      var b := f.fileAcl;
      ghost var was := lay;
      Alone(files, k);
      Uncache(files, b);
      var empty;
      ghost var m;
      empty, m := EditOwn(files, b, key, value, here, last, minOffs, notFound, p);
      ghost var now := lay;
      err := SettleOwn(files, k, f, empty, m, grant, quota, memory);
      OtherViews(files, k, was, now, b);
      OwnView(f, was, b, m, key, value);
      TwinIsCopy(was, old(cache), bs, b, m, key, value);
      KeptBut(old(cache), err, f, b);
    }

    /** A private copy of a block, to be changed. */
    method Clone(b: nat) returns (buffer: array<byte>, ghost l: Layout)
      requires Sound() && b in blocks && b in lay
      ensures fresh(buffer) && buffer.Length == bs && WellFormed(l, bs) && buffer[..] == Bytes(l)
      ensures GoodHeader(l.hdr) && RefCount(l) == 1 && SameBody(lay[b], l) && WellFormed(lay[b], bs) && Canonical(l, bs)
    {
      hide WellFormed, Bytes, Get32, GoodHeader, Over, Canonical;
      BlockFacts(b);
      CountWritten(lay[b], bs, 1);
      buffer := CopyOf(blocks[b]);
      MemCopy(buffer, 4, LE32(1));
      l := lay[b].(hdr := Over(lay[b].hdr, 4, LE32(1)));
      SameBodyHashes(lay[b], l, bs);
      Reads(l, bs);
    }

    /** A buffer with an empty attribute block. */
    method Fresh() returns (buffer: array<byte>, ghost l: Layout)
      requires bs % 4 == 0 && 64 <= bs <= 0x10000
      ensures fresh(buffer) && buffer.Length == bs && WellFormed(l, bs) && buffer[..] == Bytes(l)
      ensures GoodHeader(l.hdr) && RefCount(l) == 1 && l.es == [] && l.vals == [] && l.gap == bs - HEADER
    {
      hide WellFormed, Bytes, Get32, Over, Zeros, EmptyLayout;
      buffer := new byte[bs](_ => 0);
      EmptyBlock(bs);
      l := EmptyLayout(bs);
      ZerosAre(buffer[..]);
      MemCopy(buffer, 0, LE32(MAGIC));
      MemCopy(buffer, 8, LE32(1));
      MemCopy(buffer, 4, LE32(1));
    }

    /** Change an attribute in a private copy and install that. */
    method ChangeCopy(ghost files: seq<Holder>, ghost k: nat, f: Holder, buffer: array<byte>, key: Key, value: Option<seq<byte>>,
                      here: nat, last: nat, minOffs: nat, notFound: bool, ghost l: Layout, ghost p: nat,
                      grant: nat, quota: bool, memory: bool)
      returns (err: Status)
      requires Valid(files) && k < |files| && files[k] == f && (f.fileAcl == 0 || f.fileAcl in blocks)
      requires buffer !in blocks.Values && buffer.Length == bs && WellFormed(l, bs) && buffer[..] == Bytes(l)
      requires GoodHeader(l.hdr) && RefCount(l) == 1 && GoodKey(key) && Canonical(l, bs)
      requires forall other: Key :: AttrOf(f, other) == Attr(l, bs, other)
      requires && Place(l.es, key, p, !notFound) && (notFound ==> value.Some?)
               && here == Off(l.es, p) && last == Off(l.es, |l.es|) && minOffs == bs - |l.vals|
               && Len(value) <= bs && EntryLen(|key.name|) + Round(Len(value)) <= Free(l, p, !notFound)
      modifies this, blocks.Values, f, buffer
      ensures forall c :: c in blocks ==> blocks[c] in old(blocks.Values) || fresh(blocks[c])
      ensures blocks.Keys <= old(blocks.Keys) + {grant}
      ensures Valid(files)
      ensures err == OK ==> forall other: Key :: AttrOf(f, other) == if other == key then value else old(AttrOf(f, other))
      ensures err != OK ==> forall other: Key :: AttrOf(f, other) == old(AttrOf(f, other))
      ensures forall g, other: Key :: g in files && g != f ==> AttrOf(g, other) == old(AttrOf(g, other))
      ensures Fares(err, None, true, grant == 0 || grant in old(blocks), quota, memory)
      ensures CacheKept(old(cache), err, f, 0)
    {
      hide WellFormed, Bytes, Get32, Held, Count, Attr, GoodHeader, SameBody, Canonical, Copied, Place, Off, EncAll, Free,
           Sound, RefCount, SameBodies, View, Updated;
      ghost var was := lay;
      AllGood(files);
      var empty;
      ghost var m;
      empty, m := EditCopy(files, buffer, key, value, here, last, minOffs, notFound, l, p);
      err := SettleCopy(files, k, f, buffer, empty, m, grant, quota, memory);
      OtherViews(files, k, was, was, 0);
      if err == OK {
        UpdatedView(f, l, m, key, value);
      }
    }

    lemma UpdatedView(f: Holder, l: Layout, m: Layout, key: Key, value: Option<seq<byte>>)
      requires WellFormed(l, bs) && WellFormed(m, bs) && Updated(l, m, bs, key, value)
      requires forall other: Key :: AttrOf(f, other) == Attr(m, bs, other)
      ensures forall other: Key :: AttrOf(f, other) == if other == key then value else Attr(l, bs, other)
    {
      hide WellFormed, Attr;
    }

    lemma AllGood(files: seq<Holder>)
      requires Valid(files)
      ensures forall i :: 0 <= i < |files| ==> files[i].fileAcl == 0 || files[i].fileAcl in lay
      ensures 0 !in lay && (forall c :: c in lay ==> WellFormed(lay[c], bs)) && SameBodies(lay, lay)
    {
      hide WellFormed, Bytes, RefCount, Count, GoodHeader;
      forall i | 0 <= i < |files|
        ensures files[i].fileAcl == 0 || files[i].fileAcl in lay
      {
        Pointed(files, i);
      }
    }

    method EditCopy(ghost files: seq<Holder>, buffer: array<byte>, key: Key, value: Option<seq<byte>>,
                    here: nat, last: nat, minOffs: nat, notFound: bool, ghost l: Layout, ghost p: nat)
      returns (empty: bool, ghost m: Layout)
      requires Valid(files) && buffer !in blocks.Values && buffer.Length == bs && WellFormed(l, bs) && buffer[..] == Bytes(l)
      requires GoodHeader(l.hdr) && RefCount(l) == 1 && GoodKey(key) && Canonical(l, bs)
      requires && Place(l.es, key, p, !notFound) && (notFound ==> value.Some?)
               && here == Off(l.es, p) && last == Off(l.es, |l.es|) && minOffs == bs - |l.vals|
               && Len(value) <= bs && EntryLen(|key.name|) + Round(Len(value)) <= Free(l, p, !notFound)
      modifies buffer
      ensures Valid(files) && WellFormed(m, bs) && buffer[..] == Bytes(m) && GoodHeader(m.hdr) && RefCount(m) == 1
      ensures Updated(l, m, bs, key, value) && (empty <==> m.es == []) && Canonical(m, bs)
    {
      hide WellFormed, Bytes, Get32, Held, Count, Attr, GoodHeader, SameBody, Place, Off, EncAll, Free, RefCount, Updated, Canonical;
      AllRight(l, bs);
      empty, m := Edit(buffer, key, value, here, last, minOffs, notFound, l, p);
    }

    method SettleCopy(ghost files: seq<Holder>, ghost k: nat, f: Holder, buffer: array<byte>, empty: bool, ghost m: Layout,
                      grant: nat, quota: bool, memory: bool)
      returns (err: Status)
      requires Valid(files) && k < |files| && files[k] == f && (f.fileAcl == 0 || f.fileAcl in blocks)
      requires buffer !in blocks.Values && buffer.Length == bs && WellFormed(m, bs) && buffer[..] == Bytes(m)
      requires GoodHeader(m.hdr) && RefCount(m) == 1 && (empty <==> m.es == []) && Canonical(m, bs)
      modifies this, blocks.Values, f
      ensures forall c :: c in blocks ==> blocks[c] in old(blocks.Values) || fresh(blocks[c])
      ensures blocks.Keys <= old(blocks.Keys) + {grant}
      ensures Valid(files) && SameBodies(old(lay), lay)
      ensures err == OK ==> forall other: Key :: AttrOf(f, other) == Attr(m, bs, other)
      ensures err != OK ==> forall other: Key :: AttrOf(f, other) == old(AttrOf(f, other))
      ensures Fares(err, None, true, grant == 0 || grant in old(blocks), quota, memory)
      ensures CacheKept(old(cache), err, f, 0)
    {
      hide WellFormed, Bytes, Get32, Held, Count, Attr, GoodHeader, SameBody, Canonical, Copied, Sound, RefCount, SameBodies, View;
      if empty {
        err := OK;
        EmptyView(m);
        AllGood(files);
        AnyInode(files, k);
        MoveTo(files, k, f, 0);
        NoBlockView(f);
      } else {
        Reads(m, bs);
        err := Install(files, k, f, buffer, false, m, grant, quota, memory);
      }
    }

    // ---------- ext2_xattr_set ----------

    /** Search the inode's block for the key. */
    method Find(b: nat, key: Key) returns (bad: bool, here: nat, last: nat, minOffs: nat, notFound: bool, ghost p: nat)
      requires Sound() && b in blocks && b in lay
      ensures !bad && |lay[b].hdr| == HEADER && WellFormed(lay[b], bs) && GoodEntries(lay[b].es)
      ensures Place(lay[b].es, key, p, !notFound)
      ensures here == Off(lay[b].es, p) && last == Off(lay[b].es, |lay[b].es|)
      ensures minOffs + |lay[b].vals| == bs && last + lay[b].gap == minOffs && lay[b].gap >= 4
    {
      hide WellFormed, Bytes, Get32, GoodHeader, Place, Off, Holds, Walks, IsLast;
      BlockFacts(b);
      Reads(lay[b], bs);
      var header := blocks[b];
      ghost var l := lay[b];
      bad, here, last, minOffs, notFound, p := false, 0, 0, 0, true, 0;
      if Get32(header[..], 0) != MAGIC || Get32(header[..], 8) != 1 {
        HeaderGood(l.hdr);
        assert false;
      }
      GoodBlock(header[..], l);
      var lowest, cmp;
      bad, here, lowest, cmp, p := SearchKey(header, key, l, true);
      notFound := cmp != 0;
      bad, last, minOffs := SearchEnd(header, here, lowest, l, true, p);
    }

    lemma HeaderGood(hdr: seq<byte>)
      requires GoodHeader(hdr)
      ensures |hdr| == HEADER && Get32(hdr, 0) == MAGIC && Get32(hdr, 8) == 1
    {
    }

    lemma GoodBlock(s: seq<byte>, l: Layout)
      requires WellFormed(l, |s|) && GoodEntries(l.es) && s == Bytes(l)
      ensures Holds(s, true, l) && |s| % 4 == 0 && |s| >= HEADER + 4
    {
    }

    lemma FoundView(f: Holder, key: Key, value: Option<seq<byte>>, p: nat, notFound: bool)
      requires f.fileAcl in lay && WellFormed(lay[f.fileAcl], bs) && Place(lay[f.fileAcl].es, key, p, !notFound)
      requires notFound ==> value.Some?
      ensures AttrOf(f, key).Some? <==> !notFound
      ensures RoomFor(f, key, value) <==> EntryLen(|key.name|) + Round(Len(value)) <= Free(lay[f.fileAcl], p, !notFound)
    {
      hide WellFormed, Place, Attr, Free, EncAll, Room;
      var l := lay[f.fileAcl];
      AttrPlace(l, bs, key, p, !notFound);
      PlaceIndex(l, bs, key, p, !notFound);
      CheckIsExact(l, bs, p, !notFound, key, value);
    }

    lemma PlaceIndex(l: Layout, bs: nat, key: Key, p: nat, found: bool)
      requires WellFormed(l, bs) && Place(l.es, key, p, found)
      ensures Index(l.es, key) < |l.es| <==> found
      ensures found ==> Index(l.es, key) == p
    {
      hide EncAll, Packed, Room;
      if found {
        DistinctKeys(l.es, Index(l.es, key), p);
      }
    }

    lemma OwnInUse(files: seq<Holder>, k: nat)
      requires Valid(files) && k < |files|
      ensures files[k].fileAcl == 0 || (files[k].fileAcl in blocks && files[k].fileAcl in lay)
    {
      hide WellFormed, Bytes, GoodHeader;
      Pointed(files, k);
    }

    lemma NoBlockRoom(f: Holder, key: Key, value: Option<seq<byte>>)
      requires Sound() && f.fileAcl == 0
      ensures RoomFor(f, key, value) <==> HEADER + 4 + EntryLen(|key.name|) + Round(Len(value)) <= bs
      ensures bs % 4 == 0 && 64 <= bs <= 0x10000
    {
      hide WellFormed, Bytes, GoodHeader;
    }

    lemma NewPlace(l: Layout, key: Key)
      requires l.es == []
      ensures Place(l.es, key, 0, false) && Off(l.es, 0) == HEADER && Free(l, 0, false) == l.gap - 4
    {
      EncNone();
    }

    lemma PresentView(f: Holder, key: Key, p: nat, notFound: bool)
      requires f.fileAcl in lay && WellFormed(lay[f.fileAcl], bs) && Place(lay[f.fileAcl].es, key, p, !notFound)
      ensures AttrOf(f, key).Some? <==> !notFound
      ensures notFound ==> AttrOf(f, key) == None
    {
      hide WellFormed, Place, Attr;
      AttrPlace(lay[f.fileAcl], bs, key, p, !notFound);
    }

    lemma CloneView(f: Holder, l: Layout)
      requires f.fileAcl in lay && WellFormed(lay[f.fileAcl], bs) && WellFormed(l, bs) && SameBody(lay[f.fileAcl], l)
      ensures l.es == lay[f.fileAcl].es && l.gap == lay[f.fileAcl].gap && l.vals == lay[f.fileAcl].vals
      ensures forall other: Key :: AttrOf(f, other) == Attr(l, bs, other)
    {
      hide WellFormed, Attr;
      SameBodyAttr(lay[f.fileAcl], l, bs);
    }

    /** The size of the old value. */
    method OldSize(b: nat, here: nat, ghost p: nat) returns (size: nat)
      requires Sound() && b in blocks && b in lay && GoodEntries(lay[b].es) && p < |lay[b].es| && here == Off(lay[b].es, p)
      ensures size == lay[b].es[p].size
    {
      hide WellFormed, Bytes, Get32, Get16, GoodHeader, Off;
      BlockFacts(b);
      EntryRead(lay[b], bs, p);
      var header := blocks[b];
      size := Get32(header[..], here + 8);
      if Get32(header[..], here + 4) == 0 && size > 0 {
        if Get16(header[..], here + 2) + size > bs || size > bs {
          assert false; // a bad block
        }
      }
    }

    /** ext2_xattr_set: create, replace or (for None) remove an attribute. A
        request that fails changes nothing just if it does not spoil: if it does,
        the inode's own block is edited in place, then found to equal another
        one, and the quota gives out, with the change made all the same. */
    method Set(ghost files: seq<Holder>, ghost k: nat, f: Holder, key: Key, value: Option<seq<byte>>, create: bool, replace: bool,
               grant: nat, quota: bool, memory: bool)
      returns (err: Status, ghost done: bool)
      requires Valid(files) && k < |files| && files[k] == f && key.index > 0
      modifies this, blocks.Values, f
      ensures forall c :: c in blocks ==> blocks[c] in old(blocks.Values) || fresh(blocks[c])
      ensures blocks.Keys <= old(blocks.Keys) + {grant}
      ensures Valid(files)
      ensures done ==> forall other: Key :: AttrOf(f, other) == if other == key then value else old(AttrOf(f, other))
      ensures !done ==> forall other: Key :: AttrOf(f, other) == old(AttrOf(f, other))
      ensures forall g, other: Key :: g in files && g != f ==> AttrOf(g, other) == old(AttrOf(g, other))
      ensures (err == OK ==> done) && (err != OK && done <==> old(Spoils(f, key, value, create, replace, quota)))
      ensures err != OK && done ==> err == EDQUOT
      ensures err != OK ==> ((forall other: Key :: AttrOf(f, other) == old(AttrOf(f, other))) <==>
                             !old(Spoils(f, key, value, create, replace, quota)) || old(AttrOf(f, key)) == value)
      ensures err == ERANGE <==> |key.name| > 255 || Len(value) > bs
      ensures err != ERANGE ==>
                Fares(err, Refusal(old(AttrOf(f, key)).Some?, value, create, replace), old(RoomFor(f, key, value)),
                      grant == 0 || grant in old(blocks), quota, memory)
      ensures old(Goes(f, key, value, create, replace)) ==> CacheKept(old(cache), err, f, old(f.fileAcl))
    {
      hide WellFormed, Bytes, Get32, Held, Count, Attr, GoodHeader, SameBody, Place, Off, EncAll, Free, Sound, RefCount, View, RoomIn,
           Canonical, Twin;
      done := false;
      if |key.name| > 255 || Len(value) > bs {
        return ERANGE, false;
      }
      AllGood(files);
      OwnInUse(files, k);
      if f.fileAcl != 0 {
        err, done := SetExisting(files, k, f, key, value, create, replace, grant, quota, memory);
      } else {
        NoBlockView(f);
        NoBlockRoom(f, key, value);
        if replace {
          return ENODATA, false;
        }
        if value.None? {
          return OK, true;
        }
        if bs - HEADER - 4 < EntryLen(|key.name|) + Round(Len(value)) {
          return ENOSPC, false;
        }
        if !memory {
          return ENOMEM, false;
        }
        var buffer;
        ghost var l;
        buffer, l := Fresh();
        EmptyView(l);
        NoHashes(l, bs);
        NewPlace(l, key);
        err := ChangeCopy(files, k, f, buffer, key, value, HEADER, HEADER, bs, true, l, 0, grant, quota, memory);
        done := err == OK;
      }
    }

    /** The same for an inode that has an attribute block. */
    method SetExisting(ghost files: seq<Holder>, ghost k: nat, f: Holder, key: Key, value: Option<seq<byte>>, create: bool,
                       replace: bool, grant: nat, quota: bool, memory: bool)
      returns (err: Status, ghost done: bool)
      requires Valid(files) && k < |files| && files[k] == f && GoodKey(key) && Len(value) <= bs
      requires f.fileAcl in blocks && f.fileAcl in lay
      modifies this, blocks.Values, f
      ensures forall c :: c in blocks ==> blocks[c] in old(blocks.Values) || fresh(blocks[c])
      ensures blocks.Keys <= old(blocks.Keys) + {grant}
      ensures Valid(files)
      ensures done ==> forall other: Key :: AttrOf(f, other) == if other == key then value else old(AttrOf(f, other))
      ensures !done ==> forall other: Key :: AttrOf(f, other) == old(AttrOf(f, other))
      ensures forall g, other: Key :: g in files && g != f ==> AttrOf(g, other) == old(AttrOf(g, other))
      ensures (err == OK ==> done) && (err != OK && done <==> old(Spoils(f, key, value, create, replace, quota)))
      ensures err != OK && done ==> err == EDQUOT
      ensures err != ERANGE &&
              Fares(err, Refusal(old(AttrOf(f, key)).Some?, value, create, replace), old(RoomFor(f, key, value)),
                    grant == 0 || grant in old(blocks), quota, memory)
      ensures old(Goes(f, key, value, create, replace)) ==> CacheKept(old(cache), err, f, old(f.fileAcl))
    {
      hide WellFormed, Bytes, Get32, Held, Count, Attr, GoodHeader, SameBody, Place, Off, EncAll, Sound, RefCount, View, RoomIn, Room,
           Canonical, Twin, Spoiling, Store.Goes, Store.CacheKept;
      done := false;
      var b := f.fileAcl;
      var bad, here, last, minOffs, notFound;
      ghost var p;
      bad, here, last, minOffs, notFound, p := Find(b, key);
      BlockFacts(b);
      PlaceKey(lay[b].es, key, p, !notFound);
      PresentView(f, key, p, notFound);
      SpoilsWhen(f, key, value, create, replace, quota);
      KeptSame(f, b);
      if notFound {
        if replace {
          return ENODATA, false;
        }
        if value.None? {
          return OK, true;
        }
      } else if create {
        return EEXIST, false;
      }
      FoundView(f, key, value, p, notFound);
      var free := minOffs - last - 4;
      if !notFound {
        var size := OldSize(b, here, p);
        free := free + Round(size) + EntryLen(|key.name|);
      }
      if free < EntryLen(|key.name|) + Round(Len(value)) {
        return ENOSPC, false;
      }
      err, done := Change(files, k, f, key, value, here, last, minOffs, notFound, p, grant, quota, memory);
    }

    /** Change an attribute: in place if no other inode uses the block, else in a copy. */
    method Change(ghost files: seq<Holder>, ghost k: nat, f: Holder, key: Key, value: Option<seq<byte>>,
                  here: nat, last: nat, minOffs: nat, notFound: bool, ghost p: nat,
                  grant: nat, quota: bool, memory: bool)
      returns (err: Status, ghost done: bool)
      requires Valid(files) && k < |files| && files[k] == f && f.fileAcl in blocks && f.fileAcl in lay
      requires |lay[f.fileAcl].hdr| == HEADER && GoodKey(key) && GoodEntries(lay[f.fileAcl].es)
      requires var l := lay[f.fileAcl];
               && Place(l.es, key, p, !notFound) && (notFound ==> value.Some?)
               && here == Off(l.es, p) && last == Off(l.es, |l.es|) && minOffs + |l.vals| == bs
               && Len(value) <= bs && EntryLen(|key.name|) + Round(Len(value)) <= Free(l, p, !notFound)
      modifies this, blocks.Values, f
      ensures forall c :: c in blocks ==> blocks[c] in old(blocks.Values) || fresh(blocks[c])
      ensures blocks.Keys <= old(blocks.Keys) + {grant}
      ensures Valid(files)
      ensures done ==> forall other: Key :: AttrOf(f, other) == if other == key then value else old(AttrOf(f, other))
      ensures !done ==> forall other: Key :: AttrOf(f, other) == old(AttrOf(f, other))
      ensures forall g, other: Key :: g in files && g != f ==> AttrOf(g, other) == old(AttrOf(g, other))
      ensures err == OK ==> done
      ensures err != OK && done <==>
              !quota && old(RefCount(lay[f.fileAcl])) == 1 && Twin(old(lay), old(cache), bs, old(f.fileAcl), key, value)
      ensures err != OK && done ==> err == EDQUOT
      ensures Fares(err, None, true, grant == 0 || grant in old(blocks), quota, memory)
      ensures CacheKept(old(cache), err, f, old(f.fileAcl))
    {
      hide WellFormed, Bytes, Get32, Held, Count, Attr, GoodHeader, SameBody, Place, Off, EncAll, Sound, RefCount, View, Room,
           Canonical, Twin, Store.CacheKept;
      var b := f.fileAcl;
      BlockFacts(b);
      if Get32(blocks[b][..], 4) == 1 {
        err := ChangeOwn(files, k, f, key, value, here, last, minOffs, notFound, p, grant, quota, memory);
        done := true;
      } else {
        if !memory {
          KeptSame(f, b);
          return ENOMEM, false;
        }
        var buffer;
        ghost var l;
        buffer, l := Clone(b);
        CloneView(f, l);
        err := ChangeCopy(files, k, f, buffer, key, value, here, last, minOffs, notFound, l, p, grant, quota, memory);
        KeptAll(old(cache), err, f, b);
        done := err == OK;
      }
    }

    /** ext2_xattr_delete_inode: give up the inode's block. */
    method DeleteInode(ghost files: seq<Holder>, ghost k: nat, f: Holder)
      requires Valid(files) && k < |files| && files[k] == f
      modifies this, blocks.Values, f
      ensures forall c :: c in blocks ==> blocks[c] in old(blocks.Values) || fresh(blocks[c])
      ensures blocks.Keys <= old(blocks.Keys)
      ensures Valid(files) && f.fileAcl == 0 && f.charge == 0
      ensures forall other: Key :: AttrOf(f, other) == None
      ensures forall g, other: Key :: g in files && g != f ==> AttrOf(g, other) == old(AttrOf(g, other))
      ensures old(f.fileAcl) != 0 ==> (old(f.fileAcl) in blocks <==> Count(Acls(files), old(f.fileAcl)) > 0)
    {
      hide WellFormed, Bytes, Get32, Count, GoodHeader, SameBody, Sound, RefCount, View, SameBodies, RefsAre;
      ghost var was := lay;
      AllGood(files);
      OwnInUse(files, k);
      AnyInode(files, k);
      MoveTo(files, k, f, 0);
      NoBlockView(f);
      OtherViews(files, k, was, was, 0);
      NoCharge(files, k);
    }

    lemma NoCharge(files: seq<Holder>, k: nat)
      requires Counted(files, 0, 0) && k < |files| && files[k].fileAcl == 0
      ensures files[k].charge == 0
    {
      hide Count;
      assert Acls(files)[k] == 0 && Charges(files)[k] == files[k].charge;
    }

    /** ext2_xattr_get */
    method Get(ghost files: seq<Holder>, ghost k: nat, f: Holder, key: Key, bufferSize: Option<nat>)
      returns (err: Status, size: nat, value: seq<byte>)
      requires Valid(files) && k < |files| && files[k] == f && key.index > 0
      ensures |key.name| > 255 ==> err == ERANGE
      ensures |key.name| <= 255 ==>
                match AttrOf(f, key)
                case None => err == ENODATA
                case Some(v) =>
                  if bufferSize.Some? && |v| > bufferSize.value then err == ERANGE
                  else err == OK && size == |v| && (bufferSize.Some? ==> value == v)
    {
      hide WellFormed, Bytes, Get32, Held, Count, GoodHeader, Sound, RefCount, Attr, Holds;
      if |key.name| > 255 {
        return ERANGE, 0, [];
      }
      OwnInUse(files, k);
      if f.fileAcl == 0 {
        NoBlockView(f);
        return ENODATA, 0, [];
      }
      var b := f.fileAcl;
      BlockFacts(b);
      Reads(lay[b], bs);
      if Get32(blocks[b][..], 0) != MAGIC || Get32(blocks[b][..], 8) != 1 {
        HeaderGood(lay[b].hdr);
        assert false;
      }
      GoodBlock(blocks[b][..], lay[b]);
      OwnBlock(f, lay[b]);
      err, size, value := GetValue(blocks[b], key, bufferSize, lay[b], true);
    }

    /** A new inode has no attributes. */
    method NewInode(files: seq<Holder>) returns (more: seq<Holder>)
      requires Valid(files)
      ensures |more| == |files| + 1 && more[..|files|] == files && fresh(more[|files|])
      ensures more[|files|].fileAcl == 0 && Valid(more) && forall other: Key :: AttrOf(more[|files|], other) == None
    {
      hide WellFormed, Bytes, GoodHeader, Count, RefsAre, View;
      var f := new Holder();
      more := files + [f];
      Appended(files, f);
      NoBlockView(f);
    }

    lemma Appended(files: seq<Holder>, f: Holder)
      requires Counted(files, 0, 0) && f !in files && f.fileAcl == 0 && f.charge == 0
      ensures Counted(files + [f], 0, 0)
    {
      hide RefsAre;
      var more := files + [f];
      assert Acls(more) == Acls(files) + [0] && Charges(more) == Charges(files) + [0];
      assert (Acls(files) + [0])[..|files|] == Acls(files);
      forall b | b in lay
        ensures Count(Acls(more), b) == Count(Acls(files), b)
      {
      }
    }
  }

  /** Blocks that stay in use keep all but their headers. */
  ghost predicate SameBodies(lay: map<nat, Layout>, lay': map<nat, Layout>) {
    forall b :: b in lay && b in lay' ==> SameBody(lay[b], lay'[b])
  }

  lemma BodiesSame(lay: map<nat, Layout>, lay': map<nat, Layout>, b: nat)
    requires lay' == lay || (b in lay' && lay' == lay[b := lay'[b]] && (b in lay ==> SameBody(lay[b], lay'[b])))
    ensures SameBodies(lay, lay') && lay.Keys <= lay'.Keys
  {
  }

  lemma BodiesTwice(lay: map<nat, Layout>, lay': map<nat, Layout>, lay'': map<nat, Layout>)
    requires SameBodies(lay, lay') && SameBodies(lay', lay'') && lay.Keys <= lay'.Keys
    ensures SameBodies(lay, lay'')
  {
    forall b | b in lay && b in lay''
      ensures SameBody(lay[b], lay''[b])
    {
      BodyTwice(lay[b], lay'[b], lay''[b]);
    }
  }

  lemma BodySame(m: Layout)
    ensures SameBody(m, m)
  {
  }

  lemma BodyTwice(l: Layout, m: Layout, n: Layout)
    requires SameBody(l, m) && SameBody(m, n)
    ensures SameBody(l, n)
  {
  }

  /** The header is at the front of the block. */
  lemma HeaderRead(l: Layout, bs: nat)
    requires WellFormed(l, bs)
    ensures |Bytes(l)| == bs && |l.hdr| == HEADER <= bs
    ensures forall at: nat :: at + 4 <= HEADER ==> Get32(Bytes(l), at) == Get32(l.hdr, at)
  {
    hide EncAll;
    EndAt(l, bs);
    forall i | 0 <= i < HEADER
      ensures Bytes(l)[i] == l.hdr[i]
    {
    }
  }

  // ---------- any run ----------

  datatype Op =
    | NewInode
    | Set(file: nat, key: Key, value: Option<seq<byte>>, create: bool, replace: bool, grant: nat, quota: bool, memory: bool)
    | Delete(file: nat)

  /** The reference: each inode's own map of attributes. */
  type Model = seq<map<Key, seq<byte>>>

  function Entry2(m: map<Key, seq<byte>>, key: Key): Option<seq<byte>> {
    if key in m then Some(m[key]) else None
  }

  /** What an operation that took effect means for the inodes' own maps. */
  function Apply(model: Model, op: Op): Model {
    match op
    case NewInode => model + [map[]]
    case Set(k, key, value, _, _, _, _, _) =>
      if k >= |model| then model
      else if value.Some? then model[k := model[k][key := value.value]]
      else model[k := model[k] - {key}]
    case Delete(k) => if k >= |model| then model else model[k := map[]]
  }

  /** Every inode sees through its block what its own map holds. */
  ghost predicate Agrees(store: Store, files: seq<Holder>, model: Model)
    reads store, files
  {
    |files| == |model| && forall i, key: Key :: 0 <= i < |files| ==> store.AttrOf(files[i], key) == Entry2(model[i], key)
  }

  /** What there is at one moment: the blocks, the cache, and every inode's block and charge. */
  datatype Moment = Moment(lay: map<nat, Layout>, cache: map<nat, nat>, acls: seq<nat>, charges: seq<int>)

  ghost function Now(store: Store, files: seq<Holder>): Moment
    reads store, files
  {
    Moment(store.lay, store.cache, Acls(files), Charges(files))
  }

  /** The operation is a set that fails, but not without effect. */
  ghost predicate Spoilt(s: Moment, bs: nat, op: Op) {
    && op.Set? && op.file < |s.acls| && op.key.index > 0
    && Spoiling(s.lay, s.cache, bs, s.acls[op.file], op.key, op.value, op.create, op.replace, op.quota)
  }

  /** At that moment the references are right, and inodes see what their own maps hold. */
  ghost predicate Seen(s: Moment, bs: nat, model: Model) {
    && |s.acls| == |model| && Held(s.lay, s.acls, s.charges, 0, 0)
    && forall i, key: Key :: 0 <= i < |model| ==> View(s.lay, bs, s.acls[i], key) == Entry2(model[i], key)
  }

  lemma SeenNow(store: Store, files: seq<Holder>, model: Model)
    requires store.Valid(files) && Agrees(store, files, model)
    ensures Seen(Now(store, files), store.bs, model)
  {
    hide WellFormed, Bytes, GoodHeader, Canonical, SealOf, View;
    forall i, key: Key | 0 <= i < |model|
      ensures View(store.lay, store.bs, Acls(files)[i], key) == Entry2(model[i], key)
    {
      assert store.AttrOf(files[i], key) == Entry2(model[i], key);
    }
  }

  /** One operation; `took` tells whether it took effect. */
  method Step(store: Store, files: seq<Holder>, op: Op, ghost model: Model)
    returns (next: seq<Holder>, err: Status, ghost took: bool)
    requires store.Valid(files) && Agrees(store, files, model)
    modifies store, store.blocks.Values, set f | f in files
    ensures store.Valid(next) && Agrees(store, next, if took then Apply(model, op) else model)
    ensures (err == OK ==> took) && (err != OK && took <==> old(Spoilt(Now(store, files), store.bs, op)))
    ensures err != OK && took ==> err == EDQUOT
    ensures forall f :: f in next ==> f in files || fresh(f)
    ensures forall c :: c in store.blocks ==> store.blocks[c] in old(store.blocks.Values) || fresh(store.blocks[c])
  {
    hide Store.Valid, Store.AttrOf, Store.RoomFor, Store.Goes, Fares, Refusal, Spoiling;
    next, err, took := files, OK, true;
    match op
    case NewInode =>
      next := store.NewInode(files);
    case Set(k, key, value, create, replace, grant, quota, memory) =>
      if k < |files| && key.index > 0 {
        err, took := store.Set(files, k, files[k], key, value, create, replace, grant, quota, memory);
        Distinct(store, files);
      } else {
        err, took := ENODATA, false;
      }
    case Delete(k) =>
      if k < |files| {
        store.DeleteInode(files, k, files[k]);
        Distinct(store, files);
      }
  }

  /** The inodes' own maps after the operations that took effect. */
  function Replay(ops: seq<Op>, took: seq<bool>): Model
    requires |took| == |ops|
  {
    if |ops| == 0 then []
    else
      var model := Replay(ops[..|ops| - 1], took[..|ops| - 1]);
      if took[|ops| - 1] then Apply(model, ops[|ops| - 1]) else model
  }

  lemma Distinct(store: Store, files: seq<Holder>)
    requires store.Valid(files)
    ensures forall i, j :: 0 <= i < j < |files| ==> files[i] != files[j]
  {
    hide WellFormed, Bytes, GoodHeader, Held;
  }

  /** Sharing cannot be seen: after any run on any inodes each inode's attributes
      are those of a map of its own, to which just the operations that took
      effect were applied. Those are the ones that succeeded and the ones that
      failed at a moment at which a failing set has its effect. */
  method RunOps(store: Store, ops: seq<Op>)
    returns (files: seq<Holder>, errs: seq<Status>, ghost took: seq<bool>, ghost past: seq<Moment>)
    requires store.Valid([])
    modifies store, store.blocks.Values
    ensures |errs| == |took| == |past| == |ops| && History(ops, errs, took, past, store.bs)
    ensures store.Valid(files) && Agrees(store, files, Replay(ops, took))
  {
    hide Store.Valid, Store.AttrOf, Seen, Spoilt, History;
    files, errs, took, past := [], [], [], [];
    NoHistory(ops, store.bs);
    for i := 0 to |ops|
      invariant |errs| == |took| == |past| == i
      invariant store.Valid(files) && Agrees(store, files, Replay(ops[..i], took))
      invariant History(ops, errs, took, past, store.bs)
      invariant forall f :: f in files ==> fresh(f)
      invariant forall b :: b in store.blocks.Values ==> b in old(store.blocks.Values) || fresh(b)
    {
      var err;
      ghost var effect, model, now := false, Replay(ops[..i], took), Now(store, files);
      SeenNow(store, files, model);
      files, err, effect := Step(store, files, ops[i], model);
      HistoryMore(ops, errs, took, past, store.bs, err, effect, now);
      assert ops[..i + 1][..i] == ops[..i] && (took + [effect])[..i] == took;
      errs, took, past := errs + [err], took + [effect], past + [now];
    }
    assert ops[..|ops|] == ops;
  }

  /** At every moment inodes see what their own maps hold, and an operation takes
      effect just if it succeeds or is a set that fails with EDQUOT and spoils. */
  ghost predicate History(ops: seq<Op>, errs: seq<Status>, took: seq<bool>, past: seq<Moment>, bs: nat) {
    && |errs| == |took| == |past| <= |ops|
    && (forall i :: 0 <= i < |past| ==> Seen(past[i], bs, Replay(ops[..i], took[..i])))
    && (forall i :: 0 <= i < |past| ==> (took[i] <==> errs[i] == OK || Spoilt(past[i], bs, ops[i])))
    && (forall i :: 0 <= i < |past| ==> (Spoilt(past[i], bs, ops[i]) ==> errs[i] == EDQUOT))
  }

  lemma NoHistory(ops: seq<Op>, bs: nat)
    ensures History(ops, [], [], [], bs)
  {
  }

  lemma HistoryMore(ops: seq<Op>, errs: seq<Status>, took: seq<bool>, past: seq<Moment>, bs: nat,
                    err: Status, effect: bool, now: Moment)
    requires History(ops, errs, took, past, bs) && |past| < |ops| && Seen(now, bs, Replay(ops[..|past|], took))
    requires (err == OK ==> effect) && (err != OK && effect <==> Spoilt(now, bs, ops[|past|]))
    requires err != OK && effect ==> err == EDQUOT
    ensures History(ops, errs + [err], took + [effect], past + [now], bs)
  {
    hide Spoilt, Seen, Replay;
    var all := took + [effect];
    forall i | 0 <= i < |past| + 1
      ensures Seen((past + [now])[i], bs, Replay(ops[..i], all[..i]))
    {
      assert all[..i] == took[..i];
      assert took[..|took|] == took;
    }
  }
}
