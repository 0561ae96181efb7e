/**
 A run from an empty store in which setting an attribute fails, and yet changes it.
 */
module XattrSpoil {
  import opened HashMix
  import opened XattrBlock
  import opened XattrEdit
  import opened XattrHash
  import opened XattrLayout
  import opened XattrSet
  import opened XattrShare

  const X := Key(1, [120])
  const Y := Key(1, [121])

  /** A block with one attribute, which is empty. */
  lemma OneAttr(l: Layout, bs: nat, key: Key)
    requires WellFormed(l, bs) && Hashed(l, bs, None)
    requires forall other: Key :: Attr(l, bs, other) == if other == key then Some([]) else None
    ensures |l.es| == 1 && l.es[0].key == key && l.es[0].size == 0 && l.es[0].hash == KeyHash(key, [])
  {
    hide EncAll, Compare, Packed, Room, Attr, Hashed, KeyHash;
    AttrIndex(l, bs, key);
    AttrAt(l, bs, 0);
    ValueSize(l, bs, 0);
    HashAt(l, bs, 0);
    if |l.es| > 1 {
      AttrAt(l, bs, 1);
      DistinctKeys(l.es, 0, 1);
    }
  }

  /** The hash of the block that holds just X. */
  lemma SealOfX(es: seq<Entry>)
    requires GoodEntries(es) && |es| == 1 && es[0].hash == KeyHash(X, [])
    ensures SealOf(es) != 0
  {
    hide HashWords, HashName, Mix;
    PaddedLength([]);
    NoWords(HashName([120]));
    HashNameMore([120], 0, 0);
    HashNothing([120], 0, 0);
    assert [120][0..1] == [120];
    MixedMore(es, 0);
    NoneMixed(es);
    assert es[..1] == es;
    MixX();
  }

  lemma MixX()
    ensures Mix(0, 5, Signed(120)) == 120 && Mix(0, 16, 120) == 120
  {
    MixNothing(5, Signed(120));
    MixNothing(16, 120);
  }

  lemma RoomForX(lay: map<nat, Layout>, bs: nat, acl: nat)
    requires acl in lay && WellFormed(lay[acl], bs) && Hashed(lay[acl], bs, None) && bs >= 1024
    requires forall other: Key :: Attr(lay[acl], bs, other) == if other == Y then Some([]) else None
    ensures RoomIn(lay, bs, acl, X, Some([]))
  {
    hide Attr, WellFormed, Hashed, KeyHash;
    var es := lay[acl].es;
    OneAttr(lay[acl], bs, Y);
    Reads(lay[acl], bs);
    EncAllAt(es, 0);
    EncNone();
    EncLength(es[0]);
    assert es[..0] == [] && es[1..] == [];
    assert Room(es) == Room(es[..0]) + Round(0);
  }

  lemma RoomToRemove(lay: map<nat, Layout>, bs: nat, acl: nat, key: Key)
    requires acl in lay && WellFormed(lay[acl], bs)
    ensures RoomIn(lay, bs, acl, key, None)
  {
    hide EncAll, Packed, Sorted, Room;
  }

  /** What the inode sees is one empty attribute, `key`. */
  ghost predicate Only(store: Store, f: Holder, key: Key)
    reads store, f
  {
    forall other: Key :: store.AttrOf(f, other) == if other == key then Some([]) else None
  }

  lemma BlockOf(store: Store, files: seq<Holder>, k: nat, key: Key)
    requires store.Valid(files) && k < |files| && store.AttrOf(files[k], key).Some?
    ensures var b, lay := files[k].fileAcl, store.lay;
            && b != 0 && b in store.blocks && b in lay && WellFormed(lay[b], store.bs) && Canonical(lay[b], store.bs)
            && |lay[b].hdr| == HEADER && RefsAre(lay[b], Count(Acls(files), b))
            && (forall other: Key :: store.AttrOf(files[k], other) == Attr(lay[b], store.bs, other))
            && (b in store.cache ==> store.cache[b] == SealOf(lay[b].es))
  {
    hide WellFormed, Bytes, GoodHeader, Canonical, SealOf, Attr;
    store.OwnInUse(files, k);
    var b := files[k].fileAcl;
    store.BlockFacts(b);
    assert b in store.cache ==> store.CachedOk(b);
  }

  /** The first inode's block can be shared. */
  lemma CanBeShared(store: Store, files: seq<Holder>)
    requires store.Valid(files) && |files| == 2 && Only(store, files[0], X) && files[0].fileAcl in store.cache
    ensures var b := files[0].fileAcl;
            store.cache[b] != 0 && b in store.lay && |store.lay[b].hdr| == HEADER && RefCount(store.lay[b]) <= REFCOUNT_MAX
  {
    hide WellFormed, Bytes, GoodHeader, SealOf, Attr, Store.Valid, KeyHash, Count;
    assert store.AttrOf(files[0], X).Some?;
    BlockOf(store, files, 0, X);
    var b := files[0].fileAcl;
    AllRight(store.lay[b], store.bs);
    OneAttr(store.lay[b], store.bs, X);
    Reads(store.lay[b], store.bs);
    SealOfX(store.lay[b].es);
    CountAtMost(Acls(files), b);
  }

  lemma {:induction false} CountAtMost(acls: seq<nat>, b: nat)
    ensures Count(acls, b) <= |acls|
  {
    if |acls| > 0 {
      CountAtMost(acls[..|acls| - 1], b);
    }
  }

  /** The second inode's block is its own, and what its attributes would be
      without Y the first inode's block holds. */
  lemma WillSpoil(store: Store, files: seq<Holder>)
    requires store.Valid(files) && |files| == 2 && Only(store, files[0], X) && files[0].fileAcl in store.cache
    requires store.bs >= 64
    requires forall other: Key :: store.AttrOf(files[1], other) == if other == X || other == Y then Some([]) else None
    ensures store.Spoils(files[1], Y, None, false, false, false)
  {
    hide WellFormed, Bytes, GoodHeader, SealOf, Attr, Store.Valid, Canonical, Store.AttrOf, RoomIn, Hashed;
    var f, g := files[0], files[1];
    assert store.AttrOf(f, X).Some? && store.AttrOf(g, Y).Some? && store.AttrOf(f, Y).None?;
    CanBeShared(store, files);
    BlockOf(store, files, 0, X);
    BlockOf(store, files, 1, Y);
    RoomToRemove(store.lay, store.bs, g.fileAcl, Y);
    Views(store, f);
    Views(store, g);
    assert TwinAt(store.lay, store.cache, store.bs, g.fileAcl, Y, None, f.fileAcl);
    assert Acls(files) == [f.fileAcl, g.fileAcl];
    assert Acls(files)[..1] == [f.fileAcl] && Count([f.fileAcl], g.fileAcl) == 0;
  }

  lemma Views(store: Store, f: Holder)
    ensures forall other: Key :: store.AttrOf(f, other) == View(store.lay, store.bs, f.fileAcl, other)
  {
  }

  /** Give an inode that has no attributes its first one. */
  method First(store: Store, files: seq<Holder>, k: nat, key: Key, grant: nat)
    requires store.Valid(files) && |files| == 2 && k < 2 && files[k].fileAcl == 0 && (key == X || key == Y)
    requires grant != 0 && grant !in store.blocks && store.bs >= 64
    modifies store, store.blocks.Values, files[k]
    ensures forall c :: c in store.blocks ==> store.blocks[c] in old(store.blocks.Values) || fresh(store.blocks[c])
    ensures store.Valid(files) && Only(store, files[k], key) && files[k].fileAcl in store.cache
    ensures store.blocks.Keys <= old(store.blocks.Keys) + {grant}
    ensures forall c :: c in old(store.cache) && c in store.blocks && c != 0 ==> c in store.cache
    ensures forall g, other: Key :: g in files && g != files[k] ==> store.AttrOf(g, other) == old(store.AttrOf(g, other))
  {
    hide WellFormed, Bytes, GoodHeader, SealOf, Attr, Store.Sound, Store.Counted, Canonical, Store.AttrOf, Hashed, Spoiling, RoomIn;
    var f := files[k];
    store.NoBlockRoom(f, key, Some([]));
    store.NoBlockView(f);
    var err;
    ghost var done;
    err, done := store.Set(files, k, f, key, Some([]), false, false, grant, true, true);
    assert store.AttrOf(f, key).Some?;
    BlockOf(store, files, k, key);
  }

  /** Two inodes, the one with X, the other with Y, and the first one's block in the cache. */
  method Apart(bs: nat) returns (store: Store, files: seq<Holder>)
    requires bs % 4 == 0 && 1024 <= bs <= 0x10000
    ensures fresh(store) && store.bs == bs && store.Valid(files) && |files| == 2 && fresh(files[0]) && fresh(files[1])
    ensures forall c :: c in store.blocks ==> fresh(store.blocks[c])
    ensures Only(store, files[0], X) && files[0].fileAcl in store.cache && Only(store, files[1], Y)
    ensures store.blocks.Keys <= {1, 2}
  {
    hide WellFormed, Bytes, GoodHeader, SealOf, Attr, Store.Valid, Canonical, Store.AttrOf, Hashed, Spoiling, RoomIn;
    store := new Store(bs);
    files := store.NewInode([]);
    files := store.NewInode(files);
    First(store, files, 0, X, 1);
    First(store, files, 1, Y, 2);
    assert store.AttrOf(files[1], Y).Some?;
    OtherAcl(store, files);
  }

  /** The same, but the second inode has X, too. */
  method TwoInodes(bs: nat) returns (store: Store, files: seq<Holder>)
    requires bs % 4 == 0 && 1024 <= bs <= 0x10000
    ensures fresh(store) && store.bs == bs && store.Valid(files) && |files| == 2 && fresh(files[0]) && fresh(files[1])
    ensures forall c :: c in store.blocks ==> fresh(store.blocks[c])
    ensures Only(store, files[0], X) && files[0].fileAcl in store.cache
    ensures forall other: Key :: store.AttrOf(files[1], other) == if other == X || other == Y then Some([]) else None
  {
    hide WellFormed, Bytes, GoodHeader, SealOf, Attr, Store.Valid, Canonical, Store.AttrOf, Hashed, Spoiling, RoomIn;
    store, files := Apart(bs);
    var g := files[1];
    assert store.AttrOf(g, Y).Some?;
    OtherAcl(store, files);
    BlockOf(store, files, 1, Y);
    AllRight(store.lay[g.fileAcl], bs);
    RoomForX(store.lay, bs, g.fileAcl);
    var err;
    ghost var done;
    err, done := store.Set(files, 1, g, X, Some([]), false, false, 3, true, true);
    OtherAcl(store, files);
  }

  /** The first inode's block is in use, and it is not the second one's if they differ. */
  lemma OtherAcl(store: Store, files: seq<Holder>)
    requires store.Valid(files) && |files| == 2 && Only(store, files[0], X)
    requires store.AttrOf(files[1], Y).Some?
    ensures files[0].fileAcl in store.blocks && files[0].fileAcl != 0 && files[0].fileAcl != files[1].fileAcl
  {
    hide WellFormed, Bytes, GoodHeader, SealOf, Attr, Store.Valid, Canonical, Store.AttrOf;
    assert store.AttrOf(files[0], X).Some? && store.AttrOf(files[0], Y).None?;
    BlockOf(store, files, 0, X);
    Views(store, files[0]);
    Views(store, files[1]);
  }

  /** Removing Y fails for want of quota: it can be read before, but not after. */
  method FailsWithEffect(bs: nat) returns (before: Status, err: Status, after: Status)
    requires bs % 4 == 0 && 1024 <= bs <= 0x10000
    ensures before == OK && err == EDQUOT && after == ENODATA
  {
    hide WellFormed, Bytes, GoodHeader, SealOf, Attr, Store.Valid, Canonical, Store.AttrOf, Hashed, Spoiling;
    var store, files := TwoInodes(bs);
    var size, value;
    before, size, value := store.Get(files, 1, files[1], Y, None);
    WillSpoil(store, files);
    ghost var done;
    err, done := store.Set(files, 1, files[1], Y, None, false, false, 3, false, true);
    after, size, value := store.Get(files, 1, files[1], Y, None);
  }
}
