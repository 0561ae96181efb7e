/**
 The edits that an attribute block undergoes, as functions on layouts, and what
 each does to the block's map of attributes.
 */
module XattrEdit {
  import opened ByteBuffer
  import opened XattrLayout

  predicate GoodKey(key: Key) {
    key.index > 0 && |key.name| <= 255
  }

  function NewEntry(key: Key): (e: Entry)
    requires GoodKey(key)
    ensures GoodEntry(e)
  {
    Entry(key, Zeros(Round(|key.name|) - |key.name|), 0, 0, 0)
  }

  /** A new name at place k. */
  function Inserted(l: Layout, k: nat, key: Key): Layout
    requires GoodKey(key) && k <= |l.es| && EntryLen(|key.name|) <= l.gap
  {
    l.(es := l.es[..k] + [NewEntry(key)] + l.es[k..], gap := l.gap - EntryLen(|key.name|))
  }

  /** The k-th name gone. */
  function Removed(l: Layout, k: nat): Layout
    requires k < |l.es|
  {
    l.(es := l.es[..k] + l.es[k + 1..], gap := l.gap + EntryLen(|l.es[k].key.name|))
  }

  /** All values that start before `offs` moved up by sz. */
  function Shifted(es: seq<Entry>, offs: nat, sz: nat): (r: seq<Entry>)
    ensures |r| == |es|
    ensures forall i :: 0 <= i < |es| ==> r[i] == if es[i].offs < offs then es[i].(offs := es[i].offs + sz) else es[i]
  {
    if |es| == 0 then []
    else
      var e := es[|es| - 1];
      Shifted(es[..|es| - 1], offs, sz) + [if e.offs < offs then e.(offs := e.offs + sz) else e]
  }

  /** The k-th value cut out and the ones before it moved up. The size field
      still holds the old size. */
  function CutOut(l: Layout, bs: nat, k: nat): Layout
    requires k < |l.es| && |l.vals| <= bs && l.es[k].size > 0
    requires bs - |l.vals| <= l.es[k].offs && l.es[k].offs + Round(l.es[k].size) <= bs
  {
    var at, sz := l.es[k].offs - (bs - |l.vals|), Round(l.es[k].size);
    l.(es := Shifted(l.es[k := l.es[k].(offs := 0)], l.es[k].offs, sz),
       gap := l.gap + sz, vals := l.vals[..at] + l.vals[at + sz..])
  }

  /** The k-th entry without a value. */
  function Emptied(l: Layout, k: nat): Layout
    requires k < |l.es|
  {
    l.(es := l.es[k := l.es[k].(size := 0)])
  }

  function Padded(value: seq<byte>): (s: seq<byte>)
    ensures |s| == Round(|value|) && s[..|value|] == value
  {
    value + Zeros(Round(|value|) - |value|)
  }

  /** The k-th entry, so far without a value, given one. */
  function Given(l: Layout, bs: nat, k: nat, value: seq<byte>): Layout
    requires k < |l.es| && |l.vals| + Round(|value|) <= bs && Round(|value|) <= l.gap
  {
    if value == [] then Emptied(l, k)
    else
      l.(es := l.es[k := l.es[k].(size := |value|, offs := bs - |l.vals| - Round(|value|))],
         gap := l.gap - Round(|value|), vals := Padded(value) + l.vals)
  }

  /** The k-th value overwritten by one that takes the same room. */
  function Overwritten(l: Layout, bs: nat, k: nat, value: seq<byte>): Layout
    requires k < |l.es| && |l.vals| <= bs && bs - |l.vals| <= l.es[k].offs
    requires l.es[k].offs + Round(|value|) <= bs
  {
    l.(es := l.es[k := l.es[k].(size := |value|)],
       vals := Over(l.vals, l.es[k].offs - (bs - |l.vals|), Padded(value)))
  }

  // ---------- sums ----------

  lemma {:induction false} RoomSplit(a: seq<Entry>, b: seq<Entry>)
    ensures Room(a + b) == Room(a) + Room(b)
    decreases |b|
  {
    if |b| == 0 {
      assert a + b == a;
    } else {
      RoomSplit(a, b[..|b| - 1]);
      assert (a + b)[..|a + b| - 1] == a + b[..|b| - 1];
    }
  }

  lemma RoomAt(es: seq<Entry>, k: nat)
    requires k < |es|
    ensures Room(es) == Room(es[..k]) + Round(es[k].size) + Room(es[k + 1..])
  {
    assert es == es[..k] + ([es[k]] + es[k + 1..]);
    RoomSplit(es[..k], [es[k]] + es[k + 1..]);
    RoomSplit([es[k]], es[k + 1..]);
    assert Room([es[k]]) == Round(es[k].size);
  }

  lemma RoomUpdate(es: seq<Entry>, k: nat, e: Entry)
    requires k < |es|
    ensures Room(es[k := e]) == Room(es) - Round(es[k].size) + Round(e.size)
  {
    RoomAt(es, k);
    RoomAt(es[k := e], k);
    assert es[k := e][..k] == es[..k] && es[k := e][k + 1..] == es[k + 1..];
  }

  lemma {:induction false} RoomSame(a: seq<Entry>, b: seq<Entry>)
    requires |a| == |b| && forall i :: 0 <= i < |a| ==> a[i].size == b[i].size
    ensures Room(a) == Room(b)
    decreases |a|
  {
    if |a| > 0 {
      RoomSame(a[..|a| - 1], b[..|b| - 1]);
    }
  }

  lemma {:induction false} EncAllLength(a: seq<Entry>, b: seq<Entry>)
    requires GoodEntries(a) && GoodEntries(b) && |a| == |b|
    requires forall i :: 0 <= i < |a| ==> |a[i].key.name| == |b[i].key.name|
    ensures |EncAll(a)| == |EncAll(b)|
    decreases |a|
  {
    hide Enc;
    if |a| > 0 {
      EncAllLength(a[1..], b[1..]);
    }
  }

  // ---------- names ----------

  /** Attributes that no entry holds do not exist. */
  lemma NoAttr(l: Layout, bs: nat, key: Key)
    requires WellFormed(l, bs) && forall i :: 0 <= i < |l.es| ==> l.es[i].key != key
    ensures Attr(l, bs, key) == None
  {
  }

  lemma InsertSorted(es: seq<Entry>, k: nat, e: Entry)
    requires Sorted(es) && Place(es, e.key, k, false)
    ensures Sorted(es[..k] + [e] + es[k..])
  {
    var t := es[..k] + [e] + es[k..];
    forall i, j | 0 <= i < j < |t|
      ensures Compare(t[i].key, t[j].key) < 0
    {
      var oi, oj := if i < k then i else i - 1, if j < k then j else j - 1;
      if i != k && j != k {
        assert t[i] == es[oi] && t[j] == es[oj];
      } else if i == k {
        assert t[j] == es[j - 1];
      } else {
        assert t[i] == es[i];
      }
    }
  }

  /** t is es with one more entry, without a value, at place k. */
  predicate OneMore(es: seq<Entry>, t: seq<Entry>, k: nat) {
    && |t| == |es| + 1 && k <= |es| && t[k].size == 0
    && (forall i :: 0 <= i < k ==> t[i] == es[i])
    && (forall i :: k < i < |t| ==> t[i] == es[i - 1])
  }

  lemma OneMoreStarts(es: seq<Entry>, t: seq<Entry>, k: nat, o: nat, bs: nat)
    requires OneMore(es, t, k)
    ensures StartsAt(es, o, bs) <==> StartsAt(t, o, bs)
  {
    if StartsAt(es, o, bs) && o != bs {
      var j :| 0 <= j < |es| && es[j].size > 0 && es[j].offs == o;
      assert t[if j < k then j else j + 1] == es[j];
    }
    if StartsAt(t, o, bs) && o != bs {
      var j :| 0 <= j < |t| && t[j].size > 0 && t[j].offs == o;
      assert es[if j < k then j else j - 1] == t[j];
    }
  }

  lemma OneMoreFits(es: seq<Entry>, t: seq<Entry>, k: nat, e: Entry, base: nat, bs: nat)
    requires OneMore(es, t, k)
    ensures Fits(es, e, base, bs) <==> Fits(t, e, base, bs)
  {
    hide StartsAt;
    OneMoreStarts(es, t, k, e.offs + Round(e.size), bs);
  }

  lemma OneMorePacked(es: seq<Entry>, t: seq<Entry>, k: nat, base: nat, bs: nat)
    requires OneMore(es, t, k)
    ensures Packed(es, base, bs) && t[k].offs <= bs ==> Packed(t, base, bs)
    ensures Packed(t, base, bs) ==> Packed(es, base, bs)
  {
    hide StartsAt, Fits, Round;
    OneMoreStarts(es, t, k, base, bs);
    if Packed(es, base, bs) && t[k].offs <= bs {
      forall i | 0 <= i < |t|
        ensures Fits(t, t[i], base, bs)
      {
        if i == k {
          EmptyFits(t, t[k], base, bs);
        } else {
          OneMoreFits(es, t, k, es[if i < k then i else i - 1], base, bs);
        }
      }
      forall i, j | 0 <= i < j < |t|
        ensures Beside(t[i], t[j])
      {
        if i != k && j != k {
          assert Beside(es[if i < k then i else i - 1], es[if j < k then j else j - 1]);
        }
      }
    }
    if Packed(t, base, bs) {
      forall i | 0 <= i < |es|
        ensures Fits(es, es[i], base, bs)
      {
        OneMoreFits(es, t, k, t[if i < k then i else i + 1], base, bs);
      }
      forall i, j | 0 <= i < j < |es|
        ensures Beside(es[i], es[j])
      {
        assert Beside(t[if i < k then i else i + 1], t[if j < k then j else j + 1]);
      }
    }
  }

  lemma EmptyFits(es: seq<Entry>, e: Entry, base: nat, bs: nat)
    requires e.size == 0 && e.offs <= bs
    ensures Fits(es, e, base, bs)
  {
  }

  lemma OneMoreParts(es: seq<Entry>, k: nat, e: Entry)
    requires k <= |es| && e.size == 0
    ensures OneMore(es, es[..k] + [e] + es[k..], k)
  {
  }

  /** The sizes of the parts go with the entries. */
  lemma OneMoreSizes(es: seq<Entry>, k: nat, e: Entry)
    requires k <= |es| && e.size == 0 && GoodEntries(es) && GoodEntry(e)
    ensures var t := es[..k] + [e] + es[k..];
            GoodEntries(t) && |EncAll(t)| == |EncAll(es)| + EntryLen(|e.key.name|) && Room(t) == Room(es)
  {
    hide Enc, EncAll, Room, GoodEntry;
    var t := es[..k] + [e] + es[k..];
    EncAllSplit(es[..k], es[k..]);
    assert es == es[..k] + es[k..];
    assert t[..k] == es[..k] && t[k + 1..] == es[k..] && t[k] == e;
    EncAllAt(t, k);
    EncLength(e);
    RoomAt(t, k);
    RoomSplit(es[..k], es[k..]);
  }

  lemma EncLength(e: Entry)
    requires GoodEntry(e)
    ensures |Enc(e)| == EntryLen(|e.key.name|)
  {
  }

  /** Insert a name: an attribute with an empty value comes into being. */
  lemma InsertName(l: Layout, bs: nat, k: nat, key: Key)
    requires WellFormed(l, bs) && GoodKey(key) && Place(l.es, key, k, false)
    requires EntryLen(|key.name|) + 4 <= l.gap
    ensures var m := Inserted(l, k, key);
            && WellFormed(m, bs) && Place(m.es, key, k, true)
            && forall other: Key :: Attr(m, bs, other) == if other == key then Some([]) else Attr(l, bs, other)
  {
    hide EncAll, Enc, Compare, Packed, Room, GoodEntry, Attr;
    var m, e := Inserted(l, k, key), NewEntry(key);
    OneMoreParts(l.es, k, e);
    InsertSorted(l.es, k, e);
    OneMorePacked(l.es, m.es, k, bs - |l.vals|, bs);
    OneMoreSizes(l.es, k, e);
    forall other: Key
      ensures Attr(m, bs, other) == if other == key then Some([]) else Attr(l, bs, other)
    {
      OneMoreAttr(l, m, bs, k, other);
    }
  }

  lemma OneMoreAttr(l: Layout, m: Layout, bs: nat, k: nat, other: Key)
    requires WellFormed(l, bs) && WellFormed(m, bs) && OneMore(l.es, m.es, k) && m.vals == l.vals
    ensures Attr(m, bs, other) == if other == m.es[k].key then Some([]) else Attr(l, bs, other)
  {
    hide EncAll, Compare, Room, Packed, Sorted, Attr;
    if other == m.es[k].key {
      AttrAt(m, bs, k);
    } else {
      AttrIndex(l, bs, other);
      var i := Index(l.es, other);
      if i < |l.es| {
        AttrAt(m, bs, if i < k then i else i + 1);
      } else {
        NotAmong(l.es, other);
        NoAttr(m, bs, other);
      }
    }
  }

  lemma AttrIndex(l: Layout, bs: nat, key: Key)
    requires WellFormed(l, bs)
    ensures var i := Index(l.es, key);
            && (i < |l.es| ==> Attr(l, bs, key) == Some(ValueAt(l, bs, i)))
            && (i == |l.es| ==> Attr(l, bs, key) == None)
  {
  }

  lemma NotAmong(es: seq<Entry>, key: Key)
    requires Index(es, key) == |es|
    ensures forall i :: 0 <= i < |es| ==> es[i].key != key
  {
  }

  /** Remove a name without a value: the attribute is gone. */
  lemma RemoveName(l: Layout, bs: nat, k: nat)
    requires WellFormed(l, bs) && k < |l.es| && l.es[k].size == 0
    ensures var m, key := Removed(l, k), l.es[k].key;
            && WellFormed(m, bs)
            && forall other: Key :: Attr(m, bs, other) == if other == key then None else Attr(l, bs, other)
  {
    hide EncAll, Enc, Compare, Packed, Room, GoodEntry, Attr;
    var m := Removed(l, k);
    assert l.es == m.es[..k] + [l.es[k]] + m.es[k..];
    OneMoreParts(m.es, k, l.es[k]);
    OneMoreSorted(m.es, l.es, k);
    OneMorePacked(m.es, l.es, k, bs - |l.vals|, bs);
    OneMoreSizes(m.es, k, l.es[k]);
    forall other: Key
      ensures Attr(m, bs, other) == if other == l.es[k].key then None else Attr(l, bs, other)
    {
      OneMoreAttr(m, l, bs, k, other);
      if other == l.es[k].key {
        OneMoreKeys(m.es, l.es, k);
        NoAttr(m, bs, other);
      }
    }
  }

  lemma OneMoreSorted(es: seq<Entry>, t: seq<Entry>, k: nat)
    requires OneMore(es, t, k) && Sorted(t)
    ensures Sorted(es)
  {
    hide Compare;
    forall i, j | 0 <= i < j < |es|
      ensures Compare(es[i].key, es[j].key) < 0
    {
      assert es[i] == t[if i < k then i else i + 1] && es[j] == t[if j < k then j else j + 1];
    }
  }

  lemma OneMoreKeys(es: seq<Entry>, t: seq<Entry>, k: nat)
    requires OneMore(es, t, k) && Sorted(t)
    ensures forall i :: 0 <= i < |es| ==> es[i].key != t[k].key
  {
    forall i | 0 <= i < |es|
      ensures es[i].key != t[k].key
    {
      var j := if i < k then i else i + 1;
      assert es[i] == t[j];
      assert Compare(t[if j < k then j else k].key, t[if j < k then k else j].key) < 0;
    }
  }
}
