/**
 Edits of the values of an attribute block: cutting one out, adding one, and
 overwriting one in place.
 */
module XattrValue {
  import opened ByteBuffer
  import opened XattrEdit
  import opened XattrLayout

  /** Entries stay at their places when only values move. */
  lemma AttrPointwise(l: Layout, m: Layout, bs: nat, k: nat)
    requires WellFormed(l, bs) && WellFormed(m, bs) && k < |l.es| == |m.es|
    requires forall i :: 0 <= i < |l.es| ==> m.es[i].key == l.es[i].key
    requires forall i :: 0 <= i < |l.es| && i != k ==> ValueAt(m, bs, i) == ValueAt(l, bs, i)
    ensures forall other: Key ::
              Attr(m, bs, other) == if other == l.es[k].key then Some(ValueAt(m, bs, k)) else Attr(l, bs, other)
  {
    hide EncAll, Compare, Room, Beside, StartsAt, Sorted, Attr, ValueAt;
    forall other: Key
      ensures Attr(m, bs, other) == if other == l.es[k].key then Some(ValueAt(m, bs, k)) else Attr(l, bs, other)
    {
      AttrIndex(l, bs, other);
      var i := Index(l.es, other);
      if other == l.es[k].key {
        AttrAt(m, bs, k);
      } else if i < |l.es| {
        AttrAt(m, bs, i);
      } else {
        NotAmong(l.es, other);
        NoAttr(m, bs, other);
      }
    }
  }

  lemma SortedKeys(es: seq<Entry>, t: seq<Entry>)
    requires Sorted(es) && |t| == |es| && forall i :: 0 <= i < |es| ==> t[i].key == es[i].key
    ensures Sorted(t)
  {
    hide Compare;
  }

  lemma PlaceKeys(es: seq<Entry>, t: seq<Entry>, key: Key, k: nat, found: bool)
    requires Place(es, key, k, found) && |t| == |es| && forall i :: 0 <= i < |es| ==> t[i].key == es[i].key
    ensures Place(t, key, k, found)
  {
    hide Compare;
  }

  // ---------- cutting a value out ----------

  /** t is es with the k-th value cut out and those before it moved up. */
  predicate Cut(es: seq<Entry>, t: seq<Entry>, k: nat) {
    && k < |es| == |t| && es[k].size > 0 && t[k].size == 0 && t[k].offs <= Round(es[k].size) && t[k].key == es[k].key
    && forall i :: 0 <= i < |es| && i != k ==>
         t[i] == if es[i].offs < es[k].offs then es[i].(offs := es[i].offs + Round(es[k].size)) else es[i]
  }

  lemma CutStarts(es: seq<Entry>, t: seq<Entry>, k: nat, base: nat, bs: nat, p: nat)
    requires Packed(es, base, bs) && Cut(es, t, k) && StartsAt(es, p, bs)
    ensures StartsAt(t, if p <= es[k].offs then p + Round(es[k].size) else p, bs)
    decreases p <= es[k].offs
  {
    hide Beside, Round;
    var o, sz := es[k].offs, Round(es[k].size);
    FitsAt(es, base, bs, k);
    if p != bs {
      var j :| 0 <= j < |es| && es[j].size > 0 && es[j].offs == p;
      if j == k {
        CutStarts(es, t, k, base, bs, o + sz);
      } else {
        if j < k {
          assert Beside(es[j], es[k]);
        } else {
          assert Beside(es[k], es[j]);
        }
        Apart(es[j], es[k]);
        assert t[j].size > 0;
      }
    }
  }

  lemma FitsAt(es: seq<Entry>, base: nat, bs: nat, k: nat)
    requires Packed(es, base, bs) && k < |es| && es[k].size > 0
    ensures base <= es[k].offs && es[k].offs + Round(es[k].size) <= bs && Round(es[k].size) > 0
    ensures StartsAt(es, es[k].offs + Round(es[k].size), bs)
  {
    assert Fits(es, es[k], base, bs);
  }

  lemma Apart(e: Entry, f: Entry)
    requires (Beside(e, f) || Beside(f, e)) && e.size > 0 && f.size > 0
    ensures e.offs != f.offs && (e.offs < f.offs ==> e.offs + Round(e.size) <= f.offs)
    ensures e.offs > f.offs ==> f.offs + Round(f.size) <= e.offs
  {
  }

  /** Where another value lies relative to the k-th. */
  lemma ApartFrom(es: seq<Entry>, base: nat, bs: nat, k: nat, i: nat)
    requires Packed(es, base, bs) && k < |es| && i < |es| && i != k && es[k].size > 0 && es[i].size > 0
    ensures if es[i].offs < es[k].offs then es[i].offs + Round(es[i].size) <= es[k].offs
            else es[k].offs + Round(es[k].size) <= es[i].offs
  {
    hide Fits, StartsAt;
    if i < k {
      assert Beside(es[i], es[k]);
    } else {
      assert Beside(es[k], es[i]);
    }
  }

  lemma CutFits(es: seq<Entry>, t: seq<Entry>, k: nat, base: nat, bs: nat, i: nat)
    requires Packed(es, base, bs) && Cut(es, t, k) && i < |es|
    ensures Fits(t, t[i], base + Round(es[k].size), bs)
  {
    hide Beside, Round, StartsAt;
    FitsAt(es, base, bs, k);
    assert Fits(es, es[i], base, bs);
    if i != k && es[i].size > 0 {
      FitsAt(es, base, bs, i);
      ApartFrom(es, base, bs, k, i);
      CutStarts(es, t, k, base, bs, es[i].offs + Round(es[i].size));
    }
  }

  lemma CutBeside(es: seq<Entry>, t: seq<Entry>, k: nat, base: nat, bs: nat, i: nat, j: nat)
    requires Packed(es, base, bs) && Cut(es, t, k) && i < j < |es|
    ensures Beside(t[i], t[j])
  {
    hide Fits, Round, StartsAt;
    if i != k && j != k && es[i].size > 0 && es[j].size > 0 {
      assert Beside(es[i], es[j]);
      ApartFrom(es, base, bs, k, i);
      ApartFrom(es, base, bs, k, j);
    }
  }

  lemma CutShape(es: seq<Entry>, t: seq<Entry>, k: nat)
    requires Cut(es, t, k)
    ensures k < |es| == |t| && es[k].size > 0
  {
  }

  lemma CutPacked(es: seq<Entry>, t: seq<Entry>, k: nat, base: nat, bs: nat)
    requires Packed(es, base, bs) && Cut(es, t, k)
    ensures Packed(t, base + Round(es[k].size), bs)
  {
    hide Fits, Beside, Round, StartsAt, Cut;
    CutShape(es, t, k);
    forall i | 0 <= i < |t|
      ensures Fits(t, t[i], base + Round(es[k].size), bs)
    {
      CutFits(es, t, k, base, bs, i);
    }
    forall i, j | 0 <= i < j < |t|
      ensures Beside(t[i], t[j])
    {
      CutBeside(es, t, k, base, bs, i, j);
    }
    FitsAt(es, base, bs, k);
    CutStarts(es, t, k, base, bs, base);
  }

  /** Cutting a value out of the packed values leaves the other ones readable. */
  lemma CutValue(vals: seq<byte>, at: nat, sz: nat, from: nat, n: nat)
    requires at + sz <= |vals| && (from + n <= at || (at + sz <= from && from + n <= |vals|))
    ensures var v := vals[..at] + vals[at + sz..];
            var f := if from + n <= at then from else from - sz;
            f + n <= |v| && v[f..f + n] == vals[from..from + n]
  {
  }

  /** The k-th value removed: the attribute's value is empty now. */
  lemma CutOutValue(l: Layout, bs: nat, k: nat)
    requires WellFormed(l, bs) && k < |l.es| && l.es[k].size > 0
    ensures bs - |l.vals| <= l.es[k].offs && l.es[k].offs + Round(l.es[k].size) <= bs
    ensures var m := CutOut(l, bs, k);
            var n := Emptied(m, k);
            && GoodEntries(m.es) && |EncAll(m.es)| == |EncAll(l.es)|
            && WellFormed(n, bs) && n.hdr == l.hdr && |m.es| == |n.es| == |l.es|
            && (forall i :: 0 <= i < |l.es| ==> n.es[i].key == l.es[i].key)
            && forall other: Key :: Attr(n, bs, other) == if other == l.es[k].key then Some([]) else Attr(l, bs, other)
  {
    hide EncAll, Enc, Compare, Packed, Room, Attr, ValueAt;
    var base := bs - |l.vals|;
    FitsAt(l.es, base, bs, k);
    var m := CutOut(l, bs, k);
    var n := Emptied(m, k);
    CutGood(l, bs, k);
    CutPacked(l.es, n.es, k, base, bs);
    EncAllLength(l.es, m.es);
    EncAllLength(l.es, n.es);
    SortedKeys(l.es, n.es);
    RoomSame(l.es, m.es);
    RoomUpdate(m.es, k, n.es[k]);
    CutValues(l, bs, k);
    AttrPointwise(l, n, bs, k);
  }

  lemma CutValues(l: Layout, bs: nat, k: nat)
    requires WellFormed(l, bs) && k < |l.es| && l.es[k].size > 0
    requires bs - |l.vals| <= l.es[k].offs && l.es[k].offs + Round(l.es[k].size) <= bs
    requires Cut(l.es, Emptied(CutOut(l, bs, k), k).es, k) && WellFormed(Emptied(CutOut(l, bs, k), k), bs)
    ensures var n := Emptied(CutOut(l, bs, k), k);
            && ValueAt(n, bs, k) == []
            && forall i :: 0 <= i < |l.es| && i != k ==> ValueAt(n, bs, i) == ValueAt(l, bs, i)
  {
    hide EncAll, Compare, Room, Beside, StartsAt, Sorted, ValueAt, Shifted;
    var n := Emptied(CutOut(l, bs, k), k);
    EmptyValue(n, bs, k);
    forall i | 0 <= i < |l.es| && i != k
      ensures ValueAt(n, bs, i) == ValueAt(l, bs, i)
    {
      assert Fits(l.es, l.es[i], bs - |l.vals|, bs) && Fits(n.es, n.es[i], bs - |n.vals|, bs);
      CutValueAt(l, bs, k, i);
    }
  }

  lemma EmptyValue(l: Layout, bs: nat, k: nat)
    requires k < |l.es| && |l.vals| <= bs && l.es[k].size == 0
    ensures ValueAt(l, bs, k) == []
  {
  }

  lemma CutGood(l: Layout, bs: nat, k: nat)
    requires WellFormed(l, bs) && k < |l.es| && l.es[k].size > 0
    requires bs - |l.vals| <= l.es[k].offs && l.es[k].offs + Round(l.es[k].size) <= bs
    ensures var m := CutOut(l, bs, k);
            && GoodEntries(m.es) && GoodEntries(Emptied(m, k).es) && Cut(l.es, Emptied(m, k).es, k)
            && forall i :: 0 <= i < |l.es| ==> m.es[i].size == l.es[i].size && m.es[i].key == l.es[i].key
  {
    hide EncAll, Enc, Compare, Room, Sorted, StartsAt;
    var m := CutOut(l, bs, k);
    forall i | 0 <= i < |l.es|
      ensures GoodEntry(m.es[i])
    {
      assert GoodEntry(l.es[i]);
      assert Fits(l.es, l.es[i], bs - |l.vals|, bs);
      RoundMore(l.es[k].size);
      if i != k && l.es[i].size > 0 && l.es[i].offs < l.es[k].offs {
        ApartFrom(l.es, bs - |l.vals|, bs, k, i);
      }
    }
  }

  lemma RoundMore(n: nat)
    requires n > 0
    ensures Round(n) >= 4
  {
  }

  lemma CutValueAt(l: Layout, bs: nat, k: nat, i: nat)
    requires WellFormed(l, bs) && k < |l.es| && i < |l.es| && i != k && l.es[k].size > 0
    requires bs - |l.vals| <= l.es[k].offs && l.es[k].offs + Round(l.es[k].size) <= bs
    requires Cut(l.es, Emptied(CutOut(l, bs, k), k).es, k)
    requires l.es[i].size > 0 ==>
               var n := Emptied(CutOut(l, bs, k), k);
               bs - |n.vals| <= n.es[i].offs && n.es[i].offs + n.es[i].size <= bs
    requires l.es[i].size > 0 ==> bs - |l.vals| <= l.es[i].offs && l.es[i].offs + l.es[i].size <= bs
    ensures ValueAt(Emptied(CutOut(l, bs, k), k), bs, i) == ValueAt(l, bs, i)
  {
    hide EncAll, Enc, Compare, Room, Sorted, StartsAt, Shifted;
    var base, sz := bs - |l.vals|, Round(l.es[k].size);
    if l.es[i].size > 0 {
      ApartFrom(l.es, base, bs, k, i);
      CutValue(l.vals, l.es[k].offs - base, sz, l.es[i].offs - base, l.es[i].size);
    }
  }

  // ---------- adding a value ----------

  /** t is es with a value given to the k-th entry, right before all others. */
  predicate Grow(es: seq<Entry>, t: seq<Entry>, k: nat, base: nat) {
    && k < |es| == |t| && es[k].size == 0 && t[k].size > 0 && t[k].offs + Round(t[k].size) == base
    && forall i :: 0 <= i < |es| && i != k ==> t[i] == es[i]
  }

  lemma GrowStarts(es: seq<Entry>, t: seq<Entry>, k: nat, base: nat, bs: nat, p: nat)
    requires Grow(es, t, k, base) && StartsAt(es, p, bs)
    ensures StartsAt(t, p, bs)
  {
    if p != bs {
      var j :| 0 <= j < |es| && es[j].size > 0 && es[j].offs == p;
      assert t[j] == es[j];
    }
  }

  lemma GrowPacked(es: seq<Entry>, t: seq<Entry>, k: nat, base: nat, bs: nat)
    requires Packed(es, base, bs) && Grow(es, t, k, base)
    ensures Packed(t, t[k].offs, bs)
  {
    hide Round;
    forall i | 0 <= i < |t|
      ensures Fits(t, t[i], t[k].offs, bs)
    {
      if i == k {
        GrowStarts(es, t, k, base, bs, base);
      } else {
        assert Fits(es, es[i], base, bs);
        if es[i].size > 0 {
          GrowStarts(es, t, k, base, bs, es[i].offs + Round(es[i].size));
        }
      }
    }
    forall i, j | 0 <= i < j < |t|
      ensures Beside(t[i], t[j])
    {
      assert Beside(es[i], es[j]);
      assert Fits(es, es[i], base, bs) && Fits(es, es[j], base, bs);
    }
    assert StartsAt(t, t[k].offs, bs);
  }

  /** A value for an attribute that had none. */
  lemma GiveValue(l: Layout, bs: nat, k: nat, value: seq<byte>)
    requires WellFormed(l, bs) && k < |l.es| && l.es[k].size == 0 && Round(|value|) + 4 <= l.gap
    ensures |l.vals| + Round(|value|) <= bs
    ensures var m := Given(l, bs, k, value);
            && WellFormed(m, bs) && m.hdr == l.hdr && |m.es| == |l.es|
            && (forall i :: 0 <= i < |l.es| ==> m.es[i].key == l.es[i].key)
            && forall other: Key :: Attr(m, bs, other) == if other == l.es[k].key then Some(value) else Attr(l, bs, other)
  {
    hide EncAll, Enc, Compare, Packed, Room, Attr, ValueAt, Padded;
    var m := Given(l, bs, k, value);
    if value == [] {
      assert m.es == l.es;
      EmptyValue(l, bs, k);
      AttrPointwise(l, l, bs, k);
    } else {
      RoundMore(|value|);
      GrowPacked(l.es, m.es, k, bs - |l.vals|, bs);
      EncAllLength(l.es, m.es);
      SortedKeys(l.es, m.es);
      RoomUpdate(l.es, k, m.es[k]);
      GivenValues(l, m, bs, k, value);
      AttrPointwise(l, m, bs, k);
    }
  }

  lemma GivenValues(l: Layout, m: Layout, bs: nat, k: nat, value: seq<byte>)
    requires WellFormed(l, bs) && WellFormed(m, bs) && k < |l.es| && value != []
    requires |l.vals| + Round(|value|) <= bs && Round(|value|) <= l.gap && m == Given(l, bs, k, value)
    ensures ValueAt(m, bs, k) == value
    ensures forall i :: 0 <= i < |l.es| && i != k ==> ValueAt(m, bs, i) == ValueAt(l, bs, i)
  {
    hide EncAll, Enc, Compare, Room, Sorted, StartsAt;
    var p := Padded(value);
    forall i | 0 <= i < |l.es| && i != k && l.es[i].size > 0
      ensures ValueAt(m, bs, i) == ValueAt(l, bs, i)
    {
      assert Fits(l.es, l.es[i], bs - |l.vals|, bs);
      var from, n := l.es[i].offs - (bs - |l.vals|), l.es[i].size;
      assert (p + l.vals)[|p| + from..|p| + from + n] == l.vals[from..from + n];
    }
  }

  // ---------- overwriting a value ----------

  lemma OverValue(vals: seq<byte>, at: nat, t: seq<byte>, from: nat, n: nat)
    requires at + |t| <= |vals| && (from + n <= at || (at + |t| <= from && from + n <= |vals|))
    ensures Over(vals, at, t)[from..from + n] == vals[from..from + n]
  {
  }

  lemma OverOwn(vals: seq<byte>, at: nat, value: seq<byte>)
    requires at + |Padded(value)| <= |vals|
    ensures Over(vals, at, Padded(value))[at..at + |value|] == value
  {
    var p := Padded(value);
    Middle(vals[..at], p, vals[at + |p|..]);
    assert Over(vals, at, p)[at..at + |p|] == p;
    assert Over(vals, at, p)[at..at + |value|] == p[..|value|];
  }

  lemma SameRoomPacked(es: seq<Entry>, t: seq<Entry>, base: nat, bs: nat)
    requires Packed(es, base, bs) && |t| == |es|
    requires forall i :: 0 <= i < |es| ==>
               t[i].offs == es[i].offs && Round(t[i].size) == Round(es[i].size) && (t[i].size > 0 <==> es[i].size > 0)
    ensures Packed(t, base, bs)
  {
    hide Round;
    forall p: nat | StartsAt(es, p, bs)
      ensures StartsAt(t, p, bs)
    {
      if p != bs {
        var j :| 0 <= j < |es| && es[j].size > 0 && es[j].offs == p;
        assert t[j].size > 0 && t[j].offs == p;
      }
    }
    forall i | 0 <= i < |t|
      ensures Fits(t, t[i], base, bs)
    {
      assert Fits(es, es[i], base, bs);
    }
    forall i, j | 0 <= i < j < |t|
      ensures Beside(t[i], t[j])
    {
      assert Beside(es[i], es[j]);
    }
  }

  /** A value replaced by one that takes the same room. */
  lemma OverwriteValue(l: Layout, bs: nat, k: nat, value: seq<byte>)
    requires WellFormed(l, bs) && k < |l.es| && l.es[k].size > 0 && Round(|value|) == Round(l.es[k].size)
    ensures bs - |l.vals| <= l.es[k].offs && l.es[k].offs + Round(|value|) <= bs
    ensures var m := Overwritten(l, bs, k, value);
            && WellFormed(m, bs) && m.hdr == l.hdr && |m.es| == |l.es|
            && (forall i :: 0 <= i < |l.es| ==> m.es[i].key == l.es[i].key)
            && forall other: Key :: Attr(m, bs, other) == if other == l.es[k].key then Some(value) else Attr(l, bs, other)
  {
    hide EncAll, Enc, Compare, Packed, Room, Attr, ValueAt, Over, Padded;
    FitsAt(l.es, bs - |l.vals|, bs, k);
    var m := Overwritten(l, bs, k, value);
    RoundMore(l.es[k].size);
    SameRoomPacked(l.es, m.es, bs - |l.vals|, bs);
    EncAllLength(l.es, m.es);
    SortedKeys(l.es, m.es);
    RoomUpdate(l.es, k, m.es[k]);
    OverwrittenValues(l, m, bs, k, value);
    AttrPointwise(l, m, bs, k);
  }

  lemma OverwrittenValues(l: Layout, m: Layout, bs: nat, k: nat, value: seq<byte>)
    requires WellFormed(l, bs) && WellFormed(m, bs) && k < |l.es| && l.es[k].size > 0
    requires Round(|value|) == Round(l.es[k].size) > 0
    requires bs - |l.vals| <= l.es[k].offs && l.es[k].offs + Round(|value|) <= bs && m == Overwritten(l, bs, k, value)
    ensures ValueAt(m, bs, k) == value
    ensures forall i :: 0 <= i < |l.es| && i != k ==> ValueAt(m, bs, i) == ValueAt(l, bs, i)
  {
    hide EncAll, Enc, Compare, Room, Sorted, StartsAt, Over, Padded;
    var base := bs - |l.vals|;
    var at := l.es[k].offs - base;
    OverOwn(l.vals, at, value);
    forall i | 0 <= i < |l.es| && i != k && l.es[i].size > 0
      ensures ValueAt(m, bs, i) == ValueAt(l, bs, i)
    {
      FitsAt(l.es, base, bs, i);
      ApartFrom(l.es, base, bs, k, i);
      OverValue(l.vals, at, Padded(value), l.es[i].offs - base, l.es[i].size);
    }
  }
}
