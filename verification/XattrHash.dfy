/**
 The hashes of attributes and of whole blocks, and what keeps them right.
 */
module XattrHash {
  import opened Arith
  import opened ByteBuffer
  import opened HashMix
  import opened XattrEdit
  import opened XattrLayout
  import opened XattrValue

  /** A byte of a name, as a signed character, in 32 bits. */
  function Signed(c: byte): (v: nat)
    ensures v < MAX32
  {
    if c < 128 then c else 0xFFFF_FF00 + c
  }

  /** The character's value lies between -128 and 127; negative ones wrap around. */
  lemma SignedIs(c: byte) returns (v: int)
    ensures -128 <= v < 128 && v % 256 == c && Signed(c) == v % MAX32
  {
    v := if c < 128 then c else c - 256;
  }

  lemma SignedApart(c: byte, d: byte)
    requires c != d
    ensures Signed(c) != Signed(d)
  {
  }

  function HashName(name: seq<byte>): (h: nat)
    ensures h < MAX32
  {
    if |name| == 0 then 0 else Mix(HashName(name[..|name| - 1]), 5, Signed(name[|name| - 1]))
  }

  /** The words of a value mixed into a hash. */
  function HashWords(hash: nat, v: seq<byte>): (h: nat)
    requires hash < MAX32
    ensures h < MAX32
  {
    if |v| < 4 then hash else Mix(HashWords(hash, v[..|v| - 4]), 16, Get32(v, |v| - 4))
  }

  /** Names that differ in one byte have different hashes. */
  lemma {:induction false} NamesDiffer(s: seq<byte>, t: seq<byte>, j: nat)
    requires j < |s| == |t| && s[j] != t[j] && forall i :: 0 <= i < |s| && i != j ==> s[i] == t[i]
    ensures HashName(s) != HashName(t)
    decreases |s|
  {
    hide Mix, Signed;
    var n := |s| - 1;
    if j == n {
      assert s[..n] == t[..n];
      SignedApart(s[n], t[n]);
      MixKeepsWord(HashName(s[..n]), 5, Signed(s[n]), Signed(t[n]));
    } else {
      NamesDiffer(s[..n], t[..n], j);
      MixKeepsHash(HashName(s[..n]), HashName(t[..n]), 5, Signed(s[n]));
    }
  }

  lemma {:induction false} SeedsDiffer(a: nat, b: nat, v: seq<byte>)
    requires a < MAX32 && b < MAX32 && a != b
    ensures HashWords(a, v) != HashWords(b, v)
    decreases |v|
  {
    hide Mix, Get32;
    if |v| >= 4 {
      SeedsDiffer(a, b, v[..|v| - 4]);
      MixKeepsHash(HashWords(a, v[..|v| - 4]), HashWords(b, v[..|v| - 4]), 16, Get32(v, |v| - 4));
    }
  }

  /** Stretches of whole words that differ in one word have different hashes. */
  lemma {:induction false} WordsDiffer(hash: nat, v: seq<byte>, w: seq<byte>, j: nat)
    requires hash < MAX32 && |v| == |w| && |v| % 4 == 0 && 4 * j + 4 <= |v| && Get32(v, 4 * j) != Get32(w, 4 * j)
    requires forall i :: 0 <= i < |v| && !(4 * j <= i < 4 * j + 4) ==> v[i] == w[i]
    ensures HashWords(hash, v) != HashWords(hash, w)
    decreases |v|
  {
    hide Mix;
    var n := |v| - 4;
    if 4 * j == n {
      assert v[..n] == w[..n];
      MixKeepsWord(HashWords(hash, v[..n]), 16, Get32(v, n), Get32(w, n));
    } else {
      assert Get32(v[..n], 4 * j) == Get32(v, 4 * j) && Get32(w[..n], 4 * j) == Get32(w, 4 * j);
      WordsDiffer(hash, v[..n], w[..n], j);
      assert Get32(v, n) == Get32(w, n);
      MixKeepsHash(HashWords(hash, v[..n]), HashWords(hash, w[..n]), 16, Get32(v, n));
    }
  }

  /** The hashes of names of two characters, with a value of one small word, by hand. */
  lemma HashOfTwo(index: byte, a: byte, b: byte, c: byte, d: byte)
    requires a < 128 && b < 32
    ensures KeyHash(Key(index, [a, b]), [c, d]) == (a * 32 + b) * 65536 + d * 256 + c
  {
    hide Mix;
    Samples();
    MixNothing(5, a);
    MixAppends(a, 5, b);
    assert HashName([a]) == a by { assert [a][..0] == []; }
    assert HashName([a, b]) == a * 32 + b by { assert [a, b][..1] == [a]; }
    var v := Padded([c, d]);
    assert v[..2] == [c, d] && v[0] == c && v[1] == d && v[2] == 0 && v[3] == 0;
    assert Get32(v, 0) == d * 256 + c;
    assert HashWords(a * 32 + b, v[..0]) == a * 32 + b;
    MixAppends(a * 32 + b, 16, Get32(v, 0));
  }

  lemma Samples()
    ensures Pow2(5) == 32 && Pow2(16) == 65536 && Pow2(27) == 134217728
  {
    Pow2Sum(8, 8);
    Pow2Sum(16, 11);
    assert Pow2(11) == 2048;
  }

  /** The hashes of the entries, mixed. */
  function MixedHashes(es: seq<Entry>): (h: nat)
    requires GoodEntries(es)
    ensures h < MAX32
  {
    if |es| == 0 then 0
    else
      assert GoodEntry(es[|es| - 1]);
      Mix(MixedHashes(es[..|es| - 1]), 16, es[|es| - 1].hash)
  }

  /** The mixed hash of two entries with small hashes, by hand. */
  lemma MixedTwo(d: Entry, e: Entry)
    requires GoodEntry(d) && GoodEntry(e) && d.hash < 65536 && e.hash < 65536
    ensures MixedHashes([d, e]) == d.hash * 65536 + e.hash
  {
    hide Mix, GoodEntry;
    Samples();
    MixNothing(16, d.hash);
    assert MixedHashes([d]) == d.hash by { assert [d][..0] == []; }
    assert [d, e][..1] == [d];
    MixAppends(d.hash, 16, e.hash);
  }

  /** The hash of a block: 0, which keeps it from being shared, if an entry's is 0. */
  ghost function SealOf(es: seq<Entry>): (h: nat)
    requires GoodEntries(es)
    ensures h < MAX32
  {
    if exists i :: 0 <= i < |es| && es[i].hash == 0 then 0 else MixedHashes(es)
  }

  /** Blocks that differ in the hash of one entry have different hashes. */
  lemma {:induction false} MixedDiffer(es: seq<Entry>, t: seq<Entry>, j: nat)
    requires GoodEntries(es) && GoodEntries(t) && j < |es| == |t| && es[j].hash != t[j].hash
    requires forall i :: 0 <= i < |es| && i != j ==> es[i].hash == t[i].hash
    ensures MixedHashes(es) != MixedHashes(t)
    decreases |es|
  {
    hide Mix, GoodEntry;
    var n := |es| - 1;
    assert GoodEntry(es[n]) && GoodEntry(t[n]);
    HashInRange(es[n]);
    HashInRange(t[n]);
    if j == n {
      SameMixed(es[..n], t[..n]);
      MixKeepsWord(MixedHashes(es[..n]), 16, es[n].hash, t[n].hash);
    } else {
      MixedDiffer(es[..n], t[..n], j);
      MixKeepsHash(MixedHashes(es[..n]), MixedHashes(t[..n]), 16, es[n].hash);
    }
  }

  lemma HashInRange(e: Entry)
    requires GoodEntry(e)
    ensures e.hash < MAX32
  {
  }

  // ---------- hashes that are right ----------

  /** The room of the i-th value, with what pads it. */
  function Slot(l: Layout, bs: nat, i: nat): seq<byte>
    requires |l.vals| <= bs && i < |l.es|
    requires l.es[i].size > 0 ==> bs - |l.vals| <= l.es[i].offs && l.es[i].offs + Round(l.es[i].size) <= bs
  {
    var e := l.es[i];
    if e.size == 0 then []
    else
      var at := e.offs - (bs - |l.vals|);
      l.vals[at..at + Round(e.size)]
  }

  /** The hash of an attribute: its name and its value, padded to whole words. */
  function KeyHash(key: Key, value: seq<byte>): (h: nat)
    ensures h < MAX32
  {
    HashWords(HashName(key.name), Padded(value))
  }

  lemma WordApart(v: seq<byte>, w: seq<byte>, at: nat, i: nat)
    requires at + 4 <= |v| && at + 4 <= |w| && at <= i < at + 4 && v[i] != w[i]
    ensures Get32(v, at) != Get32(w, at)
  {
    assert v[at + 3] != w[at + 3] || v[at + 2] != w[at + 2] || v[at + 1] != w[at + 1] || v[at] != w[at];
  }

  /** Attributes whose values, or whose names, differ in one byte have different hashes. */
  lemma AttributesDiffer(key: Key, v: seq<byte>, w: seq<byte>, i: nat)
    requires i < |v| == |w| && v[i] != w[i] && forall k :: 0 <= k < |v| && k != i ==> v[k] == w[k]
    ensures KeyHash(key, v) != KeyHash(key, w)
  {
    hide HashWords, HashName, Get32;
    var p, q, j := Padded(v), Padded(w), i / 4;
    PaddedLength(v);
    PaddedLength(w);
    assert 4 * j <= i < 4 * j + 4 <= |p|;
    assert p[i] == v[i] && q[i] == w[i];
    WordApart(p, q, 4 * j, i);
    WordsDiffer(HashName(key.name), p, q, j);
  }

  lemma KeysDiffer(k: Key, l: Key, value: seq<byte>, j: nat)
    requires j < |k.name| == |l.name| && k.name[j] != l.name[j]
    requires forall i :: 0 <= i < |k.name| && i != j ==> k.name[i] == l.name[i]
    ensures KeyHash(k, value) != KeyHash(l, value)
  {
    hide HashWords, HashName;
    NamesDiffer(k.name, l.name, j);
    SeedsDiffer(HashName(k.name), HashName(l.name), Padded(value));
  }

  /** The i-th value lies within the block. */
  predicate Lies(l: Layout, bs: nat, i: nat) {
    && |l.vals| <= bs && i < |l.es|
    && (l.es[i].size > 0 ==> bs - |l.vals| <= l.es[i].offs && l.es[i].offs + Round(l.es[i].size) <= bs)
  }

  lemma LiesAt(l: Layout, bs: nat, i: nat)
    requires WellFormed(l, bs) && i < |l.es|
    ensures Lies(l, bs, i)
  {
    hide EncAll, Compare, Room, Beside, StartsAt, Sorted;
    assert Fits(l.es, l.es[i], bs - |l.vals|, bs);
  }

  /** The i-th value is `value`, padded with zeros. */
  predicate ValueIs(l: Layout, bs: nat, i: nat, value: seq<byte>) {
    Lies(l, bs, i) && l.es[i].size == |value| && Slot(l, bs, i) == Padded(value)
  }

  lemma ValueIsAt(l: Layout, bs: nat, i: nat, value: seq<byte>)
    requires ValueIs(l, bs, i, value)
    ensures Lies(l, bs, i) && ValueAt(l, bs, i) == value
  {
    if l.es[i].size > 0 {
      var at := l.es[i].offs - (bs - |l.vals|);
      assert l.vals[at..at + |value|] == Slot(l, bs, i)[..|value|];
    }
  }

  /** All values are padded with zeros, and all hashes right, but maybe the one of `but`. */
  ghost predicate Hashed(l: Layout, bs: nat, but: Option<Key>) {
    forall i :: 0 <= i < |l.es| ==> HashedAt(l, bs, i, but)
  }

  ghost predicate HashedAt(l: Layout, bs: nat, i: nat, but: Option<Key>) {
    && Lies(l, bs, i) && ValueIs(l, bs, i, ValueAt(l, bs, i))
    && (but == Some(l.es[i].key) || l.es[i].hash == KeyHash(l.es[i].key, ValueAt(l, bs, i)))
  }

  lemma AnyBut(l: Layout, bs: nat, key: Key)
    requires Hashed(l, bs, None)
    ensures Hashed(l, bs, Some(key))
  {
    hide Padded, KeyHash, Lies, ValueIs;
    forall i | 0 <= i < |l.es|
      ensures HashedAt(l, bs, i, Some(key))
    {
      assert HashedAt(l, bs, i, None);
    }
  }

  /** One entry is as another was. */
  lemma SameHashed(l: Layout, m: Layout, bs: nat, i: nat, j: nat, but: Option<Key>)
    requires HashedAt(l, bs, i, but) && Lies(m, bs, j)
    requires m.es[j].key == l.es[i].key && m.es[j].hash == l.es[i].hash && m.es[j].size == l.es[i].size
    requires Slot(m, bs, j) == Slot(l, bs, i)
    ensures HashedAt(m, bs, j, but)
  {
    hide Padded, KeyHash;
    ValueIsAt(m, bs, j, ValueAt(l, bs, i));
  }

  /** The entry of `key` has been given a value. */
  lemma NewHashed(m: Layout, bs: nat, j: nat, key: Key, value: seq<byte>)
    requires ValueIs(m, bs, j, value) && m.es[j].key == key
    ensures HashedAt(m, bs, j, Some(key))
  {
    hide Padded, KeyHash;
    ValueIsAt(m, bs, j, value);
  }

  lemma NoValue(m: Layout, bs: nat, j: nat)
    requires Lies(m, bs, j) && m.es[j].size == 0
    ensures ValueIs(m, bs, j, [])
  {
  }

  lemma SameSlot(l: Layout, m: Layout, bs: nat, i: nat, j: nat)
    requires Lies(l, bs, i) && Lies(m, bs, j) && m.es[j] == l.es[i] && m.vals == l.vals
    ensures Slot(m, bs, j) == Slot(l, bs, i)
  {
  }

  lemma InsertedHashes(l: Layout, bs: nat, k: nat, key: Key)
    requires WellFormed(l, bs) && Hashed(l, bs, Some(key)) && GoodKey(key) && k <= |l.es| && EntryLen(|key.name|) <= l.gap
    requires WellFormed(Inserted(l, k, key), bs)
    ensures Hashed(Inserted(l, k, key), bs, Some(key))
  {
    hide EncAll, KeyHash, Packed, Sorted, Room, HashedAt, Lies, ValueIs;
    var m := Inserted(l, k, key);
    forall j | 0 <= j < |m.es|
      ensures HashedAt(m, bs, j, Some(key))
    {
      LiesAt(m, bs, j);
      if j == k {
        NoValue(m, bs, j);
        NewHashed(m, bs, j, key, []);
      } else {
        var i := if j < k then j else j - 1;
        LiesAt(l, bs, i);
        SameSlot(l, m, bs, i, j);
        SameHashed(l, m, bs, i, j, Some(key));
      }
    }
  }

  lemma RemovedHashes(l: Layout, bs: nat, k: nat, key: Key)
    requires WellFormed(l, bs) && Hashed(l, bs, Some(key)) && k < |l.es| && WellFormed(Removed(l, k), bs)
    ensures Hashed(Removed(l, k), bs, Some(key))
  {
    hide EncAll, KeyHash, Packed, Sorted, Room, HashedAt, Lies, ValueIs;
    var m := Removed(l, k);
    forall j | 0 <= j < |m.es|
      ensures HashedAt(m, bs, j, Some(key))
    {
      var i := if j < k then j else j + 1;
      LiesAt(m, bs, j);
      LiesAt(l, bs, i);
      SameSlot(l, m, bs, i, j);
      SameHashed(l, m, bs, i, j, Some(key));
    }
  }

  lemma CutParts(l: Layout, bs: nat, k: nat, i: nat)
    requires Lies(l, bs, k) && i < |l.es| && i != k && l.es[k].size > 0
    ensures var m, sz, at := Emptied(CutOut(l, bs, k), k), Round(l.es[k].size), l.es[k].offs - (bs - |l.vals|);
            && m.es[i] == (if l.es[i].offs < l.es[k].offs then l.es[i].(offs := l.es[i].offs + sz) else l.es[i])
            && m.vals == l.vals[..at] + l.vals[at + sz..]
  {
    hide Round, Shifted;
  }

  lemma CutSlot(l: Layout, bs: nat, k: nat, i: nat)
    requires Lies(l, bs, k) && Lies(l, bs, i) && i != k && l.es[k].size > 0 && Packed(l.es, bs - |l.vals|, bs)
    requires Lies(Emptied(CutOut(l, bs, k), k), bs, i)
    ensures Slot(Emptied(CutOut(l, bs, k), k), bs, i) == Slot(l, bs, i)
  {
    hide Packed, Round, CutOut, Emptied;
    CutParts(l, bs, k, i);
    if l.es[i].size > 0 {
      var base := bs - |l.vals|;
      ApartFrom(l.es, base, bs, k, i);
      CutValue(l.vals, l.es[k].offs - base, Round(l.es[k].size), l.es[i].offs - base, Round(l.es[i].size));
    }
  }

  lemma CutHashes(l: Layout, bs: nat, k: nat, key: Key)
    requires WellFormed(l, bs) && Hashed(l, bs, Some(key)) && k < |l.es| && l.es[k].size > 0 && l.es[k].key == key
    requires bs - |l.vals| <= l.es[k].offs && l.es[k].offs + Round(l.es[k].size) <= bs
    requires WellFormed(Emptied(CutOut(l, bs, k), k), bs)
    ensures Hashed(Emptied(CutOut(l, bs, k), k), bs, Some(key))
  {
    hide EncAll, KeyHash, Compare, Room, Sorted, Packed, HashedAt, ValueIs, Round;
    var m := Emptied(CutOut(l, bs, k), k);
    forall i | 0 <= i < |m.es|
      ensures HashedAt(m, bs, i, Some(key))
    {
      LiesAt(m, bs, i);
      if i == k {
        NoValue(m, bs, k);
        NewHashed(m, bs, k, key, []);
      } else {
        LiesAt(l, bs, i);
        CutSlot(l, bs, k, i);
        SameHashed(l, m, bs, i, i, Some(key));
      }
    }
  }

  lemma GivenSlot(l: Layout, bs: nat, k: nat, value: seq<byte>, i: nat)
    requires Lies(l, bs, i) && i != k && k < |l.es| && |l.vals| + Round(|value|) <= bs && Round(|value|) <= l.gap
    requires Lies(Given(l, bs, k, value), bs, i)
    ensures Slot(Given(l, bs, k, value), bs, i) == Slot(l, bs, i)
  {
    hide Padded;
    if l.es[i].size > 0 && value != [] {
      var p, from, n := Padded(value), l.es[i].offs - (bs - |l.vals|), Round(l.es[i].size);
      PaddedLength(value);
      assert (p + l.vals)[|p| + from..|p| + from + n] == l.vals[from..from + n];
    }
  }

  lemma PaddedLength(value: seq<byte>)
    ensures |Padded(value)| == Round(|value|) && (value == [] ==> Padded(value) == [])
  {
  }

  lemma GivenOwn(l: Layout, bs: nat, k: nat, value: seq<byte>)
    requires k < |l.es| && |l.vals| + Round(|value|) <= bs && Round(|value|) <= l.gap
    requires Lies(Given(l, bs, k, value), bs, k)
    ensures ValueIs(Given(l, bs, k, value), bs, k, value)
  {
    hide Padded;
    var p := Padded(value);
    PaddedLength(value);
    assert (p + l.vals)[0..|p|] == p;
  }

  lemma GivenHashes(l: Layout, bs: nat, k: nat, key: Key, value: seq<byte>)
    requires WellFormed(l, bs) && Hashed(l, bs, Some(key)) && k < |l.es| && l.es[k].size == 0 && l.es[k].key == key
    requires |l.vals| + Round(|value|) <= bs && Round(|value|) <= l.gap && WellFormed(Given(l, bs, k, value), bs)
    ensures Hashed(Given(l, bs, k, value), bs, Some(key))
  {
    hide EncAll, KeyHash, Compare, Room, Sorted, Packed, HashedAt, Padded, Round, Lies, ValueIs, Slot;
    var m := Given(l, bs, k, value);
    forall i | 0 <= i < |m.es|
      ensures HashedAt(m, bs, i, Some(key))
    {
      LiesAt(m, bs, i);
      if i == k {
        GivenOwn(l, bs, k, value);
        NewHashed(m, bs, k, key, value);
      } else {
        LiesAt(l, bs, i);
        GivenSlot(l, bs, k, value, i);
        SameHashed(l, m, bs, i, i, Some(key));
      }
    }
  }

  lemma OverwrittenHashes(l: Layout, bs: nat, k: nat, key: Key, value: seq<byte>)
    requires WellFormed(l, bs) && Hashed(l, bs, Some(key)) && k < |l.es| && l.es[k].size > 0 && l.es[k].key == key
    requires Round(|value|) == Round(l.es[k].size) && bs - |l.vals| <= l.es[k].offs && l.es[k].offs + Round(|value|) <= bs
    requires WellFormed(Overwritten(l, bs, k, value), bs)
    ensures Hashed(Overwritten(l, bs, k, value), bs, Some(key))
  {
    hide EncAll, KeyHash, Compare, Room, Sorted, StartsAt, HashedAt, Padded, Over;
    var m, p, at := Overwritten(l, bs, k, value), Padded(value), l.es[k].offs - (bs - |l.vals|);
    forall i | 0 <= i < |m.es|
      ensures HashedAt(m, bs, i, Some(key))
    {
      LiesAt(m, bs, i);
      LiesAt(l, bs, i);
      if i == k {
        OverSlot(l.vals, at, p);
        NewHashed(m, bs, k, key, value);
      } else {
        if l.es[i].size > 0 {
          ApartFrom(l.es, bs - |l.vals|, bs, k, i);
          OverValue(l.vals, at, p, l.es[i].offs - (bs - |l.vals|), Round(l.es[i].size));
        }
        SameHashed(l, m, bs, i, i, Some(key));
      }
    }
  }

  lemma OverSlot(vals: seq<byte>, at: nat, p: seq<byte>)
    requires at + |p| <= |vals|
    ensures Over(vals, at, p)[at..at + |p|] == p
  {
    Middle(vals[..at], p, vals[at + |p|..]);
  }

  /** Once the entry of `key` has its hash, all hashes are right. */
  lemma AllHashed(l: Layout, m: Layout, bs: nat, k: nat, key: Key)
    requires WellFormed(l, bs) && WellFormed(m, bs) && Hashed(l, bs, Some(key)) && |m.es| == |l.es| && m.vals == l.vals
    requires forall i :: 0 <= i < |l.es| ==> m.es[i].(hash := 0) == l.es[i].(hash := 0)
    requires forall i :: 0 <= i < |l.es| && i != k ==> l.es[i].key != key && m.es[i].hash == l.es[i].hash
    requires k < |l.es| ==> Lies(l, bs, k) && m.es[k].hash == KeyHash(l.es[k].key, ValueAt(l, bs, k))
    ensures Hashed(m, bs, None)
  {
    hide EncAll, KeyHash, Compare, Room, Sorted, Packed, Padded;
    forall i | 0 <= i < |m.es|
      ensures HashedAt(m, bs, i, None)
    {
      LiesAt(m, bs, i);
      assert HashedAt(l, bs, i, Some(key));
      assert m.es[i].(hash := 0) == l.es[i].(hash := 0);
      assert Slot(m, bs, i) == Slot(l, bs, i) && ValueAt(m, bs, i) == ValueAt(l, bs, i);
    }
  }

  // ---------- equal blocks ----------

  /** Equal but for the header and where the values lie. */
  ghost predicate SameEntries(l: Layout, m: Layout, bs: nat)
    requires WellFormed(l, bs) && WellFormed(m, bs)
  {
    && |l.es| == |m.es|
    && forall i :: 0 <= i < |l.es| ==> SameEntry(l, m, bs, i)
  }

  ghost predicate SameEntry(l: Layout, m: Layout, bs: nat, i: nat)
    requires WellFormed(l, bs) && WellFormed(m, bs) && i < |l.es| && i < |m.es|
  {
    l.es[i].key == m.es[i].key && l.es[i].hash == m.es[i].hash && ValueAt(l, bs, i) == ValueAt(m, bs, i)
  }

  /** Such blocks hold the same attributes. */
  lemma SameAttributes(l: Layout, m: Layout, bs: nat)
    requires WellFormed(l, bs) && WellFormed(m, bs) && SameEntries(l, m, bs)
    ensures forall key: Key :: Attr(l, bs, key) == Attr(m, bs, key)
  {
    hide EncAll, Packed, Sorted, Room, Attr, WellFormed;
    forall key: Key
      ensures Attr(l, bs, key) == Attr(m, bs, key)
    {
      AttrIndex(l, bs, key);
      AttrIndex(m, bs, key);
      var i := Index(l.es, key);
      if i < |l.es| {
        assert SameEntry(l, m, bs, i);
        AttrAt(m, bs, i);
      } else {
        NotAmong(l.es, key);
        forall j | 0 <= j < |m.es|
          ensures m.es[j].key != key
        {
          assert SameEntry(l, m, bs, j);
        }
        NoAttr(m, bs, key);
      }
    }
  }

  predicate Among(es: seq<Entry>, key: Key) {
    exists i :: 0 <= i < |es| && es[i].key == key
  }

  lemma AmongAt(es: seq<Entry>, i: nat)
    requires i < |es|
    ensures Among(es, es[i].key)
  {
  }

  lemma WhereAmong(es: seq<Entry>, key: Key) returns (i: nat)
    requires Among(es, key)
    ensures i < |es| && es[i].key == key
  {
    i :| 0 <= i < |es| && es[i].key == key;
  }

  lemma {:induction false} SortedSame(es: seq<Entry>, t: seq<Entry>)
    requires Sorted(es) && Sorted(t)
    requires forall i :: 0 <= i < |es| ==> Among(t, es[i].key)
    requires forall j :: 0 <= j < |t| ==> Among(es, t[j].key)
    ensures |es| == |t| && forall i :: 0 <= i < |es| ==> es[i].key == t[i].key
    decreases |es|
  {
    hide Compare, Among;
    if |es| > 0 {
      assert Among(t, es[0].key);
      var j := WhereAmong(t, es[0].key);
      SameLast(es, t);
      AmongFirst(es, t);
      AmongFirst(t, es);
      SortedSame(es[..|es| - 1], t[..|t| - 1]);
    } else if |t| > 0 {
      assert Among(es, t[0].key);
      var j := WhereAmong(es, t[0].key);
    }
  }

  /** The last keys are the same. */
  lemma SameLast(es: seq<Entry>, t: seq<Entry>)
    requires |es| > 0 && |t| > 0 && Sorted(es) && Sorted(t)
    requires Among(t, es[|es| - 1].key) && Among(es, t[|t| - 1].key)
    ensures es[|es| - 1].key == t[|t| - 1].key
  {
    hide Compare, Among;
    var e, f := es[|es| - 1].key, t[|t| - 1].key;
    var i := WhereAmong(es, f);
    var j := WhereAmong(t, e);
    if j < |t| - 1 && i < |es| - 1 {
      assert Compare(t[j].key, f) < 0 && Compare(es[i].key, e) < 0;
      CompareSwap(e, f);
    }
  }

  lemma AmongFirst(es: seq<Entry>, t: seq<Entry>)
    requires |es| > 0 && |t| > 0 && Sorted(es) && es[|es| - 1].key == t[|t| - 1].key
    requires forall i :: 0 <= i < |es| ==> Among(t, es[i].key)
    ensures forall i :: 0 <= i < |es| - 1 ==> Among(t[..|t| - 1], es[i].key)
  {
    hide Compare, Among;
    forall i | 0 <= i < |es| - 1
      ensures Among(t[..|t| - 1], es[i].key)
    {
      var j := WhereAmong(t, es[i].key);
      assert Compare(es[i].key, es[|es| - 1].key) < 0;
      AmongAt(t[..|t| - 1], j);
    }
  }

  /** Blocks with the same attributes have the same entries: the order of the
      entries and all hashes follow from the attributes. */
  lemma EqualEntries(l: Layout, m: Layout, bs: nat)
    requires WellFormed(l, bs) && WellFormed(m, bs) && Hashed(l, bs, None) && Hashed(m, bs, None)
    requires forall key: Key :: Attr(l, bs, key) == Attr(m, bs, key)
    ensures SameEntries(l, m, bs)
  {
    hide EncAll, Compare, Room, Packed, Attr, HashedAt, KeyHash, Among;
    AmongBoth(l, m, bs);
    AmongBoth(m, l, bs);
    SortedSame(l.es, m.es);
    forall i | 0 <= i < |l.es|
      ensures SameEntry(l, m, bs, i)
    {
      AttrAt(l, bs, i);
      AttrAt(m, bs, i);
      HashAt(l, bs, i);
      HashAt(m, bs, i);
    }
  }

  lemma HashAt(l: Layout, bs: nat, i: nat)
    requires WellFormed(l, bs) && Hashed(l, bs, None) && i < |l.es|
    ensures l.es[i].hash == KeyHash(l.es[i].key, ValueAt(l, bs, i))
  {
    hide EncAll, Compare, Room, Packed, KeyHash;
    assert HashedAt(l, bs, i, None);
  }

  lemma AmongBoth(l: Layout, m: Layout, bs: nat)
    requires WellFormed(l, bs) && WellFormed(m, bs) && forall key: Key :: Attr(l, bs, key) == Attr(m, bs, key)
    ensures forall i :: 0 <= i < |l.es| ==> Among(m.es, l.es[i].key)
  {
    hide EncAll, Compare, Room, Packed, Sorted, Attr, Among;
    forall i | 0 <= i < |l.es|
      ensures Among(m.es, l.es[i].key)
    {
      AttrAt(l, bs, i);
      AttrIndex(m, bs, l.es[i].key);
      AmongAt(m.es, Index(m.es, l.es[i].key));
    }
  }

  lemma SameSeal(l: Layout, m: Layout, bs: nat)
    requires WellFormed(l, bs) && WellFormed(m, bs) && SameEntries(l, m, bs)
    ensures SealOf(l.es) == SealOf(m.es)
  {
    hide EncAll, Compare, Room, Packed, Sorted, MixedHashes;
    forall i | 0 <= i < |l.es|
      ensures l.es[i].hash == m.es[i].hash
    {
      assert SameEntry(l, m, bs, i);
    }
    SameMixed(l.es, m.es);
  }

  lemma {:induction false} SameMixed(es: seq<Entry>, t: seq<Entry>)
    requires GoodEntries(es) && GoodEntries(t) && |es| == |t| && forall i :: 0 <= i < |es| ==> es[i].hash == t[i].hash
    ensures MixedHashes(es) == MixedHashes(t)
  {
    hide Mix, GoodEntry;
    if |es| > 0 {
      SameMixed(es[..|es| - 1], t[..|t| - 1]);
      assert GoodEntry(es[|es| - 1]) && GoodEntry(t[|t| - 1]);
    }
  }
}
