/**
 The layout of an attribute block: a header, entries sorted by key growing up,
 a gap of zeros that ends the list of entries, and the values packed at the end.
 */
module XattrLayout {
  import opened ByteBuffer

  const HEADER: nat := 32
  const ENTRY: nat := 16

  datatype Option<T> = None | Some(value: T)

  datatype Key = Key(index: byte, name: seq<byte>)

  /** An entry; its value block number is 0. */
  datatype Entry = Entry(key: Key, pad: seq<byte>, offs: nat, size: nat, hash: nat)

  datatype Layout = Layout(hdr: seq<byte>, es: seq<Entry>, gap: nat, vals: seq<byte>)

  /** EXT2_XATTR_SIZE */
  function Round(n: nat): (r: nat)
    ensures n <= r < n + 4 && r % 4 == 0
  {
    (n + 3) / 4 * 4
  }

  /** EXT2_XATTR_LEN */
  function EntryLen(nameLen: nat): (r: nat)
    ensures r == ENTRY + Round(nameLen) && r % 4 == 0
  {
    (nameLen + 3 + ENTRY) / 4 * 4
  }

  predicate GoodEntry(e: Entry) {
    && e.key.index > 0 && |e.key.name| <= 255 && |e.pad| == Round(|e.key.name|) - |e.key.name|
    && e.offs < 0x10000 && e.size < MAX32 && e.hash < MAX32
  }

  function Enc(e: Entry): (s: seq<byte>)
    requires GoodEntry(e)
    ensures |s| == EntryLen(|e.key.name|)
  {
    [|e.key.name|, e.key.index] + LE16(e.offs) + LE32(0) + LE32(e.size) + LE32(e.hash) + e.key.name + e.pad
  }

  predicate GoodEntries(es: seq<Entry>) {
    forall i :: 0 <= i < |es| ==> GoodEntry(es[i])
  }

  function EncAll(es: seq<Entry>): (s: seq<byte>)
    requires GoodEntries(es)
    ensures |s| % 4 == 0
  {
    if |es| == 0 then [] else Enc(es[0]) + EncAll(es[1..])
  }

  lemma {:induction false} EncAllSplit(a: seq<Entry>, b: seq<Entry>)
    requires GoodEntries(a) && GoodEntries(b)
    ensures GoodEntries(a + b) && EncAll(a + b) == EncAll(a) + EncAll(b)
    decreases |a|
  {
    hide Enc, GoodEntry;
    if |a| == 0 {
      assert a + b == b;
    } else {
      EncAllSplit(a[1..], b);
      assert (a + b)[0] == a[0] && (a + b)[1..] == a[1..] + b;
      assert EncAll(a + b) == Enc(a[0]) + (EncAll(a[1..]) + EncAll(b));
    }
  }

  lemma EncAllAt(es: seq<Entry>, k: nat)
    requires GoodEntries(es) && k < |es|
    ensures EncAll(es) == EncAll(es[..k]) + Enc(es[k]) + EncAll(es[k + 1..])
  {
    hide Enc, GoodEntry;
    EncAllSplit(es[..k], es[k..]);
    assert es == es[..k] + es[k..];
    assert es[k..][1..] == es[k + 1..];
    assert EncAll(es[k..]) == Enc(es[k]) + EncAll(es[k + 1..]);
  }

  function Bytes(l: Layout): seq<byte>
    requires GoodEntries(l.es)
  {
    l.hdr + EncAll(l.es) + Zeros(l.gap) + l.vals
  }

  /** Where the k-th entry starts. */
  function Off(es: seq<Entry>, k: nat): nat
    requires GoodEntries(es) && k <= |es|
  {
    HEADER + |EncAll(es[..k])|
  }

  // ---------- keys ----------

  /** The order in which entries are kept: index, length of name, name. */
  function Compare(a: Key, b: Key): (r: int)
    ensures r == 0 <==> a == b
  {
    if a.index != b.index then a.index - b.index
    else if |a.name| != |b.name| then |a.name| - |b.name|
    else MemCmp(a.name, b.name)
  }

  lemma CompareSwap(a: Key, b: Key)
    ensures Compare(a, b) < 0 <==> Compare(b, a) > 0
  {
    if |a.name| == |b.name| {
      MemCmpSwap(a.name, b.name);
    }
  }

  lemma CompareOrder(a: Key, b: Key, c: Key)
    requires Compare(a, b) < 0 && Compare(b, c) < 0
    ensures Compare(a, c) < 0
  {
    if |a.name| == |b.name| == |c.name| && a.index == b.index == c.index {
      MemCmpOrder(a.name, b.name, c.name);
    }
  }

  predicate Sorted(es: seq<Entry>) {
    forall i, j :: 0 <= i < j < |es| ==> Compare(es[i].key, es[j].key) < 0
  }

  /** k is the place of the key: everything before is smaller, and it is there
      or everything from there on is greater. */
  predicate Place(es: seq<Entry>, key: Key, k: nat, found: bool) {
    && k <= |es| && (forall i :: 0 <= i < k ==> Compare(es[i].key, key) < 0)
    && (if found then k < |es| && es[k].key == key
        else forall i :: k <= i < |es| ==> Compare(key, es[i].key) < 0)
  }

  lemma DistinctKeys(es: seq<Entry>, i: nat, j: nat)
    requires Sorted(es) && i < |es| && j < |es| && es[i].key == es[j].key
    ensures i == j
  {
  }

  // ---------- values ----------

  /** A value starts at o, or the block ends there. */
  ghost predicate StartsAt(es: seq<Entry>, o: nat, bs: nat) {
    o == bs || exists j :: 0 <= j < |es| && es[j].size > 0 && es[j].offs == o
  }

  /** The value of one entry lies within [base, bs), and another one or the end
      of the block follows. */
  ghost predicate Fits(es: seq<Entry>, e: Entry, base: nat, bs: nat) {
    if e.size == 0 then e.offs <= bs
    else base <= e.offs && e.offs + Round(e.size) <= bs && StartsAt(es, e.offs + Round(e.size), bs)
  }

  /** The values of two entries do not overlap. */
  predicate Beside(e: Entry, f: Entry) {
    e.size > 0 && f.size > 0 ==> e.offs + Round(e.size) <= f.offs || f.offs + Round(f.size) <= e.offs
  }

  /** The values lie side by side from `base` to the end of the block. */
  ghost predicate Packed(es: seq<Entry>, base: nat, bs: nat) {
    && base <= bs && StartsAt(es, base, bs)
    && (forall i :: 0 <= i < |es| ==> Fits(es, es[i], base, bs))
    && (forall i, j :: 0 <= i < j < |es| ==> Beside(es[i], es[j]))
  }

  /** Room that the values take. */
  function Room(es: seq<Entry>): nat {
    if |es| == 0 then 0 else Room(es[..|es| - 1]) + Round(es[|es| - 1].size)
  }

  ghost predicate WellFormed(l: Layout, bs: nat) {
    && bs % 4 == 0 && bs <= 0x10000
    && |l.hdr| == HEADER && GoodEntries(l.es) && Sorted(l.es) && l.gap >= 4
    && HEADER + |EncAll(l.es)| + l.gap + |l.vals| == bs
    && Packed(l.es, bs - |l.vals|, bs) && Room(l.es) == |l.vals|
  }

  function ValueAt(l: Layout, bs: nat, i: nat): seq<byte>
    requires |l.vals| <= bs && i < |l.es|
    requires l.es[i].size > 0 ==> bs - |l.vals| <= l.es[i].offs && l.es[i].offs + l.es[i].size <= bs
  {
    var e := l.es[i];
    if e.size == 0 then []
    else
      var at := e.offs - (bs - |l.vals|);
      l.vals[at..at + e.size]
  }

  function Index(es: seq<Entry>, key: Key): (k: nat)
    ensures k <= |es| && (k < |es| ==> es[k].key == key) && forall i :: 0 <= i < k ==> es[i].key != key
  {
    if |es| == 0 || es[0].key == key then 0 else 1 + Index(es[1..], key)
  }

  /** The block as a map from keys to values. */
  ghost function Attr(l: Layout, bs: nat, key: Key): Option<seq<byte>>
    requires WellFormed(l, bs)
  {
    var k := Index(l.es, key);
    if k < |l.es| then Some(ValueAt(l, bs, k)) else None
  }

  lemma AttrAt(l: Layout, bs: nat, k: nat)
    requires WellFormed(l, bs) && k < |l.es|
    ensures Attr(l, bs, l.es[k].key) == Some(ValueAt(l, bs, k))
  {
    DistinctKeys(l.es, Index(l.es, l.es[k].key), k);
  }

  lemma AttrPlace(l: Layout, bs: nat, key: Key, k: nat, found: bool)
    requires WellFormed(l, bs) && Place(l.es, key, k, found)
    ensures Attr(l, bs, key) == if found then Some(ValueAt(l, bs, k)) else None
  {
    if found {
      AttrAt(l, bs, k);
    }
  }
}
