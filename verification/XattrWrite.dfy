/**
 The edits of an attribute block, byte by byte, each proved to turn the bytes of
 one layout into those of the next.
 */
module XattrWrite {
  import opened XattrBlock
  import opened ByteBuffer
  import opened XattrEdit
  import opened XattrLayout
  import opened XattrValue

  // ---------- overwriting ----------

  lemma OverPart(x: seq<byte>, f: seq<byte>, y: seq<byte>, g: seq<byte>, s: seq<byte>)
    requires s == x + f + y && |g| == |f|
    ensures |x| + |g| <= |s| && Over(s, |x|, g) == x + g + y
  {
    OverMiddle(x, f, y, g);
  }

  lemma EncFields(e: Entry, o: nat, n: nat, h: nat)
    requires GoodEntry(e) && o < 0x10000 && n < MAX32 && h < MAX32
    ensures Over(Enc(e), 2, LE16(o)) == Enc(e.(offs := o))
    ensures Over(Enc(e), 8, LE32(n)) == Enc(e.(size := n))
    ensures Over(Enc(e), 12, LE32(h)) == Enc(e.(hash := h))
  {
    hide Over, LE16, LE32;
    var x, y := [|e.key.name| as byte, e.key.index], e.key.name + e.pad;
    OverPart(x, LE16(e.offs), LE32(0) + LE32(e.size) + LE32(e.hash) + y, LE16(o), Enc(e));
    OverPart(x + LE16(e.offs) + LE32(0), LE32(e.size), LE32(e.hash) + y, LE32(n), Enc(e));
    OverPart(x + LE16(e.offs) + LE32(0) + LE32(e.size), LE32(e.hash), y, LE32(h), Enc(e));
  }

  /** Entry k changed to e in place, nothing else. */
  function With(l: Layout, k: nat, e: Entry): Layout
    requires k < |l.es|
  {
    l.(es := l.es[k := e])
  }

  lemma WithAround(l: Layout, bs: nat, k: nat, e: Entry)
    requires Readable(l, bs) && k < |l.es| && GoodEntry(e) && e.key == l.es[k].key
    ensures Readable(With(l, k, e), bs)
    ensures Bytes(With(l, k, e)) == (l.hdr + EncAll(l.es[..k])) + Enc(e) + (EncAll(l.es[k + 1..]) + Zeros(l.gap) + l.vals)
  {
    hide Enc, EncAll, GoodEntry;
    var m := With(l, k, e);
    EncAllLength(l.es, m.es);
    Around(m, bs, k);
    assert m.es[..k] == l.es[..k] && m.es[k + 1..] == l.es[k + 1..];
  }

  lemma FieldsWritten(l: Layout, bs: nat, k: nat, o: nat, n: nat, h: nat)
    requires Readable(l, bs) && k < |l.es| && o < 0x10000 && n < MAX32 && h < MAX32
    ensures var s, at, e := Bytes(l), Off(l.es, k), l.es[k];
            && |s| == bs && at + ENTRY <= bs
            && Readable(With(l, k, e.(offs := o)), bs) && Over(s, at + 2, LE16(o)) == Bytes(With(l, k, e.(offs := o)))
            && Readable(With(l, k, e.(size := n)), bs) && Over(s, at + 8, LE32(n)) == Bytes(With(l, k, e.(size := n)))
            && Readable(With(l, k, e.(hash := h)), bs) && Over(s, at + 12, LE32(h)) == Bytes(With(l, k, e.(hash := h)))
  {
    hide Enc, EncAll, Over, Bytes, LE16, LE32;
    var e := l.es[k];
    EntryAt(l, bs, k);
    Around(l, bs, k);
    EncFields(e, o, n, h);
    EncLength(e);
    WithAround(l, bs, k, e.(offs := o));
    WithAround(l, bs, k, e.(size := n));
    WithAround(l, bs, k, e.(hash := h));
    var a, c := l.hdr + EncAll(l.es[..k]), EncAll(l.es[k + 1..]) + Zeros(l.gap) + l.vals;
    OverInside(a, Enc(e), c, 2, LE16(o));
    OverInside(a, Enc(e), c, 8, LE32(n));
    OverInside(a, Enc(e), c, 12, LE32(h));
  }

  method PutOffs(b: array<byte>, at: nat, o: nat, ghost l: Layout, ghost k: nat)
    requires Readable(l, b.Length) && b[..] == Bytes(l) && k < |l.es| && at == Off(l.es, k) && o < 0x10000
    modifies b
    ensures var m := With(l, k, l.es[k].(offs := o)); Readable(m, b.Length) && b[..] == Bytes(m)
  {
    hide Bytes, Off, Over, EncAll, Enc;
    FieldsWritten(l, b.Length, k, o, 0, 0);
    MemCopy(b, at + 2, LE16(o));
  }

  method PutSize(b: array<byte>, at: nat, n: nat, ghost l: Layout, ghost k: nat)
    requires Readable(l, b.Length) && b[..] == Bytes(l) && k < |l.es| && at == Off(l.es, k) && n < MAX32
    modifies b
    ensures var m := With(l, k, l.es[k].(size := n)); Readable(m, b.Length) && b[..] == Bytes(m)
  {
    hide Bytes, Off, Over, EncAll, Enc;
    FieldsWritten(l, b.Length, k, 0, n, 0);
    MemCopy(b, at + 8, LE32(n));
  }

  // ---------- names ----------

  /** Zeroed room turned into an entry without a value. */
  lemma NewEntryBytes(key: Key)
    requires GoodKey(key)
    ensures var n := |key.name|;
            Over(Over(Over(Zeros(EntryLen(n)), 1, [key.index]), 0, [n]), ENTRY, key.name) == Enc(NewEntry(key))
  {
    hide Over, Zeros, Enc;
    var n, e, len := |key.name|, NewEntry(key), [|key.name| as byte];
    var z14, zn, pad := Zeros(14), Zeros(n), Zeros(Round(n) - n);
    ZeroParts(n);
    var s0 := Zeros(EntryLen(n));
    OverPart([0], [0], z14 + zn + pad, [key.index], s0);
    var s1 := Over(s0, 1, [key.index]);
    OverPart([], [0], [key.index] + z14 + zn + pad, len, s1);
    var s2 := Over(s1, 0, len);
    OverPart(len + [key.index] + z14, zn, pad, key.name, s2);
    NewEnc(key);
  }

  lemma ZeroParts(n: nat)
    ensures Zeros(EntryLen(n)) == [0] + [0] + (Zeros(14) + Zeros(n) + Zeros(Round(n) - n))
  {
    ZerosAre([0] + [0] + (Zeros(14) + Zeros(n) + Zeros(Round(n) - n)));
  }

  lemma NewEnc(key: Key)
    requires GoodKey(key)
    ensures Enc(NewEntry(key)) ==
            [|key.name| as byte] + [key.index] + Zeros(14) + key.name + Zeros(Round(|key.name|) - |key.name|)
  {
    hide Zeros;
    ZerosAre(LE16(0) + LE32(0) + LE32(0) + LE32(0));
  }

  /** memmove and memset that open a gap of `size` bytes before e2. */
  lemma OpenGap(p: seq<byte>, e2: seq<byte>, size: nat, r: seq<byte>, s: seq<byte>)
    requires s == p + e2 + (Zeros(size) + r)
    ensures |s| == |p| + |e2| + size + |r| && s[|p|..|p| + |e2|] == e2
    ensures Over(Over(s, |p| + size, e2), |p|, Zeros(size)) == p + Zeros(size) + (e2 + r)
  {
    hide Over, Zeros;
    var y := e2 + Zeros(size);
    Middle(p, e2, Zeros(size) + r);
    OverPart(p + y[..size], y[size..], r, e2, s);
    OverPart(p, y[..size], e2 + r, Zeros(size), p + y[..size] + e2 + r);
  }

  /** memmove and memset that close the gap left by x before e2; z is zeros. */
  lemma CloseGap(p: seq<byte>, x: seq<byte>, e2: seq<byte>, r: seq<byte>, s: seq<byte>, z: seq<byte>) returns (s2: seq<byte>)
    requires s == p + x + (e2 + r) && |z| == |x|
    ensures |p| + |e2| + |z| <= |s| && s2 == Over(Over(s, |p|, e2), |p| + |e2|, z)
    ensures s2 == p + e2 + (z + r)
  {
    hide Over;
    var y := MovedDown(p, x, e2, r, s);
    OverEnd(Over(s, |p|, e2), p + e2, y, r, |p| + |e2|, z);
    s2 := p + e2 + (z + r);
  }

  lemma MovedDown(p: seq<byte>, x: seq<byte>, e2: seq<byte>, r: seq<byte>, s: seq<byte>) returns (y: seq<byte>)
    requires s == p + x + (e2 + r)
    ensures |y| == |x| && |p| + |e2| <= |s| && Over(s, |p|, e2) == (p + e2) + y + r
  {
    y := (x + e2)[|e2|..];
    hide Over;
    Regroup(p, x, e2, r);
    OverMiddle(p, (x + e2)[..|e2|], (x + e2)[|e2|..] + r, e2);
  }

  lemma OverEnd(s: seq<byte>, p: seq<byte>, y: seq<byte>, r: seq<byte>, at: nat, z: seq<byte>)
    requires s == p + y + r && at == |p| && |z| == |y|
    ensures at + |z| <= |s| && Over(s, at, z) == p + (z + r)
  {
    OverMiddle(p, y, r, z);
    assert p + z + r == p + (z + r);
  }

  lemma MiddleAfter(p: seq<byte>, x: seq<byte>, e2: seq<byte>, r: seq<byte>)
    ensures (p + x + (e2 + r))[|p| + |x|..|p| + |x| + |e2|] == e2
  {
  }

  lemma Regroup(p: seq<byte>, x: seq<byte>, e2: seq<byte>, r: seq<byte>)
    ensures p + x + (e2 + r) == p + (x + e2)[..|e2|] + ((x + e2)[|e2|..] + r)
  {
    var y := x + e2;
    assert y[..|e2|] + y[|e2|..] == y;
    assert p + x + (e2 + r) == p + y + r;
  }

  lemma InsertBytes(l: Layout, bs: nat, k: nat, key: Key, s1: seq<byte>, s2: seq<byte>)
    requires Readable(l, bs) && GoodKey(key) && k <= |l.es| && EntryLen(|key.name|) + 4 <= l.gap
    requires var here, last, size := Off(l.es, k), Off(l.es, |l.es|), EntryLen(|key.name|);
             && here <= last && last + size <= bs == |Bytes(l)|
             && s1 == Over(Bytes(l), here + size, Bytes(l)[here..last])
             && s2 == Over(s1, here, Zeros(size))
    ensures var here, size := Off(l.es, k), EntryLen(|key.name|);
            && Readable(Inserted(l, k, key), bs)
            && |s2| == bs && here + size <= bs
            && Over(Over(Over(s2, here + 1, [key.index]), here, [|key.name|]), here + ENTRY, key.name) == Bytes(Inserted(l, k, key))
  {
    hide Enc, EncAll, Over, GoodEntry, Zeros;
    var size := EntryLen(|key.name|);
    var p, e2, r := l.hdr + EncAll(l.es[..k]), EncAll(l.es[k..]), Zeros(l.gap - size) + l.vals;
    assert l.es[..|l.es|] == l.es == l.es[..k] + l.es[k..];
    EncAllSplit(l.es[..k], l.es[k..]);
    ZerosSplit(size, l.gap - size);
    OpenGap(p, e2, size, r, Bytes(l));
    WriteEntry(p, e2 + r, key);
    InsertedBytes(l, bs, k, key);
  }

  lemma WriteEntry(p: seq<byte>, r: seq<byte>, key: Key)
    requires GoodKey(key)
    ensures var size := EntryLen(|key.name|);
            Over(Over(Over(p + Zeros(size) + r, |p| + 1, [key.index]), |p|, [|key.name|]), |p| + ENTRY, key.name)
            == p + Enc(NewEntry(key)) + r
  {
    hide Enc, Over;
    var z0, n := Zeros(EntryLen(|key.name|)), |key.name| as byte;
    OverInside(p, z0, r, 1, [key.index]);
    var z1 := Over(z0, 1, [key.index]);
    OverInside(p, z1, r, 0, [n]);
    var z2 := Over(z1, 0, [n]);
    OverInside(p, z2, r, ENTRY, key.name);
    NewEntryBytes(key);
  }

  lemma InsertedBytes(l: Layout, bs: nat, k: nat, key: Key)
    requires Readable(l, bs) && GoodKey(key) && k <= |l.es| && EntryLen(|key.name|) + 4 <= l.gap
    ensures var m := Inserted(l, k, key);
            && Readable(m, bs)
            && Bytes(m) == (l.hdr + EncAll(l.es[..k])) + Enc(NewEntry(key))
                           + (EncAll(l.es[k..]) + (Zeros(l.gap - EntryLen(|key.name|)) + l.vals))
  {
    hide Enc, EncAll, GoodEntry;
    var m, e := Inserted(l, k, key), NewEntry(key);
    assert GoodEntry(e);
    OneMoreSizes(l.es, k, e);
    assert m.es[..k] == l.es[..k] && m.es[k + 1..] == l.es[k..] && m.es[k] == e;
    Around(m, bs, k);
  }

  /** Insert the new name. */
  method InsertNameAt(b: array<byte>, here: nat, last: nat, key: Key, ghost l: Layout, ghost k: nat)
    requires Readable(l, b.Length) && b[..] == Bytes(l) && GoodKey(key) && k <= |l.es|
    requires here == Off(l.es, k) && last == Off(l.es, |l.es|) && EntryLen(|key.name|) + 4 <= l.gap
    modifies b
    ensures Readable(Inserted(l, k, key), b.Length) && b[..] == Bytes(Inserted(l, k, key))
  {
    hide Bytes, Off, Over, EncAll, Enc, EntryLen;
    Ends(l, b.Length, k);
    var size, rest := EntryLen(|key.name|), last - here;
    assert b[here..here + rest] == b[..][here..last];
    MemMove(b, here + size, here, rest);
    ghost var s1 := b[..];
    MemClear(b, here, size);
    InsertBytes(l, b.Length, k, key, s1, b[..]);
    MemCopy(b, here + 1, [key.index]);
    MemCopy(b, here, [|key.name|]);
    MemCopy(b, here + ENTRY, key.name);
  }

  lemma Ends(l: Layout, bs: nat, k: nat)
    requires Readable(l, bs) && k <= |l.es|
    ensures Off(l.es, k) <= Off(l.es, |l.es|) && Off(l.es, |l.es|) + l.gap + |l.vals| == bs == |Bytes(l)|
  {
    hide Enc, GoodEntry;
    assert l.es[..|l.es|] == l.es == l.es[..k] + l.es[k..];
    EncAllSplit(l.es[..k], l.es[k..]);
  }

  lemma RemoveBytes(l: Layout, bs: nat, k: nat, s1: seq<byte>)
    requires Readable(l, bs) && k < |l.es|
    requires var here, last, size := Off(l.es, k), Off(l.es, |l.es|) - EntryLen(|l.es[k].key.name|), EntryLen(|l.es[k].key.name|);
             && 0 <= here <= last && last + size <= bs == |Bytes(l)|
             && s1 == Over(Bytes(l), here, Bytes(l)[here + size..last + size])
    ensures var last, size := Off(l.es, |l.es|) - EntryLen(|l.es[k].key.name|), EntryLen(|l.es[k].key.name|);
            Readable(Removed(l, k), bs) && Over(s1, last, Zeros(size)) == Bytes(Removed(l, k))
  {
    hide Enc, EncAll, Over, GoodEntry, Zeros;
    var e := l.es[k];
    Around(l, bs, k);
    EncLength(e);
    assert l.es[..|l.es|] == l.es;
    EncAllAt(l.es, k);
    EncAllSplit(l.es[..k], l.es[k + 1..]);
    var p, e2, r := l.hdr + EncAll(l.es[..k]), EncAll(l.es[k + 1..]), Zeros(l.gap) + l.vals;
    MiddleAfter(p, Enc(e), e2, r);
    var s2 := CloseGap(p, Enc(e), e2, r, Bytes(l), Zeros(|Enc(e)|));
    ZerosSplit(|Enc(e)|, l.gap);
  }

  /** Remove the old name. */
  method RemoveNameAt(b: array<byte>, here: nat, end: nat, nameLen: nat, ghost l: Layout, ghost k: nat)
    requires Readable(l, b.Length) && b[..] == Bytes(l) && k < |l.es| && nameLen == |l.es[k].key.name|
    requires here == Off(l.es, k) && end == Off(l.es, |l.es|)
    modifies b
    ensures Readable(Removed(l, k), b.Length) && b[..] == Bytes(Removed(l, k))
  {
    hide Bytes, Off, Over, EncAll, Enc, EntryLen;
    Ends(l, b.Length, k + 1);
    EntryAt(l, b.Length, k);
    var size := EntryLen(nameLen);
    var last := end - size;
    assert b[here + size..here + size + (last - here)] == b[..][here + size..last + size];
    MemMove(b, here, here + size, last - here);
    RemoveBytes(l, b.Length, k, b[..]);
    MemClear(b, last, size);
  }

  // ---------- values ----------

  /** The bytes before the values. */
  function Head(l: Layout): seq<byte>
    requires GoodEntries(l.es)
  {
    l.hdr + EncAll(l.es) + Zeros(l.gap)
  }

  /** The k-th value cut out of the values and the gap widened, the entries as
      they were. */
  function Squeezed(l: Layout, at: nat, sz: nat): Layout
    requires at + sz <= |l.vals|
  {
    l.(gap := l.gap + sz, vals := l.vals[..at] + l.vals[at + sz..])
  }

  lemma SqueezeBytes(l: Layout, bs: nat, at: nat, sz: nat, s1: seq<byte>)
    requires Readable(l, bs) && at + sz <= |l.vals| && |Bytes(l)| == bs
    requires var base := bs - |l.vals|; s1 == Over(Bytes(l), base + sz, Bytes(l)[base..base + at])
    ensures Readable(Squeezed(l, at, sz), bs)
    ensures Over(s1, bs - |l.vals|, Zeros(sz)) == Bytes(Squeezed(l, at, sz))
  {
    hide EncAll, Over, GoodEntry, Zeros, Head;
    var q, v1, x, v2 := Head(l), l.vals[..at], l.vals[at..at + sz], l.vals[at + sz..];
    HeadAndValues(l, bs, at, sz);
    MovedUp(q, v1, x, v2);
    SqueezedHead(l, at, sz);
  }

  lemma HeadAndValues(l: Layout, bs: nat, at: nat, sz: nat)
    requires Readable(l, bs) && at + sz <= |l.vals|
    ensures |Head(l)| == bs - |l.vals|
    ensures Bytes(l) == Head(l) + l.vals[..at] + (l.vals[at..at + sz] + l.vals[at + sz..])
  {
    hide EncAll, GoodEntry, Zeros;
    assert l.vals == l.vals[..at] + (l.vals[at..at + sz] + l.vals[at + sz..]);
  }

  lemma SqueezedHead(l: Layout, at: nat, sz: nat)
    requires GoodEntries(l.es) && at + sz <= |l.vals|
    ensures Bytes(Squeezed(l, at, sz)) == Head(l) + Zeros(sz) + (l.vals[..at] + l.vals[at + sz..])
  {
    hide EncAll, GoodEntry, Zeros;
    ZerosSplit(l.gap, sz);
    Reassoc(l.hdr, EncAll(l.es), Zeros(l.gap), Zeros(sz));
  }

  lemma MovedUp(q: seq<byte>, v1: seq<byte>, x: seq<byte>, v2: seq<byte>)
    ensures var s := q + v1 + (x + v2);
            && |s| == |q| + |v1| + |x| + |v2| && s[|q|..|q| + |v1|] == v1
            && Over(Over(s, |q| + |x|, v1), |q|, Zeros(|x|)) == q + Zeros(|x|) + (v1 + v2)
  {
    hide Over, Zeros;
    Middle(q, v1, x + v2);
    MovedUpFirst(q, v1, x, v2);
    OverMiddle(q, (v1 + x)[..|x|], v1 + v2, Zeros(|x|));
  }

  lemma MovedUpFirst(q: seq<byte>, v1: seq<byte>, x: seq<byte>, v2: seq<byte>)
    ensures Over(q + v1 + (x + v2), |q| + |x|, v1) == q + (v1 + x)[..|x|] + (v1 + v2)
  {
    hide Over;
    var y := v1 + x;
    RegroupUp(q, v1, x, v2);
    OverMiddle(q + y[..|x|], y[|x|..], v2, v1);
    Reassoc(q, y[..|x|], v1, v2);
  }

  lemma RegroupUp(q: seq<byte>, v1: seq<byte>, x: seq<byte>, v2: seq<byte>)
    ensures q + v1 + (x + v2) == q + (v1 + x)[..|x|] + (v1 + x)[|x|..] + v2
  {
    var y := v1 + x;
    assert y[..|x|] + y[|x|..] == y;
    assert q + v1 + (x + v2) == q + y + v2;
  }

  lemma Reassoc(a: seq<byte>, b: seq<byte>, c: seq<byte>, d: seq<byte>)
    ensures a + b + c + d == a + b + (c + d)
  {
  }

  /** Shift one value's offset, if the value moved. */
  method ShiftOne(b: array<byte>, at: nat, offs: nat, size: nat, ghost l: Layout, ghost i: nat) returns (ghost m: Layout)
    requires Readable(l, b.Length) && b[..] == Bytes(l) && offs + size <= 0x10000 && i < |l.es| && at == Off(l.es, i)
    modifies b
    ensures m == With(l, i, if l.es[i].offs < offs then l.es[i].(offs := l.es[i].offs + size) else l.es[i])
    ensures Readable(m, b.Length) && b[..] == Bytes(m) && Off(m.es, i) == at
    ensures at < b.Length && Off(m.es, i + 1) == at + EntryLen(b[at])
  {
    hide Bytes, EncAll, Enc, Get16, Get32, EntryLen, Off;
    ReadEntry(l, b.Length, i);
    m := l;
    assert With(l, i, l.es[i]) == l;
    var o := Get16(b[..], at + 2);
    if Get32(b[..], at + 4) == 0 && o < offs {
      PutOffs(b, at, o + size, l, i);
      m := With(l, i, l.es[i].(offs := o + size));
    }
    SameOffs(l, m, m, b.Length, i);
    ReadEntry(m, b.Length, i);
  }

  /** Shift the offsets of the values that moved: the walk over all entries. */
  method ShiftOffsets(b: array<byte>, offs: nat, size: nat, ghost l: Layout) returns (last: nat)
    requires b.Length % 4 == 0 && Readable(l, b.Length) && b[..] == Bytes(l) && offs + size <= 0x10000
    modifies b
    ensures var m := l.(es := Shifted(l.es, offs, size)); Readable(m, b.Length) && b[..] == Bytes(m)
    ensures last == Off(l.es, |l.es|)
  {
    hide Bytes, EncAll, Enc, IsLast, Get16, Get32, EntryLen, Shifted, GoodEntry, Off;
    last := HEADER;
    ghost var i := 0;
    ghost var m := l;
    ShiftNone(l, b.Length, offs, size);
    while !IsLast(b[..], last)
      invariant last + 4 <= b.Length && i <= |l.es|
      invariant m == l.(es := Shifted(l.es[..i], offs, size) + l.es[i..])
      invariant Readable(m, b.Length) && b[..] == Bytes(m) && last == Off(m.es, i)
      invariant IsLast(b[..], last) <==> i == |l.es|
      decreases |l.es| - i
    {
      assert m.es[i] == l.es[i];
      ghost var was := m;
      m := ShiftOne(b, last, offs, size, m, i);
      ShiftNext(l, was, m, offs, size, i);
      last := last + EntryLen(b[last]);
      i := i + 1;
      ReadNext(m, b.Length, i);
    }
    ShiftDone(l, m, b.Length, offs, size);
  }

  lemma ReadEntry(l: Layout, bs: nat, k: nat)
    requires Readable(l, bs) && k < |l.es|
    ensures var s, at, e := Bytes(l), Off(l.es, k), l.es[k];
            && |s| == bs && at + ENTRY <= bs
            && Get16(s, at + 2) == e.offs && Get32(s, at + 4) == 0 && Off(l.es, k + 1) == at + EntryLen(s[at])
            && e.offs < 0x10000
  {
    hide Enc, EncAll, Bytes, Off, Get16, Get32, EntryLen;
    EntryAt(l, bs, k);
    assert GoodEntry(l.es[k]);
  }

  lemma ReadNext(l: Layout, bs: nat, k: nat)
    requires Readable(l, bs) && k <= |l.es|
    ensures var s, at := Bytes(l), Off(l.es, k);
            |s| == bs && at % 4 == 0 && at + 4 <= bs && (IsLast(s, at) <==> k == |l.es|)
  {
    hide Enc, EncAll, Bytes, Off, Get16, Get32, EntryLen, IsLast;
    EndAt(l, bs);
    if k < |l.es| {
      EntryAt(l, bs, k);
    }
  }

  lemma ShiftNone(l: Layout, bs: nat, offs: nat, size: nat)
    requires Readable(l, bs)
    ensures l == l.(es := Shifted(l.es[..0], offs, size) + l.es[0..]) && Off(l.es, 0) == HEADER
    ensures |Bytes(l)| == bs && HEADER % 4 == 0 && HEADER + 4 <= bs && (IsLast(Bytes(l), HEADER) <==> 0 == |l.es|)
  {
    hide Bytes, IsLast, Shifted;
    EncNone();
    assert Shifted(l.es[..0], offs, size) == [];
    assert l.es[0..] == l.es;
    ReadNext(l, bs, 0);
  }

  lemma ShiftNext(l: Layout, was: Layout, m: Layout, offs: nat, size: nat, i: nat)
    requires i < |l.es| && was == l.(es := Shifted(l.es[..i], offs, size) + l.es[i..])
    requires m == With(was, i, if l.es[i].offs < offs then l.es[i].(offs := l.es[i].offs + size) else l.es[i])
    ensures m == l.(es := Shifted(l.es[..i + 1], offs, size) + l.es[i + 1..])
  {
    assert l.es[..i + 1][..i] == l.es[..i];
  }

  lemma ShiftDone(l: Layout, m: Layout, bs: nat, offs: nat, size: nat)
    requires m == l.(es := Shifted(l.es[..|l.es|], offs, size) + l.es[|l.es|..]) && Readable(m, bs) && Readable(l, bs)
    ensures m == l.(es := Shifted(l.es, offs, size)) && Off(m.es, |l.es|) == Off(l.es, |l.es|)
  {
    hide EncAll, Shifted;
    assert l.es[..|l.es|] == l.es && l.es[|l.es|..] == [];
    assert m.es == Shifted(l.es, offs, size);
    assert m.es[..|l.es|] == m.es;
    EncAllLength(l.es, m.es);
  }

  /** Remove the old value of the k-th entry. */
  method RemoveValueAt(b: array<byte>, here: nat, minOffs: nat, ghost l: Layout, ghost k: nat)
    returns (last: nat, lowest: nat)
    requires b.Length % 4 == 0 && b.Length <= 0x10000 && Readable(l, b.Length) && b[..] == Bytes(l)
    requires k < |l.es| && here == Off(l.es, k) && minOffs == b.Length - |l.vals|
    requires l.es[k].size > 0 && minOffs <= l.es[k].offs && l.es[k].offs + Round(l.es[k].size) <= b.Length
    modifies b
    ensures var m := CutOut(l, b.Length, k);
            && Readable(m, b.Length) && b[..] == Bytes(m)
            && last == Off(m.es, |m.es|) && here == Off(m.es, k) && lowest == b.Length - |m.vals|
  {
    hide Bytes, Over, EncAll, Enc, Get16, Get32, EntryLen, Readable, Shifted, Off, CutOut;
    EntryAt(l, b.Length, k);
    Ends(l, b.Length, k);
    var offs := Get16(b[..], here + 2);
    var size := Round(Get32(b[..], here + 8));
    ghost var at := offs - minOffs;
    assert b[minOffs..minOffs + at] == b[..][minOffs..offs];
    MemMove(b, minOffs + size, minOffs, offs - minOffs);
    SqueezeBytes(l, b.Length, at, size, b[..]);
    MemClear(b, minOffs, size);
    ghost var l1 := Squeezed(l, at, size);
    PutOffs(b, here, 0, l1, k);
    ghost var l2 := With(l1, k, l1.es[k].(offs := 0));
    last := ShiftOffsets(b, offs, size, l2);
    lowest := minOffs + size;
    CutInSteps(l, b.Length, k);
    CutOffs(l, l2, b.Length, k);
  }

  /** Squeezing the values, dropping the offset and shifting the others cut a value out. */
  lemma CutInSteps(l: Layout, bs: nat, k: nat)
    requires k < |l.es| && |l.vals| <= bs && l.es[k].size > 0
    requires bs - |l.vals| <= l.es[k].offs && l.es[k].offs + Round(l.es[k].size) <= bs
    ensures var l1 := Squeezed(l, l.es[k].offs - (bs - |l.vals|), Round(l.es[k].size));
            var l2 := With(l1, k, l1.es[k].(offs := 0));
            CutOut(l, bs, k) == l2.(es := Shifted(l2.es, l.es[k].offs, Round(l.es[k].size)))
            && |CutOut(l, bs, k).vals| == |l.vals| - Round(l.es[k].size)
  {
  }

  lemma CutOffs(l: Layout, l2: Layout, bs: nat, k: nat)
    requires Readable(l, bs) && Readable(l2, bs) && k < |l.es| && |l.vals| <= bs && l.es[k].size > 0
    requires bs - |l.vals| <= l.es[k].offs && l.es[k].offs + Round(l.es[k].size) <= bs
    requires l2.es == l.es[k := l.es[k].(offs := 0)] && Readable(CutOut(l, bs, k), bs)
    ensures var m := CutOut(l, bs, k);
            Off(m.es, k) == Off(l.es, k) && Off(m.es, |m.es|) == Off(l2.es, |l2.es|)
  {
    hide Off, EncAll, Readable;
    SameOffs(l, CutOut(l, bs, k), l2, bs, k);
  }

  lemma SameOffs(l: Layout, m: Layout, l2: Layout, bs: nat, k: nat)
    requires Readable(l, bs) && Readable(m, bs) && Readable(l2, bs) && k <= |l.es| == |m.es| == |l2.es|
    requires forall i :: 0 <= i < |l.es| ==> m.es[i].key == l.es[i].key && l2.es[i].key == l.es[i].key
    ensures Off(m.es, k) == Off(l.es, k) && Off(m.es, |m.es|) == Off(l2.es, |l2.es|)
  {
    hide EncAll;
    EncAllLength(l.es[..k], m.es[..k]);
    assert l2.es[..|l2.es|] == l2.es && m.es[..|m.es|] == m.es;
    EncAllLength(l2.es, m.es);
  }

  /** Clearing the last word and copying the value in leaves it padded with zeros. */
  lemma PaddedIn(x: seq<byte>, value: seq<byte>)
    requires |x| == Round(|value|) > 0
    ensures Over(Over(x, |x| - 4, Zeros(4)), 0, value) == Padded(value)
  {
    var y := Over(x, |x| - 4, Zeros(4));
    forall i | |value| <= i < |x|
      ensures y[i] == 0
    {
    }
    ZerosAre(y[|value|..]);
  }

  lemma SlotWritten(q: seq<byte>, x: seq<byte>, r: seq<byte>, value: seq<byte>)
    requires |x| == Round(|value|) > 0
    ensures Over(Over(q + x + r, |q| + |x| - 4, Zeros(4)), |q|, value) == q + Padded(value) + r
  {
    hide Over, Zeros, Padded;
    OverInside(q, x, r, |x| - 4, Zeros(4));
    OverInside(q, Over(x, |x| - 4, Zeros(4)), r, 0, value);
    PaddedIn(x, value);
  }

  lemma GivenBytes(l: Layout, bs: nat, k: nat, value: seq<byte>)
    requires Readable(l, bs) && k < |l.es| && value != [] && Round(|value|) + 4 <= l.gap
    requires l.es[k].size == |value| && l.es[k].offs == bs - |l.vals| - Round(|value|)
    ensures var m := l.(gap := l.gap - Round(|value|), vals := Padded(value) + l.vals);
            var val := bs - |l.vals| - Round(|value|);
            && Readable(m, bs) && |Bytes(l)| == bs
            && Over(Over(Bytes(l), val + Round(|value|) - 4, Zeros(4)), val, value) == Bytes(m)
  {
    hide EncAll, Over, GoodEntry, Zeros, Padded;
    var size := Round(|value|);
    var q := l.hdr + EncAll(l.es) + Zeros(l.gap - size);
    ZerosSplit(l.gap - size, size);
    Reassoc(l.hdr, EncAll(l.es), Zeros(l.gap - size), Zeros(size));
    assert Bytes(l) == q + Zeros(size) + l.vals;
    SlotWritten(q, Zeros(size), l.vals, value);
    assert q + Padded(value) + l.vals == q + (Padded(value) + l.vals);
  }

  lemma BothFields(es: seq<Entry>, k: nat, n: nat, o: nat)
    requires k < |es|
    ensures var e := es[k].(size := n);
            es[k := e][k := e.(offs := o)] == es[k := es[k].(size := n, offs := o)]
  {
  }

  /** Insert the new value of the k-th entry, so far without one. */
  method GiveValueAt(b: array<byte>, here: nat, minOffs: nat, value: seq<byte>, ghost l: Layout, ghost k: nat)
    requires b.Length <= 0x10000 && Readable(l, b.Length) && b[..] == Bytes(l)
    requires k < |l.es| && here == Off(l.es, k) && minOffs == b.Length - |l.vals|
    requires |value| <= b.Length && Round(|value|) + 4 <= l.gap
    modifies b
    ensures |l.vals| + Round(|value|) <= b.Length
    ensures var m := Given(l, b.Length, k, value); Readable(m, b.Length) && b[..] == Bytes(m)
  {
    hide Bytes, Over, EncAll, Enc, Readable, Off, Zeros;
    Ends(l, b.Length, k);
    PutSize(b, here, |value|, l, k);
    ghost var m := With(l, k, l.es[k].(size := |value|));
    if |value| > 0 {
      SameOffs(l, m, m, b.Length, k);
      RoundMore(|value|);
      var size := Round(|value|);
      var val := minOffs - size;
      PutOffs(b, here, val, m, k);
      m := With(m, k, m.es[k].(offs := val));
      GivenBytes(m, b.Length, k, value);
      MemClear(b, val + size - 4, 4);
      MemCopy(b, val, value);
      BothFields(l.es, k, |value|, val);
    } else {
      assert value == [];
    }
  }

  lemma OverwrittenBytes(l: Layout, bs: nat, at: nat, value: seq<byte>)
    requires Readable(l, bs) && at + Round(|value|) <= |l.vals| && Round(|value|) > 0
    ensures var m := l.(vals := Over(l.vals, at, Padded(value)));
            var val := bs - |l.vals| + at;
            && Readable(m, bs) && |Bytes(l)| == bs
            && Over(Over(Bytes(l), val + Round(|value|) - 4, Zeros(4)), val, value) == Bytes(m)
  {
    hide EncAll, GoodEntry, Zeros, Padded, Head, Over;
    var size := Round(|value|);
    var q, v1, x, v2 := Head(l), l.vals[..at], l.vals[at..at + size], l.vals[at + size..];
    HeadAndValues(l, bs, at, size);
    Reassoc(q, v1, x, v2);
    SlotWritten(q + v1, x, v2, value);
    assert l.vals == v1 + x + v2;
    OverMiddle(v1, x, v2, Padded(value));
    assert (q + v1) + Padded(value) + v2 == q + (v1 + Padded(value) + v2);
    HeadOnly(l, Over(l.vals, at, Padded(value)));
  }

  lemma HeadOnly(l: Layout, vals: seq<byte>)
    requires GoodEntries(l.es)
    ensures Bytes(l.(vals := vals)) == Head(l) + vals
  {
  }

  /** The old and the new value take the same room: just replace. */
  method OverwriteValueAt(b: array<byte>, here: nat, value: seq<byte>, ghost l: Layout, ghost k: nat)
    requires b.Length <= 0x10000 && Readable(l, b.Length) && b[..] == Bytes(l)
    requires k < |l.es| && here == Off(l.es, k)
    requires Round(|value|) > 0 && |value| <= b.Length
    requires b.Length - |l.vals| <= l.es[k].offs && l.es[k].offs + Round(|value|) <= b.Length
    modifies b
    ensures |l.vals| <= b.Length && Readable(Overwritten(l, b.Length, k, value), b.Length)
    ensures b[..] == Bytes(Overwritten(l, b.Length, k, value))
  {
    hide Bytes, Over, EncAll, Enc, Readable, Off, Zeros, Get16, Get32;
    Ends(l, b.Length, k);
    EntryAt(l, b.Length, k);
    var val, size := Get16(b[..], here + 2), Round(|value|);
    PutSize(b, here, |value|, l, k);
    ghost var m := With(l, k, l.es[k].(size := |value|));
    OverwrittenBytes(m, b.Length, val - (b.Length - |l.vals|), value);
    MemClear(b, val + size - 4, 4);
    MemCopy(b, val, value);
  }
}
