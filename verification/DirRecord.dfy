/**
 Directory records: entries of variable length that tile a directory's pages
 and do not cross the boundaries of its chunks.
 */
module DirRecord {
  import opened ByteBuffer

  const PAGE: nat := 4096

  /** A record: an inode number (0 for a free one), its length, the length of
      its name, a file type, and the bytes from the name on. */
  datatype Rec = Rec(inode: nat, len: nat, nameLen: byte, ftype: byte, data: seq<byte>)

  /** KR_DIR_REC_LEN */
  function RecLen(nameLen: nat): (r: nat)
    ensures nameLen + 8 <= r < nameLen + 12 && r % 4 == 0
  {
    (nameLen + 8 + 3) / 4 * 4
  }

  /** The block sizes that fit a page. */
  predicate ChunkOk(chunk: nat) {
    chunk == 1024 || chunk == 2048 || chunk == 4096
  }

  predicate GoodRec(r: Rec, maxIno: nat) {
    && r.inode <= maxIno && r.inode < MAX32
    && RecLen(1) <= r.len < 0x10000 && r.len % 4 == 0 && RecLen(r.nameLen) <= r.len && |r.data| == r.len - 8
  }

  function Name(r: Rec): seq<byte> {
    if r.nameLen <= |r.data| then r.data[..r.nameLen] else []
  }

  /** The bytes [off, off + len) lie in one chunk. */
  predicate InChunk(off: nat, len: nat, chunk: nat)
    requires chunk > 0
  {
    len > 0 && off / chunk == (off + len - 1) / chunk
  }

  function Enc(r: Rec): (s: seq<byte>)
    requires r.inode < MAX32 && r.len < 0x10000
    ensures |s| == 8 + |r.data|
  {
    LE32(r.inode) + LE16(r.len) + [r.nameLen, r.ftype] + r.data
  }

  predicate AllGood(rs: seq<Rec>, maxIno: nat) {
    forall k :: 0 <= k < |rs| ==> GoodRec(rs[k], maxIno)
  }

  function EncAll(rs: seq<Rec>, maxIno: nat): (s: seq<byte>)
    requires AllGood(rs, maxIno)
  {
    if |rs| == 0 then [] else Enc(rs[0]) + EncAll(rs[1..], maxIno)
  }

  lemma {:induction false} EncAllSplit(a: seq<Rec>, b: seq<Rec>, maxIno: nat)
    requires AllGood(a, maxIno) && AllGood(b, maxIno)
    ensures AllGood(a + b, maxIno) && EncAll(a + b, maxIno) == EncAll(a, maxIno) + EncAll(b, maxIno)
    decreases |a|
  {
    hide Enc, GoodRec;
    if |a| == 0 {
      assert a + b == b;
    } else {
      EncAllSplit(a[1..], b, maxIno);
      assert (a + b)[0] == a[0] && (a + b)[1..] == a[1..] + b;
    }
  }

  function Off(rs: seq<Rec>, k: nat, maxIno: nat): nat
    requires AllGood(rs, maxIno) && k <= |rs|
  {
    |EncAll(rs[..k], maxIno)|
  }

  /** The parts around the k-th record. */
  lemma Around(rs: seq<Rec>, k: nat, maxIno: nat)
    requires AllGood(rs, maxIno) && k < |rs|
    ensures EncAll(rs, maxIno) == EncAll(rs[..k], maxIno) + Enc(rs[k]) + EncAll(rs[k + 1..], maxIno)
    ensures Off(rs, k + 1, maxIno) == Off(rs, k, maxIno) + rs[k].len <= Off(rs, |rs|, maxIno) == |EncAll(rs, maxIno)|
  {
    hide Enc, EncAll, GoodRec;
    var r := rs[k];
    EncOne(r, maxIno);
    assert rs == rs[..k] + ([r] + rs[k + 1..]);
    EncAllSplit([r], rs[k + 1..], maxIno);
    EncAllSplit(rs[..k], [r] + rs[k + 1..], maxIno);
    assert rs[..k + 1] == rs[..k] + [r] && rs[..|rs|] == rs;
    EncAllSplit(rs[..k], [r], maxIno);
  }

  lemma EncOne(r: Rec, maxIno: nat)
    requires GoodRec(r, maxIno)
    ensures AllGood([r], maxIno) && EncAll([r], maxIno) == Enc(r) && |Enc(r)| == r.len
  {
    assert [r][1..] == [];
    assert EncAll([], maxIno) == [];
  }

  /** The records tile a stretch of a page chunk by chunk. */
  predicate Tiled(rs: seq<Rec>, chunk: nat, maxIno: nat)
    requires chunk > 0
  {
    AllGood(rs, maxIno) && forall k :: 0 <= k < |rs| ==> InChunk(Off(rs, k, maxIno), rs[k].len, chunk)
  }

  // ---------- reading records ----------

  /** The fields of a record in the middle of some bytes. */
  lemma Fields(a: seq<byte>, r: Rec, c: seq<byte>, maxIno: nat)
    requires GoodRec(r, maxIno)
    ensures var s, at := a + Enc(r) + c, |a|;
            && at + r.len <= |s| && Get32(s, at) == r.inode && Get16(s, at + 4) == r.len
            && s[at + 6] == r.nameLen && s[at + 7] == r.ftype && s[at + 8..at + r.len] == r.data
  {
    hide LE32, LE16, Get32, Get16;
    var s, at, x := a + Enc(r) + c, |a|, Enc(r);
    assert s[at..at + 4] == x[0..4] == LE32(r.inode);
    assert s[at + 4..at + 6] == x[4..6] == LE16(r.len);
    assert s[at + 6] == x[6] && s[at + 7] == x[7];
    assert s[at + 8..at + r.len] == x[8..r.len] == r.data;
    Read32(r.inode, s, at);
    Read16(r.len, s, at + 4);
  }

  /** Bytes of a page that start with the records' bytes. */
  predicate Holds(s: seq<byte>, limit: nat, rs: seq<Rec>, chunk: nat, maxIno: nat) {
    chunk > 0 && limit <= |s| && Tiled(rs, chunk, maxIno) && s[..limit] == EncAll(rs, maxIno)
  }

  lemma RecAt(s: seq<byte>, limit: nat, rs: seq<Rec>, chunk: nat, maxIno: nat, k: nat)
    requires Holds(s, limit, rs, chunk, maxIno) && k < |rs|
    ensures var at, r := Off(rs, k, maxIno), rs[k];
            && at + r.len <= limit && Get32(s, at) == r.inode && Get16(s, at + 4) == r.len
            && s[at + 6] == r.nameLen && s[at + 7] == r.ftype && s[at + 8..at + r.len] == r.data
            && Off(rs, k + 1, maxIno) == at + r.len && InChunk(at, r.len, chunk) && GoodRec(r, maxIno)
  {
    hide Enc, EncAll, Get32, Get16;
    Around(rs, k, maxIno);
    assert GoodRec(rs[k], maxIno);
    EncOne(rs[k], maxIno);
    var a, c := EncAll(rs[..k], maxIno), EncAll(rs[k + 1..], maxIno);
    WithTail(s, limit, a, Enc(rs[k]), c);
    Fields(a, rs[k], c + s[limit..], maxIno);
  }

  lemma WithTail(s: seq<byte>, limit: nat, a: seq<byte>, x: seq<byte>, c: seq<byte>)
    requires limit <= |s| && s[..limit] == a + x + c
    ensures s == a + x + (c + s[limit..])
  {
    assert s == s[..limit] + s[limit..];
  }

  lemma EndAt(s: seq<byte>, limit: nat, rs: seq<Rec>, chunk: nat, maxIno: nat)
    requires Holds(s, limit, rs, chunk, maxIno)
    ensures Off(rs, |rs|, maxIno) == limit && Off(rs, 0, maxIno) == 0
  {
    assert rs[..|rs|] == rs && rs[..0] == [];
  }

  // ---------- writing records ----------

  /** What an entry's fields and name, written over a record's bytes, make of it. */
  function Made(raw: seq<byte>, inode: nat, name: seq<byte>, ftype: byte): Rec
    requires |name| < 256 && 8 + |name| <= |raw|
  {
    Rec(inode, |raw|, |name|, ftype, name + raw[8 + |name|..])
  }

  /** The first n bytes of a record, as a record. */
  function Front(r: Rec, n: nat): Rec
    requires 8 <= n && n - 8 <= |r.data|
  {
    r.(len := n, data := r.data[..n - 8])
  }

  /** A record that takes over the bytes of the deleted one after it. */
  function Joined(q: Rec, r: Rec): Rec
    requires r.inode < MAX32 && r.len < 0x10000
  {
    q.(len := q.len + r.len, data := q.data + Enc(r.(inode := 0)))
  }

  /** The four writes over the six stretches of a record's bytes. */
  lemma EntryPieces(h: seq<byte>, l: seq<byte>, a: seq<byte>, b: seq<byte>, d: seq<byte>, rest: seq<byte>,
                    ino: seq<byte>, len: seq<byte>, name: seq<byte>, ft: seq<byte>)
    requires |h| == |ino| == 4 && |l| == 2 && |a| == |len| == 1 && |b| == |ft| == 1 && |d| == |name|
    ensures Over(Over(Over(Over(h + l + a + b + d + rest, 6, len), 8, name), 0, ino), 7, ft)
            == ino + l + len + ft + name + rest
  {
    hide Over;
    assert h + l + a + b + d + rest == (h + l) + a + (b + d + rest);
    OverMiddle(h + l, a, b + d + rest, len);
    assert (h + l) + len + (b + d + rest) == (h + l + len + b) + d + rest;
    OverMiddle(h + l + len + b, d, rest, name);
    assert (h + l + len + b) + name + rest == [] + h + (l + len + b + name + rest);
    OverMiddle([], h, l + len + b + name + rest, ino);
    assert [] + ino + (l + len + b + name + rest) == (ino + l + len) + b + (name + rest);
    OverMiddle(ino + l + len, b, name + rest, ft);
    assert (ino + l + len) + ft + (name + rest) == ino + l + len + ft + name + rest;
  }

  /** Bytes with a length field, turned into an entry. */
  lemma EntryWritten(raw: seq<byte>, inode: nat, name: seq<byte>, ftype: byte)
    requires |raw| < 0x10000 && 8 + |name| <= |raw| && |name| < 256 && inode < MAX32
    requires raw[4..6] == LE16(|raw|)
    ensures Over(Over(Over(Over(raw, 6, [|name|]), 8, name), 0, LE32(inode)), 7, [ftype])
            == Enc(Made(raw, inode, name, ftype))
  {
    hide LE32, LE16, Over;
    var n := |name|;
    var h, l, a, b, d, rest := raw[..4], raw[4..6], raw[6..7], raw[7..8], raw[8..8 + n], raw[8 + n..];
    assert raw == h + l + a + b + d + rest;
    EntryPieces(h, l, a, b, d, rest, LE32(inode), [n], name, [ftype]);
    EncPieces(LE32(inode), l, [n], [ftype], name, rest);
  }

  lemma EncPieces(i: seq<byte>, l: seq<byte>, n: seq<byte>, f: seq<byte>, name: seq<byte>, rest: seq<byte>)
    requires |n| == 1 && |f| == 1
    ensures i + l + n + f + name + rest == i + l + [n[0], f[0]] + (name + rest)
  {
    assert n + f == [n[0], f[0]];
    assert i + l + n + f + name + rest == i + l + (n + f) + (name + rest);
  }

  /** The inode field overwritten. */
  lemma InodeWritten(r: Rec, inode: nat)
    requires r.inode < MAX32 && r.len < 0x10000 && inode < MAX32
    ensures Over(Enc(r), 0, LE32(inode)) == Enc(r.(inode := inode))
  {
    hide LE32, LE16;
    OverMiddle([], LE32(r.inode), LE16(r.len) + [r.nameLen, r.ftype] + r.data, LE32(inode));
    assert Enc(r) == [] + LE32(r.inode) + (LE16(r.len) + [r.nameLen, r.ftype] + r.data);
  }

  lemma TypeWritten(r: Rec, ftype: byte)
    requires r.inode < MAX32 && r.len < 0x10000
    ensures Over(Enc(r), 7, [ftype]) == Enc(r.(ftype := ftype))
  {
    hide LE32, LE16;
    var a := LE32(r.inode) + LE16(r.len) + [r.nameLen];
    assert Enc(r) == a + [r.ftype] + r.data;
    OverMiddle(a, [r.ftype], r.data, [ftype]);
  }

  /** The length field overwritten: the record's bytes up to n, and what follows. */
  lemma LenWritten(r: Rec, rest: seq<byte>, n: nat)
    requires r.inode < MAX32 && r.len < 0x10000 && n < 0x10000 && 8 <= n <= 8 + |r.data| + |rest|
    ensures Over(Enc(r) + rest, 4, LE16(n)) == Enc(r.(len := n, data := (r.data + rest)[..n - 8])) + (r.data + rest)[n - 8..]
  {
    hide LE32, LE16;
    var a, b := LE32(r.inode), [r.nameLen, r.ftype] + r.data + rest;
    assert Enc(r) + rest == a + LE16(r.len) + b;
    OverMiddle(a, LE16(r.len), b, LE16(n));
    var d := r.data + rest;
    assert d == d[..n - 8] + d[n - 8..];
  }

  /** A record cut in two, the length of the second part written first. */
  lemma Halves(r: Rec, n: nat, t: seq<byte>)
    requires r.inode < MAX32 && r.len < 0x10000 && |r.data| == r.len - 8 && 8 <= n && n + 8 <= r.len && |t| == 2
    ensures Over(Over(Enc(r), n + 4, t), 4, LE16(n)) == Enc(Front(r, n)) + Over(r.data[n - 8..], 4, t)
  {
    hide LE32, LE16, Enc;
    var d := Over(r.data, n - 4, t);
    DataWritten(r, n - 4, t);
    LenWritten(r.(data := d), [], n);
    assert d + [] == d;
    assert Enc(r.(data := d)) + [] == Enc(r.(data := d));
    assert d[..n - 8] == r.data[..n - 8] && d[n - 8..] == Over(r.data[n - 8..], 4, t);
  }

  lemma DataWritten(r: Rec, o: nat, t: seq<byte>)
    requires r.inode < MAX32 && r.len < 0x10000 && o + |t| <= |r.data|
    ensures Over(Enc(r), 8 + o, t) == Enc(r.(data := Over(r.data, o, t)))
  {
    hide LE32, LE16;
    var h := LE32(r.inode) + LE16(r.len) + [r.nameLen, r.ftype];
    OverInside(h, r.data, [], o, t);
    assert Enc(r) == h + r.data + [] && Enc(r.(data := Over(r.data, o, t))) == h + Over(r.data, o, t) + [];
  }

  /** A record's length extended over the next record, which is then cleared. */
  lemma JoinWritten(q: Rec, r: Rec)
    requires q.inode < MAX32 && r.inode < MAX32 && q.len + r.len < 0x10000 && |q.data| == q.len - 8 && |r.data| == r.len - 8
    ensures Over(Over(Enc(q) + Enc(r), 4, LE16(q.len + r.len)), q.len, LE32(0)) == Enc(Joined(q, r))
  {
    hide LE32, LE16, Enc, Over;
    var n := q.len + r.len;
    var d := q.data + Enc(r);
    LenWritten(q, Enc(r), n);
    assert d[..n - 8] == d && d[n - 8..] == [];
    var w := q.(len := n, data := d);
    assert Enc(w) + [] == Enc(w);
    DataWritten(w, q.len - 8, LE32(0));
    OverInside(q.data, Enc(r), [], 0, LE32(0));
    assert q.data + Enc(r) + [] == d;
    InodeWritten(r, 0);
    assert q.data + Enc(r.(inode := 0)) + [] == q.data + Enc(r.(inode := 0));
  }
}
