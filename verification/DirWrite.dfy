/**
 The edits of a page's records in place: an entry put into a record with room,
 an entry deleted by joining it to its predecessor, an entry pointed elsewhere.
 */
module DirWrite {
  import opened ByteBuffer
  import opened DirRecord
  import opened DirPage
  import opened DirEdit

  // ---------- writes inside a stretch of a page ----------

  method WriteIn(p: array<byte>, at: nat, o: nat, t: seq<byte>, ghost a: seq<byte>, ghost x: seq<byte>, ghost c: seq<byte>)
    requires p[..] == a + x + c && |a| == at && o + |t| <= |x|
    modifies p
    ensures p[..] == a + Over(x, o, t) + c
  {
    hide Over;
    OverInside(a, x, c, o, t);
    MemCopy(p, at + o, t);
  }

  /** The fields and the name of an entry, over bytes that hold their length. */
  method MakeEntry(p: array<byte>, at: nat, inode: nat, name: seq<byte>, ftype: byte,
                   ghost a: seq<byte>, ghost x: seq<byte>, ghost c: seq<byte>)
    requires p[..] == a + x + c && |a| == at && 8 + |name| <= |x| < 0x10000 && x[4..6] == LE16(|x|)
    requires |name| < 256 && inode < MAX32
    modifies p
    ensures p[..] == a + Enc(Made(x, inode, name, ftype)) + c
  {
    hide Over, Enc, Made, LE32, LE16;
    EntryWritten(x, inode, name, ftype);
    WriteIn(p, at, 6, [|name|], a, x, c);
    ghost var x1 := Over(x, 6, [|name|]);
    WriteIn(p, at, 8, name, a, x1, c);
    ghost var x2 := Over(x1, 8, name);
    WriteIn(p, at, 0, LE32(inode), a, x2, c);
    ghost var x3 := Over(x2, 0, LE32(inode));
    WriteIn(p, at, 7, [ftype], a, x3, c);
  }

  // ---------- what the edits make of the records ----------

  /** An entry put into a record with room for it. */
  function PutAt(r: Rec, inode: nat, name: seq<byte>, ftype: byte, maxIno: nat): seq<Rec>
    requires GoodRec(r, maxIno) && 0 < |name| < 256 && Fits(r, RecLen(|name|))
  {
    if r.inode == 0 then [Made(Enc(r), inode, name, ftype)]
    else
      var n := RecLen(r.nameLen);
      [Front(r, n), Made(r.data[n - 8..], inode, name, ftype)]
  }

  /** A record in use has a name. */
  predicate Nameable(r: Rec) {
    r.inode != 0 ==> r.nameLen > 0
  }

  /** Cutting a record in use that has no name leaves a first part that is too short. */
  lemma PutGood(r: Rec, inode: nat, name: seq<byte>, ftype: byte, maxIno: nat)
    requires GoodRec(r, maxIno) && 0 < |name| < 256 && Fits(r, RecLen(|name|)) && inode <= maxIno < MAX32
    ensures AllGood(PutAt(r, inode, name, ftype, maxIno), maxIno) <==> Nameable(r)
  {
    hide Enc;
    var m := PutAt(r, inode, name, ftype, maxIno);
    EncOne(r, maxIno);
    if r.inode != 0 {
      assert m[0].len == RecLen(r.nameLen);
      assert RecLen(0) == 8 && RecLen(1) == 12;
    }
  }

  lemma PutSound(base: nat, r: Rec, inode: nat, name: seq<byte>, ftype: byte, chunk: nat, maxIno: nat)
    requires chunk > 0 && GoodRec(r, maxIno) && InChunk(base, r.len, chunk) && 0 < |name| < 256 && Fits(r, RecLen(|name|))
    requires inode <= maxIno < MAX32 && Nameable(r)
    ensures var m := PutAt(r, inode, name, ftype, maxIno);
            TiledFrom(base, m, chunk, maxIno) && |EncAll(m, maxIno)| == r.len
  {
    hide EncAll, Off, InChunk, Enc, TiledFrom;
    var m := PutAt(r, inode, name, ftype, maxIno);
    PutGood(r, inode, name, ftype, maxIno);
    if r.inode == 0 {
      EncOne(r, maxIno);
      EncOne(m[0], maxIno);
      TiledOne(base, m[0], chunk, maxIno);
    } else {
      var n := RecLen(r.nameLen);
      EncOne(m[0], maxIno);
      EncOne(m[1], maxIno);
      SubChunk(base, r.len, chunk, base, n);
      SubChunk(base, r.len, chunk, base + n, r.len - n);
      TiledOne(base, m[0], chunk, maxIno);
      TiledOne(base + n, m[1], chunk, maxIno);
      TiledJoin(base, [m[0]], [m[1]], chunk, maxIno);
      assert m == [m[0]] + [m[1]];
      EncAllSplit([m[0]], [m[1]], maxIno);
    }
  }

  /** Beside the entry that was there, the new one is there. */
  lemma PutLive(r: Rec, inode: nat, name: seq<byte>, ftype: byte, maxIno: nat)
    requires GoodRec(r, maxIno) && 0 < |name| < 256 && Fits(r, RecLen(|name|)) && inode != 0
    ensures Live(PutAt(r, inode, name, ftype, maxIno)) == Live([r]) + [Entry(name, inode, ftype)]
  {
    hide Enc;
    var m := PutAt(r, inode, name, ftype, maxIno);
    assert Live([r]) == LiveOf(r) by { assert [r][1..] == []; }
    if r.inode == 0 {
      assert m[1..] == [];
      assert Name(m[0]) == name;
    } else {
      assert m[1..] == [m[1]] && [m[1]][1..] == [];
      assert Name(m[0]) == Name(r) && Name(m[1]) == name;
    }
  }

  /** The bytes of a page around one of its records. */
  lemma Around3(s: seq<byte>, limit: nat, rs: seq<Rec>, k: nat, chunk: nat, maxIno: nat)
    requires Holds(s, limit, rs, chunk, maxIno) && k < |rs|
    ensures AllGood(rs[..k], maxIno) && AllGood([rs[k]], maxIno) && AllGood(rs[k + 1..], maxIno) && GoodRec(rs[k], maxIno)
    ensures rs == rs[..k] + [rs[k]] + rs[k + 1..] && |EncAll(rs[..k], maxIno)| == Off(rs, k, maxIno)
    ensures s == EncAll(rs[..k], maxIno) + Enc(rs[k]) + (EncAll(rs[k + 1..], maxIno) + s[limit..])
    ensures |Enc(rs[k])| == rs[k].len && EncAll([rs[k]], maxIno) == Enc(rs[k]) && |s| == limit + |s[limit..]|
  {
    hide EncAll, Enc, InChunk, GoodRec;
    HoldsMeans(s, limit, rs, chunk, maxIno);
    RecAt(s, limit, rs, chunk, maxIno, k);
    Around(rs, k, maxIno);
    EncOne(rs[k], maxIno);
    InRange(rs[k], maxIno);
    WithTail(s, limit, EncAll(rs[..k], maxIno), Enc(rs[k]), EncAll(rs[k + 1..], maxIno));
  }

  lemma InRange(r: Rec, maxIno: nat)
    requires GoodRec(r, maxIno)
    ensures r.inode < MAX32 && 12 <= r.len < 0x10000
  {
  }

  function PutIn(rs: seq<Rec>, k: nat, inode: nat, name: seq<byte>, ftype: byte, maxIno: nat): seq<Rec>
    requires k < |rs| && GoodRec(rs[k], maxIno) && 0 < |name| < 256 && Fits(rs[k], RecLen(|name|))
  {
    rs[..k] + PutAt(rs[k], inode, name, ftype, maxIno) + rs[k + 1..]
  }

  lemma EncPair(q: Rec, r: Rec, maxIno: nat)
    requires GoodRec(q, maxIno) && GoodRec(r, maxIno)
    ensures AllGood([q, r], maxIno) && EncAll([q, r], maxIno) == Enc(q) + Enc(r)
  {
    hide Enc, EncAll;
    EncOne(q, maxIno);
    EncOne(r, maxIno);
    EncAllSplit([q], [r], maxIno);
    assert [q] + [r] == [q, r];
  }

  /** What the put makes of the record's bytes. */
  function PutRaw(r: Rec, inode: nat, name: seq<byte>, ftype: byte, maxIno: nat): seq<byte>
    requires GoodRec(r, maxIno) && 0 < |name| < 256 && Fits(r, RecLen(|name|)) && inode <= maxIno < MAX32
  {
    var m := PutAt(r, inode, name, ftype, maxIno);
    if r.inode == 0 then Enc(m[0]) else Enc(m[0]) + Enc(m[1])
  }

  lemma PutRawLength(r: Rec, inode: nat, name: seq<byte>, ftype: byte, maxIno: nat)
    requires GoodRec(r, maxIno) && 0 < |name| < 256 && Fits(r, RecLen(|name|)) && inode <= maxIno < MAX32
    ensures |PutRaw(r, inode, name, ftype, maxIno)| == r.len
  {
  }

  lemma PutRawGood(r: Rec, inode: nat, name: seq<byte>, ftype: byte, maxIno: nat)
    requires GoodRec(r, maxIno) && 0 < |name| < 256 && Fits(r, RecLen(|name|)) && inode <= maxIno < MAX32 && Nameable(r)
    ensures AllGood(PutAt(r, inode, name, ftype, maxIno), maxIno)
    ensures PutRaw(r, inode, name, ftype, maxIno) == EncAll(PutAt(r, inode, name, ftype, maxIno), maxIno)
  {
    hide Enc, EncAll, Made, GoodRec;
    var m := PutAt(r, inode, name, ftype, maxIno);
    PutGood(r, inode, name, ftype, maxIno);
    if r.inode == 0 {
      EncOne(m[0], maxIno);
      assert m == [m[0]];
    } else {
      EncPair(m[0], m[1], maxIno);
      assert m == [m[0], m[1]];
    }
  }

  /** The page's bytes once an entry has been put into its k-th record. */
  function PagePut(s: seq<byte>, limit: nat, rs: seq<Rec>, k: nat, inode: nat, name: seq<byte>, ftype: byte, maxIno: nat): seq<byte>
    requires limit <= |s| && AllGood(rs, maxIno) && k < |rs| && GoodRec(rs[k], maxIno)
    requires 0 < |name| < 256 && Fits(rs[k], RecLen(|name|)) && inode <= maxIno < MAX32
  {
    EncAll(rs[..k], maxIno) + PutRaw(rs[k], inode, name, ftype, maxIno) + (EncAll(rs[k + 1..], maxIno) + s[limit..])
  }

  /** A page is accepted even if an entry in use has no name. Once an entry has
      been put behind such a one the page is not accepted any more; put into any
      other record, it leaves the page acceptable. */
  lemma CutsSoundly(s: seq<byte>, limit: nat, rs: seq<Rec>, k: nat, inode: nat, name: seq<byte>, ftype: byte,
                    chunk: nat, maxIno: nat)
    requires Holds(s, limit, rs, chunk, maxIno) && AllGood(rs, maxIno) && k < |rs| && GoodRec(rs[k], maxIno)
    requires 0 < |name| < 256 && Fits(rs[k], RecLen(|name|)) && 0 < inode <= maxIno < MAX32
    ensures var t := PagePut(s, limit, rs, k, inode, name, ftype, maxIno);
            && |t| == |s|
            && ((exists us :: Holds(t, limit, us, chunk, maxIno)) <==> Nameable(rs[k]))
            && (Nameable(rs[k]) ==> Holds(t, limit, PutIn(rs, k, inode, name, ftype, maxIno), chunk, maxIno))
  {
    hide EncAll, Enc, InChunk, GoodRec, Off, TiledFrom, Tiled, Holds, PutAt, Fits, PutRaw;
    HoldsMeans(s, limit, rs, chunk, maxIno);
    var t := PagePut(s, limit, rs, k, inode, name, ftype, maxIno);
    var r, at := rs[k], Off(rs, k, maxIno);
    Around3(s, limit, rs, k, chunk, maxIno);
    RecAt(s, limit, rs, chunk, maxIno, k);
    PutRawLength(r, inode, name, ftype, maxIno);
    if Nameable(r) {
      PutRawGood(r, inode, name, ftype, maxIno);
      PutSound(at, r, inode, name, ftype, chunk, maxIno);
      Replaced(s, limit, rs[..k], [r], rs[k + 1..], PutAt(r, inode, name, ftype, maxIno), t, chunk, maxIno);
    } else {
      HoldsFirst(rs, k, t, EncAll(rs[..k], maxIno), chunk, maxIno);
      ShortRead(r, inode, name, ftype, maxIno, t, EncAll(rs[..k], maxIno), EncAll(rs[k + 1..], maxIno) + s[limit..]);
      InRange(r, maxIno);
      NoTiling(t, limit, at, rs[..k], chunk, maxIno);
    }
  }

  /** The records before the k-th still tile their bytes. */
  lemma HoldsFirst(rs: seq<Rec>, k: nat, t: seq<byte>, a: seq<byte>, chunk: nat, maxIno: nat)
    requires chunk > 0 && Tiled(rs, chunk, maxIno) && k <= |rs| && AllGood(rs[..k], maxIno) && a == EncAll(rs[..k], maxIno)
    requires |a| <= |t| && t[..|a|] == a
    ensures Holds(t, |a|, rs[..k], chunk, maxIno)
  {
    hide EncAll, InChunk, GoodRec, TiledFrom;
    FromZero(rs, chunk, maxIno);
    assert rs == rs[..k] + rs[k..];
    TiledParts(0, rs[..k], rs[k..], chunk, maxIno);
    FromZero(rs[..k], chunk, maxIno);
  }

  /** What is read where an entry without a name was. */
  lemma ShortRead(r: Rec, inode: nat, name: seq<byte>, ftype: byte, maxIno: nat, t: seq<byte>, a: seq<byte>, c: seq<byte>)
    requires GoodRec(r, maxIno) && 0 < |name| < 256 && Fits(r, RecLen(|name|)) && inode <= maxIno < MAX32 && !Nameable(r)
    requires t == a + PutRaw(r, inode, name, ftype, maxIno) + c
    ensures |a| + 6 <= |t| && Get16(t, |a| + 4) == 8
  {
    hide LE32, LE16, Get16;
    var x := PutRaw(r, inode, name, ftype, maxIno);
    assert RecLen(0) == 8;
    assert x[4..6] == LE16(8);
    assert t[|a| + 4..|a| + 6] == x[4..6];
    Read16(8, t, |a| + 4);
  }

  /** The bytes that make a free record an entry, or cut a record in two (kr_add_link, from got_it on). */
  method PutBytes(p: array<byte>, at: nat, inode: nat, name: seq<byte>, ftype: byte,
                  ghost r: Rec, maxIno: nat, ghost a: seq<byte>, ghost c: seq<byte>)
    requires GoodRec(r, maxIno) && 0 < |name| < 256 && Fits(r, RecLen(|name|)) && inode <= maxIno < MAX32
    requires p[..] == a + Enc(r) + c && |a| == at
    modifies p
    ensures p[..] == a + PutRaw(r, inode, name, ftype, maxIno) + c
  {
    hide Over, EncAll, LE32, LE16, Get32, Get16, Enc, Made;
    ghost var m := PutAt(r, inode, name, ftype, maxIno);
    EncOne(r, maxIno);
    Fields(a, r, c, maxIno);
    var free := Get32(p[..], at) == 0;
    if free {
      LenField(r);
      MakeEntry(p, at, inode, name, ftype, a, Enc(r), c);
    } else {
      var len, n := Get16(p[..], at + 4), RecLen(p[at + 6]);
      PutSecond(p, at, len, n, inode, name, ftype, r, a, c);
    }
  }

  /** The record cut in two, and the entry put into the second part. */
  method PutSecond(p: array<byte>, at: nat, len: nat, n: nat, inode: nat, name: seq<byte>, ftype: byte,
                   ghost r: Rec, ghost a: seq<byte>, ghost c: seq<byte>)
    requires r.inode < MAX32 && r.len == len < 0x10000 && |r.data| == len - 8 && 8 <= n && n + 8 + |name| <= len
    requires p[..] == a + Enc(r) + c && |a| == at && |name| < 256 && inode < MAX32
    modifies p
    ensures p[..] == a + (Enc(Front(r, n)) + Enc(Made(r.data[n - 8..], inode, name, ftype))) + c
  {
    hide Over, Enc, LE32, LE16;
    CutBytes(p, at, len, n, r, a, c);
    ghost var t, d := LE16(len - n), r.data[n - 8..];
    ghost var b, f := Over(d, 4, t), Enc(Front(r, n));
    assert a + (f + b) + c == (a + f) + b + c;
    BackHalf(d, t);
    EncLen(Front(r, n));
    MakeEntry(p, at + n, inode, name, ftype, a + f, b, c);
    SameMade(d, t, inode, name, ftype);
    ghost var e := Enc(Made(d, inode, name, ftype));
    assert (a + f) + e + c == a + (f + e) + c;
  }

  method CutBytes(p: array<byte>, at: nat, len: nat, n: nat, ghost r: Rec, ghost a: seq<byte>, ghost c: seq<byte>)
    requires r.inode < MAX32 && r.len == len < 0x10000 && |r.data| == len - 8 && 8 <= n && n + 8 <= len
    requires p[..] == a + Enc(r) + c && |a| == at
    modifies p
    ensures p[..] == a + (Enc(Front(r, n)) + Over(r.data[n - 8..], 4, LE16(len - n))) + c
  {
    hide Over, LE32, LE16, Enc;
    ghost var t := LE16(len - n);
    EncLen(r);
    WriteIn(p, at, n + 4, LE16(len - n), a, Enc(r), c);
    WriteIn(p, at, 4, LE16(n), a, Over(Enc(r), n + 4, t), c);
    Halves(r, n, t);
  }

  lemma EncLen(r: Rec)
    requires r.inode < MAX32 && r.len < 0x10000 && |r.data| == r.len - 8
    ensures |Enc(r)| == r.len
  {
  }

  lemma LenField(r: Rec)
    requires r.inode < MAX32 && r.len < 0x10000
    ensures Enc(r)[4..6] == LE16(r.len)
  {
  }

  lemma BackHalf(x: seq<byte>, t: seq<byte>)
    requires |t| == 2 && 6 <= |x|
    ensures Over(x, 4, t)[4..6] == t && |Over(x, 4, t)| == |x|
  {
  }

  lemma SameMade(x: seq<byte>, t: seq<byte>, inode: nat, name: seq<byte>, ftype: byte)
    requires |t| == 2 && 8 + |name| <= |x| && |name| < 256
    ensures Made(Over(x, 4, t), inode, name, ftype) == Made(x, inode, name, ftype)
  {
    assert Over(x, 4, t)[8 + |name|..] == x[8 + |name|..];
  }

  /** kr_add_link, once the record is found. */
  method PutEntry(p: array<byte>, last: nat, at: nat, inode: nat, name: seq<byte>, ftype: byte,
                  ghost rs: seq<Rec>, ghost k: nat, chunk: nat, maxIno: nat)
    requires Holds(p[..], last, rs, chunk, maxIno) && k < |rs| && at == Off(rs, k, maxIno)
    requires 0 < |name| < 256 && Fits(rs[k], RecLen(|name|)) && 0 < inode <= maxIno < MAX32
    modifies p
    ensures GoodRec(rs[k], maxIno) && p[..] == PagePut(old(p[..]), last, rs, k, inode, name, ftype, maxIno)
    ensures (exists us :: Holds(p[..], last, us, chunk, maxIno)) <==> Nameable(rs[k])
    ensures Nameable(rs[k]) ==> Holds(p[..], last, PutIn(rs, k, inode, name, ftype, maxIno), chunk, maxIno)
  {
    hide EncAll, Enc, InChunk, GoodRec, Off, TiledFrom, Tiled, Holds, PutAt, Fits, PutRaw;
    ghost var s := p[..];
    HoldsMeans(s, last, rs, chunk, maxIno);
    Around3(s, last, rs, k, chunk, maxIno);
    CutsSoundly(s, last, rs, k, inode, name, ftype, chunk, maxIno);
    PutBytes(p, at, inode, name, ftype, rs[k], maxIno, EncAll(rs[..k], maxIno), EncAll(rs[k + 1..], maxIno) + s[last..]);
  }

  /** A page that is one entry without a name. */
  lemma NamelessPage(r: Rec, s: seq<byte>, z: seq<byte>)
    requires r.inode == 11 && r.len == 1024 && r.nameLen == 0 && |r.data| == 1016 && s == Enc(r) + z && |z| == 3072
    ensures GoodRec(r, 100) && |s| == PAGE && Holds(s, 1024, [r], 1024, 100) && Off([r], 0, 100) == 0
    ensures Fits(r, RecLen(1)) && !Nameable(r) && LastByte(1024, 0) == 1024
  {
    hide Enc, EncAll;
    EncOne(r, 100);
    TiledOne(0, r, 1024, 100);
    FromZero([r], 1024, 100);
    HoldsFrom(s, [r], Enc(r), z, 1024, 100);
    ZeroOff([r], 100);
  }

  method PageOf(s: seq<byte>) returns (p: array<byte>)
    ensures fresh(p) && p[..] == s
  {
    p := new byte[|s|](i requires 0 <= i < |s| => s[i]);
  }

  /** Such a page is accepted, but not any more once an entry has been added. */
  method AcceptedThenRefused() returns (before: bool, after: bool)
    ensures before && !after
  {
    hide Enc, EncAll, Holds, GoodRec, Zeros, Off, Fits, Nameable, LastByte, RecLen, PagePut, PutIn;
    var r := Rec(11, 1024, 0, 0, Zeros(1016));
    var z := Zeros(3072);
    var p := PageOf(Enc(r) + z);
    NamelessPage(r, p[..], z);
    ghost var rs;
    before, rs := CheckPage(p, 0, 1024, 1024, 100);
    PutEntry(p, 1024, 0, 12, [120], 0, [r], 0, 1024, 100);
    after, rs := CheckPage(p, 0, 1024, 1024, 100);
  }

  // ---------- a new chunk ----------

  lemma EndParts(s: seq<byte>, last: nat, rs: seq<Rec>, chunk: nat, maxIno: nat)
    requires Holds(s, last, rs, chunk, maxIno) && last + chunk <= |s|
    ensures s == EncAll(rs, maxIno) + s[last..last + chunk] + s[last + chunk..] && |EncAll(rs, maxIno)| == last
  {
    hide EncAll;
    HoldsMeans(s, last, rs, chunk, maxIno);
    assert s[last..] == s[last..last + chunk] + s[last + chunk..];
  }

  /** The record that fills the chunk behind the last one (kr_add_link, at i_size). */
  function Added(rs: seq<Rec>, raw: seq<byte>, inode: nat, name: seq<byte>, ftype: byte): seq<Rec>
    requires |name| < 256 && 8 + |name| <= |raw|
  {
    rs + [Made(raw, inode, name, ftype)]
  }

  /** At i_size, a free record of a chunk's length is laid down before the blocks
      for it are there; if there is no room for those, it is left behind, outside
      the directory. */
  method AddChunk(p: array<byte>, last: nat, inode: nat, name: seq<byte>, ftype: byte, room: bool,
                  ghost rs: seq<Rec>, chunk: nat, maxIno: nat) returns (ghost raw: seq<byte>)
    requires ChunkOk(chunk) && last % chunk == 0 && last + chunk <= p.Length && Holds(p[..], last, rs, chunk, maxIno)
    requires 0 < |name| < 256 && 0 < inode <= maxIno < MAX32
    modifies p
    ensures |raw| == chunk
    ensures !room ==> Holds(p[..], last, rs, chunk, maxIno)
    ensures room ==> Holds(p[..], last + chunk, Added(rs, raw, inode, name, ftype), chunk, maxIno)
  {
    hide Over, Enc, EncAll, Made, LE32, LE16, Holds, Tiled, TiledFrom, InChunk, GoodRec;
    ghost var s := p[..];
    HoldsMeans(s, last, rs, chunk, maxIno);
    EndParts(s, last, rs, chunk, maxIno);
    ghost var a, x, c := EncAll(rs, maxIno), s[last..last + chunk], s[last + chunk..];
    WriteIn(p, last, 4, LE16(chunk), a, x, c);
    ghost var x1 := Over(x, 4, LE16(chunk));
    WriteIn(p, last, 0, LE32(0), a, x1, c);
    raw := Over(x1, 0, LE32(0));
    if !room {
      assert a + raw + c == a + (raw + c);
      HoldsFrom(p[..], rs, a, raw + c, chunk, maxIno);
      return;
    }
    LengthKept(x, LE16(chunk));
    MakeEntry(p, last, inode, name, ftype, a, raw, c);
    GrownTiling(rs, raw, inode, name, ftype, chunk, maxIno);
    HoldsFrom(p[..], Added(rs, raw, inode, name, ftype), a + Enc(Made(raw, inode, name, ftype)), c, chunk, maxIno);
  }

  lemma GrownTiling(rs: seq<Rec>, raw: seq<byte>, inode: nat, name: seq<byte>, ftype: byte, chunk: nat, maxIno: nat)
    requires ChunkOk(chunk) && Tiled(rs, chunk, maxIno) && |EncAll(rs, maxIno)| % chunk == 0 && |raw| == chunk
    requires 0 < |name| < 256 && inode <= maxIno < MAX32
    ensures var r := Made(raw, inode, name, ftype);
            && Tiled(rs + [r], chunk, maxIno) && r.inode < MAX32 && r.len < 0x10000 && r.len == |Enc(r)| == chunk
            && EncAll(rs + [r], maxIno) == EncAll(rs, maxIno) + Enc(r)
  {
    hide Enc, EncAll, Made, Tiled, TiledFrom, InChunk, GoodRec;
    FromZero(rs, chunk, maxIno);
    FreshGood(0, rs, chunk, maxIno);
    var r, last := Made(raw, inode, name, ftype), |EncAll(rs, maxIno)|;
    MadeGood(raw, inode, name, ftype, chunk, maxIno);
    InRange(r, maxIno);
    FromZero(rs, chunk, maxIno);
    WholeChunk(last, chunk);
    TiledOne(last, r, chunk, maxIno);
    TiledJoin(0, rs, [r], chunk, maxIno);
    FromZero(rs + [r], chunk, maxIno);
    EncOne(r, maxIno);
    FreshGood(0, rs, chunk, maxIno);
    EncAllSplit(rs, [r], maxIno);
  }

  lemma LengthKept(x: seq<byte>, t: seq<byte>)
    requires |t| == 2 && 6 <= |x|
    ensures Over(Over(x, 4, t), 0, LE32(0))[4..6] == t
  {
    hide Over;
    var h, b, z := x[..4], x[6..], LE32(0);
    assert x == h + x[4..6] + b;
    OverMiddle(h, x[4..6], b, t);
    assert h + t + b == [] + h + (t + b);
    OverMiddle([], h, t + b, z);
    assert [] + z + (t + b) == z + t + b;
    Middle(z, t, b);
  }

  lemma MadeGood(raw: seq<byte>, inode: nat, name: seq<byte>, ftype: byte, chunk: nat, maxIno: nat)
    requires ChunkOk(chunk) && |raw| == chunk && 0 < |name| < 256 && inode <= maxIno < MAX32
    ensures GoodRec(Made(raw, inode, name, ftype), maxIno) && Made(raw, inode, name, ftype).len == chunk
  {
  }

  lemma AddedLive(rs: seq<Rec>, raw: seq<byte>, inode: nat, name: seq<byte>, ftype: byte)
    requires 0 < |name| < 256 && 8 + |name| <= |raw| && inode != 0
    ensures Live(Added(rs, raw, inode, name, ftype)) == Live(rs) + [Entry(name, inode, ftype)]
  {
    var r := Made(raw, inode, name, ftype);
    LiveSplit(rs, [r]);
    assert [r][1..] == [] && Name(r) == name;
  }
}
