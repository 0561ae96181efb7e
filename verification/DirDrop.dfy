/**
 Deleting an entry of a page, and pointing an entry at another inode.
 */
module DirDrop {
  import opened Arith
  import opened ByteBuffer
  import opened DirRecord
  import opened DirPage
  import opened DirEdit
  import opened DirWrite

  /** Where a chunk starts, a record starts. */
  lemma {:induction false} ChunkStart(s: seq<byte>, last: nat, rs: seq<Rec>, k: nat, chunk: nat, maxIno: nat) returns (j: nat)
    requires Holds(s, last, rs, chunk, maxIno) && k < |rs|
    ensures j <= k && Off(rs, j, maxIno) == Off(rs, k, maxIno) / chunk * chunk
    decreases k
  {
    hide EncAll, Enc, GoodRec, Get32, Get16, Off, Holds, InChunk;
    HoldsMeans(s, last, rs, chunk, maxIno);
    EndAt(s, last, rs, chunk, maxIno);
    if k == 0 {
      j := 0;
    } else {
      RecAt(s, last, rs, chunk, maxIno, k - 1);
      RecAt(s, last, rs, chunk, maxIno, k);
      var before, at := Off(rs, k - 1, maxIno), Off(rs, k, maxIno);
      if before / chunk == at / chunk {
        j := ChunkStart(s, last, rs, k - 1, chunk, maxIno);
      } else {
        j := k;
        StepsOver(before, rs[k - 1].len, chunk);
      }
    }
  }

  /** A record that ends in another chunk ends at its start. */
  lemma StepsOver(before: nat, len: nat, chunk: nat)
    requires chunk > 0 && InChunk(before, len, chunk) && before / chunk != (before + len) / chunk
    ensures (before + len) / chunk * chunk == before + len
  {
    var q, at := before / chunk, before + len;
    DivMod(before, chunk);
    DivMod(at - 1, chunk);
    DivMod(at, chunk);
    if (at - 1) % chunk < chunk - 1 {
      DivUnique(at, chunk, q, (at - 1) % chunk + 1);
    } else {
      DivUnique(at, chunk, q + 1, 0);
    }
  }

  /** The records without the k-th one: joined to the one before it in the same
      chunk, or left as a free record at the start of its chunk. */
  function Dropped(rs: seq<Rec>, k: nat, chunk: nat, maxIno: nat): seq<Rec>
    requires chunk > 0 && AllGood(rs, maxIno) && k < |rs|
  {
    if Off(rs, k, maxIno) % chunk == 0 then rs[..k] + [rs[k].(inode := 0)] + rs[k + 1..]
    else if k == 0 then rs
    else rs[..k - 1] + [Joined(rs[k - 1], rs[k])] + rs[k + 1..]
  }

  lemma FreedLive(a: seq<Rec>, r: Rec, c: seq<Rec>)
    ensures Live(a + [r] + c) == Live(a) + LiveOf(r) + Live(c)
    ensures Live(a + [r.(inode := 0)] + c) == Live(a) + Live(c)
  {
    hide Live;
    LiveAround(a, [r], c);
    LiveAround(a, [r.(inode := 0)], c);
    LiveOne(r);
    LiveOne(r.(inode := 0));
  }

  lemma JoinedLive(a: seq<Rec>, q: Rec, r: Rec, c: seq<Rec>, maxIno: nat)
    requires GoodRec(q, maxIno) && GoodRec(r, maxIno)
    ensures Live(a + [Joined(q, r)] + c) == Live(a + [q]) + Live(c)
  {
    hide GoodRec, Joined;
    InRange(r, maxIno);
    JoinedGood(q, r, maxIno);
    LiveAround(a, [Joined(q, r)], c);
    LiveOne(Joined(q, r));
    LiveSplit(a, [q]);
    LiveOne(q);
  }

  lemma UsedLive(rs: seq<Rec>, k: nat)
    requires k < |rs|
    ensures Live(rs) == Live(rs[..k]) + LiveOf(rs[k]) + Live(rs[k + 1..])
    ensures Live(rs[..k] + [rs[k].(inode := 0)] + rs[k + 1..]) == Live(rs[..k]) + Live(rs[k + 1..])
  {
    hide Live, LiveOf, Name;
    assert rs == rs[..k] + [rs[k]] + rs[k + 1..];
    FreedLive(rs[..k], rs[k], rs[k + 1..]);
  }

  lemma MergedLive(rs: seq<Rec>, k: nat, maxIno: nat)
    requires 0 < k < |rs| && GoodRec(rs[k - 1], maxIno) && GoodRec(rs[k], maxIno)
    ensures Live(rs[..k - 1] + [Joined(rs[k - 1], rs[k])] + rs[k + 1..]) == Live(rs[..k]) + Live(rs[k + 1..])
  {
    hide Live, LiveOf, Joined;
    JoinedLive(rs[..k - 1], rs[k - 1], rs[k], rs[k + 1..], maxIno);
    assert rs[..k] == rs[..k - 1] + [rs[k - 1]];
  }

  lemma GoodRecs(rs: seq<Rec>, k: nat, maxIno: nat)
    requires AllGood(rs, maxIno) && k < |rs|
    ensures GoodRec(rs[k], maxIno) && (k > 0 ==> GoodRec(rs[k - 1], maxIno))
  {
  }

  lemma DroppedLive(rs: seq<Rec>, k: nat, chunk: nat, maxIno: nat)
    requires chunk > 0 && AllGood(rs, maxIno) && k < |rs| && rs[k].inode != 0
    ensures Live(rs) == Live(rs[..k]) + [Entry(Name(rs[k]), rs[k].inode, rs[k].ftype)] + Live(rs[k + 1..])
    ensures Live(Dropped(rs, k, chunk, maxIno)) == Live(rs[..k]) + Live(rs[k + 1..])
  {
    hide AllGood, EncAll, GoodRec, Enc, Name, Off, Live, Joined;
    UsedLive(rs, k);
    ZeroOff(rs, maxIno);
    GoodRecs(rs, k, maxIno);
    if Off(rs, k, maxIno) % chunk != 0 {
      MergedLive(rs, k, maxIno);
    }
  }

  lemma JoinedGood(q: Rec, r: Rec, maxIno: nat)
    requires GoodRec(q, maxIno) && GoodRec(r, maxIno)
    ensures LiveOf(Joined(q, r)) == LiveOf(q)
    ensures q.len + r.len < 0x10000 ==> GoodRec(Joined(q, r), maxIno)
  {
    assert Name(Joined(q, r)) == Name(q);
  }

  /** The two records around a deletion that joins, in their page. */
  lemma Around4(s: seq<byte>, limit: nat, rs: seq<Rec>, k: nat, chunk: nat, maxIno: nat)
    requires Holds(s, limit, rs, chunk, maxIno) && 0 < k < |rs|
    ensures AllGood(rs[..k - 1], maxIno) && AllGood([rs[k - 1], rs[k]], maxIno) && AllGood(rs[k + 1..], maxIno)
    ensures GoodRec(rs[k - 1], maxIno) && GoodRec(rs[k], maxIno)
    ensures rs == rs[..k - 1] + [rs[k - 1], rs[k]] + rs[k + 1..]
    ensures |EncAll(rs[..k - 1], maxIno)| == Off(rs, k - 1, maxIno) == Off(rs, k, maxIno) - rs[k - 1].len
    ensures s == EncAll(rs[..k - 1], maxIno) + (Enc(rs[k - 1]) + Enc(rs[k])) + (EncAll(rs[k + 1..], maxIno) + s[limit..])
    ensures |Enc(rs[k - 1])| == rs[k - 1].len && |Enc(rs[k])| == rs[k].len
    ensures EncAll([rs[k - 1], rs[k]], maxIno) == Enc(rs[k - 1]) + Enc(rs[k])
  {
    hide EncAll, Enc, InChunk, GoodRec, Holds;
    Around3(s, limit, rs, k, chunk, maxIno);
    Around3(s, limit, rs, k - 1, chunk, maxIno);
    Around(rs, k - 1, maxIno) by { HoldsMeans(s, limit, rs, chunk, maxIno); }
    assert rs[..k] == rs[..k - 1] + [rs[k - 1]];
    EncAllSplit(rs[..k - 1], [rs[k - 1]], maxIno);
    EncPair(rs[k - 1], rs[k], maxIno);
    InRange(rs[k - 1], maxIno);
    InRange(rs[k], maxIno);
    var a, q, r, c := EncAll(rs[..k - 1], maxIno), Enc(rs[k - 1]), Enc(rs[k]), EncAll(rs[k + 1..], maxIno) + s[limit..];
    assert (a + q) + r + c == a + (q + r) + c;
  }

  /** Neighbours in one chunk, joined, lie in it. */
  lemma JoinChunk(from: nat, before: nat, qlen: nat, at: nat, len: nat, chunk: nat)
    requires chunk > 0 && from == at / chunk * chunk && from <= before && before + qlen == at && qlen > 0 && InChunk(at, len, chunk)
    ensures InChunk(before, qlen + len, chunk) && qlen + len <= chunk
  {
    DivMod(at, chunk);
    DivMod(at + len - 1, chunk);
    DivUnique(before, chunk, at / chunk, before - from);
  }

  /** Not before the chunk of `at`. */
  predicate SameChunk(pde: nat, at: nat, chunk: nat)
    requires chunk > 0
  {
    at / chunk * chunk <= pde < at
  }

  /** The walk of kr_delete_entry from the start of the chunk: the record before
      the one at `at`, or -1 if that is the first of its chunk. */
  method Before(p: array<byte>, last: nat, at: nat, ghost rs: seq<Rec>, ghost k: nat, chunk: nat, maxIno: nat)
    returns (pde: int)
    requires ChunkOk(chunk) && Holds(p[..], last, rs, chunk, maxIno) && AllGood(rs, maxIno) && k < |rs|
    requires at == Off(rs, k, maxIno)
    ensures pde < 0 <==> at % chunk == 0
    ensures pde >= 0 ==> 0 < k && pde == Off(rs, k - 1, maxIno) && SameChunk(pde, at, chunk)
  {
    hide EncAll, Enc, GoodRec, Off, Holds, InChunk, Get16, Get32;
    var s := p[..];
    HoldsMeans(s, last, rs, chunk, maxIno);
    var from: nat := at / chunk * chunk;
    ghost var j := ChunkStart(s, last, rs, k, chunk, maxIno);
    ghost var m := j;
    var de := from;
    pde := -1;
    while de < at
      invariant j <= m <= k && de == Off(rs, m, maxIno)
      invariant pde == if m == j then -1 else Off(rs, m - 1, maxIno) as int
      decreases k - m
    {
      if m == k { assert false; }
      RecAt(s, last, rs, chunk, maxIno, m);
      InRange(rs[m], maxIno);
      pde := de;
      de := de + Get16(s, de + 4);
      m := m + 1;
    }
    AtItself(s, last, rs, m, k, chunk, maxIno);
    if j < k {
      OffMono(rs, j, k - 1, maxIno);
      RecAt(s, last, rs, chunk, maxIno, k - 1);
      InRange(rs[k - 1], maxIno);
      NotAtStart(at, from, chunk);
    } else {
      DivMod(at, chunk);
    }
  }

  /** kr_delete_entry: `at` is the offset of the record in its page. */
  method DropEntry(p: array<byte>, last: nat, at: nat, ghost rs: seq<Rec>, ghost k: nat, chunk: nat, maxIno: nat)
    requires ChunkOk(chunk) && Holds(p[..], last, rs, chunk, maxIno) && k < |rs| && at == Off(rs, k, maxIno)
    requires AllGood(rs, maxIno)
    modifies p
    ensures Holds(p[..], last, Dropped(rs, k, chunk, maxIno), chunk, maxIno)
  {
    hide EncAll, Enc, GoodRec, Off, Holds, InChunk, Dropped, SameChunk, Get16, Get32;
    HoldsMeans(p[..], last, rs, chunk, maxIno);
    RecAt(p[..], last, rs, chunk, maxIno, k);
    InRange(rs[k], maxIno);
    var to := at + Get16(p[..], at + 4);
    var pde := Before(p, last, at, rs, k, chunk, maxIno);
    if pde >= 0 {
      DropJoin(p, last, pde, at, to, rs, k, chunk, maxIno);
    } else {
      DropFirst(p, last, at, rs, k, chunk, maxIno);
    }
  }

  lemma AtItself(s: seq<byte>, last: nat, rs: seq<Rec>, m: nat, k: nat, chunk: nat, maxIno: nat)
    requires Holds(s, last, rs, chunk, maxIno) && AllGood(rs, maxIno) && m <= k < |rs| && Off(rs, m, maxIno) >= Off(rs, k, maxIno)
    ensures m == k
  {
    hide EncAll, Enc, GoodRec, Off, Holds, InChunk, Get16, Get32;
    if m < k {
      RecAt(s, last, rs, chunk, maxIno, m);
      InRange(rs[m], maxIno);
      OffMono(rs, m + 1, k, maxIno);
    }
  }

  method DropFirst(p: array<byte>, last: nat, at: nat, ghost rs: seq<Rec>, ghost k: nat, chunk: nat, maxIno: nat)
    requires chunk > 0 && Holds(p[..], last, rs, chunk, maxIno) && AllGood(rs, maxIno) && k < |rs| && at == Off(rs, k, maxIno)
    requires at % chunk == 0
    modifies p
    ensures Holds(p[..], last, Dropped(rs, k, chunk, maxIno), chunk, maxIno)
  {
    hide EncAll, Enc, GoodRec, Off, Holds, InChunk, Tiled, TiledFrom, Over, LE32, LE16;
    ghost var s, r := p[..], rs[k];
    Around3(s, last, rs, k, chunk, maxIno);
    InRange(r, maxIno);
    ghost var a, c := EncAll(rs[..k], maxIno), EncAll(rs[k + 1..], maxIno) + s[last..];
    WriteIn(p, at, 0, LE32(0), a, Enc(r), c);
    InodeWritten(r, 0);
    Free(r, maxIno);
    ghost var n := r.(inode := 0);
    EncOne(n, maxIno);
    RecAt(s, last, rs, chunk, maxIno, k);
    TiledOne(at, n, chunk, maxIno);
    Replaced(s, last, rs[..k], [r], rs[k + 1..], [n], p[..], chunk, maxIno);
  }

  lemma Free(r: Rec, maxIno: nat)
    requires GoodRec(r, maxIno)
    ensures GoodRec(r.(inode := 0), maxIno) && r.(inode := 0).len == r.len
  {
  }

  /** The bytes of two neighbours, the first extended over the second. */
  method JoinBytes(p: array<byte>, pde: nat, at: nat, to: nat, ghost q: Rec, ghost r: Rec, ghost a: seq<byte>, ghost c: seq<byte>)
    requires q.inode < MAX32 && r.inode < MAX32 && q.len + r.len < 0x10000 && |q.data| == q.len - 8 && |r.data| == r.len - 8
    requires |a| == pde && at == pde + q.len && to == at + r.len && p[..] == a + (Enc(q) + Enc(r)) + c
    modifies p
    ensures p[..] == a + Enc(Joined(q, r)) + c
  {
    hide Over, LE32, LE16, Joined;
    ghost var x := Enc(q) + Enc(r);
    WriteIn(p, pde, 4, LE16(to - pde), a, x, c);
    WriteIn(p, pde, at - pde, LE32(0), a, Over(x, 4, LE16(to - pde)), c);
    JoinWritten(q, r);
  }

  lemma JoinedTiled(q: Rec, r: Rec, pde: nat, at: nat, from: nat, chunk: nat, maxIno: nat)
    requires ChunkOk(chunk) && GoodRec(q, maxIno) && GoodRec(r, maxIno) && InChunk(at, r.len, chunk)
    requires from == at / chunk * chunk && from <= pde && pde + q.len == at
    ensures q.len + r.len < 0x10000 && r.inode < MAX32 && r.len < 0x10000 && TiledFrom(pde, [Joined(q, r)], chunk, maxIno)
    ensures EncAll([Joined(q, r)], maxIno) == Enc(Joined(q, r)) && |Enc(Joined(q, r))| == q.len + r.len
  {
    hide GoodRec, InChunk, Enc, EncAll, TiledFrom, Joined;
    InRange(q, maxIno);
    InRange(r, maxIno);
    JoinChunk(from, pde, q.len, at, r.len, chunk);
    JoinedGood(q, r, maxIno);
    JoinedLen(q, r);
    EncOne(Joined(q, r), maxIno);
    TiledOne(pde, Joined(q, r), chunk, maxIno);
  }

  method DropJoin(p: array<byte>, last: nat, pde: nat, at: nat, to: nat,
                  ghost rs: seq<Rec>, ghost k: nat, chunk: nat, maxIno: nat)
    requires ChunkOk(chunk) && Holds(p[..], last, rs, chunk, maxIno) && AllGood(rs, maxIno) && 0 < k < |rs|
    requires pde == Off(rs, k - 1, maxIno) && at == Off(rs, k, maxIno) && to == at + rs[k].len
    requires SameChunk(pde, at, chunk)
    modifies p
    ensures Holds(p[..], last, Dropped(rs, k, chunk, maxIno), chunk, maxIno)
  {
    hide EncAll, Enc, GoodRec, Off, Holds, InChunk, Tiled, TiledFrom, Joined;
    ghost var s, q, r, from := p[..], rs[k - 1], rs[k], at / chunk * chunk;
    HoldsMeans(s, last, rs, chunk, maxIno);
    Around4(s, last, rs, k, chunk, maxIno);
    RecAt(s, last, rs, chunk, maxIno, k);
    JoinedTiled(q, r, pde, at, from, chunk, maxIno);
    DataLen(q, maxIno);
    DataLen(r, maxIno);
    ghost var a, c := EncAll(rs[..k - 1], maxIno), EncAll(rs[k + 1..], maxIno) + s[last..];
    JoinBytes(p, pde, at, to, q, r, a, c);
    NotAtStart(at, from, chunk);
    Replaced(s, last, rs[..k - 1], [q, r], rs[k + 1..], [Joined(q, r)], p[..], chunk, maxIno);
  }

  lemma JoinedLen(q: Rec, r: Rec)
    requires r.inode < MAX32 && r.len < 0x10000
    ensures Joined(q, r).len == q.len + r.len
  {
  }

  lemma DataLen(r: Rec, maxIno: nat)
    requires GoodRec(r, maxIno)
    ensures |r.data| == r.len - 8 && r.inode < MAX32
  {
  }

  lemma NotAtStart(at: nat, from: nat, chunk: nat)
    requires chunk > 0 && from == at / chunk * chunk && from < at
    ensures at % chunk != 0
  {
    DivMod(at, chunk);
  }

  // ---------- pointing an entry elsewhere ----------

  function Pointed(rs: seq<Rec>, k: nat, inode: nat, ftype: byte): seq<Rec>
    requires k < |rs|
  {
    rs[..k] + [rs[k].(inode := inode, ftype := ftype)] + rs[k + 1..]
  }

  lemma SameName(r: Rec, n: Rec)
    requires r.nameLen == n.nameLen && r.data == n.data
    ensures Name(r) == Name(n)
  {
  }

  lemma PointedLive(rs: seq<Rec>, k: nat, inode: nat, ftype: byte)
    requires k < |rs| && rs[k].inode != 0 && inode != 0
    ensures Live(rs) == Live(rs[..k]) + [Entry(Name(rs[k]), rs[k].inode, rs[k].ftype)] + Live(rs[k + 1..])
    ensures Live(Pointed(rs, k, inode, ftype)) == Live(rs[..k]) + [Entry(Name(rs[k]), inode, ftype)] + Live(rs[k + 1..])
  {
    hide Live, Name;
    var r := rs[k];
    var n := r.(inode := inode, ftype := ftype);
    SameName(r, n);
    assert rs == rs[..k] + [r] + rs[k + 1..];
    LiveAround(rs[..k], [r], rs[k + 1..]);
    LiveAround(rs[..k], [n], rs[k + 1..]);
    LiveOne(r);
    LiveOne(n);
  }

  /** kr_set_link */
  method PointEntry(p: array<byte>, last: nat, at: nat, inode: nat, ftype: byte,
                    ghost rs: seq<Rec>, ghost k: nat, chunk: nat, maxIno: nat)
    requires Holds(p[..], last, rs, chunk, maxIno) && k < |rs| && at == Off(rs, k, maxIno) && inode <= maxIno < MAX32
    modifies p
    ensures Holds(p[..], last, Pointed(rs, k, inode, ftype), chunk, maxIno)
  {
    hide EncAll, Enc, GoodRec, Off, Holds, InChunk, Tiled, TiledFrom, Over, LE32, LE16, Get32, Get16;
    ghost var s, r := p[..], rs[k];
    HoldsMeans(s, last, rs, chunk, maxIno);
    Around3(s, last, rs, k, chunk, maxIno);
    InRange(r, maxIno);
    ghost var a, c := EncAll(rs[..k], maxIno), EncAll(rs[k + 1..], maxIno) + s[last..];
    WriteIn(p, at, 0, LE32(inode), a, Enc(r), c);
    InodeWritten(r, inode);
    WriteIn(p, at, 7, [ftype], a, Enc(r.(inode := inode)), c);
    TypeWritten(r.(inode := inode), ftype);
    ghost var n := r.(inode := inode, ftype := ftype);
    PointedGood(r, inode, ftype, maxIno);
    EncOne(n, maxIno);
    RecAt(s, last, rs, chunk, maxIno, k);
    TiledOne(at, n, chunk, maxIno);
    Replaced(s, last, rs[..k], [r], rs[k + 1..], [n], p[..], chunk, maxIno);
  }

  lemma PointedGood(r: Rec, inode: nat, ftype: byte, maxIno: nat)
    requires GoodRec(r, maxIno) && inode <= maxIno < MAX32
    ensures GoodRec(r.(inode := inode, ftype := ftype), maxIno)
    ensures r.(inode := inode, ftype := ftype) == r.(inode := inode).(ftype := ftype)
  {
  }

  // ---------- entries stay where they are ----------

  /** Some record in use, at offset `at`, has that name. */
  ghost predicate Placed(rs: seq<Rec>, at: nat, name: seq<byte>, maxIno: nat) {
    AllGood(rs, maxIno) && exists k: nat :: k < |rs| && Off(rs, k, maxIno) == at && Matches(rs[k], name)
  }

  lemma OffAround(a: seq<Rec>, m: seq<Rec>, c: seq<Rec>, j: nat, maxIno: nat)
    requires AllGood(a, maxIno) && AllGood(m, maxIno) && AllGood(c, maxIno)
    ensures AllGood(a + m + c, maxIno)
    ensures j <= |a| ==> Off(a + m + c, j, maxIno) == Off(a, j, maxIno)
    ensures j <= |c| ==> Off(a + m + c, |a| + |m| + j, maxIno)
                         == |EncAll(a, maxIno)| + |EncAll(m, maxIno)| + Off(c, j, maxIno)
  {
    hide GoodRec, EncAll, Off;
    EncAllSplit(a, m, maxIno);
    if j <= |a| {
      OffSplit(a + m, c, j, maxIno);
      OffSplit(a, m, j, maxIno);
    }
    if j <= |c| {
      OffSplit(a + m, c, |a| + |m| + j, maxIno);
      if j == 0 { EndOff(a + m, maxIno); ZeroOff(c, maxIno); }
    }
  }

  /** Records replaced by others of the same length: what is named before and
      behind them stays there. */
  lemma MidPlaced(a: seq<Rec>, r: Rec, c: seq<Rec>, m: seq<Rec>, at: nat, name: seq<byte>, maxIno: nat)
    requires Placed(a + [r] + c, at, name, maxIno) && AllGood(m, maxIno)
    requires AllGood(a, maxIno) && GoodRec(r, maxIno) && AllGood(c, maxIno) && |EncAll(m, maxIno)| == r.len && |m| > 0
    requires Matches(r, name) ==> Matches(m[0], name)
    ensures Placed(a + m + c, at, name, maxIno)
  {
    hide GoodRec, EncAll, Off, Matches, Enc;
    EncOne(r, maxIno);
    var k: nat :| k < |a + [r] + c| && Off(a + [r] + c, k, maxIno) == at && Matches((a + [r] + c)[k], name);
    var j: nat := if k <= |a| then k else k - |a| - 1;
    OffAround(a, [r], c, j, maxIno);
    OffAround(a, m, c, j, maxIno);
    var i := if k <= |a| then k else k - 1 + |m|;
    assert (a + m + c)[i] == if k < |a| then a[k] else if k == |a| then m[0] else c[k - |a| - 1];
    assert Off(a + m + c, i, maxIno) == at;
  }

  lemma PutPlaced(rs: seq<Rec>, k: nat, inode: nat, name: seq<byte>, ftype: byte, at: nat, other: seq<byte>,
                  chunk: nat, maxIno: nat)
    requires k < |rs| && GoodRec(rs[k], maxIno) && 0 < |name| < 256 && Fits(rs[k], RecLen(|name|)) && Nameable(rs[k])
    requires inode <= maxIno < MAX32 && Placed(rs, at, other, maxIno)
    requires chunk > 0 && InChunk(Off(rs, k, maxIno), rs[k].len, chunk)
    ensures Placed(PutIn(rs, k, inode, name, ftype, maxIno), at, other, maxIno)
  {
    hide GoodRec, EncAll, Off, Enc, Fits, RecLen, InChunk;
    var r, m := rs[k], PutAt(rs[k], inode, name, ftype, maxIno);
    PutSound(Off(rs, k, maxIno), r, inode, name, ftype, chunk, maxIno);
    FreshGood(Off(rs, k, maxIno), m, chunk, maxIno);
    PutFirst(r, inode, name, ftype, other, maxIno);
    assert rs == rs[..k] + [r] + rs[k + 1..];
    MidPlaced(rs[..k], r, rs[k + 1..], m, at, other, maxIno);
  }

  lemma PutFirst(r: Rec, inode: nat, name: seq<byte>, ftype: byte, other: seq<byte>, maxIno: nat)
    requires GoodRec(r, maxIno) && 0 < |name| < 256 && Fits(r, RecLen(|name|))
    ensures var m := PutAt(r, inode, name, ftype, maxIno); |m| > 0 && (Matches(r, other) ==> Matches(m[0], other))
  {
    hide Enc;
    if r.inode != 0 {
      assert Name(Front(r, RecLen(r.nameLen))) == Name(r);
    }
  }

  lemma PointedPlaced(rs: seq<Rec>, k: nat, inode: nat, ftype: byte, at: nat, other: seq<byte>, maxIno: nat)
    requires k < |rs| && inode <= maxIno < MAX32 && inode != 0 && Placed(rs, at, other, maxIno)
    ensures Placed(Pointed(rs, k, inode, ftype), at, other, maxIno)
  {
    hide GoodRec, EncAll, Off, Enc;
    var r := rs[k];
    var n := r.(inode := inode, ftype := ftype);
    assert GoodRec(r, maxIno);
    PointedGood(r, inode, ftype, maxIno);
    EncOne(n, maxIno);
    assert rs == rs[..k] + [r] + rs[k + 1..];
    MidPlaced(rs[..k], r, rs[k + 1..], [n], at, other, maxIno);
  }

  lemma AddedPlaced(rs: seq<Rec>, raw: seq<byte>, inode: nat, name: seq<byte>, ftype: byte, at: nat, other: seq<byte>, maxIno: nat)
    requires |name| < 256 && 8 + |name| <= |raw| && Placed(rs, at, other, maxIno)
    requires GoodRec(Made(raw, inode, name, ftype), maxIno)
    ensures Placed(Added(rs, raw, inode, name, ftype), at, other, maxIno)
  {
    hide GoodRec, EncAll, Off, Enc, Matches, Made;
    var k: nat :| k < |rs| && Off(rs, k, maxIno) == at && Matches(rs[k], other);
    var r := Made(raw, inode, name, ftype);
    OffSplit(rs, [r], k, maxIno);
    assert (rs + [r])[k] == rs[k];
  }
}
