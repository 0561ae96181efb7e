/**
 A page of a directory: what it takes for a page to be accepted, how it is
 searched, and what the edits of single records make of it.
 */
module DirPage {
  import opened Arith
  import opened ByteBuffer
  import opened DirRecord

  // ---------- chunks ----------

  lemma ChunkEnd(off: nat, len: nat, chunk: nat, limit: nat)
    requires chunk > 0 && InChunk(off, len, chunk) && off < limit && limit % chunk == 0
    ensures off + len <= limit && len <= chunk
  {
    var q := off / chunk;
    DivMod(off, chunk);
    DivMod(off + len - 1, chunk);
    DivMod(limit, chunk);
    if limit / chunk <= q {
      MulMono(limit / chunk, q, chunk);
    } else {
      MulMono(q + 1, limit / chunk, chunk);
    }
  }

  lemma SubChunk(off: nat, len: nat, chunk: nat, o: nat, n: nat)
    requires chunk > 0 && InChunk(off, len, chunk) && off <= o && n > 0 && o + n <= off + len
    ensures InChunk(o, n, chunk)
  {
    var q := off / chunk;
    DivMod(off, chunk);
    DivMod(off + len - 1, chunk);
    DivUnique(o, chunk, q, o - q * chunk);
    DivUnique(o + n - 1, chunk, q, o + n - 1 - q * chunk);
  }

  lemma WholeChunk(off: nat, chunk: nat)
    requires chunk > 0 && off % chunk == 0
    ensures InChunk(off, chunk, chunk)
  {
    DivMod(off, chunk);
    DivUnique(off + chunk - 1, chunk, off / chunk, chunk - 1);
  }

  // ---------- tilings, and their parts ----------

  predicate TiledFrom(base: nat, rs: seq<Rec>, chunk: nat, maxIno: nat)
    requires chunk > 0
  {
    AllGood(rs, maxIno) && forall k :: 0 <= k < |rs| ==> InChunk(base + Off(rs, k, maxIno), rs[k].len, chunk)
  }

  lemma OffSplit(a: seq<Rec>, b: seq<Rec>, k: nat, maxIno: nat)
    requires AllGood(a, maxIno) && AllGood(b, maxIno) && k <= |a| + |b|
    ensures AllGood(a + b, maxIno)
    ensures Off(a + b, k, maxIno)
            == if k <= |a| then Off(a, k, maxIno) else |EncAll(a, maxIno)| + Off(b, k - |a|, maxIno)
  {
    hide GoodRec, EncAll;
    if k <= |a| {
      assert (a + b)[..k] == a[..k];
    } else {
      assert (a + b)[..k] == a + b[..k - |a|];
      EncAllSplit(a, b[..k - |a|], maxIno);
    }
  }

  lemma TiledJoin(base: nat, a: seq<Rec>, b: seq<Rec>, chunk: nat, maxIno: nat)
    requires chunk > 0 && TiledFrom(base, a, chunk, maxIno)
    requires TiledFrom(base + |EncAll(a, maxIno)|, b, chunk, maxIno)
    ensures TiledFrom(base, a + b, chunk, maxIno)
  {
    hide GoodRec, EncAll, Off, InChunk;
    var all := a + b;
    forall k | 0 <= k < |all| ensures InChunk(base + Off(all, k, maxIno), all[k].len, chunk) {
      OffSplit(a, b, k, maxIno);
      if k == |a| { EndOff(a, maxIno); ZeroOff(b, maxIno); }
    }
  }

  lemma EndOff(a: seq<Rec>, maxIno: nat)
    requires AllGood(a, maxIno)
    ensures Off(a, |a|, maxIno) == |EncAll(a, maxIno)|
  {
    assert a[..|a|] == a;
  }

  lemma ZeroOff(a: seq<Rec>, maxIno: nat)
    requires AllGood(a, maxIno)
    ensures Off(a, 0, maxIno) == 0
  {
    assert a[..0] == [];
  }

  lemma TiledParts(base: nat, a: seq<Rec>, b: seq<Rec>, chunk: nat, maxIno: nat)
    requires chunk > 0 && TiledFrom(base, a + b, chunk, maxIno)
    ensures TiledFrom(base, a, chunk, maxIno) && TiledFrom(base + |EncAll(a, maxIno)|, b, chunk, maxIno)
  {
    hide GoodRec, EncAll, Off, InChunk;
    var all := a + b;
    assert forall k :: 0 <= k < |a| ==> a[k] == all[k];
    assert forall k :: 0 <= k < |b| ==> b[k] == all[|a| + k];
    forall k | 0 <= k < |a| ensures InChunk(base + Off(a, k, maxIno), a[k].len, chunk) {
      OffSplit(a, b, k, maxIno);
      assert InChunk(base + Off(all, k, maxIno), all[k].len, chunk);
    }
    forall k | 0 <= k < |b| ensures InChunk(base + |EncAll(a, maxIno)| + Off(b, k, maxIno), b[k].len, chunk) {
      OffSplit(a, b, |a| + k, maxIno);
      if k == 0 { EndOff(a, maxIno); ZeroOff(b, maxIno); }
      assert InChunk(base + Off(all, |a| + k, maxIno), all[|a| + k].len, chunk);
    }
  }

  lemma FromZero(rs: seq<Rec>, chunk: nat, maxIno: nat)
    requires chunk > 0
    ensures Tiled(rs, chunk, maxIno) <==> TiledFrom(0, rs, chunk, maxIno)
  {
  }

  lemma OffMono(rs: seq<Rec>, j: nat, k: nat, maxIno: nat)
    requires AllGood(rs, maxIno) && j <= k <= |rs|
    ensures Off(rs, j, maxIno) <= Off(rs, k, maxIno)
    decreases k
  {
    hide GoodRec, EncAll, Off;
    if j < k {
      OffMono(rs, j, k - 1, maxIno);
      Around(rs, k - 1, maxIno);
    }
  }

  lemma MidTiled(a: seq<Rec>, old': seq<Rec>, c: seq<Rec>, new': seq<Rec>, chunk: nat, maxIno: nat)
    requires chunk > 0 && AllGood(a, maxIno) && AllGood(old', maxIno) && AllGood(c, maxIno)
    requires Tiled(a + old' + c, chunk, maxIno)
    requires TiledFrom(|EncAll(a, maxIno)|, new', chunk, maxIno)
    requires |EncAll(new', maxIno)| == |EncAll(old', maxIno)|
    ensures Tiled(a + new' + c, chunk, maxIno)
  {
    hide GoodRec, EncAll, Off, InChunk, TiledFrom, Tiled;
    FromZero(a + old' + c, chunk, maxIno);
    TiledParts(0, a + old', c, chunk, maxIno);
    TiledParts(0, a, old', chunk, maxIno);
    EncAllSplit(a, old', maxIno);
    FreshGood(|EncAll(a, maxIno)|, new', chunk, maxIno);
    EncAllSplit(a, new', maxIno);
    TiledJoin(0, a, new', chunk, maxIno);
    TiledJoin(0, a + new', c, chunk, maxIno);
    FromZero(a + new' + c, chunk, maxIno);
  }

  lemma EncThree(a: seq<Rec>, b: seq<Rec>, c: seq<Rec>, maxIno: nat)
    requires AllGood(a, maxIno) && AllGood(b, maxIno) && AllGood(c, maxIno)
    ensures AllGood(a + b + c, maxIno)
    ensures EncAll(a + b + c, maxIno) == EncAll(a, maxIno) + EncAll(b, maxIno) + EncAll(c, maxIno)
  {
    hide GoodRec, EncAll;
    EncAllSplit(a, b, maxIno);
    EncAllSplit(a + b, c, maxIno);
  }

  lemma HoldsFrom(t: seq<byte>, rs: seq<Rec>, x: seq<byte>, y: seq<byte>, chunk: nat, maxIno: nat)
    requires chunk > 0 && Tiled(rs, chunk, maxIno) && EncAll(rs, maxIno) == x && t == x + y
    ensures Holds(t, |x|, rs, chunk, maxIno) && t[|x|..] == y
  {
    hide Tiled, EncAll;
  }

  lemma HoldsMeans(s: seq<byte>, limit: nat, rs: seq<Rec>, chunk: nat, maxIno: nat)
    requires Holds(s, limit, rs, chunk, maxIno)
    ensures chunk > 0 && limit <= |s| && Tiled(rs, chunk, maxIno) && AllGood(rs, maxIno)
    ensures |EncAll(rs, maxIno)| == limit && s == EncAll(rs, maxIno) + s[limit..]
  {
    hide EncAll, GoodRec, InChunk, Off;
    assert s == s[..limit] + s[limit..];
  }

  /** Some records of a page replaced by others that take up the same bytes. */
  lemma Replaced(s: seq<byte>, limit: nat, a: seq<Rec>, old': seq<Rec>, c: seq<Rec>, new': seq<Rec>,
                 t: seq<byte>, chunk: nat, maxIno: nat)
    requires Holds(s, limit, a + old' + c, chunk, maxIno) && AllGood(a, maxIno) && AllGood(old', maxIno) && AllGood(c, maxIno)
    requires TiledFrom(|EncAll(a, maxIno)|, new', chunk, maxIno)
    requires |EncAll(new', maxIno)| == |EncAll(old', maxIno)|
    requires t == EncAll(a, maxIno) + EncAll(new', maxIno) + (EncAll(c, maxIno) + s[limit..])
    ensures Holds(t, limit, a + new' + c, chunk, maxIno) && t[limit..] == s[limit..]
  {
    hide GoodRec, EncAll, Off, InChunk, TiledFrom, Tiled, Holds;
    HoldsMeans(s, limit, a + old' + c, chunk, maxIno);
    MidTiled(a, old', c, new', chunk, maxIno);
    FreshGood(|EncAll(a, maxIno)|, new', chunk, maxIno);
    EncThree(a, old', c, maxIno);
    EncThree(a, new', c, maxIno);
    var x := EncAll(a, maxIno) + EncAll(new', maxIno) + EncAll(c, maxIno);
    assert t == x + s[limit..];
    HoldsFrom(t, a + new' + c, x, s[limit..], chunk, maxIno);
  }

  lemma FreshGood(base: nat, rs: seq<Rec>, chunk: nat, maxIno: nat)
    requires chunk > 0 && TiledFrom(base, rs, chunk, maxIno)
    ensures AllGood(rs, maxIno)
  {
  }

  // ---------- accepting a page ----------

  /** kr_last_byte, for a page that starts inside the directory or at its end */
  function LastByte(size: nat, index: nat): (r: nat)
    requires index * PAGE <= size
    ensures r <= PAGE
  {
    if size - index * PAGE > PAGE then PAGE else size - index * PAGE
  }

  /** Two tilings of the same bytes agree as far as both go. */
  lemma {:induction false} SameStart(s: seq<byte>, limit: nat, rs: seq<Rec>, done: nat, got: seq<Rec>,
                                     chunk: nat, maxIno: nat, j: nat)
    requires Holds(s, limit, rs, chunk, maxIno) && Holds(s, done, got, chunk, maxIno)
    requires done <= limit && j <= |got|
    ensures j <= |rs| && got[..j] == rs[..j] && Off(got, j, maxIno) == Off(rs, j, maxIno)
    decreases j
  {
    hide GoodRec, EncAll, Enc, InChunk, Get32, Get16;
    if j == 0 {
      assert got[..0] == rs[..0];
    } else {
      SameStart(s, limit, rs, done, got, chunk, maxIno, j - 1);
      RecAt(s, done, got, chunk, maxIno, j - 1);
      EndAt(s, limit, rs, chunk, maxIno);
      RecPositive(got[j - 1], maxIno);
      RecAt(s, limit, rs, chunk, maxIno, j - 1);
      assert got[j - 1] == rs[j - 1];
      assert got[..j] == got[..j - 1] + [got[j - 1]] && rs[..j] == rs[..j - 1] + [rs[j - 1]];
    }
  }

  lemma RecPositive(r: Rec, maxIno: nat)
    requires GoodRec(r, maxIno)
    ensures r.len >= 12
  {
  }

  /** The bytes of one kind of page determine its records. */
  lemma OneTiling(s: seq<byte>, limit: nat, rs: seq<Rec>, got: seq<Rec>, chunk: nat, maxIno: nat)
    requires Holds(s, limit, rs, chunk, maxIno) && Holds(s, limit, got, chunk, maxIno)
    ensures rs == got
  {
    SameStart(s, limit, rs, limit, got, chunk, maxIno, |got|);
    SameStart(s, limit, got, limit, rs, chunk, maxIno, |rs|);
    assert got[..|got|] == got && rs[..|rs|] == rs;
  }

  /** The record that the bytes at an offset spell out. */
  function RecOf(s: seq<byte>, at: nat, len: nat): Rec
    requires 8 <= len && at + len <= |s|
  {
    Rec(Get32(s, at), len, s[at + 6], s[at + 7], s[at + 8..at + len])
  }

  lemma Bytes32(s: seq<byte>, at: nat)
    requires at + 4 <= |s|
    ensures LE32(Get32(s, at)) == s[at..at + 4]
  {
    var b0: nat, b1: nat, b2: nat, b3: nat := s[at], s[at + 1], s[at + 2], s[at + 3];
    var v := b0 + 256 * b1 + 65536 * b2 + 16777216 * b3;
    assert v == b0 + 256 * (b1 + 256 * (b2 + 256 * b3));
    DivUnique(v, 256, b1 + 256 * (b2 + 256 * b3), b0);
    DivUnique(b1 + 256 * (b2 + 256 * b3), 256, b2 + 256 * b3, b1);
    DivUnique(b2 + 256 * b3, 256, b3, b2);
    assert v / 65536 == v / 256 / 256 && v / 16777216 == v / 256 / 256 / 256;
  }

  lemma Bytes16(s: seq<byte>, at: nat)
    requires at + 2 <= |s|
    ensures LE16(Get16(s, at)) == s[at..at + 2]
  {
  }

  lemma SpellsOut(s: seq<byte>, at: nat, len: nat)
    requires 8 <= len < 0x10000 && at + len <= |s| && Get16(s, at + 4) == len
    ensures Enc(RecOf(s, at, len)) == s[at..at + len]
  {
    hide Get32, Get16, LE32, LE16;
    Bytes32(s, at);
    Bytes16(s, at + 4);
    assert s[at..at + len] == s[at..at + 4] + s[at + 4..at + 6] + [s[at + 6], s[at + 7]] + s[at + 8..at + len];
  }

  /** One more record after a tiling. */
  lemma Onward(s: seq<byte>, at: nat, got: seq<Rec>, len: nat, chunk: nat, maxIno: nat)
    requires Holds(s, at, got, chunk, maxIno) && 8 <= len < 0x10000 && at + len <= |s| && Get16(s, at + 4) == len
    requires GoodRec(RecOf(s, at, len), maxIno) && InChunk(at, len, chunk)
    ensures Holds(s, at + len, got + [RecOf(s, at, len)], chunk, maxIno)
  {
    hide GoodRec, EncAll, Enc, InChunk, RecOf, Tiled, TiledFrom;
    var r := RecOf(s, at, len);
    SpellsOut(s, at, len);
    EncOne(r, maxIno);
    FromZero(got, chunk, maxIno);
    TiledOne(at, r, chunk, maxIno);
    FreshGood(0, got, chunk, maxIno);
    EncAllSplit(got, [r], maxIno);
    TiledJoin(0, got, [r], chunk, maxIno);
    FromZero(got + [r], chunk, maxIno);
    assert s[..at + len] == s[..at] + s[at..at + len];
  }

  lemma TiledOne(base: nat, r: Rec, chunk: nat, maxIno: nat)
    requires chunk > 0 && GoodRec(r, maxIno) && InChunk(base, r.len, chunk)
    ensures TiledFrom(base, [r], chunk, maxIno)
  {
    assert [r][..0] == [];
  }

  lemma NoBytes(s: seq<byte>, chunk: nat, maxIno: nat)
    requires chunk > 0
    ensures Holds(s, 0, [], chunk, maxIno)
  {
  }

  /** Where the walk stands, a page with a tiling has a record that passes. */
  lemma NextPasses(s: seq<byte>, limit: nat, rs: seq<Rec>, at: nat, got: seq<Rec>, chunk: nat, maxIno: nat)
    requires Holds(s, limit, rs, chunk, maxIno) && Holds(s, at, got, chunk, maxIno) && at < limit
    ensures at + 12 <= limit
    ensures var len := Get16(s, at + 4);
            && 12 <= len && at + len <= limit && len % 4 == 0 && RecLen(s[at + 6]) <= len
            && InChunk(at, len, chunk) && Get32(s, at) <= maxIno
  {
    hide EncAll, Enc, InChunk, Get32, Get16;
    var j := |got|;
    SameStart(s, limit, rs, at, got, chunk, maxIno, j);
    EndAt(s, at, got, chunk, maxIno);
    EndAt(s, limit, rs, chunk, maxIno);
    RecAt(s, limit, rs, chunk, maxIno, j);
  }

  lemma NoTiling(s: seq<byte>, limit: nat, at: nat, got: seq<Rec>, chunk: nat, maxIno: nat)
    requires Holds(s, at, got, chunk, maxIno) && at <= limit <= |s|
    requires at < limit
    requires at + 12 > limit || var len := Get16(s, at + 4);
               len < 12 || len % 4 != 0 || len < RecLen(s[at + 6]) || !InChunk(at, len, chunk) || Get32(s, at) > maxIno
    ensures !exists t :: Holds(s, limit, t, chunk, maxIno)
  {
    hide Holds, InChunk, Get32, Get16;
    if t :| Holds(s, limit, t, chunk, maxIno) {
      NextPasses(s, limit, t, at, got, chunk, maxIno);
    }
  }

  lemma PageBefore(size: nat, index: nat)
    requires index * PAGE <= size && size / PAGE != index
    ensures LastByte(size, index) == PAGE
  {
    DivMod(size, PAGE);
    if size < (index + 1) * PAGE { DivUnique(size, PAGE, index, size - index * PAGE); }
  }

  lemma ChunkFits(limit: nat, chunk: nat)
    requires ChunkOk(chunk) && 0 < limit && limit % chunk == 0
    ensures limit >= chunk
  {
  }

  /** kr_check_page: accepts the pages that are tiled by sound records. */
  method CheckPage(p: array<byte>, index: nat, size: nat, chunk: nat, maxIno: nat) returns (ok: bool, ghost rs: seq<Rec>)
    requires p.Length == PAGE && ChunkOk(chunk) && maxIno < MAX32 && index * PAGE <= size
    ensures ok ==> Holds(p[..], LastByte(size, index), rs, chunk, maxIno)
    ensures ok <==> LastByte(size, index) % chunk == 0
                    && exists t :: Holds(p[..], LastByte(size, index), t, chunk, maxIno)
  {
    hide EncAll, Enc, InChunk, Get32, Get16, Holds, Tiled;
    var s := p[..];
    var limit: nat := PAGE;
    rs := [];
    NoBytes(s, chunk, maxIno);
    DivMod(size, PAGE);
    if size / PAGE == index {
      limit := size % PAGE;
      if limit % chunk != 0 { return false, rs; }
      if limit == 0 { return true, rs; }
    } else {
      PageBefore(size, index);
    }
    ChunkFits(limit, chunk);
    ok := false;
    var at: nat := 0;
    while at <= limit - 12
      invariant at <= limit && Holds(s, at, rs, chunk, maxIno)
      decreases limit - at
    {
      var len := Get16(s, at + 4);
      if len < 12 || len % 4 != 0 || len < RecLen(s[at + 6])
         || at / chunk != (at + len - 1) / chunk || Get32(s, at) > maxIno {
        NotInChunk(at, len, chunk);
        NoTiling(s, limit, at, rs, chunk, maxIno);
        return;
      }
      Passes(s, at, len, limit, chunk, maxIno);
      Onward(s, at, rs, len, chunk, maxIno);
      rs := rs + [RecOf(s, at, len)];
      at := at + len;
    }
    ok := at == limit;
    if !ok { NoTiling(s, limit, at, rs, chunk, maxIno); }
  }

  lemma NotInChunk(at: nat, len: nat, chunk: nat)
    requires chunk > 0
    ensures len > 0 && at / chunk != (at + len - 1) / chunk ==> !InChunk(at, len, chunk)
  {
  }

  lemma Passes(s: seq<byte>, at: nat, len: nat, limit: nat, chunk: nat, maxIno: nat)
    requires chunk > 0 && limit <= |s| && at < limit && limit % chunk == 0 && at + 8 <= |s| && maxIno < MAX32
    requires 12 <= len < 0x10000 && len % 4 == 0 && RecLen(s[at + 6]) <= len && at / chunk == (at + len - 1) / chunk
    requires Get32(s, at) <= maxIno
    ensures at + len <= limit && InChunk(at, len, chunk) && GoodRec(RecOf(s, at, len), maxIno)
  {
    ChunkEnd(at, len, chunk, limit);
  }
}
