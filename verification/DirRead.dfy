/**
 Reading a directory in parts: what is left to be read from a position on, and
 how one page is read.
 */
module DirRead {
  import opened Arith
  import opened ByteBuffer
  import opened DirRecord
  import opened DirPage
  import opened DirEdit
  import opened DirDrop
  import opened DirTable
  import opened DirWrite

  /** The entries of records that start at pos or later, the first record starting at `at`. */
  function LiveFrom(rs: seq<Rec>, at: nat, pos: nat): seq<Entry> {
    if |rs| == 0 then []
    else (if at >= pos then LiveOf(rs[0]) else []) + LiveFrom(rs[1..], at + rs[0].len, pos)
  }

  function AllFrom(layout: seq<seq<Rec>>, n: nat, pos: nat): seq<Entry> {
    if |layout| == 0 then [] else LiveFrom(layout[0], n * PAGE, pos) + AllFrom(layout[1..], n + 1, pos)
  }

  lemma OffTail(rs: seq<Rec>, k: nat, maxIno: nat)
    requires AllGood(rs, maxIno) && 0 < k <= |rs|
    ensures AllGood(rs[1..], maxIno) && Off(rs, k, maxIno) == rs[0].len + Off(rs[1..], k - 1, maxIno)
  {
    hide EncAll, Enc;
    assert forall i :: 0 <= i < |rs[1..]| ==> rs[1..][i] == rs[i + 1];
    assert GoodRec(rs[0], maxIno);
    EncOne(rs[0], maxIno);
    assert rs[..k] == [rs[0]] + rs[1..][..k - 1];
    EncAllSplit([rs[0]], rs[1..][..k - 1], maxIno);
  }

  /** From a position behind the start of the record before the k-th, and not
      behind the k-th's, the k-th and those after it are left. */
  lemma {:induction false} LiveFromCut(rs: seq<Rec>, base: nat, pos: nat, k: nat, maxIno: nat)
    requires AllGood(rs, maxIno) && k <= |rs|
    requires k > 0 ==> base + Off(rs, k - 1, maxIno) < pos
    requires k < |rs| ==> pos <= base + Off(rs, k, maxIno)
    ensures LiveFrom(rs, base, pos) == Live(rs[k..])
    decreases |rs|
  {
    hide EncAll, Enc, GoodRec, Off, LiveOf;
    if |rs| > 0 {
      ZeroOff(rs, maxIno);
      if k > 0 {
        OffMono(rs, 0, k - 1, maxIno);
        OffTail(rs, k, maxIno);
        if k > 1 { OffTail(rs, k - 1, maxIno); }
        LiveFromCut(rs[1..], base + rs[0].len, pos, k - 1, maxIno);
        assert rs[1..][k - 1..] == rs[k..];
      } else {
        OffTail(rs, 1, maxIno);
        ZeroOff(rs[1..], maxIno);
        LiveFromCut(rs[1..], base + rs[0].len, pos, 0, maxIno);
        assert rs[1..][0..] == rs[1..] && rs[0..] == rs;
      }
    }
  }

  /** All pages are tiled, and no longer than a page. */
  predicate PagesGood(layout: seq<seq<Rec>>, maxIno: nat) {
    forall m :: 0 <= m < |layout| ==> AllGood(layout[m], maxIno) && |EncAll(layout[m], maxIno)| <= PAGE
  }

  lemma {:induction false} AllFromStart(layout: seq<seq<Rec>>, base: nat, pos: nat, maxIno: nat)
    requires PagesGood(layout, maxIno) && pos <= base * PAGE
    ensures AllFrom(layout, base, pos) == AllLive(layout)
    decreases |layout|
  {
    hide EncAll, Off, Live, LiveFrom;
    if |layout| > 0 {
      var rs := layout[0];
      if |rs| > 0 { ZeroOff(rs, maxIno); }
      LiveFromCut(rs, base * PAGE, pos, 0, maxIno);
      assert rs[0..] == rs;
      AllFromStart(layout[1..], base + 1, pos, maxIno);
    }
  }

  lemma PageSkipped(rs: seq<Rec>, at: nat, pos: nat, maxIno: nat)
    requires AllGood(rs, maxIno) && |EncAll(rs, maxIno)| <= PAGE && at + PAGE <= pos
    ensures LiveFrom(rs, at, pos) == []
  {
    hide EncAll, Enc, Off, Live, LiveFrom, GoodRec;
    EndOff(rs, maxIno);
    if |rs| > 0 {
      Around(rs, |rs| - 1, maxIno);
      assert GoodRec(rs[|rs| - 1], maxIno);
      InRange(rs[|rs| - 1], maxIno);
    }
    LiveFromCut(rs, at, pos, |rs|, maxIno);
    assert rs[|rs|..] == [];
    NoRecords();
  }

  lemma {:induction false} AllSkipped(layout: seq<seq<Rec>>, base: nat, pos: nat, maxIno: nat)
    requires PagesGood(layout, maxIno) && pos >= (base + |layout|) * PAGE
    ensures AllFrom(layout, base, pos) == []
    decreases |layout|
  {
    hide EncAll, Off, Live, LiveFrom;
    if |layout| > 0 {
      PageSkipped(layout[0], base * PAGE, pos, maxIno);
      AllSkipped(layout[1..], base + 1, pos, maxIno);
    }
  }

  /** What is left from a position in page n: earlier pages do not matter, later ones are whole. */
  lemma {:induction false} AllFromAt(layout: seq<seq<Rec>>, base: nat, n: nat, pos: nat, maxIno: nat)
    requires PagesGood(layout, maxIno) && n < |layout| && (base + n) * PAGE <= pos <= (base + n + 1) * PAGE
    ensures AllFrom(layout, base, pos) == LiveFrom(layout[n], (base + n) * PAGE, pos) + AllLive(layout[n + 1..])
    decreases |layout|
  {
    hide EncAll, Off, Live, LiveFrom;
    if n == 0 {
      AllFromStart(layout[1..], base + 1, pos, maxIno);
    } else {
      PageSkipped(layout[0], base * PAGE, pos, maxIno);
      AllFromAt(layout[1..], base + 1, n - 1, pos, maxIno);
      assert layout[1..][n..] == layout[n + 1..];
    }
  }

  /** The record that a byte of a page lies in. */
  lemma {:induction false} Containing(s: seq<byte>, limit: nat, rs: seq<Rec>, offset: nat, chunk: nat, maxIno: nat, upto: nat)
    returns (k: nat)
    requires Holds(s, limit, rs, chunk, maxIno) && AllGood(rs, maxIno) && upto <= |rs| && offset < Off(rs, upto, maxIno)
    ensures k < |rs| && Off(rs, k, maxIno) <= offset < Off(rs, k, maxIno) + rs[k].len
    decreases upto
  {
    hide EncAll, Enc, GoodRec, Off, Holds, InChunk, Get32, Get16;
    k := 0;
    ZeroOff(rs, maxIno);
    if upto == 0 {
      assert false;
    } else if Off(rs, upto - 1, maxIno) <= offset {
      k := upto - 1;
      RecAt(s, limit, rs, chunk, maxIno, k);
    } else {
      k := Containing(s, limit, rs, offset, chunk, maxIno, upto - 1);
    }
  }

  lemma SameStartOfChunk(at: nat, len: nat, offset: nat, chunk: nat)
    requires chunk > 0 && InChunk(at, len, chunk) && at <= offset < at + len
    ensures offset / chunk == at / chunk
  {
    SubChunk(at, len, chunk, at, offset - at + 1);
  }

  /** kr_validate_entry: the first record that starts at `offset` or later. */
  method ValidateEntry(p: array<byte>, limit: nat, offset: nat, ghost rs: seq<Rec>, chunk: nat, maxIno: nat)
    returns (at: nat, ghost k: nat)
    requires ChunkOk(chunk) && Holds(p[..], limit, rs, chunk, maxIno) && AllGood(rs, maxIno) && offset < limit
    ensures k <= |rs| && at == Off(rs, k, maxIno) >= offset
    ensures k > 0 ==> Off(rs, k - 1, maxIno) < offset
  {
    hide EncAll, Enc, GoodRec, Off, Holds, InChunk, Get16, Get32;
    var s := p[..];
    HoldsMeans(s, limit, rs, chunk, maxIno);
    EndAt(s, limit, rs, chunk, maxIno);
    ghost var i := Containing(s, limit, rs, offset, chunk, maxIno, |rs|);
    RecAt(s, limit, rs, chunk, maxIno, i);
    SameStartOfChunk(Off(rs, i, maxIno), rs[i].len, offset, chunk);
    k := ChunkStart(s, limit, rs, i, chunk, maxIno);
    at := offset / chunk * chunk;
    DivMod(offset, chunk);
    BeforeIt(s, limit, rs, k, offset, chunk, maxIno);
    while at < offset
      invariant k <= i + 1 && at == Off(rs, k, maxIno) && (k > 0 ==> Off(rs, k - 1, maxIno) < offset)
      decreases i + 1 - k
    {
      if k == i + 1 { assert false; }
      RecAt(s, limit, rs, chunk, maxIno, k);
      InRange(rs[k], maxIno);
      at := at + Get16(s, at + 4);
      k := k + 1;
    }
  }

  lemma BeforeIt(s: seq<byte>, limit: nat, rs: seq<Rec>, k: nat, offset: nat, chunk: nat, maxIno: nat)
    requires Holds(s, limit, rs, chunk, maxIno) && AllGood(rs, maxIno) && k <= |rs| && Off(rs, k, maxIno) <= offset
    ensures k > 0 ==> Off(rs, k - 1, maxIno) < offset
  {
    hide EncAll, Enc, GoodRec, Off, Holds, InChunk, Get16, Get32;
    if k > 0 {
      RecAt(s, limit, rs, chunk, maxIno, k - 1);
      InRange(rs[k - 1], maxIno);
    }
  }

  lemma LiveTail(rs: seq<Rec>, k: nat)
    requires k < |rs|
    ensures Live(rs[k..]) == LiveOf(rs[k]) + Live(rs[k + 1..])
  {
    assert rs[k..][1..] == rs[k + 1..];
  }

  /** The inner loop of kr_readdir, for a sink that takes `room` more entries. */
  method EmitPage(p: array<byte>, limit: nat, from: nat, room: nat, ghost k0: nat, ghost rs: seq<Rec>, chunk: nat, maxIno: nat)
    returns (out: seq<Entry>, at: nat, full: bool, ghost k: nat)
    requires Holds(p[..], limit, rs, chunk, maxIno) && AllGood(rs, maxIno) && k0 <= |rs| && from == Off(rs, k0, maxIno)
    ensures k <= |rs| && at == Off(rs, k, maxIno) && Live(rs[k0..]) == out + Live(rs[k..]) && |out| <= room
    ensures if full then k < |rs| && |out| == room && rs[k].inode != 0 else k == |rs|
  {
    hide EncAll, Enc, GoodRec, Off, Holds, InChunk, Get16, Get32, Live;
    var s := p[..];
    HoldsMeans(s, limit, rs, chunk, maxIno);
    EndAt(s, limit, rs, chunk, maxIno);
    out, at, full, k := [], from, false, k0;
    while at as int <= limit - 12
      invariant k <= |rs| && at == Off(rs, k, maxIno) && Live(rs[k0..]) == out + Live(rs[k..]) && |out| <= room
      decreases |rs| - k
    {
      if k == |rs| { assert false; }
      RecAt(s, limit, rs, chunk, maxIno, k);
      InRange(rs[k], maxIno);
      LiveTail(rs, k);
      if Get32(s, at) != 0 {
        if |out| == room {
          full := true;
          return;
        }
        NameLen(rs[k], maxIno);
        NameAt(s, at, rs[k]);
        out := out + [Entry(s[at + 8..at + 8 + s[at + 6] as int], Get32(s, at), s[at + 7])];
      }
      at := at + Get16(s, at + 4);
      k := k + 1;
    }
    if k < |rs| {
      RecAt(s, limit, rs, chunk, maxIno, k);
      InRange(rs[k], maxIno);
      assert false;
    }
  }

  lemma NameLen(r: Rec, maxIno: nat)
    requires GoodRec(r, maxIno)
    ensures 8 + r.nameLen <= r.len && |r.data| == r.len - 8
  {
  }
}
