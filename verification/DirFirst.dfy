/**
 The first chunk of a directory, with the entries for itself and its parent;
 and whether a directory holds nothing else.
 */
module DirFirst {
  import opened ByteBuffer
  import opened DirRecord
  import opened DirPage
  import opened DirEdit
  import opened DirWrite
  import opened DirTable
  import opened DirNames

  const DOT: byte := 46

  const SELF: seq<byte> := [DOT]
  const PARENT: seq<byte> := [DOT, DOT]

  /** Five writes over a record's bytes, the name padded to four bytes. */
  lemma FivePieces(h: seq<byte>, l: seq<byte>, a: seq<byte>, b: seq<byte>, d: seq<byte>, rest: seq<byte>,
                   ino: seq<byte>, len: seq<byte>, n: seq<byte>, name: seq<byte>, ft: seq<byte>)
    requires |h| == |ino| == 4 && |l| == |len| == 2 && |a| == |n| == 1 && |b| == |ft| == 1 && |d| == |name|
    ensures Over(Over(Over(Over(Over(h + l + a + b + d + rest, 6, n), 4, len), 8, name), 0, ino), 7, ft)
            == ino + len + n + ft + name + rest
  {
    hide Over;
    assert h + l + a + b + d + rest == (h + l) + a + (b + d + rest);
    OverMiddle(h + l, a, b + d + rest, n);
    assert (h + l) + n + (b + d + rest) == h + l + (n + b + d + rest);
    OverMiddle(h, l, n + b + d + rest, len);
    assert h + len + (n + b + d + rest) == (h + len + n + b) + d + rest;
    OverMiddle(h + len + n + b, d, rest, name);
    assert (h + len + n + b) + name + rest == [] + h + (len + n + b + name + rest);
    OverMiddle([], h, len + n + b + name + rest, ino);
    assert [] + ino + (len + n + b + name + rest) == (ino + len + n) + b + (name + rest);
    OverMiddle(ino + len + n, b, name + rest, ft);
    assert (ino + len + n) + ft + (name + rest) == ino + len + n + ft + name + rest;
  }

  /** A record with a short name, laid over the bytes x. */
  function Laid(x: seq<byte>, inode: nat, nameLen: byte, name: seq<byte>, ftype: byte): Rec
    requires |name| == 4 && 12 <= |x|
  {
    Rec(inode, |x|, nameLen, ftype, name + x[12..])
  }

  method LayRecord(p: array<byte>, at: nat, len: nat, inode: nat, nameLen: byte, name: seq<byte>, ftype: byte,
                   ghost a: seq<byte>, ghost x: seq<byte>, ghost c: seq<byte>)
    requires p[..] == a + x + c && |a| == at && |x| == len && 12 <= len < 0x10000 && |name| == 4 && inode < MAX32
    modifies p
    ensures p[..] == a + Enc(Laid(x, inode, nameLen, name, ftype)) + c
  {
    hide Over, LE32, LE16;
    ghost var h, l, f, b, d, rest := x[..4], x[4..6], x[6..7], x[7..8], x[8..12], x[12..];
    assert x == h + l + f + b + d + rest;
    WriteIn(p, at, 6, [nameLen], a, x, c);
    ghost var x1 := Over(x, 6, [nameLen]);
    WriteIn(p, at, 4, LE16(len), a, x1, c);
    ghost var x2 := Over(x1, 4, LE16(len));
    WriteIn(p, at, 8, name, a, x2, c);
    ghost var x3 := Over(x2, 8, name);
    WriteIn(p, at, 0, LE32(inode), a, x3, c);
    ghost var x4 := Over(x3, 0, LE32(inode));
    WriteIn(p, at, 7, [ftype], a, x4, c);
    FivePieces(h, l, f, b, d, rest, LE32(inode), LE16(len), [nameLen], name, [ftype]);
    EncPieces(LE32(inode), LE16(len), [nameLen], [ftype], name, rest);
  }

  function DotRecs(chunk: nat, self: nat, parent: nat, ftype: byte): seq<Rec>
    requires ChunkOk(chunk)
  {
    [Laid(Zeros(12), self, 1, [DOT, 0, 0, 0], ftype), Laid(Zeros(chunk - 12), parent, 2, [DOT, DOT, 0, 0], ftype)]
  }

  lemma DotsLive(chunk: nat, self: nat, parent: nat, ftype: byte)
    requires ChunkOk(chunk) && self != 0 && parent != 0
    ensures Live(DotRecs(chunk, self, parent, ftype)) == [Entry(SELF, self, ftype), Entry(PARENT, parent, ftype)]
  {
    var rs := DotRecs(chunk, self, parent, ftype);
    assert rs == [rs[0]] + [rs[1]];
    LiveSplit([rs[0]], [rs[1]]);
    LiveOne(rs[0]);
    LiveOne(rs[1]);
    assert rs[0].data[..1] == SELF && rs[1].data[..2] == PARENT;
  }

  lemma DotsTiled(chunk: nat, self: nat, parent: nat, ftype: byte, maxIno: nat)
    requires ChunkOk(chunk) && self <= maxIno < MAX32 && parent <= maxIno
    ensures var rs := DotRecs(chunk, self, parent, ftype);
            && Tiled(rs, chunk, maxIno) && GoodRec(rs[0], maxIno) && GoodRec(rs[1], maxIno)
            && EncAll(rs, maxIno) == Enc(rs[0]) + Enc(rs[1]) && |Enc(rs[0])| == 12 && |Enc(rs[1])| == chunk - 12
  {
    hide EncAll, Enc, Off, InChunk, TiledFrom, Tiled;
    var rs := DotRecs(chunk, self, parent, ftype);
    WholeChunk(0, chunk);
    SubChunk(0, chunk, chunk, 0, 12);
    SubChunk(0, chunk, chunk, 12, chunk - 12);
    EncOne(rs[0], maxIno);
    EncOne(rs[1], maxIno);
    TiledOne(0, rs[0], chunk, maxIno);
    TiledOne(12, rs[1], chunk, maxIno);
    TiledJoin(0, [rs[0]], [rs[1]], chunk, maxIno);
    assert rs == [rs[0]] + [rs[1]];
    FromZero(rs, chunk, maxIno);
    EncPair(rs[0], rs[1], maxIno);
  }

  /** kr_make_empty, on a page of the new directory */
  method MakeEmpty(p: array<byte>, chunk: nat, self: nat, parent: nat, ftype: byte, maxIno: nat)
    requires p.Length == PAGE && ChunkOk(chunk) && self <= maxIno < MAX32 && parent <= maxIno
    modifies p
    ensures Holds(p[..], chunk, DotRecs(chunk, self, parent, ftype), chunk, maxIno)
  {
    hide Enc, EncAll, Tiled, Laid, Over;
    MemClear(p, 0, chunk);
    ghost var z, c := Zeros(12), p[chunk..];
    ghost var x := Zeros(chunk - 12);
    Cleared(p[..], chunk);
    assert p[..] == [] + z + (x + c);
    DotsTiled(chunk, self, parent, ftype, maxIno);
    ghost var rs := DotRecs(chunk, self, parent, ftype);
    LayRecord(p, 0, 12, self, 1, [DOT, 0, 0, 0], ftype, [], z, x + c);
    assert [] + Enc(rs[0]) + (x + c) == Enc(rs[0]) + x + c;
    LayRecord(p, 12, chunk - 12, parent, 2, [DOT, DOT, 0, 0], ftype, Enc(rs[0]), x, c);
    HoldsFrom(p[..], rs, Enc(rs[0]) + Enc(rs[1]), c, chunk, maxIno);
  }

  lemma Cleared(s: seq<byte>, chunk: nat)
    requires 12 <= chunk <= |s| && (exists t: seq<byte> :: |t| == |s| && s == Over(t, 0, Zeros(chunk)))
    ensures s == Zeros(12) + Zeros(chunk - 12) + s[chunk..]
  {
    ZerosSplit(12, chunk - 12);
  }

  // ---------- empty directories ----------

  /** No entry but for the directory itself and for its parent. */
  predicate OnlyDots(t: map<seq<byte>, Target>, self: nat) {
    forall x :: x in t ==> x == PARENT || (x == SELF && t[x].inode == self)
  }

  predicate DotEntry(e: Entry, self: nat) {
    e.name == PARENT || (e.name == SELF && e.inode == self)
  }

  predicate DotRec(r: Rec, self: nat) {
    r.inode == 0 || DotEntry(Entry(Name(r), r.inode, r.ftype), self)
  }

  /** kr_empty_dir's tests of a record in use, on the bytes of its name */
  lemma DotTests(r: Rec, self: nat)
    requires 0 < r.nameLen <= |r.data| && r.inode != 0 && |r.data| >= 4
    ensures DotRec(r, self) <==>
              !(r.data[0] != DOT || r.nameLen > 2 || (r.nameLen < 2 && r.inode != self) || (r.nameLen == 2 && r.data[1] != DOT))
  {
    var n := Name(r);
    if r.nameLen == 1 { assert n == [r.data[0]]; }
    if r.nameLen == 2 { assert n == [r.data[0], r.data[1]]; }
  }

  lemma {:induction false} LiveDots(rs: seq<Rec>, self: nat)
    requires forall k :: 0 <= k < |rs| ==> DotRec(rs[k], self)
    ensures forall i :: 0 <= i < |Live(rs)| ==> DotEntry(Live(rs)[i], self)
    decreases |rs|
  {
    hide DotEntry, Name;
    if |rs| > 0 {
      LiveDots(rs[1..], self);
      var a, b := LiveOf(rs[0]), Live(rs[1..]);
      assert DotRec(rs[0], self);
      assert forall i :: 0 <= i < |a + b| ==> (a + b)[i] == if i < |a| then a[i] else b[i - |a|];
    }
  }

  lemma {:induction false} AllLiveDots(layout: seq<seq<Rec>>, self: nat)
    requires forall n, k :: 0 <= n < |layout| && 0 <= k < |layout[n]| ==> DotRec(layout[n][k], self)
    ensures forall i :: 0 <= i < |AllLive(layout)| ==> DotEntry(AllLive(layout)[i], self)
    decreases |layout|
  {
    hide DotEntry, DotRec, Live;
    if |layout| > 0 {
      LiveDots(layout[0], self);
      AllLiveDots(layout[1..], self);
      var a, b := Live(layout[0]), AllLive(layout[1..]);
      assert forall i :: 0 <= i < |a + b| ==> (a + b)[i] == if i < |a| then a[i] else b[i - |a|];
    }
  }

  lemma EntryInTable(es: seq<Entry>, i: nat)
    requires Distinct(es) && i < |es|
    ensures es[i].name in Table(es) && Table(es)[es[i].name] == Target(es[i].inode, es[i].ftype)
  {
    hide Table, Distinct;
    assert es == es[..i] + [es[i]] + es[i + 1..];
    TableWithout(es[..i], es[i], es[i + 1..]);
  }

  lemma DotsInTable(es: seq<Entry>, self: nat)
    requires Distinct(es) && forall i :: 0 <= i < |es| ==> DotEntry(es[i], self)
    ensures OnlyDots(Table(es), self)
  {
    hide Table, Distinct;
    forall x | x in Table(es) ensures x == PARENT || (x == SELF && Table(es)[x].inode == self) {
      NotInTable(es, x);
      var i :| 0 <= i < |es| && es[i].name == x;
      EntryInTable(es, i);
      assert DotEntry(es[i], self);
    }
  }

  /** A record that is neither shows in the table. */
  lemma NotOnlyDots(layout: seq<seq<Rec>>, n: nat, k: nat, self: nat)
    requires n < |layout| && k < |layout[n]| && GoodNames(AllLive(layout)) && !DotRec(layout[n][k], self)
    ensures !OnlyDots(Table(AllLive(layout)), self)
  {
    hide Table, AllLive, Name, GoodNames;
    EntryOf(layout, n, k);
  }

  /** kr_empty_dir's tests of a record, on the bytes of a page */
  predicate NotDots(s: seq<byte>, at: nat, self: nat)
    requires at + 12 <= |s|
  {
    && Get32(s, at) != 0
    && (s[at + 8] != DOT || s[at + 6] > 2 || (s[at + 6] < 2 && Get32(s, at) != self) || (s[at + 6] == 2 && s[at + 9] != DOT))
  }

  lemma FreeDots(r: Rec, self: nat)
    requires r.inode == 0
    ensures DotRec(r, self)
  {
  }

  lemma DotsAt(s: seq<byte>, last: nat, rs: seq<Rec>, k: nat, self: nat, chunk: nat, maxIno: nat)
    requires Holds(s, last, rs, chunk, maxIno) && k < |rs| && Nameable(rs[k])
    ensures AllGood(rs, maxIno)
    ensures var at := Off(rs, k, maxIno);
            && at + 12 <= last <= |s| && (NotDots(s, at, self) <==> !DotRec(rs[k], self))
            && Off(rs, k + 1, maxIno) == at + Get16(s, at + 4) <= last
  {
    hide EncAll, Enc, InChunk, Get32, Get16, Off, Tiled, DotRec;
    HoldsMeans(s, last, rs, chunk, maxIno);
    RecAt(s, last, rs, chunk, maxIno, k);
    InRange(rs[k], maxIno);
    DataAt(s, Off(rs, k, maxIno), rs[k]);
    if rs[k].inode != 0 {
      DotTests(rs[k], self);
    } else {
      FreeDots(rs[k], self);
    }
  }

  /** The inner loop of kr_empty_dir. */
  method OnlyDotsIn(p: array<byte>, last: nat, self: nat, ghost rs: seq<Rec>, chunk: nat, maxIno: nat)
    returns (ok: bool, ghost k: nat)
    requires Holds(p[..], last, rs, chunk, maxIno) && forall j :: 0 <= j < |rs| ==> Nameable(rs[j])
    ensures ok ==> forall j :: 0 <= j < |rs| ==> DotRec(rs[j], self)
    ensures !ok ==> k < |rs| && !DotRec(rs[k], self)
  {
    hide EncAll, Enc, InChunk, Get32, Get16, Off, Tiled, DotRec, NotDots, Nameable;
    var s := p[..];
    HoldsMeans(s, last, rs, chunk, maxIno);
    EndAt(s, last, rs, chunk, maxIno);
    var at: nat := 0;
    k := 0;
    while at as int <= last - 12
      invariant k <= |rs| && at == Off(rs, k, maxIno)
      invariant forall j :: 0 <= j < k ==> DotRec(rs[j], self)
      decreases |rs| - k
    {
      if k == |rs| { assert false; }
      DotsAt(s, last, rs, k, self, chunk, maxIno);
      if NotDots(s, at, self) {
        return false, k;
      }
      at := at + Get16(s, at + 4);
      k := k + 1;
    }
    if k < |rs| {
      DotsAt(s, last, rs, k, self, chunk, maxIno);
      assert false;
    }
    ok := true;
  }

  lemma DataAt(s: seq<byte>, at: nat, r: Rec)
    requires 12 <= r.len && at + r.len <= |s| && |r.data| == r.len - 8 && s[at + 8..at + r.len] == r.data
    ensures |r.data| >= 4 && r.data[0] == s[at + 8] && r.data[1] == s[at + 9]
  {
  }
}
