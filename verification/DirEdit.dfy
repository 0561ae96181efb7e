/**
 Searching and editing the records of one page of a directory.
 */
module DirEdit {
  import opened ByteBuffer
  import opened DirRecord
  import opened DirPage

  /** What a record that is in use says. */
  datatype Entry = Entry(name: seq<byte>, inode: nat, ftype: byte)

  /** kr_match */
  predicate Matches(r: Rec, name: seq<byte>) {
    r.inode != 0 && r.nameLen as int == |name| && Name(r) == name
  }

  /** Room for one more entry of `need` bytes: in a free record, or behind the name. */
  predicate Fits(r: Rec, need: nat) {
    if r.inode == 0 then r.len >= need else r.len >= RecLen(r.nameLen) + need
  }

  function LiveOf(r: Rec): seq<Entry> {
    if r.inode == 0 then [] else [Entry(Name(r), r.inode, r.ftype)]
  }

  function Live(rs: seq<Rec>): seq<Entry> {
    if |rs| == 0 then [] else LiveOf(rs[0]) + Live(rs[1..])
  }

  lemma NoRecords()
    ensures Live([]) == []
  {
  }

  lemma {:induction false} LiveSplit(a: seq<Rec>, b: seq<Rec>)
    ensures Live(a + b) == Live(a) + Live(b)
  {
    if |a| == 0 {
      assert a + b == b;
    } else {
      assert (a + b)[1..] == a[1..] + b;
      LiveSplit(a[1..], b);
    }
  }

  lemma LiveOne(r: Rec)
    ensures Live([r]) == LiveOf(r)
  {
    assert [r][1..] == [];
  }

  lemma LiveAround(a: seq<Rec>, m: seq<Rec>, c: seq<Rec>)
    ensures Live(a + m + c) == Live(a) + Live(m) + Live(c)
  {
    LiveSplit(a, m);
    LiveSplit(a + m, c);
  }

  // ---------- searching ----------

  /** A record with room for `need` bytes starts that far before the end. */
  lemma StartsBefore(s: seq<byte>, limit: nat, rs: seq<Rec>, chunk: nat, maxIno: nat, k: nat, j: nat, need: nat)
    requires Holds(s, limit, rs, chunk, maxIno) && k <= j < |rs| && rs[j].len >= need
    ensures Off(rs, k, maxIno) + need <= limit
  {
    hide EncAll, Enc, InChunk, Get32, Get16, Off;
    RecAt(s, limit, rs, chunk, maxIno, j);
    OffMono(rs, k, j, maxIno);
  }

  lemma NameAt(s: seq<byte>, at: nat, r: Rec)
    requires 8 + r.nameLen <= r.len && at + r.len <= |s| && |r.data| == r.len - 8 && s[at + 8..at + r.len] == r.data
    ensures s[at + 8..at + 8 + r.nameLen] == Name(r)
  {
    var d := s[at + 8..at + r.len];
    assert d[..r.nameLen] == s[at + 8..at + 8 + r.nameLen];
  }

  /** kr_match, on the bytes of a page */
  predicate MatchAt(s: seq<byte>, at: nat, name: seq<byte>)
    requires at + 8 <= |s|
  {
    |name| == s[at + 6] as int && Get32(s, at) != 0 && at + 8 + |name| <= |s| && s[at + 8..at + 8 + |name|] == name
  }

  /** What the searches find in the bytes of the k-th record. */
  lemma Reads(s: seq<byte>, limit: nat, rs: seq<Rec>, chunk: nat, maxIno: nat, k: nat, name: seq<byte>)
    requires Holds(s, limit, rs, chunk, maxIno) && k < |rs|
    ensures AllGood(rs, maxIno) && Off(rs, k, maxIno) + 12 <= limit <= |s|
    ensures var at, r := Off(rs, k, maxIno), rs[k];
            && (MatchAt(s, at, name) <==> Matches(r, name)) && Get32(s, at) == r.inode && Get16(s, at + 4) == r.len
            && s[at + 6] == r.nameLen && s[at + 7] == r.ftype && Off(rs, k + 1, maxIno) == at + r.len <= limit && r.len >= 12
  {
    hide EncAll, Enc, InChunk, Get32, Get16, Off, Tiled, Name;
    HoldsMeans(s, limit, rs, chunk, maxIno);
    RecAt(s, limit, rs, chunk, maxIno, k);
    NameAt(s, Off(rs, k, maxIno), rs[k]);
  }

  lemma NoneAfter(s: seq<byte>, limit: nat, rs: seq<Rec>, chunk: nat, maxIno: nat, k: nat, name: seq<byte>)
    requires Holds(s, limit, rs, chunk, maxIno) && AllGood(rs, maxIno) && k <= |rs|
    requires Off(rs, k, maxIno) + RecLen(|name|) > limit
    ensures forall j :: k <= j < |rs| ==> !Matches(rs[j], name) && !Fits(rs[j], RecLen(|name|))
  {
    hide EncAll, Enc, InChunk, Get32, Get16, Off, Name, Holds;
    var need := RecLen(|name|);
    forall j | k <= j < |rs| ensures !Matches(rs[j], name) && !Fits(rs[j], need) {
      assert GoodRec(rs[j], maxIno);
      if rs[j].len >= need { StartsBefore(s, limit, rs, chunk, maxIno, k, j, need); }
    }
  }

  /** The search within a page, by kr_find_entry: the first record that matches. */
  method FindInPage(p: array<byte>, last: nat, name: seq<byte>, ghost rs: seq<Rec>, chunk: nat, maxIno: nat)
    returns (found: bool, at: nat, ghost k: nat)
    requires Holds(p[..], last, rs, chunk, maxIno) && |name| < 256
    ensures k <= |rs| && forall j :: 0 <= j < k ==> !Matches(rs[j], name)
    ensures found ==> k < |rs| && at == Off(rs, k, maxIno) && Matches(rs[k], name)
    ensures !found ==> k == |rs|
  {
    hide EncAll, Enc, InChunk, Get32, Get16, Off, Tiled, RecLen, Matches, MatchAt, Fits;
    var s := p[..];
    var need := RecLen(|name|);
    HoldsMeans(s, last, rs, chunk, maxIno);
    EndAt(s, last, rs, chunk, maxIno);
    at, k := 0, 0;
    while at as int <= last - need
      invariant k <= |rs| && at == Off(rs, k, maxIno)
      invariant forall j :: 0 <= j < k ==> !Matches(rs[j], name)
      decreases |rs| - k
    {
      assert need > 0 by { NeedBound(|name|); }
      if k == |rs| { assert false; }
      // a length of zero does not occur in an accepted page
      Reads(s, last, rs, chunk, maxIno, k, name);
      if MatchAt(s, at, name) {
        return true, at, k;
      }
      at := at + Get16(s, at + 4);
      k := k + 1;
    }
    NoneAfter(s, last, rs, chunk, maxIno, k, name);
    found, k := false, |rs|;
  }

  datatype Slot = Nowhere | Clash | Here(at: nat) | AtEnd

  /** The search for room within a page, by kr_add_link; `last` may be 0. */
  method FindSlot(p: array<byte>, last: nat, name: seq<byte>, ghost rs: seq<Rec>, chunk: nat, maxIno: nat)
    returns (slot: Slot, ghost k: nat)
    requires p.Length == PAGE && ChunkOk(chunk) && last % chunk == 0 && Holds(p[..], last, rs, chunk, maxIno) && |name| < 256
    ensures k <= |rs| && forall j :: 0 <= j < k ==> !Matches(rs[j], name) && !Fits(rs[j], RecLen(|name|))
    ensures slot.Clash? ==> k < |rs| && Matches(rs[k], name)
    ensures slot.Here? ==> k < |rs| && !Matches(rs[k], name) && Fits(rs[k], RecLen(|name|))
    ensures slot.Here? ==> slot.at == Off(rs, k, maxIno)
    ensures slot.AtEnd? ==> k == |rs| && last + chunk <= PAGE
    ensures slot.Nowhere? ==> k == |rs| && last == PAGE
  {
    hide EncAll, Enc, InChunk, Get32, Get16, Off, Tiled, RecLen, Holds, Matches, MatchAt, Fits, ChunkOk;
    var s := p[..];
    var need := RecLen(|name|);
    NeedBound(|name|);
    HoldsMeans(s, last, rs, chunk, maxIno);
    EndAt(s, last, rs, chunk, maxIno);
    RoomAtEnd(last, chunk);
    var at: nat := 0;
    k := 0;
    while at <= PAGE - need
      invariant k <= |rs| && at == Off(rs, k, maxIno) <= last
      invariant forall j :: 0 <= j < k ==> !Matches(rs[j], name) && !Fits(rs[j], need)
      decreases |rs| - k
    {
      if at == last {
        NoneAtEnd(s, last, rs, chunk, maxIno, k);
        return AtEnd, k;
      }
      if k == |rs| { assert false; }
      Reads(s, last, rs, chunk, maxIno, k, name);
      if MatchAt(s, at, name) {
        return Clash, k;
      }
      var len, nameLen := Get16(s, at + 4), RecLen(s[at + 6]);
      FitsReads(rs[k], need);
      if (Get32(s, at) == 0 && len >= need) || len >= nameLen + need {
        return Here(at), k;
      }
      at := at + len;
      k := k + 1;
    }
    if last < PAGE {
      assert false;
    }
    NoneAfter(s, last, rs, chunk, maxIno, k, name);
    slot, k := Nowhere, |rs|;
  }

  lemma FitsReads(r: Rec, need: nat)
    ensures Fits(r, need) <==> (r.inode == 0 && r.len >= need) || r.len >= RecLen(r.nameLen) + need
  {
  }

  lemma NeedBound(n: nat)
    requires n < 256
    ensures 0 < RecLen(n) <= 264
  {
  }

  lemma RoomAtEnd(last: nat, chunk: nat)
    requires ChunkOk(chunk) && last % chunk == 0 && last <= PAGE
    ensures last < PAGE ==> last + chunk <= PAGE
    ensures chunk >= 1024
  {
  }

  lemma NoneAtEnd(s: seq<byte>, last: nat, rs: seq<Rec>, chunk: nat, maxIno: nat, k: nat)
    requires Holds(s, last, rs, chunk, maxIno) && k <= |rs| && Off(rs, k, maxIno) == last
    ensures k == |rs|
  {
    hide EncAll, Enc, InChunk, Get32, Get16, Off;
    if k < |rs| { RecAt(s, last, rs, chunk, maxIno, k); }
  }
}
