/**
 What the edits of a page's records make of the directory's table of names.
 */
module DirNames {
  import opened ByteBuffer
  import opened DirRecord
  import opened DirEdit
  import opened DirWrite
  import opened DirDrop
  import opened DirTable

  predicate GoodNames(es: seq<Entry>) {
    Distinct(es) && forall i :: 0 <= i < |es| ==> |es[i].name| > 0
  }

  predicate NoMatch(rs: seq<Rec>, name: seq<byte>) {
    forall k :: 0 <= k < |rs| ==> !Matches(rs[k], name)
  }

  predicate NoFit(rs: seq<Rec>, need: nat) {
    forall k :: 0 <= k < |rs| ==> !Fits(rs[k], need)
  }

  /** The first record, of all pages, that has so much room. */
  ghost predicate FirstFit(layout: seq<seq<Rec>>, need: nat, n: nat, k: nat) {
    && n < |layout| && k < |layout[n]| && Fits(layout[n][k], need)
    && (forall j :: 0 <= j < k ==> !Fits(layout[n][j], need))
    && forall m :: 0 <= m < n ==> NoFit(layout[m], need)
  }

  ghost predicate NowhereFits(layout: seq<seq<Rec>>, need: nat) {
    forall m :: 0 <= m < |layout| ==> NoFit(layout[m], need)
  }

  lemma FitsSomewhere(layout: seq<seq<Rec>>, need: nat, n: nat, k: nat)
    requires FirstFit(layout, need, n, k)
    ensures !NowhereFits(layout, need)
  {
    hide Fits;
  }

  /** A record in use that is among the entries. */
  lemma EntryOf(layout: seq<seq<Rec>>, n: nat, k: nat)
    requires n < |layout| && k < |layout[n]| && GoodNames(AllLive(layout)) && layout[n][k].inode != 0
    ensures var r, es := layout[n][k], AllLive(layout);
            && es == Pre(layout, n, k) + [Entry(Name(r), r.inode, r.ftype)] + Post(layout, n, k)
            && |Name(r)| > 0 && Name(r) in Table(es) && Table(es)[Name(r)] == Target(r.inode, r.ftype)
  {
    hide AllLive, Pre, Post, Name, Table, Distinct;
    var r := layout[n][k];
    Where(layout, n, k);
    var e := Entry(Name(r), r.inode, r.ftype);
    TableWithout(Pre(layout, n, k), e, Post(layout, n, k));
    assert AllLive(layout)[|Pre(layout, n, k)|] == e;
  }

  /** The table after an entry is put into the k-th record of page n. */
  lemma PutTable(layout: seq<seq<Rec>>, n: nat, k: nat, inode: nat, name: seq<byte>, ftype: byte, maxIno: nat)
    requires n < |layout| && k < |layout[n]| && GoodRec(layout[n][k], maxIno) && 0 < |name| < 256 && inode != 0
    requires Fits(layout[n][k], RecLen(|name|)) && GoodNames(AllLive(layout)) && name !in Table(AllLive(layout))
    ensures var after := AllLive(layout[n := PutIn(layout[n], k, inode, name, ftype, maxIno)]);
            GoodNames(after) && Table(after) == Table(AllLive(layout))[name := Target(inode, ftype)]
  {
    hide AllLive, Pre, Post, Table, GoodRec, Fits, Live, LiveOf, PutAt, RecLen;
    var rs, e := layout[n], Entry(name, inode, ftype);
    var r := rs[k];
    Where(layout, n, k);
    PutLive(r, inode, name, ftype, maxIno);
    LiveOne(r);
    LiveAround(rs[..k], PutAt(r, inode, name, ftype, maxIno), rs[k + 1..]);
    Edited(layout, n, k, PutIn(rs, k, inode, name, ftype, maxIno), LiveOf(r) + [e]);
    var a, b := Pre(layout, n, k) + LiveOf(r), Post(layout, n, k);
    assert Pre(layout, n, k) + (LiveOf(r) + [e]) + b == a + [e] + b;
    InsertNamed(a, e, b);
  }

  lemma InsertNamed(a: seq<Entry>, e: Entry, b: seq<Entry>)
    requires GoodNames(a + b) && e.name !in Table(a + b) && |e.name| > 0
    ensures GoodNames(a + [e] + b) && Table(a + [e] + b) == Table(a + b)[e.name := Target(e.inode, e.ftype)]
  {
    hide Table, Distinct;
    NotInTable(a + b, e.name);
    TableInsert(a, e, b);
    forall i | 0 <= i < |a + [e] + b| ensures |(a + [e] + b)[i].name| > 0 { InsertedAt(a, e, b, i); }
  }

  lemma RemoveNamed(a: seq<Entry>, e: Entry, b: seq<Entry>)
    requires GoodNames(a + [e] + b)
    ensures GoodNames(a + b) && Table(a + b) == Table(a + [e] + b) - {e.name}
  {
    hide Table, Distinct;
    TableWithout(a, e, b);
    forall i | 0 <= i < |a + b| ensures |(a + b)[i].name| > 0 { InsertedAt(a, e, b, if i < |a| then i else i + 1); }
  }

  lemma ChangeNamed(a: seq<Entry>, e: Entry, b: seq<Entry>, f: Entry)
    requires GoodNames(a + [e] + b) && f.name == e.name
    ensures GoodNames(a + [f] + b) && Table(a + [f] + b) == Table(a + [e] + b)[e.name := Target(f.inode, f.ftype)]
  {
    hide Table, Distinct;
    TableChange(a, e, b, f);
    assert (a + [e] + b)[|a|] == e;
    forall i | 0 <= i < |a + [f] + b| ensures |(a + [f] + b)[i].name| > 0 {
      InsertedAt(a, f, b, i);
      InsertedAt(a, e, b, i);
    }
  }

  /** The table after the k-th record of page n is deleted. */
  lemma DropTable(layout: seq<seq<Rec>>, n: nat, k: nat, chunk: nat, maxIno: nat)
    requires chunk > 0 && n < |layout| && k < |layout[n]| && AllGood(layout[n], maxIno) && layout[n][k].inode != 0
    requires GoodNames(AllLive(layout))
    ensures var after := AllLive(layout[n := Dropped(layout[n], k, chunk, maxIno)]);
            GoodNames(after) && Table(after) == Table(AllLive(layout)) - {Name(layout[n][k])}
  {
    hide AllLive, Pre, Post, Table, GoodRec, Live, Dropped, GoodNames, Name;
    var rs := layout[n];
    EntryOf(layout, n, k);
    DroppedLive(rs, k, chunk, maxIno);
    assert Live(rs[..k]) + [] + Live(rs[k + 1..]) == Live(rs[..k]) + Live(rs[k + 1..]);
    Edited(layout, n, k, Dropped(rs, k, chunk, maxIno), []);
    var a, b := Pre(layout, n, k), Post(layout, n, k);
    assert a + [] + b == a + b;
    RemoveNamed(a, Entry(Name(rs[k]), rs[k].inode, rs[k].ftype), b);
  }

  /** The table after the k-th record of page n is pointed at another inode. */
  lemma PointTable(layout: seq<seq<Rec>>, n: nat, k: nat, inode: nat, ftype: byte)
    requires n < |layout| && k < |layout[n]| && layout[n][k].inode != 0 && inode != 0
    requires GoodNames(AllLive(layout))
    ensures var after := AllLive(layout[n := Pointed(layout[n], k, inode, ftype)]);
            GoodNames(after) && Table(after) == Table(AllLive(layout))[Name(layout[n][k]) := Target(inode, ftype)]
  {
    hide AllLive, Pre, Post, Table, Live, Pointed, GoodNames, Name;
    var rs := layout[n];
    EntryOf(layout, n, k);
    PointedLive(rs, k, inode, ftype);
    var f := Entry(Name(rs[k]), inode, ftype);
    Edited(layout, n, k, Pointed(rs, k, inode, ftype), [f]);
    ChangeNamed(Pre(layout, n, k), Entry(Name(rs[k]), rs[k].inode, rs[k].ftype), Post(layout, n, k), f);
  }

  /** The table after a record is added at the end of the directory. */
  lemma GrowTable(layout: seq<seq<Rec>>, after: seq<seq<Rec>>, rs: seq<Rec>, raw: seq<byte>, inode: nat, name: seq<byte>, ftype: byte)
    requires 0 < |name| < 256 && 8 + |name| <= |raw| && inode != 0
    requires (rs == [] && after == layout + [Added(rs, raw, inode, name, ftype)])
             || (|layout| > 0 && rs == layout[|layout| - 1] && after == layout[|layout| - 1 := Added(rs, raw, inode, name, ftype)])
    requires GoodNames(AllLive(layout)) && name !in Table(AllLive(layout))
    ensures GoodNames(AllLive(after)) && Table(AllLive(after)) == Table(AllLive(layout))[name := Target(inode, ftype)]
  {
    hide AllLive, Table, GoodNames, Live, Added;
    var e, n := Entry(name, inode, ftype), |after| - 1;
    AddedLive(rs, raw, inode, name, ftype);
    assert after[n := Added(rs, raw, inode, name, ftype)] == after;
    AllLiveAt(after, n, Added(rs, raw, inode, name, ftype));
    NoPages();
    var a := AllLive(after[..n]);
    assert after[n + 1..] == [];
    if after == layout + [Added(rs, raw, inode, name, ftype)] && rs == [] {
      assert after[..n] == layout && a + [] == a;
      assert AllLive(layout) == a + Live(rs);
    } else {
      assert layout[n := rs] == layout && after[..n] == layout[..n] && layout[n + 1..] == [];
      AllLiveAt(layout, n, rs);
      assert AllLive(layout) == a + Live(rs);
    }
    assert a + (Live(rs) + [e]) + [] == (a + Live(rs)) + [e] + [];
    assert (a + Live(rs)) + [] == a + Live(rs);
    InsertNamed(a + Live(rs), e, []);
  }

  lemma NoPages()
    ensures AllLive([]) == [] && Live([]) == []
  {
  }
}
