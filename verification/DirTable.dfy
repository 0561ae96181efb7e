/**
 The entries of a directory as a table from names to inodes.
 */
module DirTable {
  import opened ByteBuffer
  import opened DirRecord
  import opened DirEdit

  datatype Target = Target(inode: nat, ftype: byte)

  predicate Distinct(es: seq<Entry>) {
    forall i, j :: 0 <= i < j < |es| ==> es[i].name != es[j].name
  }

  predicate NoneNamed(es: seq<Entry>, name: seq<byte>) {
    forall i :: 0 <= i < |es| ==> es[i].name != name
  }

  function Table(es: seq<Entry>): (t: map<seq<byte>, Target>)
    ensures forall x :: x in t <==> !NoneNamed(es, x)
  {
    if |es| == 0 then map[]
    else
      var t := Table(es[1..]);
      assert forall i :: 0 < i < |es| ==> es[i] == es[1..][i - 1];
      t[es[0].name := Target(es[0].inode, es[0].ftype)]
  }

  lemma TableStep(es: seq<Entry>)
    requires |es| > 0
    ensures Table(es) == Table(es[1..])[es[0].name := Target(es[0].inode, es[0].ftype)]
  {
  }

  /** An entry among others, and the table with and without it. */
  lemma {:induction false} TableWith(a: seq<Entry>, e: Entry, b: seq<Entry>)
    requires NoneNamed(a, e.name)
    ensures Table(a + [e] + b) == Table(a + b)[e.name := Target(e.inode, e.ftype)]
    decreases |a|
  {
    hide Table;
    var all := a + [e] + b;
    if |a| == 0 {
      assert all[1..] == b && a + b == b;
      TableStep(all);
    } else {
      assert a[0].name != e.name;
      assert NoneNamed(a[1..], e.name) by { assert forall i :: 0 <= i < |a[1..]| ==> a[1..][i] == a[i + 1]; }
      TableWith(a[1..], e, b);
      assert all[0] == a[0] == (a + b)[0];
      assert all[1..] == a[1..] + [e] + b && (a + b)[1..] == a[1..] + b;
      TableStep(all);
      TableStep(a + b);
    }
  }

  lemma DistinctWith(a: seq<Entry>, e: Entry, b: seq<Entry>)
    ensures Distinct(a + [e] + b) <==> Distinct(a + b) && NoneNamed(a + b, e.name)
    ensures Distinct(a + [e] + b) ==> NoneNamed(a, e.name)
  {
    var all, rest := a + [e] + b, a + b;
    InsertedAt(a, e, b, |a|);
    if Distinct(all) {
      forall i | 0 <= i < |rest| ensures rest[i].name != e.name {
        InsertedAt(a, e, b, if i < |a| then i else i + 1);
      }
      forall i, j | 0 <= i < j < |rest| ensures rest[i].name != rest[j].name {
        InsertedAt(a, e, b, if i < |a| then i else i + 1);
        InsertedAt(a, e, b, if j < |a| then j else j + 1);
      }
      forall i | 0 <= i < |a| ensures a[i].name != e.name { assert all[i] == a[i]; }
    }
    if Distinct(rest) && NoneNamed(rest, e.name) {
      forall i, j | 0 <= i < j < |all| ensures all[i].name != all[j].name {
        InsertedAt(a, e, b, i);
        InsertedAt(a, e, b, j);
      }
    }
  }

  lemma InsertedAt(a: seq<Entry>, e: Entry, b: seq<Entry>, i: nat)
    requires i < |a| + 1 + |b|
    ensures (a + [e] + b)[i] == if i < |a| then (a + b)[i] else if i == |a| then e else (a + b)[i - 1]
  {
  }

  lemma NotInTable(es: seq<Entry>, name: seq<byte>)
    ensures NoneNamed(es, name) <==> name !in Table(es)
  {
  }

  /** Taking an entry out of the list takes its name out of the table. */
  lemma TableWithout(a: seq<Entry>, e: Entry, b: seq<Entry>)
    requires Distinct(a + [e] + b)
    ensures Distinct(a + b) && NoneNamed(a + b, e.name)
    ensures e.name in Table(a + [e] + b) && Table(a + [e] + b)[e.name] == Target(e.inode, e.ftype)
    ensures Table(a + b) == Table(a + [e] + b) - {e.name}
  {
    hide Table, Distinct, NoneNamed;
    DistinctWith(a, e, b);
    TableWith(a, e, b);
    NotInTable(a + b, e.name);
    var t := Table(a + b);
    assert t == t[e.name := Target(e.inode, e.ftype)] - {e.name};
  }

  /** Putting in an entry with a new name puts it into the table. */
  lemma TableInsert(a: seq<Entry>, e: Entry, b: seq<Entry>)
    requires Distinct(a + b) && NoneNamed(a + b, e.name)
    ensures Distinct(a + [e] + b) && Table(a + [e] + b) == Table(a + b)[e.name := Target(e.inode, e.ftype)]
  {
    DistinctWith(a, e, b);
    TableWith(a, e, b);
  }

  lemma TableChange(a: seq<Entry>, e: Entry, b: seq<Entry>, f: Entry)
    requires Distinct(a + [e] + b) && f.name == e.name
    ensures Distinct(a + [f] + b) && Table(a + [f] + b) == Table(a + [e] + b)[e.name := Target(f.inode, f.ftype)]
  {
    TableWithout(a, e, b);
    TableInsert(a, f, b);
    TableInsert(a, e, b);
  }

  // ---------- the entries of all pages ----------

  function AllLive(layout: seq<seq<Rec>>): seq<Entry> {
    if |layout| == 0 then [] else Live(layout[0]) + AllLive(layout[1..])
  }

  lemma {:induction false} AllLiveSplit(a: seq<seq<Rec>>, b: seq<seq<Rec>>)
    ensures AllLive(a + b) == AllLive(a) + AllLive(b)
    decreases |a|
  {
    hide Live;
    if |a| == 0 {
      assert a + b == b;
    } else {
      assert (a + b)[1..] == a[1..] + b;
      AllLiveSplit(a[1..], b);
    }
  }

  /** The entries around one page. */
  lemma AllLiveAt(layout: seq<seq<Rec>>, n: nat, rs: seq<Rec>)
    requires n < |layout|
    ensures AllLive(layout[n := rs]) == AllLive(layout[..n]) + Live(rs) + AllLive(layout[n + 1..])
  {
    hide Live;
    assert layout[n := rs] == layout[..n] + ([rs] + layout[n + 1..]);
    AllLiveSplit(layout[..n], [rs] + layout[n + 1..]);
    assert ([rs] + layout[n + 1..])[1..] == layout[n + 1..];
  }

  /** The entries before and after the k-th record of page n. */
  function Pre(layout: seq<seq<Rec>>, n: nat, k: nat): seq<Entry>
    requires n < |layout| && k < |layout[n]|
  {
    AllLive(layout[..n]) + Live(layout[n][..k])
  }

  function Post(layout: seq<seq<Rec>>, n: nat, k: nat): seq<Entry>
    requires n < |layout| && k < |layout[n]|
  {
    Live(layout[n][k + 1..]) + AllLive(layout[n + 1..])
  }

  lemma Where(layout: seq<seq<Rec>>, n: nat, k: nat)
    requires n < |layout| && k < |layout[n]|
    ensures AllLive(layout) == Pre(layout, n, k) + LiveOf(layout[n][k]) + Post(layout, n, k)
  {
    hide Live, LiveOf, AllLive;
    var rs := layout[n];
    assert layout[n := rs] == layout;
    AllLiveAt(layout, n, rs);
    assert rs == rs[..k] + [rs[k]] + rs[k + 1..];
    LiveAround(rs[..k], [rs[k]], rs[k + 1..]);
    LiveOne(rs[k]);
    Regroup(AllLive(layout[..n]), Live(rs[..k]), LiveOf(rs[k]), Live(rs[k + 1..]), AllLive(layout[n + 1..]));
  }

  lemma Regroup(a: seq<Entry>, b: seq<Entry>, m: seq<Entry>, c: seq<Entry>, d: seq<Entry>)
    ensures a + (b + m + c) + d == (a + b) + m + (c + d)
  {
  }

  /** One page's records changed around the k-th. */
  lemma Edited(layout: seq<seq<Rec>>, n: nat, k: nat, rs: seq<Rec>, mid: seq<Entry>)
    requires n < |layout| && k < |layout[n]|
    requires Live(rs) == Live(layout[n][..k]) + mid + Live(layout[n][k + 1..])
    ensures AllLive(layout[n := rs]) == Pre(layout, n, k) + mid + Post(layout, n, k)
  {
    hide Live, AllLive;
    AllLiveAt(layout, n, rs);
    Regroup(AllLive(layout[..n]), Live(layout[n][..k]), mid, Live(layout[n][k + 1..]), AllLive(layout[n + 1..]));
  }

  lemma {:induction false} LiveNone(rs: seq<Rec>, name: seq<byte>, maxIno: nat)
    requires AllGood(rs, maxIno) && forall k :: 0 <= k < |rs| ==> !Matches(rs[k], name)
    ensures NoneNamed(Live(rs), name)
    decreases |rs|
  {
    if |rs| > 0 {
      LiveNone(rs[1..], name, maxIno);
      assert GoodRec(rs[0], maxIno) && !Matches(rs[0], name);
      var rest := Live(rs[1..]);
      assert Live(rs) == LiveOf(rs[0]) + rest;
      forall i | 0 <= i < |Live(rs)| ensures Live(rs)[i].name != name {
        if i >= |LiveOf(rs[0])| { assert Live(rs)[i] == rest[i - |LiveOf(rs[0])|]; }
      }
    }
  }

  lemma {:induction false} AllLiveNone(layout: seq<seq<Rec>>, name: seq<byte>, maxIno: nat)
    requires forall n :: 0 <= n < |layout| ==> AllGood(layout[n], maxIno)
    requires forall n, k :: 0 <= n < |layout| && 0 <= k < |layout[n]| ==> !Matches(layout[n][k], name)
    ensures NoneNamed(AllLive(layout), name)
    decreases |layout|
  {
    hide Live, Matches, GoodRec;
    if |layout| > 0 {
      AllLiveNone(layout[1..], name, maxIno);
      LiveNone(layout[0], name, maxIno);
      var a, b := Live(layout[0]), AllLive(layout[1..]);
      assert forall i :: 0 <= i < |a + b| ==> (a + b)[i] == if i < |a| then a[i] else b[i - |a|];
    }
  }
}
