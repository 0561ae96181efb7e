/**
 The on-disk form of access control lists: a version, then entries of four
 bytes, or of eight if they name a user or a group. The number of entries is not
 stored; it is worked out from the size.
 */
module Acl {
  import opened ByteBuffer
  import opened XattrLayout

  const VERSION: nat := 1
  const USER_OBJ: nat := 0x01
  const USER: nat := 0x02
  const GROUP_OBJ: nat := 0x04
  const GROUP: nat := 0x08
  const MASK: nat := 0x10
  const OTHER: nat := 0x20

  const HEADER_LEN: nat := 4
  const SHORT_LEN: nat := 4
  const LONG_LEN: nat := 8

  /** An entry; `id` is 0 but for entries that name a user or a group. */
  datatype AclEntry = AclEntry(tag: nat, perm: nat, id: nat)

  datatype Decoded = NoAcl | Invalid | List(entries: seq<AclEntry>)

  predicate Short(tag: nat) {
    tag == USER_OBJ || tag == GROUP_OBJ || tag == MASK || tag == OTHER
  }

  predicate Long(tag: nat) {
    tag == USER || tag == GROUP
  }

  /** The tags as they are on the disk, and which entries hold an id. */
  lemma TagKinds(tag: nat)
    ensures Short(tag) <==> tag in {0x01, 0x04, 0x10, 0x20}
    ensures Long(tag) <==> tag in {0x02, 0x08}
    ensures VERSION == 1
  {
  }

  /** ext2_acl_size */
  function AclSize(count: nat): nat {
    if count <= 4 then HEADER_LEN + count * SHORT_LEN
    else HEADER_LEN + 4 * SHORT_LEN + (count - 4) * LONG_LEN
  }

  /** ext2_acl_count; the caller has checked that the header is there. */
  function AclCount(size: nat): int
    requires size >= HEADER_LEN
  {
    var body := size - HEADER_LEN;
    var s: int := body as int - 4 * SHORT_LEN;
    if s < 0 then (if body % SHORT_LEN != 0 then -1 else body / SHORT_LEN)
    else if s % LONG_LEN != 0 then -1
    else s / LONG_LEN + 4
  }

  /** The two are inverse, on the sizes that are sizes of some list. */
  lemma CountOfSize(count: nat)
    ensures AclSize(count) >= HEADER_LEN && AclCount(AclSize(count)) == count
  {
  }

  lemma SizeOfCount(size: nat)
    requires size >= HEADER_LEN && AclCount(size) >= 0
    ensures AclSize(AclCount(size)) == size
  {
  }

  // ---------- what the two directions mean ----------

  function EntrySize(e: AclEntry): nat {
    if Long(e.tag) then LONG_LEN else SHORT_LEN
  }

  predicate Storable(e: AclEntry) {
    (Short(e.tag) || Long(e.tag)) && e.perm < 0x10000 && e.id < MAX32 && (Short(e.tag) ==> e.id == 0)
  }

  function EncodeEntry(e: AclEntry): (s: seq<byte>)
    requires Storable(e)
    ensures |s| == EntrySize(e)
  {
    LE16(e.tag) + LE16(e.perm) + if Long(e.tag) then LE32(e.id) else []
  }

  function EncodeAll(es: seq<AclEntry>): seq<byte>
    requires AllStorable(es)
  {
    if |es| == 0 then [] else EncodeAll(es[..|es| - 1]) + EncodeEntry(es[|es| - 1])
  }

  function Encoded(es: seq<AclEntry>): seq<byte>
    requires AllStorable(es)
  {
    LE32(VERSION) + EncodeAll(es)
  }

  /** The entry at `at`, if there is one that is whole. */
  function EntryAt(s: seq<byte>, at: nat): Option<AclEntry> {
    if at + SHORT_LEN > |s| then None
    else
      var tag, perm := Get16(s, at), Get16(s, at + 2);
      if Short(tag) then Some(AclEntry(tag, perm, 0))
      else if !Long(tag) || at + LONG_LEN > |s| then None
      else Some(AclEntry(tag, perm, Get32(s, at + 4)))
  }

  /** The shape that goes with the size: at most four entries, all short, or
      more, exactly four of them short. */
  function Shorts(es: seq<AclEntry>): nat {
    if |es| == 0 then 0 else Shorts(es[..|es| - 1]) + if Short(es[|es| - 1].tag) then 1 else 0
  }

  predicate Shaped(es: seq<AclEntry>) {
    Shorts(es) == if |es| <= 4 then |es| else 4
  }

  lemma {:induction false} EncodedLength(es: seq<AclEntry>)
    requires AllStorable(es)
    ensures Shorts(es) <= |es| && |EncodeAll(es)| == SHORT_LEN * Shorts(es) + LONG_LEN * (|es| - Shorts(es))
    decreases |es|
  {
    if |es| > 0 {
      EncodedLength(es[..|es| - 1]);
      assert Storable(es[|es| - 1]);
    }
  }

  /** A list fills exactly the size worked out for it if it has the shape. */
  lemma ShapedFits(es: seq<AclEntry>)
    requires AllStorable(es)
    ensures Shaped(es) <==> |Encoded(es)| == AclSize(|es|)
  {
    EncodedLength(es);
  }

  /** Entries read one after the other from the start of s are those that were
      written there. */
  lemma ReadEntry(s: seq<byte>, at: nat, e: AclEntry)
    requires Storable(e) && at + EntrySize(e) <= |s| && s[at..at + EntrySize(e)] == EncodeEntry(e)
    ensures EntryAt(s, at) == Some(e)
  {
    hide LE16, LE32, Get16, Get32;
    var x := EncodeEntry(e);
    var t := s[at..at + EntrySize(e)];
    assert s[at..at + 2] == t[0..2] && s[at + 2..at + 4] == t[2..4];
    assert x[0..2] == LE16(e.tag) && x[2..4] == LE16(e.perm);
    Read16(e.tag, s, at);
    Read16(e.perm, s, at + 2);
    if Long(e.tag) {
      assert s[at + 4..at + 8] == t[4..8] && x[4..8] == LE32(e.id);
      Read32(e.id, s, at + 4);
    }
  }

  /** What is read as an entry is what that entry is written as. */
  lemma WroteEntry(s: seq<byte>, at: nat)
    requires EntryAt(s, at).Some?
    ensures var e := EntryAt(s, at).value;
            Storable(e) && at + EntrySize(e) <= |s| && s[at..at + EntrySize(e)] == EncodeEntry(e)
  {
    var e := EntryAt(s, at).value;
    Split16(s, at);
    Split16(s, at + 2);
    if Long(e.tag) {
      Split32(s, at + 4);
      assert s[at..at + 8] == s[at..at + 2] + s[at + 2..at + 4] + s[at + 4..at + 8];
    } else {
      assert s[at..at + 4] == s[at..at + 2] + s[at + 2..at + 4];
    }
  }

  lemma Split16(s: seq<byte>, at: nat)
    requires at + 2 <= |s|
    ensures s[at..at + 2] == LE16(Get16(s, at))
  {
  }

  lemma Split32(s: seq<byte>, at: nat)
    requires at + 4 <= |s|
    ensures s[at..at + 4] == LE32(Get32(s, at))
  {
    var v := Get32(s, at);
    var a, b, c, d: int := s[at] as int, s[at + 1] as int, s[at + 2] as int, s[at + 3] as int;
    assert v == a + 256 * (b + 256 * (c + 256 * d));
    assert v / 256 == b + 256 * (c + 256 * d);
    assert v / 65536 == c + 256 * d && v / 16777216 == d;
  }

  // ---------- ext2_acl_from_disk and ext2_acl_to_disk ----------

  /** From the start of the value up to `at` the entries were read. */
  predicate ReadSoFar(s: seq<byte>, es: seq<AclEntry>, at: nat) {
    && AllStorable(es)
    && HEADER_LEN <= at <= |s| && s[HEADER_LEN..at] == EncodeAll(es)
  }

  lemma ReadMore(s: seq<byte>, es: seq<AclEntry>, at: nat, e: AclEntry)
    requires ReadSoFar(s, es, at) && EntryAt(s, at) == Some(e)
    ensures ReadSoFar(s, es + [e], at + EntrySize(e))
  {
    WroteEntry(s, at);
    assert s[HEADER_LEN..at + EntrySize(e)] == s[HEADER_LEN..at] + s[at..at + EntrySize(e)];
    assert (es + [e])[..|es|] == es;
  }

  predicate AllStorable(es: seq<AclEntry>) {
    forall e :: e in es ==> Storable(e)
  }

  /** The bytes are the encoding of no list of the right shape. */
  ghost predicate NoEncoding(s: seq<byte>) {
    forall es: seq<AclEntry> :: AllStorable(es) && Shaped(es) ==> s != Encoded(es)
  }

  lemma {:induction false} FrontPrefix(es: seq<AclEntry>, n: nat)
    requires AllStorable(es) && n <= |es|
    ensures AllStorable(es[..n]) && EncodeAll(es[..n]) <= EncodeAll(es)
    decreases |es|
  {
    hide EncodeEntry, Storable;
    if n < |es| {
      var m := |es| - 1;
      FrontPrefix(es[..m], n);
      assert es[..m][..n] == es[..n];
    } else {
      assert es[..n] == es;
    }
  }

  lemma FrontOf(es: seq<AclEntry>, n: nat)
    requires AllStorable(es) && n < |es|
    ensures AllStorable(es[..n]) && EncodeAll(es[..n + 1]) == EncodeAll(es[..n]) + EncodeEntry(es[n])
    ensures EncodeAll(es[..n + 1]) <= EncodeAll(es)
  {
    hide EncodeEntry, Storable;
    FrontPrefix(es, n + 1);
    assert es[..n + 1][..n] == es[..n];
  }

  /** Reading an encoded list gives back its entries, one after the other. */
  lemma {:induction false} ReadsBack(s: seq<byte>, ws: seq<AclEntry>, n: nat)
    requires AllStorable(ws) && s == Encoded(ws) && n < |ws|
    ensures AllStorable(ws[..n]) && EntryAt(s, HEADER_LEN + |EncodeAll(ws[..n])|) == Some(ws[n])
  {
    FrontOf(ws, n);
    var at, e := HEADER_LEN + |EncodeAll(ws[..n])|, ws[n];
    var x := EncodeAll(ws[..n + 1]);
    assert s[HEADER_LEN..] == EncodeAll(ws);
    assert s[at..at + EntrySize(e)] == x[|EncodeAll(ws[..n])|..] == EncodeEntry(e);
    ReadEntry(s, at, e);
  }

  lemma TwoParts(s: seq<byte>, from: nat, at: nat, x: seq<byte>, y: seq<byte>)
    requires from <= at <= |s| && s[from..at] == x + y
    ensures at == from + |x| + |y| && s[from..from + |x|] == x && s[from + |x|..at] == y
  {
    assert s[from..from + |x|] == s[from..at][..|x|];
    assert s[from + |x|..at] == s[from..at][|x|..];
  }

  /** So whatever has been read of an encoded list is the front of it. */
  lemma {:induction false} ReadIsFront(s: seq<byte>, ws: seq<AclEntry>, es: seq<AclEntry>, at: nat)
    requires AllStorable(ws) && s == Encoded(ws) && ReadSoFar(s, es, at) && |es| <= |ws|
    ensures es == ws[..|es|] && at == HEADER_LEN + |EncodeAll(es)|
    decreases |es|
  {
    hide EncodeEntry, EntryAt, Get16, Get32;
    if |es| > 0 {
      var n := |es| - 1;
      FrontOf(es, n);
      assert es[..n + 1] == es;
      var x, y := EncodeAll(es[..n]), EncodeEntry(es[n]);
      var mid := HEADER_LEN + |x|;
      TwoParts(s, HEADER_LEN, at, x, y);
      ReadIsFront(s, ws, es[..n], mid);
      ReadEntry(s, mid, es[n]);
      ReadsBack(s, ws, n);
    }
  }

  lemma SizeOfEncoding(ws: seq<AclEntry>)
    requires AllStorable(ws) && Shaped(ws)
    ensures AclCount(|Encoded(ws)|) == |ws| && Get32(Encoded(ws), 0) == VERSION
  {
    ShapedFits(ws);
    CountOfSize(|ws|);
    assert Encoded(ws)[0..4] == LE32(VERSION);
    Read32(VERSION, Encoded(ws), 0);
  }

  lemma Rejected(s: seq<byte>)
    requires |s| < HEADER_LEN || Get32(s, 0) != VERSION || AclCount(|s|) < 0
    ensures NoEncoding(s)
  {
    forall ws | AllStorable(ws) && Shaped(ws)
      ensures s != Encoded(ws)
    {
      SizeOfEncoding(ws);
    }
  }

  /** Where reading breaks off there was no encoding. */
  lemma Broken(s: seq<byte>, es: seq<AclEntry>, at: nat)
    requires |s| >= HEADER_LEN && ReadSoFar(s, es, at) && |es| <= AclCount(|s|)
    requires if |es| < AclCount(|s|) then EntryAt(s, at) == None else at != |s|
    ensures NoEncoding(s)
  {
    forall ws | AllStorable(ws) && Shaped(ws)
      ensures s != Encoded(ws)
    {
      assert ws[..|ws|] == ws;
      if s == Encoded(ws) {
        SizeOfEncoding(ws);
        ReadIsFront(s, ws, es, at);
        if |es| < |ws| {
          ReadsBack(s, ws, |es|);
        }
      }
    }
  }

  /** Decode a value; None stands for a null pointer. */
  method FromDisk(value: Option<seq<byte>>) returns (r: Decoded)
    ensures value.None? ==> r == NoAcl
    ensures value.Some? ==> (r == NoAcl <==> value.value == Encoded([]))
    // a list is returned exactly for the encodings of lists of the right shape
    ensures r.List? ==> value.Some? && r.entries != [] && Shaped(r.entries)
    ensures r.List? ==> AllStorable(r.entries) && value.value == Encoded(r.entries)
    ensures r == Invalid ==> value.Some? && NoEncoding(value.value)
  {
    if value.None? {
      return NoAcl;
    }
    var s := value.value;
    if |s| < HEADER_LEN {
      Rejected(s);
      return Invalid;
    }
    Split32(s, 0);
    if Get32(s, 0) != VERSION {
      Rejected(s);
      return Invalid;
    }
    var count := AclCount(|s|);
    if count < 0 {
      Rejected(s);
      return Invalid;
    }
    SizeOfCount(|s|);
    if count == 0 {
      assert s == s[0..4];
      return NoAcl;
    }
    var es: seq<AclEntry> := [];
    var at: nat := HEADER_LEN;
    for n := 0 to count
      invariant |es| == n && ReadSoFar(s, es, at)
    {
      if at + SHORT_LEN > |s| {
        Broken(s, es, at);
        return Invalid;
      }
      var tag, perm, id: nat := Get16(s, at), Get16(s, at + 2), 0;
      if Short(tag) {
        ReadMore(s, es, at, AclEntry(tag, perm, 0));
        at := at + SHORT_LEN;
      } else if Long(tag) {
        if at + LONG_LEN > |s| {
          Broken(s, es, at);
          return Invalid;
        }
        id := Get32(s, at + 4);
        ReadMore(s, es, at, AclEntry(tag, perm, id));
        at := at + LONG_LEN;
      } else {
        Broken(s, es, at);
        return Invalid;
      }
      es := es + [AclEntry(tag, perm, id)];
    }
    if at != |s| {
      Broken(s, es, at);
      return Invalid;
    }
    assert s == s[..HEADER_LEN] + s[HEADER_LEN..|s|];
    ShapedFits(es);
    r := List(es);
  }

  lemma OverAppend(junk: seq<byte>, x: seq<byte>, t: seq<byte>)
    requires |x| + |t| <= |junk|
    ensures Over(Over(junk, 0, x), |x|, t) == Over(junk, 0, x + t)
  {
  }

  lemma OverNothing(junk: seq<byte>, u: seq<byte>)
    requires |u| == |junk|
    ensures Over(u, 0, junk) == junk && Over(junk, 0, []) == junk
  {
  }

  /** Encode a list. The buffer is as the allocator left it (`junk`) where
      nothing is written; the first `size` bytes are stored. */
  method ToDisk(es: seq<AclEntry>, junk: seq<byte>) returns (ok: bool, buffer: array<byte>, size: nat)
    requires |junk| == HEADER_LEN + |es| * LONG_LEN
    requires forall e :: e in es ==> e.perm < 0x10000 && e.tag < 0x10000 && e.id < MAX32 && (Long(e.tag) || e.id == 0)
    ensures ok <==> forall e :: e in es ==> Short(e.tag) || Long(e.tag)
    ensures buffer.Length == |junk|
    ensures ok ==> AllStorable(es) && size == AclSize(|es|) <= buffer.Length && |Encoded(es)| <= buffer.Length
    ensures ok ==> buffer[..] == Over(junk, 0, Encoded(es))
  {
    hide Over, LE16, LE32;
    size := AclSize(|es|);
    buffer := new byte[HEADER_LEN + |es| * LONG_LEN](_ => 0);
    ghost var u := buffer[..];
    MemCopy(buffer, 0, junk);
    OverNothing(junk, u);
    MemCopy(buffer, 0, LE32(VERSION));
    var e := HEADER_LEN;
    ghost var x := LE32(VERSION);
    for n := 0 to |es|
      invariant AllStorable(es[..n]) && x == Encoded(es[..n])
      invariant e == |x| <= HEADER_LEN + n * LONG_LEN && buffer[..] == Over(junk, 0, x)
    {
      var entry := es[n];
      assert es[..n + 1][..n] == es[..n];
      OverAppend(junk, x, LE16(entry.tag));
      MemCopy(buffer, e, LE16(entry.tag));
      OverAppend(junk, x + LE16(entry.tag), LE16(entry.perm));
      MemCopy(buffer, e + 2, LE16(entry.perm));
      var head := x + LE16(entry.tag) + LE16(entry.perm);
      if Long(entry.tag) {
        OverAppend(junk, head, LE32(entry.id));
        MemCopy(buffer, e + 4, LE32(entry.id));
        e := e + LONG_LEN;
        Appended(es[..n], entry, x, head + LE32(entry.id));
        x := head + LE32(entry.id);
      } else if Short(entry.tag) {
        e := e + SHORT_LEN;
        Appended(es[..n], entry, x, head);
        x := head;
      } else {
        return false, buffer, 0;
      }
      assert es[..n + 1] == es[..n] + [entry];
    }
    assert es[..|es|] == es;
    ok := true;
  }

  lemma Appended(es: seq<AclEntry>, e: AclEntry, x: seq<byte>, y: seq<byte>)
    requires AllStorable(es) && Storable(e) && x == Encoded(es)
    requires y == x + LE16(e.tag) + LE16(e.perm) + if Long(e.tag) then LE32(e.id) else []
    ensures AllStorable(es + [e]) && y == Encoded(es + [e])
  {
    assert (es + [e])[..|es|] == es;
  }

  // ---------- round trips ----------

  /** What is stored of an encoded list: the first `size` bytes of the buffer. */
  function Stored(es: seq<AclEntry>, junk: seq<byte>): seq<byte>
    requires AllStorable(es) && |junk| == HEADER_LEN + |es| * LONG_LEN && |Encoded(es)| <= |junk|
  {
    Over(junk, 0, Encoded(es))[..AclSize(|es|)]
  }

  /** A list is stored as it was encoded just if it has the shape; a list of
      another shape is cut short, or followed by junk. */
  lemma StoredWhole(es: seq<AclEntry>, junk: seq<byte>)
    requires AllStorable(es) && |junk| == HEADER_LEN + |es| * LONG_LEN
    ensures |Encoded(es)| <= |junk| && |Stored(es, junk)| == AclSize(|es|)
    ensures Stored(es, junk) == Encoded(es) <==> Shaped(es)
    ensures Stored(es, junk) <= Encoded(es) || Encoded(es) <= Stored(es, junk)
  {
    EncodedLength(es);
    ShapedFits(es);
  }

  /** A list whose encoding starts another one's starts that list. */
  lemma FrontOfEncoding(es: seq<AclEntry>, ws: seq<AclEntry>)
    requires AllStorable(es) && AllStorable(ws) && Encoded(es) <= Encoded(ws) && |es| <= |ws|
    ensures es == ws[..|es|]
  {
    var s := Encoded(ws);
    assert s[..|Encoded(es)|] == Encoded(es);
    assert s[HEADER_LEN..|Encoded(es)|] == EncodeAll(es);
    ReadIsFront(s, ws, es, |Encoded(es)|);
  }

  /** What was decoded is stored again byte for byte. */
  method StoreAgain(value: seq<byte>, junk: seq<byte>) returns (r: Decoded, again: seq<byte>)
    requires |junk| >= 2 * |value| + HEADER_LEN
    ensures r.List? ==> again == value
  {
    r := FromDisk(Some(value));
    again := [];
    if r.List? {
      EncodedLength(r.entries);
      var rest := junk[..HEADER_LEN + |r.entries| * LONG_LEN];
      var ok, buffer, size := ToDisk(r.entries, rest);
      StoredWhole(r.entries, rest);
      again := buffer[..size];
    }
  }

  /** A list of the right shape comes back as it was, the empty one as no list
      at all, and any other list of valid entries is refused. */
  method LoadAgain(es: seq<AclEntry>, junk: seq<byte>) returns (r: Decoded)
    requires AllStorable(es) && |junk| == HEADER_LEN + |es| * LONG_LEN
    ensures r == if es == [] then NoAcl else if Shaped(es) then List(es) else Invalid
  {
    hide Over;
    var ok, buffer, size := ToDisk(es, junk);
    StoredWhole(es, junk);
    var value := buffer[..size];
    r := FromDisk(Some(value));
    CountOfSize(|es|);
    if r.List? {
      SizeOfEncoding(r.entries);
      if Encoded(es) <= value {
        FrontOfEncoding(es, r.entries);
      } else {
        FrontOfEncoding(r.entries, es);
      }
      assert r.entries == es;
    }
  }
}
