/**
 Directories: a table from names to inodes, kept in pages of records.
 */
module Directory {
  import opened Arith
  import G = Groups
  import opened ByteBuffer
  import opened DirRecord
  import opened DirPage
  import opened DirEdit
  import opened DirWrite
  import opened DirDrop
  import opened DirTable
  import opened DirNames
  import opened DirRead
  import opened DirFirst

  const SECTOR: nat := 512

  /** dir_pages */
  function DirPages(size: nat): (n: nat)
    ensures size <= n * PAGE < size + PAGE
  {
    (size + PAGE - 1) / PAGE
  }

  class Directory {
    const chunk: nat
    const maxIno: nat
    /** The directory's own inode number. */
    const self: nat
    var pages: seq<array<byte>>
    var size: nat
    /** i_dir_start_lookup: the page in which a search starts. */
    var start: nat
    /** i_blocks */
    var sectors: nat
    ghost var layout: seq<seq<Rec>>

    ghost function PageSet(): set<array<byte>>
      reads this
    {
      set p | p in pages
    }

    ghost predicate Shape()
      reads this
    {
      && ChunkOk(chunk) && 0 < self <= maxIno < MAX32
      && size % chunk == 0 && |pages| == |layout| == DirPages(size) && size <= SECTOR * sectors
      && forall i, j :: 0 <= i < j < |pages| ==> pages[i] != pages[j]
    }

    /** Page n is tiled, up to the directory's end, by the records of the layout. */
    ghost predicate PageOk(n: nat)
      requires n < |pages|
      reads this, pages[n]
    {
      && n < |layout| && n * PAGE <= size && Holds(pages[n][..], LastByte(size, n), layout[n], chunk, maxIno)
    }

    ghost predicate Valid()
      reads this, PageSet()
    {
      Shape() && GoodNames(AllLive(layout)) && forall n :: 0 <= n < |pages| ==> pages[n].Length == PAGE && PageOk(n)
    }

    /** The directory's table. */
    ghost function Contents(): map<seq<byte>, Target>
      reads this
    {
      Table(AllLive(layout))
    }

    /** The k-th record of page n, at offset `at`, is the entry of that name. */
    ghost predicate EntryAt(n: nat, at: nat, k: nat, name: seq<byte>)
      reads this
    {
      n < |layout| && k < |layout[n]| && AllGood(layout[n], maxIno) && at == Off(layout[n], k, maxIno) && Matches(layout[n][k], name)
    }

    /** An entry of that name starts at that place. */
    ghost predicate Held(n: nat, at: nat, name: seq<byte>)
      reads this
    {
      n < |layout| && Placed(layout[n], at, name, maxIno)
    }

    lemma HeldIs(n: nat, at: nat, k: nat, name: seq<byte>)
      requires EntryAt(n, at, k, name)
      ensures Held(n, at, name)
    {
    }

    lemma HeldAt(n: nat, at: nat, name: seq<byte>) returns (k: nat)
      requires Held(n, at, name)
      ensures EntryAt(n, at, k, name)
    {
      hide AllGood, Off, Matches;
      k :| k < |layout[n]| && Off(layout[n], k, maxIno) == at && Matches(layout[n][k], name);
    }

    lemma ShapeOf()
      requires Valid()
      ensures Shape() && |layout| == |pages|
    {
    }

    lemma Sizes(n: nat)
      requires Shape() && n < |pages|
      ensures n * PAGE < size && LastByte(size, n) > 0 && LastByte(size, n) % chunk == 0
      ensures n < |pages| - 1 ==> LastByte(size, n) == PAGE
      ensures n <= sectors / 8
    {
      hide ChunkOk;
      ChunksBehind(size, chunk, n);
    }

    lemma PageMeans(n: nat)
      requires Valid() && n < |pages|
      ensures n * PAGE < size && Holds(pages[n][..], LastByte(size, n), layout[n], chunk, maxIno) && AllGood(layout[n], maxIno)
    {
      hide Holds, GoodNames, AllLive;
      Sizes(n);
      assert PageOk(n);
      HoldsMeans(pages[n][..], LastByte(size, n), layout[n], chunk, maxIno);
    }

    lemma EntryMeans(n: nat, at: nat, k: nat, name: seq<byte>)
      requires Valid() && EntryAt(n, at, k, name)
      ensures name in Contents() && Contents()[name] == Target(layout[n][k].inode, layout[n][k].ftype) && Name(layout[n][k]) == name
    {
      hide AllLive, GoodNames, Table;
      EntryOf(layout, n, k);
    }

    lemma NoEntry(name: seq<byte>)
      requires Valid() && forall m :: 0 <= m < |pages| ==> NoMatch(layout[m], name)
      ensures name !in Contents()
    {
      hide AllLive, Table, GoodNames, Holds, Matches, Live;
      forall m | 0 <= m < |layout| ensures AllGood(layout[m], maxIno) { PageMeans(m); }
      forall m, k | 0 <= m < |layout| && 0 <= k < |layout[m]| ensures !Matches(layout[m][k], name) {
        assert NoMatch(layout[m], name);
      }
      AllLiveNone(layout, name, maxIno);
      NotInTable(AllLive(layout), name);
    }

    method SearchPage(n: nat, name: seq<byte>) returns (found: bool, at: nat, ghost k: nat)
      requires Valid() && |name| < 256 && n < |pages|
      ensures found ==> EntryAt(n, at, k, name) && name in Contents()
      ensures !found ==> NoMatch(layout[n], name)
    {
      hide AllLive, GoodNames, Table, Holds, Matches, ChunkOk;
      PageMeans(n);
      found, at, k := FindInPage(pages[n], LastByte(size, n), name, layout[n], chunk, maxIno);
      if found {
        EntryMeans(n, at, k, name);
      } else {
        MissingHere(layout[n], name);
      }
    }

    method SearchFrom(first: nat, name: seq<byte>) returns (found: bool, n: nat, at: nat, ghost k: nat)
      requires Valid() && |name| < 256 && first < |pages|
      ensures found <==> name in Contents()
      ensures found ==> EntryAt(n, at, k, name)
    {
      hide PageOk, GoodNames, AllLive, EntryAt, Contents, NoMatch, ChunkOk;
      ShapeOf();
      var np := |pages|;
      n := first;
      var seen: nat := 0;
      while true
        invariant seen < np && n == if first + seen < np then first + seen else first + seen - np
        invariant forall m :: 0 <= m < np && (first <= m < first + seen || m < first + seen - np) ==> NoMatch(layout[m], name)
        decreases np - seen
      {
        found, at, k := SearchPage(n, name);
        if found { return; }
        seen := seen + 1;
        n := n + 1;
        if n >= np { n := 0; }
        if n > sectors / 8 {
          // the directory's blocks cover its size
          Sizes(n);
          assert false;
        }
        if n == first { break; }
      }
      NoEntry(name);
    }

    /** kr_find_entry: the search starts at the page of the last success, and wraps. */
    method FindEntry(name: seq<byte>) returns (found: bool, n: nat, at: nat, ghost k: nat)
      requires Valid() && |name| < 256
      modifies this`start
      ensures Valid() && Contents() == old(Contents()) && start == (if found then n else old(start))
      ensures found <==> name in Contents()
      ensures found ==> EntryAt(n, at, k, name)
    {
      hide AllLive, GoodNames, Table, Holds, Matches, NoMatch, ChunkOk, AllGood;
      found, n, at, k := false, 0, 0, 0;
      var np := DirPages(size);
      if np == 0 {
        NoEntry(name);
        return;
      }
      found, n, at, k := SearchFrom(if start >= np then 0 else start, name);
      if found {
        start := n;
      }
    }

    /** kr_inode_by_name: 0 if there is no such entry. */
    method InodeByName(name: seq<byte>) returns (ino: nat)
      requires Valid() && |name| < 256
      modifies this`start
      ensures Valid() && Contents() == old(Contents())
      ensures ino == if name in Contents() then Contents()[name].inode else 0
    {
      hide AllLive, GoodNames, Table, Holds, Matches, ChunkOk, Get32;
      var found, n, at, k := FindEntry(name);
      if !found { return 0; }
      PageMeans(n);
      EntryMeans(n, at, k, name);
      RecAt(pages[n][..], LastByte(size, n), layout[n], chunk, maxIno, k);
      InRange(layout[n][k], maxIno);
      HoldsMeans(pages[n][..], LastByte(size, n), layout[n], chunk, maxIno);
      ino := Get32(pages[n][..], at);
    }

    // ---------- changing entries ----------

    /** The entry has been put into the k-th record. */
    ghost predicate FilledIn(rs: seq<Rec>, now: seq<Rec>, k: nat, inode: nat, name: seq<byte>, ftype: byte) {
      && k < |rs| && GoodRec(rs[k], maxIno) && 0 < |name| < 256 && Fits(rs[k], RecLen(|name|))
      && now == PutIn(rs, k, inode, name, ftype, maxIno)
    }

    /** An entry put into a record with room for it (kr_add_link, from got_it on). */
    method PlaceAt(n: nat, at: nat, name: seq<byte>, inode: nat, ftype: byte, ghost k: nat)
      requires Valid() && n < |pages| && k < |layout[n]| && AllGood(layout[n], maxIno) && at == Off(layout[n], k, maxIno)
      requires 0 < |name| < 256 && 0 < inode <= maxIno && Fits(layout[n][k], RecLen(|name|)) && name !in Contents()
      modifies this`layout, pages[n]
      ensures |layout| == |old(layout)| && FilledIn(old(layout[n]), layout[n], k, inode, name, ftype)
      ensures forall m :: 0 <= m < |layout| && m != n ==> layout[m] == old(layout[m])
      ensures Valid() && Contents() == old(Contents())[name := Target(inode, ftype)]
      ensures forall m: nat, a: nat, x :: old(Held(m, a, x)) ==> Held(m, a, x)
    {
      hide AllLive, GoodNames, Table, Holds, Matches, ChunkOk, Fits, GoodRec, Off, PutIn, PagePut, Nameable, RecLen, Placed, InChunk;
      ghost var rs := layout[n];
      assert GoodRec(rs[k], maxIno);
      InUse(layout, n, k, maxIno);
      assert PageOk(n);
      RecAt(pages[n][..], LastByte(size, n), rs, chunk, maxIno, k);
      ChunkPositive(chunk);
      PutEntry(pages[n], LastByte(size, n), at, inode, name, ftype, rs, k, chunk, maxIno);
      PutTable(layout, n, k, inode, name, ftype, maxIno);
      KeptByPut(n, k, name, inode, ftype);
      layout := layout[n := PutIn(rs, k, inode, name, ftype, maxIno)];
    }

    lemma KeptByPut(n: nat, k: nat, name: seq<byte>, inode: nat, ftype: byte)
      requires n < |layout| && k < |layout[n]| && AllGood(layout[n], maxIno) && GoodRec(layout[n][k], maxIno)
      requires 0 < |name| < 256 && inode <= maxIno < MAX32 && Fits(layout[n][k], RecLen(|name|)) && Nameable(layout[n][k])
      requires chunk > 0 && InChunk(Off(layout[n], k, maxIno), layout[n][k].len, chunk)
      ensures forall a: nat, x :: Placed(layout[n], a, x, maxIno)
                                  ==> Placed(PutIn(layout[n], k, inode, name, ftype, maxIno), a, x, maxIno)
    {
      hide Placed, AllGood, GoodRec, Fits, Nameable, InChunk, Off, PutIn;
      forall a: nat, x | Placed(layout[n], a, x, maxIno)
        ensures Placed(PutIn(layout[n], k, inode, name, ftype, maxIno), a, x, maxIno)
      {
        PutPlaced(layout[n], k, inode, name, ftype, a, x, chunk, maxIno);
      }
    }

    lemma KeptByAdding(n: nat, raw: seq<byte>, name: seq<byte>, inode: nat, ftype: byte)
      requires n < |layout| && ChunkOk(chunk) && |raw| == chunk && 0 < |name| < 256 && inode <= maxIno < MAX32
      ensures forall a: nat, x :: Placed(layout[n], a, x, maxIno)
                                  ==> Placed(Added(layout[n], raw, inode, name, ftype), a, x, maxIno)
    {
      hide Placed, Added, GoodRec;
      MadeGood(raw, inode, name, ftype, chunk, maxIno);
      forall a: nat, x | Placed(layout[n], a, x, maxIno)
        ensures Placed(Added(layout[n], raw, inode, name, ftype), a, x, maxIno)
      {
        AddedPlaced(layout[n], raw, inode, name, ftype, a, x, maxIno);
      }
    }

    lemma KeptByPointing(n: nat, k: nat, inode: nat, ftype: byte)
      requires n < |layout| && k < |layout[n]| && 0 < inode <= maxIno < MAX32
      ensures forall a: nat, x :: Placed(layout[n], a, x, maxIno)
                                  ==> Placed(Pointed(layout[n], k, inode, ftype), a, x, maxIno)
    {
      hide Placed, Pointed;
      forall a: nat, x | Placed(layout[n], a, x, maxIno) ensures Placed(Pointed(layout[n], k, inode, ftype), a, x, maxIno) {
        PointedPlaced(layout[n], k, inode, ftype, a, x, maxIno);
      }
    }

    lemma GrowRoom(n: nat)
      requires Valid() && n * PAGE <= size
      ensures chunk % SECTOR == 0 && 1024 <= chunk <= PAGE && (size - n * PAGE) % chunk == 0
      ensures size - n * PAGE < PAGE ==> size - n * PAGE + chunk <= PAGE
    {
      hide ChunkOk, AllLive, GoodNames, PageOk;
      ChunksBehind(size, chunk, n);
      if size - n * PAGE < PAGE { ChunksInPage(size, chunk, n); }
    }

    /** A chunk added to the last page, which is not full, for the entry. */
    method GrowLast(name: seq<byte>, inode: nat, ftype: byte, room: bool)
      requires Valid() && 0 < |name| < 256 && 0 < inode <= maxIno && name !in Contents()
      requires |pages| > 0 && size < |pages| * PAGE
      modifies this`layout, this`size, this`sectors, pages[|pages| - 1]
      ensures Valid()
      ensures SECTOR * sectors - size == old(SECTOR * sectors - size)
      ensures room ==> Contents() == old(Contents())[name := Target(inode, ftype)] && size == old(size) + chunk
      ensures !room ==> Contents() == old(Contents()) && size == old(size) && layout == old(layout)
      ensures forall m: nat, a: nat, x :: old(Held(m, a, x)) ==> Held(m, a, x)
    {
      hide AllLive, GoodNames, Table, Holds, ChunkOk, Added, Placed;
      var n := |pages| - 1;
      ghost var rs := layout[n];
      assert PageOk(n);
      Sizes(n);
      GrowRoom(n);
      ghost var raw := AddChunk(pages[n], size - n * PAGE, inode, name, ftype, room, rs, chunk, maxIno);
      if room {
        GrowTable(layout, layout[n := Added(rs, raw, inode, name, ftype)], rs, raw, inode, name, ftype);
        KeptByAdding(n, raw, name, inode, ftype);
        StillCovered(size, chunk, n);
        size := size + chunk;
        sectors := sectors + chunk / SECTOR;
        layout := layout[n := Added(rs, raw, inode, name, ftype)];
      }
    }

    /** A page added to a directory whose pages are full. */
    method GrowPage(p: array<byte>, name: seq<byte>, inode: nat, ftype: byte, room: bool)
      requires Valid() && 0 < |name| < 256 && 0 < inode <= maxIno && name !in Contents()
      requires size == |pages| * PAGE && p !in pages && p.Length == PAGE
      modifies this`layout, this`size, this`sectors, this`pages, p
      ensures Valid()
      ensures SECTOR * sectors - size == old(SECTOR * sectors - size)
      ensures room ==> Contents() == old(Contents())[name := Target(inode, ftype)] && size == old(size) + chunk && pages == old(pages) + [p]
      ensures !room ==> Contents() == old(Contents()) && size == old(size) && pages == old(pages) && layout == old(layout)
      ensures forall m: nat, a: nat, x :: old(Held(m, a, x)) ==> Held(m, a, x)
    {
      hide AllLive, GoodNames, Table, Holds, ChunkOk, Added, Placed;
      GrowRoom(|pages|);
      NoBytes(p[..], chunk, maxIno);
      ghost var raw := AddChunk(p, 0, inode, name, ftype, room, [], chunk, maxIno);
      if room {
        GrowTable(layout, layout + [Added([], raw, inode, name, ftype)], [], raw, inode, name, ftype);
        StillCovered(size, chunk, |pages|);
        size := size + chunk;
        sectors := sectors + chunk / SECTOR;
        pages := pages + [p];
        layout := layout + [Added([], raw, inode, name, ftype)];
      }
    }

    /** The search for room by kr_add_link, over the pages that are there. */
    method FindRoom(name: seq<byte>) returns (slot: Slot, n: nat, ghost k: nat)
      requires Valid() && 0 < |name| < 256 && name !in Contents()
      ensures slot.Here? ==> n < |pages| && k < |layout[n]| && AllGood(layout[n], maxIno)
      ensures slot.Here? ==> slot.at == Off(layout[n], k, maxIno) && Fits(layout[n][k], RecLen(|name|))
      ensures slot.AtEnd? ==> n + 1 == |pages| && size < |pages| * PAGE
      ensures slot.Nowhere? ==> n == |pages| && size == |pages| * PAGE
      ensures slot.AtEnd? || slot.Nowhere? ==> NowhereFits(layout, RecLen(|name|))
      ensures slot.Here? ==> FirstFit(layout, RecLen(|name|), n, k)
      ensures !slot.Clash?
    {
      hide AllLive, GoodNames, Table, Holds, Matches, Fits, RecLen, NoFit, Off;
      n, slot, k := 0, Nowhere, 0;
      while n < |pages|
        invariant n <= |pages| && slot.Nowhere?
        invariant n > 0 ==> n * PAGE <= size
        invariant forall m :: 0 <= m < n ==> NoFit(layout[m], RecLen(|name|))
      {
        Sizes(n);
        PageMeans(n);
        slot, k := FindSlot(pages[n], LastByte(size, n), name, layout[n], chunk, maxIno);
        if slot.Clash? {
          EntryMeans(n, Off(layout[n], k, maxIno), k, name);
          assert false;
        }
        if slot.Here? { return; }
        NoneFits(layout[n], RecLen(|name|));
        if slot.AtEnd? { return; }
        n := n + 1;
      }
    }

    /** kr_add_link, for a name that the directory does not hold. */
    method AddLink(name: seq<byte>, inode: nat, ftype: byte, room: bool) returns (done: bool)
      requires Valid() && 0 < |name| < 256 && 0 < inode <= maxIno && name !in Contents()
      modifies this`layout, this`size, this`sectors, this`pages, PageSet()
      ensures Valid() && (!done ==> !room)
      ensures SECTOR * sectors - size == old(SECTOR * sectors - size)
      ensures done ==> Contents() == old(Contents())[name := Target(inode, ftype)]
      ensures !done ==> Contents() == old(Contents()) && size == old(size) && layout == old(layout)
      ensures fresh(PageSet() - old(PageSet()))
      ensures forall m: nat, a: nat, x :: old(Held(m, a, x)) ==> Held(m, a, x)
      ensures done ==> size == old(size) || size == old(size) + chunk
      ensures size > old(size) || !done <==> old(NowhereFits(layout, RecLen(|name|)))
      ensures done && size == old(size) ==>
                && |layout| == |old(layout)|
                && exists n: nat, k: nat :: old(FirstFit(layout, RecLen(|name|), n, k)) && FilledIn(old(layout)[n], layout[n], k, inode, name, ftype)
    {
      hide AllLive, GoodNames, Table, Holds, Matches, Fits, ChunkOk, RecLen, NoFit, Off, PageOk;
      ChunkPositive(chunk);
      var slot, n, k := FindRoom(name);
      match slot
      case Here(at) =>
        FitsSomewhere(layout, RecLen(|name|), n, k);
        PlaceAt(n, at, name, inode, ftype, k);
        done := true;
      case AtEnd =>
        GrowLast(name, inode, ftype, room);
        done := room;
      case Nowhere =>
        // the page beyond the directory's end; the search does not go past it
        var p := new byte[PAGE];
        GrowPage(p, name, inode, ftype, room);
        done := room;
    }

    /** kr_delete_entry */
    method DeleteEntry(n: nat, at: nat, ghost k: nat, ghost name: seq<byte>)
      requires Valid() && EntryAt(n, at, k, name)
      modifies this`layout, PageSet()
      ensures Valid() && Contents() == old(Contents()) - {name}
    {
      hide AllLive, GoodNames, Table, Holds, AllGood, Off, Dropped;
      EntryMeans(n, at, k, name);
      assert PageOk(n);
      DropEntry(pages[n], LastByte(size, n), at, layout[n], k, chunk, maxIno);
      DropTable(layout, n, k, chunk, maxIno);
      layout := layout[n := Dropped(layout[n], k, chunk, maxIno)];
    }

    /** kr_set_link */
    method SetLink(n: nat, at: nat, inode: nat, ftype: byte, ghost k: nat, ghost name: seq<byte>)
      requires Valid() && EntryAt(n, at, k, name) && 0 < inode <= maxIno
      modifies this`layout, PageSet()
      ensures Valid() && Contents() == old(Contents())[name := Target(inode, ftype)]
      ensures forall m: nat, a: nat, x :: old(Held(m, a, x)) ==> Held(m, a, x)
    {
      hide AllLive, GoodNames, Table, Holds, ChunkOk, AllGood, Off, Pointed, Placed;
      EntryMeans(n, at, k, name);
      assert PageOk(n);
      PointEntry(pages[n], LastByte(size, n), at, inode, ftype, layout[n], k, chunk, maxIno);
      PointTable(layout, n, k, inode, ftype);
      KeptByPointing(n, k, inode, ftype);
      layout := layout[n := Pointed(layout[n], k, inode, ftype)];
    }

    /** The changes of kr_rename to a directory, for a name that moves within it. The
        place of the old entry is found first, and used last. */
    method Rename(from: seq<byte>, to: seq<byte>, room: bool) returns (done: bool)
      requires Valid() && 0 < |from| < 256 && 0 < |to| < 256 && from != to
      modifies this`start, this`layout, this`size, this`sectors, this`pages, PageSet()
      ensures Valid()
      ensures done ==> from in old(Contents()) && Contents() == old(Contents())[to := old(Contents())[from]] - {from}
      ensures !done ==> Contents() == old(Contents()) && (from !in old(Contents()) || (!room && to !in old(Contents())))
    {
      hide AllLive, GoodNames, Table, Holds, ChunkOk, AllGood, Off, Matches, Placed;
      var found, n, at, k := FindEntry(from);
      if !found { return false; }
      var inode, ftype := ReadEntry(n, at, from, k);
      HeldIs(n, at, k, from);
      var there, m, a, i := FindEntry(to);
      if there {
        SetLink(m, a, inode, ftype, i, to);
      } else {
        done := AddLink(to, inode, ftype, room);
        if !done { return; }
      }
      k := HeldAt(n, at, from);
      DeleteEntry(n, at, k, from);
      done := true;
    }

    method ReadEntry(n: nat, at: nat, ghost name: seq<byte>, ghost k: nat) returns (inode: nat, ftype: byte)
      requires Valid() && EntryAt(n, at, k, name)
      ensures name in Contents() && Contents()[name] == Target(inode, ftype) && 0 < inode <= maxIno
    {
      hide AllLive, GoodNames, Table, Holds, ChunkOk, Get32;
      PageMeans(n);
      EntryMeans(n, at, k, name);
      RecAt(pages[n][..], LastByte(size, n), layout[n], chunk, maxIno, k);
      InRange(layout[n][k], maxIno);
      HoldsMeans(pages[n][..], LastByte(size, n), layout[n], chunk, maxIno);
      inode, ftype := Get32(pages[n][..], at), pages[n][at + 7];
    }

    /** The page, read back from the disk, is accepted, as the records it was. */
    method Reread(n: nat) returns (ok: bool, ghost rs: seq<Rec>)
      requires Valid() && n < |pages|
      ensures ok && rs == layout[n]
    {
      hide AllLive, GoodNames, Table, Holds;
      PageMeans(n);
      Sizes(n);
      assert Holds(pages[n][..], LastByte(size, n), layout[n], chunk, maxIno);
      ok, rs := CheckPage(pages[n], n, size, chunk, maxIno);
      OneTiling(pages[n][..], LastByte(size, n), layout[n], rs, chunk, maxIno);
    }

    // ---------- empty directories ----------

    /** kr_make_empty: a new directory, with one chunk. */
    constructor (chunk: nat, maxIno: nat, self: nat, parent: nat, ftype: byte, sectors: nat)
      requires ChunkOk(chunk) && 0 < self <= maxIno < MAX32 && 0 < parent <= maxIno && chunk <= SECTOR * sectors
      ensures Valid() && fresh(PageSet()) && this.self == self && this.chunk == chunk && this.maxIno == maxIno && this.sectors == sectors
      ensures Contents() == map[SELF := Target(self, ftype), PARENT := Target(parent, ftype)]
    {
      this.chunk, this.maxIno, this.self := chunk, maxIno, self;
      size, start, this.sectors := chunk, 0, sectors;
      var p := new byte[PAGE];
      pages := [p];
      layout := [DotRecs(chunk, self, parent, ftype)];
      new;
      hide AllLive, GoodNames, Table, Holds, DotRecs;
      DirFirst.MakeEmpty(p, chunk, self, parent, ftype, maxIno);
      DotNames(chunk, self, parent, ftype);
      OnePage(chunk);
    }

    /** kr_empty_dir */
    method EmptyDir() returns (empty: bool)
      requires Valid()
      ensures empty <==> OnlyDots(Contents(), self)
    {
      hide AllLive, GoodNames, Table, Holds, ChunkOk, DotRec, OnlyDots, Nameable, AllGood;
      var i := 0;
      while i < |pages|
        invariant i <= |pages|
        invariant forall n, k :: 0 <= n < i && 0 <= k < |layout[n]| ==> DotRec(layout[n][k], self)
      {
        PageMeans(i);
        forall j | 0 <= j < |layout[i]| ensures Nameable(layout[i][j]) {
          GoodAt(layout[i], j, maxIno);
          InUse(layout, i, j, maxIno);
        }
        var ok, k := OnlyDotsIn(pages[i], LastByte(size, i), self, layout[i], chunk, maxIno);
        if !ok {
          NotOnlyDots(layout, i, k, self);
          return false;
        }
        i := i + 1;
      }
      AllLiveDots(layout, self);
      NamesDistinct(AllLive(layout));
      DotsInTable(AllLive(layout), self);
      empty := true;
    }

    // ---------- reading ----------

    /** The entries from a position on. */
    ghost function From(pos: nat): seq<Entry>
      reads this
    {
      AllFrom(layout, 0, pos)
    }

    ghost predicate RecordAt(n: nat, k: nat, pos: nat)
      reads this
    {
      n < |layout| && k < |layout[n]| && AllGood(layout[n], maxIno) && pos == n * PAGE + Off(layout[n], k, maxIno)
    }

    /** A position at which a record starts, or with none left. */
    ghost predicate Boundary(pos: nat)
      reads this
    {
      pos + 12 > size || exists n: nat, k: nat :: RecordAt(n, k, pos)
    }

    /** What is left after the first k records of page n. */
    ghost function Tail(n: nat, k: nat): seq<Entry>
      requires n < |layout| && k <= |layout[n]|
      reads this
    {
      Live(layout[n][k..]) + AllLive(layout[n + 1..])
    }

    lemma AllPagesGood()
      requires Valid()
      ensures PagesGood(layout, maxIno)
      ensures forall n :: 0 <= n < |pages| ==> |EncAll(layout[n], maxIno)| == LastByte(size, n)
    {
      hide AllLive, GoodNames, EncAll, ChunkOk, Holds;
      forall n | 0 <= n < |pages|
        ensures AllGood(layout[n], maxIno) && |EncAll(layout[n], maxIno)| == LastByte(size, n)
      {
        PageMeans(n);
        HoldsMeans(pages[n][..], LastByte(size, n), layout[n], chunk, maxIno);
      }
    }

    lemma FromIs(n: nat, k: nat, pos: nat)
      requires Valid() && n < |layout| && k <= |layout[n]| && n * PAGE <= pos <= (n + 1) * PAGE && AllGood(layout[n], maxIno)
      requires k > 0 ==> n * PAGE + Off(layout[n], k - 1, maxIno) < pos
      requires k < |layout[n]| ==> pos <= n * PAGE + Off(layout[n], k, maxIno)
      ensures From(pos) == Tail(n, k)
    {
      hide AllLive, GoodNames, EncAll, Holds, Live, LiveFrom, AllFrom, Off, ChunkOk;
      AllPagesGood();
      AllFromAt(layout, 0, n, pos, maxIno);
      LiveFromCut(layout[n], n * PAGE, pos, k, maxIno);
    }

    lemma NothingLeft(pos: nat)
      requires Valid() && pos + 12 > size
      ensures From(pos) == []
    {
      hide AllLive, GoodNames, EncAll, Holds, Live, LiveFrom, AllFrom, Off, ChunkOk, AllGood;
      AllPagesGood();
      var np := |pages|;
      if pos >= np * PAGE {
        AllSkipped(layout, 0, pos, maxIno);
      } else {
        var n := np - 1;
        var rs := layout[n];
        PageMeans(n);
        Sizes(n);
        EndOff(rs, maxIno);
        if |rs| > 0 {
          Around(rs, |rs| - 1, maxIno);
          GoodAt(rs, |rs| - 1, maxIno);
          InRange(rs[|rs| - 1], maxIno);
        }
        LastPageStart(size, n, chunk);
        FromIs(n, |rs|, pos);
        assert rs[|rs|..] == [] && layout[n + 1..] == [];
        NoPages();
      }
    }

    lemma BoundaryIn(n: nat, pos: nat) returns (k: nat)
      requires Valid() && Boundary(pos) && pos + 12 <= size && n < |pages| && n * PAGE <= pos < (n + 1) * PAGE
      ensures RecordAt(n, k, pos)
    {
      hide AllLive, GoodNames, EncAll, Holds, Off, ChunkOk, AllGood;
      var m: nat, i: nat :| RecordAt(m, i, pos);
      k := i;
      PageMeans(m);
      RecAt(pages[m][..], LastByte(size, m), layout[m], chunk, maxIno, i);
      InRange(layout[m][i], maxIno);
      assert m == n;
    }

    /** Where kr_readdir starts within its first page: the record at or behind the
        position, found by a walk if the directory may have changed since. */
    method StartOf(pos: nat, stale: bool) returns (n: nat, at: nat, ghost k: nat)
      requires Valid() && (stale || Boundary(pos)) && pos + 12 <= size
      ensures n < |pages| && k <= |layout[n]| && AllGood(layout[n], maxIno) && at == Off(layout[n], k, maxIno)
      ensures From(pos) == Tail(n, k)
    {
      hide AllLive, GoodNames, EncAll, Holds, Off, ChunkOk, AllGood, From, Tail;
      n, at := pos / PAGE, pos % PAGE;
      DivMod(pos, PAGE);
      assert n < |pages|;
      PageMeans(n);
      if stale && at > 0 {
        at, k := ValidateStart(n, at);
      } else if stale {
        k := 0;
        ZeroOff(layout[n], maxIno);
      } else {
        k := BoundaryIn(n, pos);
        StrictOff(layout[n], k, maxIno);
      }
      FromIs(n, k, pos);
    }

    method ValidateStart(n: nat, offset: nat) returns (at: nat, ghost k: nat)
      requires Valid() && n < |pages| && AllGood(layout[n], maxIno) && offset < LastByte(size, n)
      ensures k <= |layout[n]| && at == Off(layout[n], k, maxIno) >= offset
      ensures k > 0 ==> Off(layout[n], k - 1, maxIno) < offset
    {
      hide AllLive, GoodNames, EncAll, Holds, Off, ChunkOk, AllGood;
      PageMeans(n);
      at, k := ValidateEntry(pages[n], LastByte(size, n), offset, layout[n], chunk, maxIno);
    }

    /** kr_readdir, for a sink that takes `room` entries: it is given the next ones,
        and the new position is where the rest starts. */
    method ReadDir(pos: nat, room: nat, stale: bool) returns (out: seq<Entry>, next: nat)
      requires Valid() && (stale || Boundary(pos))
      ensures From(pos) == out + From(next) && |out| <= room
      ensures From(next) != [] ==> |out| == room
      ensures Boundary(next)
    {
      hide AllLive, GoodNames, EncAll, Holds, Off, ChunkOk, AllGood, From, Tail;
      out, next := [], pos;
      if pos as int > size - 12 {
        NothingLeft(pos);
        return;
      }
      var n: nat, at: nat, k: nat := StartOf(pos, stale);
      out, next := ReadPages(n, at, room, k);
    }

    /** The pages of kr_readdir, from the k-th record of page `first` on. */
    method ReadPages(first: nat, from: nat, room: nat, ghost k0: nat) returns (out: seq<Entry>, next: nat)
      requires Valid() && first < |pages| && k0 <= |layout[first]| && AllGood(layout[first], maxIno)
      requires from == Off(layout[first], k0, maxIno)
      ensures Tail(first, k0) == out + From(next) && |out| <= room
      ensures From(next) != [] ==> |out| == room
      ensures Boundary(next)
    {
      hide AllLive, GoodNames, EncAll, Holds, Off, ChunkOk, AllGood, From, Tail, PageOk;
      ShapeOf();
      out := [];
      var n: nat, at: nat := first, from;
      ghost var k: nat := k0;
      while true
        invariant n < |pages| && k <= |layout[n]| && AllGood(layout[n], maxIno) && at == Off(layout[n], k, maxIno)
        invariant Tail(first, k0) == out + Tail(n, k) && |out| <= room
        decreases |pages| - n
      {
        var more, full;
        more, at, full, k := EmitFrom(n, at, room - |out|, k);
        next := n * PAGE + at;
        if full {
          assert RecordAt(n, k, next);
          assert out + (more + From(next)) == (out + more) + From(next);
          out := out + more;
          return;
        }
        if n + 1 == |pages| {
          out := out + more;
          break;
        }
        assert out + (more + Tail(n + 1, 0)) == (out + more) + Tail(n + 1, 0);
        out := out + more;
        n, at, k := n + 1, 0, 0;
        PageMeans(n);
        ZeroOff(layout[n], maxIno);
      }
      NothingLeft(next);
      assert out + [] == out;
    }

    /** One page of kr_readdir. */
    method EmitFrom(n: nat, from: nat, room: nat, ghost k0: nat)
      returns (out: seq<Entry>, at: nat, full: bool, ghost k: nat)
      requires Valid() && n < |pages| && k0 <= |layout[n]| && AllGood(layout[n], maxIno) && from == Off(layout[n], k0, maxIno)
      ensures k <= |layout[n]| && at == Off(layout[n], k, maxIno) && |out| <= room
      ensures full ==> k < |layout[n]| && |out| == room && Tail(n, k0) == out + Tail(n, k) == out + From(n * PAGE + at)
      ensures !full && n + 1 < |pages| ==> Tail(n, k0) == out + Tail(n + 1, 0)
      ensures !full && n + 1 == |pages| ==> Tail(n, k0) == out && n * PAGE + at == size
    {
      hide AllLive, GoodNames, EncAll, Holds, Off, ChunkOk, AllGood, From, Live;
      PageMeans(n);
      Sizes(n);
      out, at, full, k := EmitPage(pages[n], LastByte(size, n), from, room, k0, layout[n], chunk, maxIno);
      EndAt(pages[n][..], LastByte(size, n), layout[n], chunk, maxIno);
      NoPages();
      assert layout[n][|layout[n]|..] == [];
      if full {
        StrictOff(layout[n], k, maxIno);
        OffMono(layout[n], k, |layout[n]|, maxIno);
        FromIs(n, k, n * PAGE + at);
      } else if n + 1 < |pages| {
        assert layout[n + 1][0..] == layout[n + 1];
        assert layout[n + 1..][1..] == layout[n + 2..];
        AllLiveStep(layout[n + 1..]);
      } else {
        assert layout[n + 1..] == [];
      }
    }

    /** A directory read in parts, whatever the sinks take, is read as in one pass. */
    method ReadInParts(rooms: seq<nat>, stale: seq<bool>) returns (out: seq<Entry>, next: nat)
      requires Valid() && |stale| == |rooms|
      ensures AllLive(layout) == out + From(next)
      ensures From(next) != [] ==> |out| == G.Sum(rooms)
    {
      hide AllLive, GoodNames, EncAll, Holds, Off, ChunkOk, AllGood, From;
      out, next := [], 0;
      ReadFromStart();
      var i := 0;
      while i < |rooms|
        invariant i <= |rooms| && Boundary(next) && AllLive(layout) == out + From(next)
        invariant From(next) != [] ==> |out| == G.Sum(rooms[..i])
      {
        var part;
        part, next := ReadDir(next, rooms[i], stale[i]);
        out := out + part;
        G.SumPrefix(rooms, i);
        i := i + 1;
      }
      assert rooms[..i] == rooms;
    }

    lemma ReadFromStart()
      requires Valid()
      ensures From(0) == AllLive(layout) && Boundary(0)
    {
      hide AllLive, GoodNames, EncAll, Holds, Off, ChunkOk, AllGood, AllFrom;
      AllPagesGood();
      AllFromStart(layout, 0, 0, maxIno);
      if size >= 12 {
        PageMeans(0);
        Sizes(0);
        EndAt(pages[0][..], LastByte(size, 0), layout[0], chunk, maxIno);
        ZeroOff(layout[0], maxIno);
        assert RecordAt(0, 0, 0);
      }
    }

    lemma MissingHere(rs: seq<Rec>, name: seq<byte>)
      requires forall j :: 0 <= j < |rs| ==> !Matches(rs[j], name)
      ensures NoMatch(rs, name)
    {
      hide Matches;
    }
  }

  lemma ChunkPositive(chunk: nat)
    requires ChunkOk(chunk)
    ensures chunk > 0
  {
  }

  lemma OnePage(chunk: nat)
    requires ChunkOk(chunk)
    ensures DirPages(chunk) == 1 && LastByte(chunk, 0) == chunk && chunk % chunk == 0
  {
  }

  lemma GoodAt(rs: seq<Rec>, j: nat, maxIno: nat)
    requires AllGood(rs, maxIno) && j < |rs|
    ensures GoodRec(rs[j], maxIno)
  {
  }

  lemma NamesDistinct(es: seq<Entry>)
    requires GoodNames(es)
    ensures Distinct(es)
  {
  }

  lemma DotNames(chunk: nat, self: nat, parent: nat, ftype: byte)
    requires ChunkOk(chunk) && self != 0 && parent != 0
    ensures var es := AllLive([DotRecs(chunk, self, parent, ftype)]);
            GoodNames(es) && Table(es) == map[SELF := Target(self, ftype), PARENT := Target(parent, ftype)]
  {
    hide Live, DotRecs;
    var l := [DotRecs(chunk, self, parent, ftype)];
    DotsLive(chunk, self, parent, ftype);
    NoPages();
    assert l[1..] == [];
    var e, f := Entry(SELF, self, ftype), Entry(PARENT, parent, ftype);
    assert AllLive(l) == [e, f] + [];
    assert [e, f][1..] == [f] && [f][1..] == [];
  }

  lemma LastPageStart(size: nat, n: nat, chunk: nat)
    requires ChunkOk(chunk) && size % chunk == 0 && n + 1 == DirPages(size)
    ensures n * PAGE + 12 <= size
  {
    assert size > n * PAGE;
    if size < n * PAGE + chunk {
      ChunksInPage(size, chunk, n);
      assert false;
    }
  }

  lemma StrictOff(rs: seq<Rec>, k: nat, maxIno: nat)
    requires AllGood(rs, maxIno) && k <= |rs|
    ensures k > 0 ==> Off(rs, k - 1, maxIno) < Off(rs, k, maxIno)
  {
    hide EncAll, Off;
    if k > 0 { Around(rs, k - 1, maxIno); }
  }

  lemma AllLiveStep(layout: seq<seq<Rec>>)
    requires |layout| > 0
    ensures AllLive(layout) == Live(layout[0]) + AllLive(layout[1..])
  {
  }

  lemma NoneFits(rs: seq<Rec>, need: nat)
    requires forall j :: 0 <= j < |rs| ==> !Fits(rs[j], need)
    ensures NoFit(rs, need)
  {
    hide Fits;
  }

  /** Chunks do not cross the boundaries of pages. */
  lemma ChunksBehind(size: nat, chunk: nat, n: nat)
    requires ChunkOk(chunk) && size % chunk == 0 && n * PAGE <= size
    ensures (size - n * PAGE) % chunk == 0 && PAGE % chunk == 0 && chunk % SECTOR == 0 && 1024 <= chunk <= PAGE
  {
    var q, per := size / chunk, if chunk == 1024 then 4 else if chunk == 2048 then 2 else 1;
    assert size == q * chunk by { DivMod(size, chunk); }
    PagesInChunks(q, chunk, n, per);
    DivUnique(size - n * PAGE, chunk, q - n * per, 0);
  }

  lemma PagesInChunks(q: nat, chunk: nat, n: nat, per: nat)
    requires per * chunk == PAGE
    ensures q * chunk - n * PAGE == (q - n * per) * chunk
  {
    assert n * PAGE == n * (per * chunk) == (n * per) * chunk;
  }

  lemma ChunksInPage(size: nat, chunk: nat, n: nat)
    requires ChunkOk(chunk) && size % chunk == 0 && n * PAGE <= size < (n + 1) * PAGE
    ensures (size + chunk) % chunk == 0 && size + chunk <= (n + 1) * PAGE && chunk % SECTOR == 0 && chunk >= 1024
  {
    var q, per := size / chunk, if chunk == 1024 then 4 else if chunk == 2048 then 2 else 1;
    assert size == q * chunk by { DivMod(size, chunk); }
    NextMultiple(q, chunk, (n + 1) * per, (n + 1) * PAGE);
  }

  /** Below a multiple of `chunk`, there is room for another one. */
  lemma NextMultiple(q: nat, chunk: nat, m: nat, bound: nat)
    requires chunk > 0 && q * chunk < bound == m * chunk
    ensures q * chunk + chunk <= bound && (q * chunk + chunk) % chunk == 0
  {
    DivUnique(q * chunk + chunk, chunk, q + 1, 0);
    if q < m {
      MulMono(q + 1, m, chunk);
    } else {
      MulMono(m, q, chunk);
    }
  }

  lemma StillCovered(size: nat, chunk: nat, n: nat)
    requires ChunkOk(chunk) && size % chunk == 0 && n * PAGE <= size < (n + 1) * PAGE
    ensures (size + chunk) % chunk == 0 && LastByte(size + chunk, n) == size - n * PAGE + chunk
    ensures DirPages(size + chunk) == n + 1 && chunk % SECTOR == 0
    ensures forall m :: 0 <= m < n ==> LastByte(size + chunk, m) == LastByte(size, m) == PAGE
  {
    hide ChunkOk;
    ChunksInPage(size, chunk, n);
  }

  /** A record in use has a name. */
  lemma InUse(layout: seq<seq<Rec>>, n: nat, k: nat, maxIno: nat)
    requires n < |layout| && k < |layout[n]| && GoodNames(AllLive(layout)) && GoodRec(layout[n][k], maxIno)
    ensures Nameable(layout[n][k])
  {
    hide AllLive, GoodNames, Table;
    if layout[n][k].inode != 0 { EntryOf(layout, n, k); }
  }
}
