/**
 The namespace on its pages: every directory is kept in pages of records, every
 operation works on those, and what the pages hold are the tables of module
 Namespace, whose link counts and tree it therefore has.
 */
module Mounted {
  import opened ByteBuffer
  import opened DirFirst
  import opened DirRecord
  import opened DirTable
  import opened Links
  import opened Moves
  import D = Directory
  import N = Namespace

  const FILE_TYPE: byte := 1
  const DIR_TYPE: byte := 2
  const LINK_TYPE: byte := 7

  /** The inodes that a table names. */
  function Plain(t: map<seq<byte>, Target>): map<Name, Ino> {
    map x | x in t :: t[x].inode
  }

  lemma PlainAt(t: map<seq<byte>, Target>, x: seq<byte>)
    ensures x in Plain(t) <==> x in t
    ensures x in t ==> Plain(t)[x] == t[x].inode
  {
  }

  lemma PlainPut(t: map<seq<byte>, Target>, x: seq<byte>, ino: nat, ftype: byte)
    ensures Plain(t[x := Target(ino, ftype)]) == Plain(t)[x := ino]
  {
  }

  lemma PlainCut(t: map<seq<byte>, Target>, x: seq<byte>)
    ensures Plain(t - {x}) == Plain(t) - {x}
  {
  }

  lemma PlainDots(self: nat, parent: nat, ftype: byte)
    ensures Plain(map[SELF := Target(self, ftype), PARENT := Target(parent, ftype)]) == DotTable(self, parent)
  {
  }

  /** Just one table is another one now. */
  lemma OneTable(was: Dirs, now: Dirs, d: Ino, table: map<Name, Ino>)
    requires now.Keys == was.Keys && d in was && now[d] == table && forall e :: e in was && e != d ==> now[e] == was[e]
    ensures now == was[d := table]
  {
    var t := was[d := table];
    assert t.Keys == now.Keys;
    assert forall e :: e in t ==> t[e] == now[e];
  }

  /** Every entry has the type of the inode it names. */
  ghost predicate Typed(t: map<seq<byte>, Target>, types: map<Ino, byte>, filetype: bool) {
    forall x :: x in t ==> t[x].ftype == if filetype && t[x].inode in types then types[t[x].inode] else 0
  }

  /** kr_set_de_type: the type by the inode's mode, if the volume keeps types. */
  function TypeOf(types: map<Ino, byte>, filetype: bool, i: Ino): byte {
    if filetype && i in types then types[i] else 0
  }

  lemma TypedPut(t: map<seq<byte>, Target>, types: map<Ino, byte>, filetype: bool, x: seq<byte>, ino: nat)
    requires Typed(t, types, filetype)
    ensures Typed(t[x := Target(ino, TypeOf(types, filetype, ino))], types, filetype)
  {
  }

  lemma TypedCut(t: map<seq<byte>, Target>, types: map<Ino, byte>, filetype: bool, x: seq<byte>)
    requires Typed(t, types, filetype)
    ensures Typed(t - {x}, types, filetype)
  {
  }

  /** An inode that no entry names can be of any type. */
  lemma TypedOther(t: map<seq<byte>, Target>, types: map<Ino, byte>, filetype: bool, ino: Ino, ftype: byte)
    requires Typed(t, types, filetype) && forall x :: x in Plain(t) ==> Plain(t)[x] != ino
    ensures Typed(t, types[ino := ftype], filetype)
  {
    forall x | x in t
      ensures t[x].inode != ino
    {
      PlainAt(t, x);
    }
  }

  lemma TypedDots(self: nat, parent: nat, types: map<Ino, byte>, filetype: bool)
    requires self in types && parent in types && types[self] == types[parent]
    ensures Typed(map[SELF := Target(self, TypeOf(types, filetype, self)), PARENT := Target(parent, TypeOf(types, filetype, self))], types, filetype)
  {
  }

  /** A name as the pages can hold it: bytes, and not too many. */
  predicate GoodName(n: Name) {
    0 < |n| < 256 && forall i :: 0 <= i < |n| ==> 0 <= n[i] < 256
  }

  lemma Sectors(chunk: nat)
    requires ChunkOk(chunk)
    ensures chunk <= D.SECTOR * (chunk / D.SECTOR)
  {
  }

  lemma Unmade(was: Dirs, ino: Ino, dir: Ino)
    requires ino !in was
    ensures was[ino := DotTable(ino, dir)] - {ino} == was
  {
  }

  lemma PutKeeps(dirs: Dirs, d: Ino, n: Name, s: Ino)
    requires d in dirs
    ensures Put(dirs, d, n, s).Keys == dirs.Keys && (s in dirs && s != d ==> Put(dirs, d, n, s)[s] == dirs[s])
  {
  }

  lemma CutKeeps(dirs: Dirs, d: Ino, n: Name, s: Ino)
    requires d in dirs
    ensures Cut(dirs, d, n).Keys == dirs.Keys && (s in dirs && s != d ==> Cut(dirs, d, n)[s] == dirs[s])
  {
  }

  /** What the steps of a rename make of the tables, one after the other. */
  function Moved(dirs: Dirs, od: Ino, on: Name, nd: Ino, nn: Name, s: Ino): Dirs
    requires od in dirs && nd in dirs
  {
    var b := MovedEntry(dirs, od, on, nd, nn, s);
    if nn in dirs[nd] && s in dirs then b - {dirs[nd][nn]} else b
  }

  function MovedEntry(dirs: Dirs, od: Ino, on: Name, nd: Ino, nn: Name, s: Ino): Dirs
    requires od in dirs && nd in dirs
  {
    var a := Cut(Put(dirs, nd, nn, s), od, on);
    if s in a && od != nd then Put(a, s, PARENT, nd) else a
  }

  /** It is what a rename is to make of them. */
  lemma MovedIsRenamed(root: Ino, links: map<Ino, int>, dirs: Dirs, home: map<Ino, Name>, od: Ino, on: Name, nd: Ino, nn: Name)
    requires Sound(root, links, dirs, home) && Renamable(root, dirs, od, on, nd, nn) && Replaceable(dirs, nd, nn)
    ensures Moved(dirs, od, on, nd, nn, dirs[od][on]) == Renamed(dirs, od, on, nd, nn)
  {
    hide Sound, Renamed, Outside, MovedDir;
    var s := dirs[od][on];
    RenamableMeans(root, dirs, od, on, nd, nn);
    N.RenameFacts(root, links, dirs, home, od, on, nd, nn);
    N.RenamedTables(dirs, od, on, nd, nn, s);
    PutVacated(dirs, nd, nn, s);
    if nn in dirs[nd] && s in dirs {
      WithoutTarget(Put(dirs, nd, nn, s), od, on, nd, s, dirs[nd][nn]);
    }
  }

  lemma RenamableMeans(root: Ino, dirs: Dirs, od: Ino, on: Name, nd: Ino, nn: Name)
    requires Renamable(root, dirs, od, on, nd, nn)
    ensures od in dirs && nd in dirs && on in dirs[od] && NonDot(on) && NonDot(nn)
    ensures nn in dirs[nd] ==> dirs[nd][nn] != dirs[od][on] && (dirs[nd][nn] in dirs <==> dirs[od][on] in dirs)
  {
  }

  /** What the pages of a rename may count on. */
  ghost predicate MayRename(dirs: Dirs, od: Ino, on: Name, nd: Ino, nn: Name) {
    && od in dirs && nd in dirs && on in dirs[od]
    && var s := dirs[od][on];
      && (s in dirs ==> s != od && s != nd && PARENT in dirs[s] && (nn in dirs[nd] ==> dirs[nd][nn] in dirs))
      && (Replaceable(dirs, nd, nn) <==> !(nn in dirs[nd] && s in dirs && !N.DotsOnly(dirs[dirs[nd][nn]], dirs[nd][nn])))
      && (Replaceable(dirs, nd, nn) ==> Moved(dirs, od, on, nd, nn, s) == Renamed(dirs, od, on, nd, nn))
  }

  lemma RenameMay(root: Ino, links: map<Ino, int>, dirs: Dirs, home: map<Ino, Name>, od: Ino, on: Name, nd: Ino, nn: Name)
    requires Sound(root, links, dirs, home) && Renamable(root, dirs, od, on, nd, nn)
    ensures MayRename(dirs, od, on, nd, nn)
  {
    hide Connected, Counted, Outside, Renamed, Moved, Replaceable;
    var s := dirs[od][on];
    if s in dirs {
      N.HeldIn(root, links, dirs, home, od, on);
      NotInside(root, dirs, s, nd);
    }
    if nn in dirs[nd] && dirs[nd][nn] in dirs {
      N.EmptyReplaceable(root, links, dirs, home, nd, nn);
    } else {
      N.NothingToEmpty(dirs, nd, nn);
    }
    if Replaceable(dirs, nd, nn) {
      MovedIsRenamed(root, links, dirs, home, od, on, nd, nn);
    }
  }

  lemma MayRenameMeans(dirs: Dirs, od: Ino, on: Name, nd: Ino, nn: Name, s: Ino, over: bool, t: Ino)
    requires MayRename(dirs, od, on, nd, nn) && s == dirs[od][on] && over == (nn in dirs[nd]) && (over ==> t == dirs[nd][nn])
    ensures s in dirs ==> s != od && s != nd && PARENT in dirs[s] && (over ==> t in dirs)
    ensures Replaceable(dirs, nd, nn) <==> !(over && s in dirs && !N.DotsOnly(dirs[t], t))
    ensures Replaceable(dirs, nd, nn) ==> Moved(dirs, od, on, nd, nn, s) == Renamed(dirs, od, on, nd, nn)
  {
    hide Replaceable, Moved, Renamed, N.DotsOnly;
  }

  lemma NotInside(root: Ino, dirs: Dirs, s: Ino, x: Ino)
    requires Outside(root, dirs, s, x)
    ensures s != x
  {
  }

  lemma PutVacated(dirs: Dirs, nd: Ino, nn: Name, s: Ino)
    requires nd in dirs && (nn in dirs[nd] ==> dirs[nd][nn] != nd)
    ensures nd in Vacated(dirs, nd, nn)
    ensures var p := Put(dirs, nd, nn, s);
            Put(Vacated(dirs, nd, nn), nd, nn, s) == if nn in dirs[nd] && dirs[nd][nn] in dirs then p - {dirs[nd][nn]} else p
  {
    if nn in dirs[nd] {
      assert (dirs[nd] - {nn})[nn := s] == dirs[nd][nn := s];
    }
  }

  lemma WithoutTarget(p: Dirs, od: Ino, on: Name, nd: Ino, s: Ino, t: Ino)
    requires od in p && od != t && s in p && s != od && s != t
    ensures Cut(p - {t}, od, on) == Cut(p, od, on) - {t}
    ensures Put(Cut(p, od, on), s, PARENT, nd) - {t} == Put(Cut(p, od, on) - {t}, s, PARENT, nd)
  {
  }

  lemma SameTables(was: Dirs, now: Dirs)
    requires now.Keys == was.Keys && forall d :: d in was ==> now[d] == was[d]
    ensures now == was
  {
    assert forall d :: d in was ==> d in now && now[d] == was[d];
  }

  lemma MoreTables(was: Dirs, now: Dirs, d: Ino, table: map<Name, Ino>)
    requires now.Keys == was.Keys + {d} && now[d] == table && forall e :: e in was && e != d ==> now[e] == was[e]
    ensures now == was[d := table]
  {
    var t := was[d := table];
    assert t.Keys == now.Keys;
    assert forall e :: e in t ==> t[e] == now[e];
  }

  /** A table is of an empty directory just if its projection is. */
  lemma SameDots(t: map<seq<byte>, Target>, self: nat)
    ensures OnlyDots(t, self) <==> N.DotsOnly(Plain(t), self)
  {
    forall x | x in t
      ensures x in Plain(t) && Plain(t)[x] == t[x].inode
    {
      PlainAt(t, x);
    }
  }

  /** The names are such as pages can hold, and a new inode's number is one of the volume's. */
  predicate InBounds(op: N.Op, maxIno: nat) {
    match op
    case Create(dir, name, luck) => GoodName(name) && 0 <= luck.ino <= maxIno
    case Symlink(dir, name, luck) => GoodName(name) && 0 <= luck.ino <= maxIno
    case Mkdir(dir, name, luck) => GoodName(name) && 0 <= luck.ino <= maxIno
    case Tmpfile(luck) => 0 <= luck.ino <= maxIno
    case Release(ino) => true
    case Link(ino, dir, name, room) => GoodName(name)
    case Unlink(dir, name) => GoodName(name)
    case Rmdir(dir, name) => GoodName(name)
    case Rename(od, on, nd, nn, room) => GoodName(on) && GoodName(nn)
  }

  /** An operation is done whole, or not at all, and it is done if it can be: an
      entry may find room in the pages even when there is no more block for them. */
  ghost predicate Effect(root: Ino, maxIno: nat, t: N.Tree, op: N.Op, now: N.Tree) {
    if N.Allowed(root, t, op) && InBounds(op, maxIno) && !N.Barred(root, t, op) then
      N.Done(root, t, op, now) || (now == t && N.Crowded(root, t, op))
    else now == t
  }

  /** The types of the inodes after an operation: just a new inode gets one. */
  ghost function TypesAfter(root: Ino, maxIno: nat, t: N.Tree, op: N.Op, types: map<Ino, byte>): map<Ino, byte> {
    if !N.Allowed(root, t, op) || !InBounds(op, maxIno) then types
    else match op
      case Create(dir, name, luck) => if luck.ino != 0 then types[luck.ino := FILE_TYPE] else types
      case Symlink(dir, name, luck) => if luck.ino != 0 then types[luck.ino := LINK_TYPE] else types
      case Mkdir(dir, name, luck) => if luck.ino != 0 then types[luck.ino := DIR_TYPE] else types
      case Tmpfile(luck) => if luck.ino != 0 then types[luck.ino := FILE_TYPE] else types
      case _ => types
  }

  // ---------- what the operations do, from what they promise ----------

  lemma NotLetThrough(root: Ino, maxIno: nat, t: N.Tree, op: N.Op)
    requires !N.Allowed(root, t, op) || !InBounds(op, maxIno)
    ensures Effect(root, maxIno, t, op, t) && forall types :: TypesAfter(root, maxIno, t, op, types) == types
  {
    hide N.Allowed, InBounds;
  }

  /** No inode is made. */
  lemma TypesSame(root: Ino, maxIno: nat, t: N.Tree, op: N.Op, types: map<Ino, byte>)
    requires op.Release? || op.Link? || op.Unlink? || op.Rmdir? || op.Rename?
    ensures TypesAfter(root, maxIno, t, op, types) == types
  {
    hide N.Allowed, InBounds;
  }

  lemma CreateEffect(root: Ino, maxIno: nat, t: N.Tree, dir: Ino, name: Name, luck: N.Luck, now: N.Tree, e: N.Err)
    requires N.Free(t.dirs, dir, name) && GoodName(name) && luck.ino !in t.links && 0 <= luck.ino <= maxIno
    requires e.Ok? ==> luck.ino != 0 && now.dirs == Put(t.dirs, dir, name, luck.ino) && now.links == t.links[luck.ino := 1]
    requires !e.Ok? ==> (luck.ino == 0 || !luck.room) && now == t
    ensures Effect(root, maxIno, t, N.Create(dir, name, luck), now)
  {
    hide Put, NonDot;
  }

  lemma SymlinkEffect(root: Ino, maxIno: nat, t: N.Tree, dir: Ino, name: Name, luck: N.Luck, now: N.Tree, e: N.Err)
    requires N.Free(t.dirs, dir, name) && GoodName(name) && luck.ino !in t.links && 0 <= luck.ino <= maxIno
    requires e.Ok? ==> luck.ino != 0 && luck.block && now.dirs == Put(t.dirs, dir, name, luck.ino) && now.links == t.links[luck.ino := 1]
    requires !e.Ok? ==> (luck.ino == 0 || !luck.block || !luck.room) && now == t
    ensures Effect(root, maxIno, t, N.Symlink(dir, name, luck), now)
  {
    hide Put, NonDot;
  }

  lemma MkdirEffect(root: Ino, maxIno: nat, t: N.Tree, dir: Ino, name: Name, luck: N.Luck, now: N.Tree, e: N.Err)
    requires N.Free(t.dirs, dir, name) && GoodName(name) && luck.ino !in t.links && 0 <= luck.ino <= maxIno
    requires e.Ok? ==> luck.ino != 0 && luck.block && now.dirs == MadeDir(t.dirs, dir, name, luck.ino)
    requires e.Ok? ==> now.links.Keys == t.links.Keys + {luck.ino}
    requires !e.Ok? ==> (luck.ino == 0 || !luck.block || !luck.room) && now == t
    ensures Effect(root, maxIno, t, N.Mkdir(dir, name, luck), now)
  {
    hide MadeDir, NonDot;
  }

  lemma TmpfileEffect(root: Ino, maxIno: nat, t: N.Tree, luck: N.Luck, now: N.Tree, e: N.Err)
    requires luck.ino !in t.links && 0 <= luck.ino <= maxIno && now.dirs == t.dirs
    requires (e.Ok? <==> luck.ino != 0) && now.links == if e.Ok? then t.links[luck.ino := 0] else t.links
    ensures Effect(root, maxIno, t, N.Tmpfile(luck), now)
  {
  }

  lemma ReleaseEffect(root: Ino, maxIno: nat, t: N.Tree, ino: Ino, now: N.Tree)
    requires ino in t.links && t.links[ino] == 0 && now.dirs == t.dirs && now.links == t.links - {ino}
    ensures Effect(root, maxIno, t, N.Release(ino), now)
  {
  }

  lemma LinkEffect(root: Ino, maxIno: nat, t: N.Tree, ino: Ino, dir: Ino, name: Name, room: bool, now: N.Tree, e: N.Err)
    requires N.Free(t.dirs, dir, name) && GoodName(name) && ino in t.links && ino !in t.dirs
    requires e.Ok? ==> now.dirs == Put(t.dirs, dir, name, ino) && now.links == t.links[ino := t.links[ino] + 1]
    requires !e.Ok? ==> !room && now == t
    ensures Effect(root, maxIno, t, N.Link(ino, dir, name, room), now)
  {
    hide Put, NonDot;
  }

  lemma UnlinkEffect(root: Ino, maxIno: nat, t: N.Tree, dir: Ino, name: Name, now: N.Tree, e: N.Err)
    requires dir in t.dirs && GoodName(name) && NonDot(name) && name in t.dirs[dir] && t.dirs[dir][name] !in t.dirs
    requires e.Ok? && now.dirs == Cut(t.dirs, dir, name) && now.links.Keys == t.links.Keys
    ensures Effect(root, maxIno, t, N.Unlink(dir, name), now)
  {
    hide Cut, NonDot;
  }

  lemma RmdirEffect(root: Ino, maxIno: nat, t: N.Tree, dir: Ino, name: Name, now: N.Tree, e: N.Err)
    requires dir in t.dirs && GoodName(name) && NonDot(name) && name in t.dirs[dir] && t.dirs[dir][name] in t.dirs
    requires e == if N.DotsOnly(t.dirs[t.dirs[dir][name]], t.dirs[dir][name]) then N.Ok else N.NotEmpty
    requires e.Ok? ==> now.dirs == RemovedDir(t.dirs, dir, name, t.dirs[dir][name]) && now.links.Keys == t.links.Keys
    requires !e.Ok? ==> now == t
    ensures Effect(root, maxIno, t, N.Rmdir(dir, name), now)
  {
    hide RemovedDir, NonDot, N.DotsOnly;
  }

  lemma RenameEffect(root: Ino, maxIno: nat, t: N.Tree, od: Ino, on: Name, nd: Ino, nn: Name, room: bool, now: N.Tree, e: N.Err)
    requires Renamable(root, t.dirs, od, on, nd, nn) && GoodName(on) && GoodName(nn)
    requires e.Ok? || e.NoSpace? || e.NotEmpty?
    requires (e.NotEmpty? <==> !Replaceable(t.dirs, nd, nn)) && (e.NoSpace? ==> !room && nn !in t.dirs[nd])
    requires e.Ok? ==> now.dirs == Renamed(t.dirs, od, on, nd, nn) && now.links.Keys == t.links.Keys
    requires !e.Ok? ==> now == t
    ensures Effect(root, maxIno, t, N.Rename(od, on, nd, nn, room), now)
  {
    hide Renamed, Replaceable, Outside, NonDot;
  }

  class Mounted {
    const chunk: nat
    const maxIno: nat
    /** link counts, and the tables that the pages stand for */
    const ns: N.Namespace
    /** Does the volume keep the types of files in their entries? */
    const filetype: bool
    /** the type of every inode, from its mode */
    var types: map<Ino, byte>
    /** the pages of every directory there is */
    var files: map<Ino, D.Directory>

    ghost predicate FileOk(d: Ino)
      requires d in files
      reads this, files[d], files[d].PageSet()
    {
      && files[d].Valid() && files[d].chunk == chunk && files[d].maxIno == maxIno && files[d].self == d
      && d in types && types[d] == DIR_TYPE && Typed(files[d].Contents(), types, filetype)
    }

    /** Every directory has pages of its own. */
    ghost predicate Apart()
      reads this, files.Values
    {
      forall d, e :: d in files && e in files && d != e ==> files[d] != files[e] && files[d].PageSet() !! files[e].PageSet()
    }

    ghost function Pages(): set<object>
      reads this, files.Values
    {
      set d, p | d in files && p in files[d].PageSet() :: p
    }

    /** All that the directories are made of. */
    ghost function Objects(): set<object>
      reads this, files.Values
    {
      (set d | d in files :: files[d] as object) + Pages()
    }

    ghost predicate PagesOk()
      reads this, files.Values, Pages()
    {
      Apart() && forall d :: d in files ==> FileOk(d)
    }

    /** The tables that the pages hold. */
    ghost function Tables(): (r: Dirs)
      reads this, files.Values
      ensures r.Keys == files.Keys && forall d :: d in files ==> r[d] == Plain(files[d].Contents())
    {
      map d | d in files :: Plain(files[d].Contents())
    }

    ghost predicate InRange()
      reads ns
    {
      forall i :: i in ns.links ==> 0 < i <= maxIno
    }

    ghost predicate Valid()
      reads this, ns, files.Values, Pages()
    {
      && ns.Valid() && PagesOk() && Tables() == ns.dirs && ChunkOk(chunk) && maxIno < MAX32
      && InRange()
    }

    /** A volume with an empty root directory. */
    constructor (chunk: nat, maxIno: nat, filetype: bool, root: nat, sectors: nat)
      requires ChunkOk(chunk) && 0 < root <= maxIno < MAX32 && chunk <= D.SECTOR * sectors
      ensures Valid() && this.chunk == chunk && this.maxIno == maxIno && this.filetype == filetype && ns.root == root
      ensures fresh(ns) && (forall d :: d in files ==> fresh(files[d])) && fresh(Pages())
    {
      hide D.Directory.Valid, D.Directory.Contents, Plain, DotTable, N.Namespace.Valid, ChunkOk, FileOk, Typed;
      this.chunk, this.maxIno, this.filetype := chunk, maxIno, filetype;
      types := map[root := DIR_TYPE];
      var dir := new D.Directory(chunk, maxIno, root, root, TypeOf(map[root := DIR_TYPE], filetype, root), sectors);
      files := map[root := dir];
      ns := new N.Namespace(root);
      new;
      PlainDots(root, root, EntryType(root));
      TypedDots(root, root, types, filetype);
      FileIs(root);
    }

    function EntryType(i: Ino): byte
      reads this
    {
      TypeOf(types, filetype, i)
    }

    /** An inode that no entry names is given its type. */
    method SetType(ino: Ino, ftype: byte)
      requires PagesOk() && ino !in files && forall d, x :: d in files && x in Tables()[d] ==> Tables()[d][x] != ino
      modifies this`types
      ensures types == old(types)[ino := ftype] && PagesOk() && Tables() == old(Tables()) && Objects() == old(Objects())
    {
      hide D.Directory.Valid, D.Directory.Contents, Plain, Typed;
      ghost var was := Tables();
      types := types[ino := ftype];
      forall d | d in files
        ensures FileOk(d) && files[d].Contents() == old(files[d].Contents()) && files[d].PageSet() == old(files[d].PageSet())
      {
        var f := files[d];
        assert old(FileOk(d)) && unchanged(f) && unchanged(f.PageSet());
        assert was[d] == Plain(f.Contents());
        TypedOther(f.Contents(), old(types), filetype, ino, ftype);
      }
      SameTables(was, Tables());
      assert Pages() == old(Pages()) && Objects() == old(Objects());
    }

    /** An entry for a name that is not there. */
    method AddEntry(d: Ino, name: seq<byte>, ino: nat, room: bool) returns (done: bool)
      requires PagesOk() && d in files && 0 < |name| < 256 && 0 < ino <= maxIno && name !in Tables()[d]
      modifies files[d], files[d].PageSet()
      ensures PagesOk() && (!done ==> !room)
      ensures Tables() == if done then Put(old(Tables()), d, name, ino) else old(Tables())
      ensures forall o :: o in Objects() ==> o in old(Objects()) || fresh(o)
      ensures forall m: nat, a: nat, x :: old(files[d].Held(m, a, x)) ==> files[d].Held(m, a, x)
    {
      hide D.Directory.Valid, D.Directory.Contents, D.Directory.Held, Plain, FileOk, Typed;
      FileIs(d);
      PlainPut(files[d].Contents(), name, ino, EntryType(ino));
      TypedPut(files[d].Contents(), types, filetype, name, ino);
      PlainAt(files[d].Contents(), name);
      ghost var was := Tables();
      done := files[d].AddLink(name, ino, EntryType(ino), room);
      FileIs(d);
      forall e | e in files && e != d
        ensures FileOk(e) && files[e].Contents() == old(files[e].Contents()) && files[e].PageSet() == old(files[e].PageSet())
      {
        assert old(FileOk(e));
      }
      OneTable(was, Tables(), d, if done then was[d][name := ino] else was[d]);
    }

    /** Look a name up; its entry's place is kept. */
    method Find(d: Ino, name: seq<byte>) returns (found: bool, n: nat, at: nat)
      requires PagesOk() && d in files && |name| < 256
      modifies files[d]
      ensures PagesOk() && Tables() == old(Tables()) && Objects() == old(Objects())
      ensures (found <==> name in Tables()[d]) && (found ==> files[d].Held(n, at, name))
      ensures files[d].PageSet() == old(files[d].PageSet())
      ensures forall m: nat, a: nat, x :: old(files[d].Held(m, a, x)) ==> files[d].Held(m, a, x)
    {
      hide D.Directory.Valid, D.Directory.Contents, Plain, FileOk, Typed;
      FileIs(d);
      ghost var was := Tables();
      ghost var k;
      found, n, at, k := files[d].FindEntry(name);
      if found { files[d].HeldIs(n, at, k, name); }
      FileIs(d);
      PlainAt(files[d].Contents(), name);
      forall e | e in files && e != d
        ensures FileOk(e) && files[e].Contents() == old(files[e].Contents()) && files[e].PageSet() == old(files[e].PageSet())
      {
        assert old(FileOk(e));
      }
      OneTable(was, Tables(), d, was[d]);
      assert files[d].PageSet() == old(files[d].PageSet());
      assert Pages() == old(Pages()) && Objects() == old(Objects());
    }

    /** The entry at a place goes. */
    method RemoveEntry(d: Ino, name: seq<byte>, n: nat, at: nat)
      requires PagesOk() && d in files && files[d].Held(n, at, name)
      modifies files[d], files[d].PageSet()
      ensures PagesOk() && Tables() == old(Cut(Tables(), d, name)) && Objects() == old(Objects())
    {
      hide D.Directory.Valid, D.Directory.Contents, D.Directory.Held, Plain, FileOk, Typed;
      FileIs(d);
      PlainCut(files[d].Contents(), name);
      TypedCut(files[d].Contents(), types, filetype, name);
      ghost var was := Tables();
      ghost var k := files[d].HeldAt(n, at, name);
      files[d].DeleteEntry(n, at, k, name);
      FileIs(d);
      forall e | e in files && e != d
        ensures FileOk(e) && files[e].Contents() == old(files[e].Contents()) && files[e].PageSet() == old(files[e].PageSet())
      {
        assert old(FileOk(e));
      }
      OneTable(was, Tables(), d, was[d] - {name});
      assert files[d].PageSet() == old(files[d].PageSet());
      assert Pages() == old(Pages()) && Objects() == old(Objects());
    }

    /** The entry of a name goes, if there is one. */
    method RemoveName(d: Ino, name: seq<byte>) returns (found: bool)
      requires PagesOk() && d in files && |name| < 256
      modifies files[d], files[d].PageSet()
      ensures PagesOk() && Objects() == old(Objects()) && (found <==> name in old(Tables()[d]))
      ensures Tables() == if found then old(Cut(Tables(), d, name)) else old(Tables())
    {
      hide PagesOk, Tables, Objects, Cut, D.Directory.Held;
      var n, at;
      found, n, at := Find(d, name);
      if found {
        RemoveEntry(d, name, n, at);
      }
    }

    /** The entry at a place names another inode. */
    method PointEntry(d: Ino, name: seq<byte>, n: nat, at: nat, ino: nat)
      requires PagesOk() && d in files && files[d].Held(n, at, name) && 0 < ino <= maxIno
      modifies files[d], files[d].PageSet()
      ensures PagesOk() && Tables() == old(Put(Tables(), d, name, ino)) && Objects() == old(Objects())
      ensures forall m: nat, a: nat, x :: old(files[d].Held(m, a, x)) ==> files[d].Held(m, a, x)
    {
      hide D.Directory.Valid, D.Directory.Contents, D.Directory.Held, Plain, FileOk, Typed;
      FileIs(d);
      PlainPut(files[d].Contents(), name, ino, EntryType(ino));
      TypedPut(files[d].Contents(), types, filetype, name, ino);
      ghost var was := Tables();
      ghost var k := files[d].HeldAt(n, at, name);
      files[d].SetLink(n, at, ino, EntryType(ino), k, name);
      FileIs(d);
      forall e | e in files && e != d
        ensures FileOk(e) && files[e].Contents() == old(files[e].Contents()) && files[e].PageSet() == old(files[e].PageSet())
      {
        assert old(FileOk(e));
      }
      OneTable(was, Tables(), d, was[d][name := ino]);
      assert files[d].PageSet() == old(files[d].PageSet());
      assert Pages() == old(Pages()) && Objects() == old(Objects());
    }

    /** kr_make_empty */
    method MakeEmpty(ino: nat, parent: nat, sectors: nat)
      requires PagesOk() && ino !in files && ChunkOk(chunk) && 0 < ino <= maxIno < MAX32 && 0 < parent <= maxIno
      requires chunk <= D.SECTOR * sectors && parent in files && ino in types && types[ino] == DIR_TYPE
      modifies this`files
      ensures PagesOk() && ino in files && fresh(files[ino]) && files == old(files)[ino := files[ino]]
      ensures Tables() == old(Tables())[ino := DotTable(ino, parent)]
      ensures forall o :: o in Objects() ==> o in old(Objects()) || fresh(o)
    {
      hide D.Directory.Valid, D.Directory.Contents, Plain, DotTable, ChunkOk, Typed;
      ghost var was := Tables();
      assert types[parent] == DIR_TYPE by { assert FileOk(parent); }
      var dir := new D.Directory(chunk, maxIno, ino, parent, EntryType(ino), sectors);
      files := files[ino := dir];
      PlainDots(ino, parent, EntryType(ino));
      TypedDots(ino, parent, types, filetype);
      FileIs(ino);
      forall e | e in files && e != ino
        ensures FileOk(e) && files[e].Contents() == old(files[e].Contents())
      {
        var f := files[e];
        assert f == old(files[e]) && old(FileOk(e)) && unchanged(f) && unchanged(f.PageSet());
      }
      MoreTables(was, Tables(), ino, DotTable(ino, parent));
    }

    /** A directory without links is gone. */
    method Forget(ino: Ino)
      requires PagesOk()
      modifies this`files
      ensures PagesOk() && types == old(types) && files == old(files) - {ino} && Tables() == old(Tables()) - {ino} && Objects() <= old(Objects())
    {
      hide D.Directory.Valid, D.Directory.Contents, Plain;
      files := files - {ino};
      forall e | e in files
        ensures FileOk(e)
      {
        var f := files[e];
        assert f == old(files[e]) && old(FileOk(e)) && unchanged(f) && unchanged(f.PageSet());
      }
    }

    /** kr_empty_dir */
    method IsEmpty(d: Ino) returns (empty: bool)
      requires PagesOk() && d in files
      ensures PagesOk() && (empty <==> N.DotsOnly(Tables()[d], d))
    {
      hide D.Directory.Valid, D.Directory.Contents, N.DotsOnly, OnlyDots, Plain, Tables;
      assert FileOk(d);
      SameDots(files[d].Contents(), d);
      empty := files[d].EmptyDir();
      FilesKept();
    }

    // ---------- the names, while the pages stay as they are ----------

    method CreateName(dir: Ino, name: Name, luck: N.Luck) returns (e: N.Err)
      requires ns.Valid() && PagesOk() && InRange()
      requires dir in ns.dirs && name !in ns.dirs[dir] && NonDot(name) && luck.ino !in ns.links && 0 <= luck.ino <= maxIno
      modifies ns
      ensures ns.Valid() && PagesOk() && InRange() && Tables() == old(Tables()) && Objects() == old(Objects())
      ensures e.Ok? <==> luck.ino != 0 && luck.room
      ensures e.Ok? ==> ns.links == old(ns.links)[luck.ino := 1] && ns.dirs == old(Put(ns.dirs, dir, name, luck.ino))
      ensures !e.Ok? ==> ns.links == old(ns.links) && ns.dirs == old(ns.dirs)
    {
      hide PagesOk, N.Namespace.Valid, Tables, NonDot, Objects, Put, Cut, MadeDir, RemovedDir;
      e := ns.Create(dir, name, luck);
      FilesKept();
    }

    method TmpfileName(luck: N.Luck) returns (e: N.Err)
      requires ns.Valid() && PagesOk() && InRange() && luck.ino !in ns.links && 0 <= luck.ino <= maxIno
      modifies ns
      ensures ns.Valid() && PagesOk() && InRange() && Tables() == old(Tables()) && Objects() == old(Objects())
      ensures e.Ok? <==> luck.ino != 0
      ensures ns.dirs == old(ns.dirs) && ns.links == if e.Ok? then old(ns.links)[luck.ino := 0] else old(ns.links)
    {
      hide PagesOk, N.Namespace.Valid, Tables, Objects;
      e := ns.Tmpfile(luck);
      FilesKept();
    }

    method SymlinkName(dir: Ino, name: Name, luck: N.Luck) returns (e: N.Err)
      requires ns.Valid() && PagesOk() && InRange()
      requires dir in ns.dirs && name !in ns.dirs[dir] && NonDot(name) && luck.ino !in ns.links && 0 <= luck.ino <= maxIno
      modifies ns
      ensures ns.Valid() && PagesOk() && InRange() && Tables() == old(Tables()) && Objects() == old(Objects())
      ensures e.Ok? <==> luck.ino != 0 && luck.block && luck.room
      ensures e.Ok? ==> ns.links == old(ns.links)[luck.ino := 1] && ns.dirs == old(Put(ns.dirs, dir, name, luck.ino))
      ensures !e.Ok? ==> ns.links == old(ns.links) && ns.dirs == old(ns.dirs)
    {
      hide PagesOk, N.Namespace.Valid, Tables, NonDot, Objects, Put, Cut, MadeDir, RemovedDir;
      e := ns.Symlink(dir, name, luck);
      FilesKept();
    }

    method LinkName(ino: Ino, dir: Ino, name: Name, room: bool) returns (e: N.Err)
      requires ns.Valid() && PagesOk() && InRange()
      requires dir in ns.dirs && name !in ns.dirs[dir] && NonDot(name) && ino in ns.links && ino !in ns.dirs
      modifies ns
      ensures ns.Valid() && PagesOk() && InRange() && Tables() == old(Tables()) && Objects() == old(Objects())
      ensures e.Ok? <==> room
      ensures e.Ok? ==> ns.links == old(ns.links[ino := ns.links[ino] + 1]) && ns.dirs == old(Put(ns.dirs, dir, name, ino))
      ensures !e.Ok? ==> ns.links == old(ns.links) && ns.dirs == old(ns.dirs)
    {
      hide PagesOk, N.Namespace.Valid, Tables, NonDot, Objects, Put, Cut, MadeDir, RemovedDir;
      e := ns.Link(ino, dir, name, room);
      FilesKept();
    }

    method UnlinkName(dir: Ino, name: Name) returns (e: N.Err)
      requires ns.Valid() && PagesOk() && InRange()
      requires dir in ns.dirs && NonDot(name) && (name in ns.dirs[dir] ==> ns.dirs[dir][name] !in ns.dirs)
      modifies ns
      ensures ns.Valid() && PagesOk() && InRange() && Tables() == old(Tables()) && Objects() == old(Objects())
      ensures e == if name in old(ns.dirs[dir]) then N.Ok else N.NoEntry
      ensures ns.dirs == if e.Ok? then old(Cut(ns.dirs, dir, name)) else old(ns.dirs)
      ensures ns.links.Keys == old(ns.links.Keys) && (!e.Ok? ==> ns.links == old(ns.links))
    {
      hide PagesOk, N.Namespace.Valid, Tables, NonDot, Objects, Put, Cut, MadeDir, RemovedDir;
      e := ns.UnlinkFile(dir, name);
      FilesKept();
    }

    method MkdirName(dir: Ino, name: Name, luck: N.Luck) returns (e: N.Err)
      requires ns.Valid() && PagesOk() && InRange()
      requires dir in ns.dirs && name !in ns.dirs[dir] && NonDot(name) && luck.ino !in ns.links && 0 <= luck.ino <= maxIno
      modifies ns
      ensures ns.Valid() && PagesOk() && InRange() && Tables() == old(Tables()) && Objects() == old(Objects())
      ensures e.Ok? <==> luck.ino != 0 && luck.block && luck.room
      ensures e.Ok? ==> ns.dirs == old(MadeDir(ns.dirs, dir, name, luck.ino)) && ns.links.Keys == old(ns.links.Keys) + {luck.ino}
      ensures !e.Ok? ==> ns.links == old(ns.links) && ns.dirs == old(ns.dirs)
    {
      hide PagesOk, N.Namespace.Valid, Tables, NonDot, Objects, Put, Cut, MadeDir, RemovedDir;
      e := ns.Mkdir(dir, name, luck);
      FilesKept();
    }

    method RmdirName(dir: Ino, name: Name) returns (e: N.Err)
      requires ns.Valid() && PagesOk() && InRange()
      requires dir in ns.dirs && name in ns.dirs[dir] && NonDot(name) && ns.dirs[dir][name] in ns.dirs
      modifies ns
      ensures ns.Valid() && PagesOk() && InRange() && Tables() == old(Tables()) && Objects() == old(Objects())
      ensures e == if old(N.DotsOnly(ns.dirs[ns.dirs[dir][name]], ns.dirs[dir][name])) then N.Ok else N.NotEmpty
      ensures ns.dirs == if e.Ok? then old(RemovedDir(ns.dirs, dir, name, ns.dirs[dir][name])) else old(ns.dirs)
      ensures ns.links.Keys == old(ns.links.Keys) && (!e.Ok? ==> ns.links == old(ns.links))
    {
      hide PagesOk, N.Namespace.Valid, Tables, NonDot, Objects, Put, Cut, MadeDir, RemovedDir;
      e := ns.Rmdir(dir, name);
      FilesKept();
    }

    method RenameName(od: Ino, on: Name, nd: Ino, nn: Name, room: bool, ghost was: Dirs) returns (e: N.Err)
      requires ns.Valid() && PagesOk() && InRange() && was == ns.dirs && Renamable(ns.root, was, od, on, nd, nn)
      modifies ns
      ensures ns.Valid() && PagesOk() && InRange() && Tables() == old(Tables()) && Objects() == old(Objects())
      ensures e.NotEmpty? <==> !Replaceable(was, nd, nn)
      ensures e.NoSpace? <==> !room && nn !in was[nd]
      ensures e.Ok? || e.NoSpace? || e.NotEmpty?
      ensures ns.dirs == if e.Ok? then Renamed(was, od, on, nd, nn) else was
      ensures ns.links.Keys == old(ns.links.Keys) && (!e.Ok? ==> ns.links == old(ns.links))
    {
      hide PagesOk, N.Namespace.Valid, Tables, Objects, Renamed, Replaceable, Renamable;
      e := ns.Rename(od, on, nd, nn, room);
      FilesKept();
    }

    // ---------- the operations ----------

    method Create(dir: Ino, name: seq<byte>, luck: N.Luck, ftype: byte) returns (e: N.Err)
      requires Valid() && dir in files && name !in ns.dirs[dir] && NonDot(name) && 0 < |name| < 256
      requires luck.ino !in ns.links && 0 <= luck.ino <= maxIno
      modifies this`types, ns, files[dir], files[dir].PageSet()
      ensures Valid() && types == if luck.ino != 0 then old(types)[luck.ino := ftype] else old(types)
      ensures forall o :: o in Objects() ==> o in old(Objects()) || fresh(o)
      ensures e.Ok? ==> luck.ino != 0 && ns.dirs == old(Put(ns.dirs, dir, name, luck.ino)) && ns.links == old(ns.links)[luck.ino := 1]
      ensures !e.Ok? ==> (luck.ino == 0 || !luck.room) && ns.dirs == old(ns.dirs) && ns.links == old(ns.links)
    {
      hide PagesOk, N.Namespace.Valid, ChunkOk, Put, Tables, NonDot, Objects, D.Directory.Held, D.Directory.PageSet,
           Mounted.Valid, InRange;
      Parts();
      FreeNumber(luck.ino);
      var done := false;
      if luck.ino != 0 {
        SetType(luck.ino, ftype);
        done := AddEntry(dir, name, luck.ino, luck.room);
      }
      e := CreateName(dir, name, luck.(room := done));
      Whole();
    }

    /** kr_symlink, where the text may need a block */
    method Symlink(dir: Ino, name: seq<byte>, luck: N.Luck) returns (e: N.Err)
      requires Valid() && dir in files && name !in ns.dirs[dir] && NonDot(name) && 0 < |name| < 256
      requires luck.ino !in ns.links && 0 <= luck.ino <= maxIno
      modifies this`types, ns, files[dir], files[dir].PageSet()
      ensures Valid() && types == if luck.ino != 0 then old(types)[luck.ino := LINK_TYPE] else old(types)
      ensures forall o :: o in Objects() ==> o in old(Objects()) || fresh(o)
      ensures e.Ok? ==> luck.ino != 0 && luck.block && ns.dirs == old(Put(ns.dirs, dir, name, luck.ino)) && ns.links == old(ns.links)[luck.ino := 1]
      ensures !e.Ok? ==> (luck.ino == 0 || !luck.block || !luck.room) && ns.dirs == old(ns.dirs) && ns.links == old(ns.links)
    {
      hide PagesOk, N.Namespace.Valid, ChunkOk, Put, Tables, NonDot, Objects, D.Directory.Held, D.Directory.PageSet,
           Mounted.Valid, InRange;
      Parts();
      FreeNumber(luck.ino);
      var done := false;
      if luck.ino != 0 {
        SetType(luck.ino, LINK_TYPE);
        if luck.block {
          done := AddEntry(dir, name, luck.ino, luck.room);
        }
      }
      e := SymlinkName(dir, name, luck.(room := done));
      Whole();
    }

    /** kr_tmpfile */
    method Tmpfile(luck: N.Luck, ftype: byte) returns (e: N.Err)
      requires Valid() && luck.ino !in ns.links && 0 <= luck.ino <= maxIno
      modifies this`types, ns
      ensures types == if luck.ino != 0 then old(types)[luck.ino := ftype] else old(types)
      ensures Valid() && ns.dirs == old(ns.dirs) && Objects() == old(Objects())
      ensures (e.Ok? <==> luck.ino != 0) && ns.links == if e.Ok? then old(ns.links)[luck.ino := 0] else old(ns.links)
    {
      hide PagesOk, N.Namespace.Valid, ChunkOk, Tables, Objects, Mounted.Valid;
      Parts();
      FreeNumber(luck.ino);
      if luck.ino != 0 {
        SetType(luck.ino, ftype);
      }
      e := TmpfileName(luck);
      Whole();
    }

    /** The last use of an inode without links is over. */
    method Release(ino: Ino)
      requires Valid() && ino in ns.links && ns.links[ino] == 0
      modifies ns
      ensures Valid() && ns.dirs == old(ns.dirs) && ns.links == old(ns.links) - {ino} && Objects() == old(Objects())
    {
      hide PagesOk, N.Namespace.Valid, ChunkOk, Tables, Objects, Mounted.Valid;
      Parts();
      ns.Release(ino);
      FilesKept();
      Whole();
    }

    /** kr_link */
    method Link(ino: Ino, dir: Ino, name: seq<byte>, room: bool) returns (e: N.Err)
      requires Valid() && dir in files && name !in ns.dirs[dir] && NonDot(name) && 0 < |name| < 256
      requires ino in ns.links && ino !in files
      modifies ns, files[dir], files[dir].PageSet()
      ensures Valid() && (!e.Ok? ==> !room)
      ensures forall o :: o in Objects() ==> o in old(Objects()) || fresh(o)
      ensures e.Ok? ==> ns.dirs == old(Put(ns.dirs, dir, name, ino)) && ns.links == old(ns.links[ino := ns.links[ino] + 1])
      ensures !e.Ok? ==> ns.dirs == old(ns.dirs) && ns.links == old(ns.links)
    {
      hide PagesOk, N.Namespace.Valid, ChunkOk, Put, Tables, NonDot, Objects, D.Directory.Held, D.Directory.PageSet,
           Mounted.Valid, InRange;
      Parts();
      var done := AddEntry(dir, name, ino, room);
      e := LinkName(ino, dir, name, done);
      Whole();
    }

    /** kr_unlink, of a file */
    method Unlink(dir: Ino, name: seq<byte>) returns (e: N.Err)
      requires Valid() && dir in files && NonDot(name) && |name| < 256
      requires name in ns.dirs[dir] ==> ns.dirs[dir][name] !in files
      modifies ns, files[dir], files[dir].PageSet()
      ensures Valid() && Objects() == old(Objects())
      ensures e == if name in old(ns.dirs)[dir] then N.Ok else N.NoEntry
      ensures ns.dirs == if e.Ok? then old(Cut(ns.dirs, dir, name)) else old(ns.dirs)
      ensures ns.links.Keys == old(ns.links.Keys) && (!e.Ok? ==> ns.links == old(ns.links))
    {
      hide PagesOk, N.Namespace.Valid, ChunkOk, Cut, Tables, NonDot, Objects, D.Directory.Held, D.Directory.PageSet,
           Mounted.Valid, InRange;
      Parts();
      var found := RemoveName(dir, name);
      e := UnlinkName(dir, name);
      Whole();
    }

    /** The pages of kr_mkdir: those of the new directory, and the entry for it. */
    method MakeDir(dir: nat, name: seq<byte>, ino: nat, room: bool) returns (done: bool)
      requires PagesOk() && dir in files && name !in Tables()[dir] && 0 < |name| < 256 && ChunkOk(chunk)
      requires ino !in files && 0 < ino <= maxIno < MAX32 && 0 < dir <= maxIno && ino in types && types[ino] == DIR_TYPE
      modifies this`files, files[dir], files[dir].PageSet()
      ensures PagesOk() && (!done ==> !room)
      ensures forall o :: o in Objects() ==> o in old(Objects()) || fresh(o)
      ensures Tables() == if done then old(MadeDir(Tables(), dir, name, ino)) else old(Tables())
    {
      hide PagesOk, Tables, Objects, Put, MadeDir, DotTable, D.Directory.Held, ChunkOk;
      ghost var was := Tables();
      Sectors(chunk);
      KeysOf();
      MakeEmpty(ino, dir, chunk / D.SECTOR);
      KeysOf();
      done := AddEntry(dir, name, ino, room);
      N.MadeEither(was, dir, name, ino);
      if !done {
        Forget(ino);
        Unmade(was, ino, dir);
      }
    }

    lemma KeysOf()
      ensures Tables().Keys == files.Keys
    {
    }

    /** kr_mkdir */
    method Mkdir(dir: Ino, name: seq<byte>, luck: N.Luck) returns (e: N.Err)
      requires Valid() && dir in files && name !in ns.dirs[dir] && NonDot(name) && 0 < |name| < 256
      requires luck.ino !in ns.links && 0 <= luck.ino <= maxIno
      modifies this`files, this`types, ns, files[dir], files[dir].PageSet()
      ensures Valid() && types == if luck.ino != 0 then old(types)[luck.ino := DIR_TYPE] else old(types)
      ensures forall o :: o in Objects() ==> o in old(Objects()) || fresh(o)
      ensures e.Ok? ==> luck.ino != 0 && luck.block && ns.dirs == old(MadeDir(ns.dirs, dir, name, luck.ino))
      ensures e.Ok? ==> ns.links.Keys == old(ns.links.Keys) + {luck.ino}
      ensures !e.Ok? ==> (luck.ino == 0 || !luck.block || !luck.room) && ns.dirs == old(ns.dirs) && ns.links == old(ns.links)
    {
      hide PagesOk, N.Namespace.Valid, ChunkOk, MadeDir, Tables, NonDot, Objects, D.Directory.Held, D.Directory.PageSet,
           Mounted.Valid, InRange;
      Parts();
      Numbered(dir, luck.ino);
      FreeNumber(luck.ino);
      var done := false;
      if luck.ino != 0 {
        SetType(luck.ino, DIR_TYPE);
        if luck.block {
          done := MakeDir(dir, name, luck.ino, luck.room);
        }
      }
      e := MkdirName(dir, name, luck.(room := done));
      Whole();
    }

    /** The pages of kr_rmdir: the entry goes, and the directory's own pages. */
    method RemoveDir(dir: Ino, name: seq<byte>, inode: Ino) returns (empty: bool)
      requires PagesOk() && dir in files && |name| < 256 && name in Tables()[dir] && inode in files
      modifies this`files, files[dir], files[dir].PageSet()
      ensures PagesOk() && Objects() <= old(Objects()) && (empty <==> N.DotsOnly(old(Tables())[inode], inode))
      ensures Tables() == if empty then old(RemovedDir(Tables(), dir, name, inode)) else old(Tables())
    {
      hide PagesOk, Tables, Objects, Cut, RemovedDir, D.Directory.Held, N.DotsOnly;
      ghost var was := Tables();
      KeysOf();
      empty := IsEmpty(inode);
      if empty {
        var _ := RemoveName(dir, name);
        Forget(inode);
        N.CutThenGone(was, dir, name, inode);
      }
    }

    /** kr_rmdir, of an entry that names a directory */
    method Rmdir(dir: Ino, name: seq<byte>) returns (e: N.Err)
      requires Valid() && dir in files && NonDot(name) && |name| < 256 && name in ns.dirs[dir] && ns.dirs[dir][name] in files
      modifies this`files, ns, files[dir], files[dir].PageSet()
      ensures Valid() && Objects() <= old(Objects())
      ensures e == if N.DotsOnly(old(ns.dirs)[old(ns.dirs)[dir][name]], old(ns.dirs)[dir][name]) then N.Ok else N.NotEmpty
      ensures ns.dirs == if e.Ok? then old(RemovedDir(ns.dirs, dir, name, ns.dirs[dir][name])) else old(ns.dirs)
      ensures ns.links.Keys == old(ns.links.Keys) && (!e.Ok? ==> ns.links == old(ns.links))
    {
      hide PagesOk, N.Namespace.Valid, ChunkOk, RemovedDir, N.DotsOnly, Tables, NonDot, Objects, D.Directory.Held, D.Directory.PageSet,
           Mounted.Valid, InRange;
      Parts();
      var _ := RemoveDir(dir, name, ns.dirs[dir][name]);
      e := RmdirName(dir, name);
      Whole();
    }

    lemma InObjects(d: Ino)
      requires d in files
      ensures files[d] in Objects() && files[d].PageSet() <= Objects()
    {
    }

    lemma OwnFiles()
      requires PagesOk()
      ensures forall d, e :: d in files && e in files && d != e ==> files[d] != files[e]
    {
    }

    /** The new name comes to stand for s: in place of what it stood for, or in an entry of its own. */
    method EnterNew(nd: Ino, nn: seq<byte>, s: nat, room: bool) returns (done: bool)
      requires PagesOk() && nd in files && 0 < |nn| < 256 && 0 < s <= maxIno
      modifies files[nd], files[nd].PageSet()
      ensures PagesOk() && files == old(files) && types == old(types) && (!done ==> !room && nn !in old(Tables()[nd]))
      ensures forall o :: o in Objects() ==> o in old(Objects()) || fresh(o)
      ensures Tables() == if done then old(Put(Tables(), nd, nn, s)) else old(Tables())
      ensures forall m: nat, a: nat, x :: old(files[nd].Held(m, a, x)) ==> files[nd].Held(m, a, x)
    {
      hide PagesOk, Tables, Objects, Put, D.Directory.Held;
      var found, m, a := Find(nd, nn);
      if found {
        PointEntry(nd, nn, m, a, s);
        done := true;
      } else {
        done := AddEntry(nd, nn, s, room);
      }
    }

    /** The old name goes, whose entry was found before; a directory that moved names its new parent. */
    method LeaveOld(od: Ino, on: seq<byte>, n: nat, at: nat, nd: nat, s: Ino, isDir: bool, ghost was: Dirs)
      requires PagesOk() && Tables() == was && od in files && od in was && files[od].Held(n, at, on) && 0 < nd <= maxIno
      requires isDir ==> s in files && s in was && s != od && PARENT in was[s]
      modifies Objects()
      ensures PagesOk() && files == old(files) && types == old(types)
      ensures forall o :: o in Objects() ==> o in old(Objects()) || fresh(o)
      ensures var a := Cut(was, od, on);
              Tables() == if isDir && od != nd && s in a then Put(a, s, PARENT, nd) else a
    {
      hide PagesOk, Tables, Objects, Put, Cut, D.Directory.Held;
      InObjects(od);
      CutKeeps(was, od, on, s);
      RemoveEntry(od, on, n, at);
      if isDir && od != nd {
        InObjects(s);
        var found, m, a := Find(s, PARENT);
        PointEntry(s, PARENT, m, a, nd);
      }
    }

    /** The new name is entered, and the old one, whose place was found first, goes. */
    method MoveEntry(od: Ino, on: seq<byte>, nd: nat, nn: seq<byte>, s: nat, room: bool, ghost was: Dirs)
      returns (done: bool)
      requires PagesOk() && Tables() == was && was.Keys == files.Keys && od in was && nd in was && on in was[od]
      requires 0 < nd <= maxIno && 0 < s <= maxIno && |on| < 256 && 0 < |nn| < 256
      requires s in was ==> s != od && s != nd && PARENT in was[s]
      modifies Objects()
      ensures PagesOk() && files == old(files) && types == old(types) && (!done ==> !room && nn !in was[nd])
      ensures forall o :: o in Objects() ==> o in old(Objects()) || fresh(o)
      ensures Tables() == if done then MovedEntry(was, od, on, nd, nn, s) else was
    {
      hide PagesOk, Tables, Objects, Put, Cut, D.Directory.Held, D.Directory.PageSet;
      InObjects(od);
      InObjects(nd);
      OwnFiles();
      var found, n, at := Find(od, on);
      done := EnterNew(nd, nn, s, room);
      if !done { return; }
      PutKeeps(was, nd, nn, s);
      ghost var now := Put(was, nd, nn, s);
      CutKeeps(now, od, on, s);
      LeaveOld(od, on, n, at, nd, s, s in files, now);
    }

    /** The pages of kr_rename. `t` is what the new name stood for, if it replaces something. */
    method RenamePages(od: Ino, on: seq<byte>, nd: nat, nn: seq<byte>, s: nat, room: bool, over: bool, t: Ino,
                       ghost was: Dirs)
      returns (e: N.Err)
      requires PagesOk() && Tables() == was && was.Keys == files.Keys && od in was && nd in was && on in was[od]
      requires 0 < nd <= maxIno && 0 < s <= maxIno && |on| < 256 && 0 < |nn| < 256
      requires (over <==> nn in was[nd]) && (over ==> t == was[nd][nn])
      requires s in was ==> s != od && s != nd && PARENT in was[s] && (over ==> t in was)
      modifies this`files, Objects()
      ensures PagesOk() && types == old(types) && (e.Ok? || e.NoSpace? || e.NotEmpty?)
      ensures forall o :: o in Objects() ==> o in old(Objects()) || fresh(o)
      ensures e.NotEmpty? <==> over && s in was && !N.DotsOnly(was[t], t)
      ensures e.NoSpace? ==> !room && !over
      ensures Tables() == if e.Ok? then Moved(was, od, on, nd, nn, s) else was
    {
      hide PagesOk, Tables, Objects, Put, Cut, MovedEntry, D.Directory.Held, N.DotsOnly;
      var isDir := s in files;
      if over && isDir {
        var empty := IsEmpty(t);
        if !empty { return N.NotEmpty; }
      }
      var done := MoveEntry(od, on, nd, nn, s, room, was);
      assert types == old(types);
      if !done { return N.NoSpace; }
      if over && isDir {
        Forget(t);
      }
      e := N.Ok;
    }

    ghost function Now(): N.Tree
      reads ns
    {
      N.Tree(ns.links, ns.dirs)
    }

    ghost predicate Does(op: N.Op, t: N.Tree, was: map<Ino, byte>)
      reads this, ns
    {
      Effect(ns.root, maxIno, t, op, Now()) && types == TypesAfter(ns.root, maxIno, t, op, was)
    }

    /** One operation, if the kernel lets it through to the file system. */
    method Step(op: N.Op, ghost t: N.Tree, ghost was: map<Ino, byte>)
      requires Valid() && t == Now() && was == types
      modifies this`files, this`types, ns, Objects()
      ensures Valid() && Does(op, t, was)
      ensures forall o :: o in Objects() ==> o in old(Objects()) || fresh(o)
    {
      hide Mounted.Valid, Objects, N.Namespace.Valid, PagesOk, Does;
      match op
      case Create(dir, name, luck) => StepCreate(dir, name, luck, t, was);
      case Symlink(dir, name, luck) => StepSymlink(dir, name, luck, t, was);
      case Mkdir(dir, name, luck) => StepMkdir(dir, name, luck, t, was);
      case Tmpfile(luck) => StepTmpfile(luck, t, was);
      case Release(ino) => StepRelease(ino, t, was);
      case Link(ino, dir, name, room) => StepLink(ino, dir, name, room, t, was);
      case Unlink(dir, name) => StepUnlink(dir, name, t, was);
      case Rmdir(dir, name) => StepRmdir(dir, name, t, was);
      case Rename(od, on, nd, nn, room) => StepRename(od, on, nd, nn, room, t, was);
    }

    method StepCreate(dir: Ino, name: Name, luck: N.Luck, ghost t: N.Tree, ghost was: map<Ino, byte>)
      requires Valid() && t == Now() && was == types
      modifies this`files, this`types, ns, Objects()
      ensures Valid() && Does(N.Create(dir, name, luck), t, was)
      ensures forall o :: o in Objects() ==> o in old(Objects()) || fresh(o)
    {
      hide Mounted.Valid, Objects, N.Namespace.Valid, PagesOk, Effect, NonDot, Put;
      Parts();
      if dir in ns.dirs && GoodName(name) && name !in ns.dirs[dir] && NonDot(name) && luck.ino !in ns.links && 0 <= luck.ino <= maxIno {
        InObjects(dir);
        var e := Create(dir, name, luck, FILE_TYPE);
        CreateEffect(ns.root, maxIno, t, dir, name, luck, Now(), e);
      } else {
        NotLetThrough(ns.root, maxIno, t, N.Create(dir, name, luck));
      }
    }

    method StepSymlink(dir: Ino, name: Name, luck: N.Luck, ghost t: N.Tree, ghost was: map<Ino, byte>)
      requires Valid() && t == Now() && was == types
      modifies this`files, this`types, ns, Objects()
      ensures Valid() && Does(N.Symlink(dir, name, luck), t, was)
      ensures forall o :: o in Objects() ==> o in old(Objects()) || fresh(o)
    {
      hide Mounted.Valid, Objects, N.Namespace.Valid, PagesOk, Effect, NonDot, Put;
      Parts();
      if dir in ns.dirs && GoodName(name) && name !in ns.dirs[dir] && NonDot(name) && luck.ino !in ns.links && 0 <= luck.ino <= maxIno {
        InObjects(dir);
        var e := Symlink(dir, name, luck);
        SymlinkEffect(ns.root, maxIno, t, dir, name, luck, Now(), e);
      } else {
        NotLetThrough(ns.root, maxIno, t, N.Symlink(dir, name, luck));
      }
    }

    method StepMkdir(dir: Ino, name: Name, luck: N.Luck, ghost t: N.Tree, ghost was: map<Ino, byte>)
      requires Valid() && t == Now() && was == types
      modifies this`files, this`types, ns, Objects()
      ensures Valid() && Does(N.Mkdir(dir, name, luck), t, was)
      ensures forall o :: o in Objects() ==> o in old(Objects()) || fresh(o)
    {
      hide Mounted.Valid, Objects, N.Namespace.Valid, PagesOk, Effect, NonDot, MadeDir;
      Parts();
      if dir in ns.dirs && GoodName(name) && name !in ns.dirs[dir] && NonDot(name) && luck.ino !in ns.links && 0 <= luck.ino <= maxIno {
        InObjects(dir);
        var e := Mkdir(dir, name, luck);
        MkdirEffect(ns.root, maxIno, t, dir, name, luck, Now(), e);
      } else {
        NotLetThrough(ns.root, maxIno, t, N.Mkdir(dir, name, luck));
      }
    }

    method StepTmpfile(luck: N.Luck, ghost t: N.Tree, ghost was: map<Ino, byte>)
      requires Valid() && t == Now() && was == types
      modifies this`files, this`types, ns, Objects()
      ensures Valid() && Does(N.Tmpfile(luck), t, was)
      ensures forall o :: o in Objects() ==> o in old(Objects()) || fresh(o)
    {
      hide Mounted.Valid, Objects, N.Namespace.Valid, PagesOk, Effect, NonDot;
      Parts();
      if luck.ino !in ns.links && 0 <= luck.ino <= maxIno {
        var e := Tmpfile(luck, FILE_TYPE);
        TmpfileEffect(ns.root, maxIno, t, luck, Now(), e);
      } else {
        NotLetThrough(ns.root, maxIno, t, N.Tmpfile(luck));
      }
    }

    method StepRelease(ino: Ino, ghost t: N.Tree, ghost was: map<Ino, byte>)
      requires Valid() && t == Now() && was == types
      modifies this`files, this`types, ns, Objects()
      ensures Valid() && Does(N.Release(ino), t, was)
      ensures forall o :: o in Objects() ==> o in old(Objects()) || fresh(o)
    {
      hide Mounted.Valid, Objects, N.Namespace.Valid, PagesOk, Effect, TypesAfter, NonDot;
      TypesSame(ns.root, maxIno, t, N.Release(ino), was);
      Parts();
      if ino in ns.links && ns.links[ino] == 0 {
        Release(ino);
        ReleaseEffect(ns.root, maxIno, t, ino, Now());
      } else {
        NotLetThrough(ns.root, maxIno, t, N.Release(ino));
      }
    }

    method StepLink(ino: Ino, dir: Ino, name: Name, room: bool, ghost t: N.Tree, ghost was: map<Ino, byte>)
      requires Valid() && t == Now() && was == types
      modifies this`files, this`types, ns, Objects()
      ensures Valid() && Does(N.Link(ino, dir, name, room), t, was)
      ensures forall o :: o in Objects() ==> o in old(Objects()) || fresh(o)
    {
      hide Mounted.Valid, Objects, N.Namespace.Valid, PagesOk, Effect, TypesAfter, NonDot, Put;
      TypesSame(ns.root, maxIno, t, N.Link(ino, dir, name, room), was);
      Parts();
      if dir in ns.dirs && GoodName(name) && name !in ns.dirs[dir] && NonDot(name) && ino in ns.links && ino !in ns.dirs {
        InObjects(dir);
        var e := Link(ino, dir, name, room);
        LinkEffect(ns.root, maxIno, t, ino, dir, name, room, Now(), e);
      } else {
        NotLetThrough(ns.root, maxIno, t, N.Link(ino, dir, name, room));
      }
    }

    method StepUnlink(dir: Ino, name: Name, ghost t: N.Tree, ghost was: map<Ino, byte>)
      requires Valid() && t == Now() && was == types
      modifies this`files, this`types, ns, Objects()
      ensures Valid() && Does(N.Unlink(dir, name), t, was)
      ensures forall o :: o in Objects() ==> o in old(Objects()) || fresh(o)
    {
      hide Mounted.Valid, Objects, N.Namespace.Valid, PagesOk, Effect, TypesAfter, NonDot, Cut;
      TypesSame(ns.root, maxIno, t, N.Unlink(dir, name), was);
      Parts();
      if dir in ns.dirs && GoodName(name) && name in ns.dirs[dir] && NonDot(name) && ns.dirs[dir][name] !in ns.dirs {
        InObjects(dir);
        var e := Unlink(dir, name);
        UnlinkEffect(ns.root, maxIno, t, dir, name, Now(), e);
      } else {
        NotLetThrough(ns.root, maxIno, t, N.Unlink(dir, name));
      }
    }

    method StepRmdir(dir: Ino, name: Name, ghost t: N.Tree, ghost was: map<Ino, byte>)
      requires Valid() && t == Now() && was == types
      modifies this`files, this`types, ns, Objects()
      ensures Valid() && Does(N.Rmdir(dir, name), t, was)
      ensures forall o :: o in Objects() ==> o in old(Objects()) || fresh(o)
    {
      hide Mounted.Valid, Objects, N.Namespace.Valid, PagesOk, Effect, TypesAfter, NonDot, RemovedDir, N.DotsOnly;
      TypesSame(ns.root, maxIno, t, N.Rmdir(dir, name), was);
      Parts();
      if dir in ns.dirs && GoodName(name) && name in ns.dirs[dir] && NonDot(name) && ns.dirs[dir][name] in ns.dirs {
        InObjects(dir);
        var e := Rmdir(dir, name);
        RmdirEffect(ns.root, maxIno, t, dir, name, Now(), e);
      } else {
        NotLetThrough(ns.root, maxIno, t, N.Rmdir(dir, name));
      }
    }

    method StepRename(od: Ino, on: Name, nd: Ino, nn: Name, room: bool, ghost t: N.Tree, ghost was: map<Ino, byte>)
      requires Valid() && t == Now() && was == types
      modifies this`files, this`types, ns, Objects()
      ensures Valid() && Does(N.Rename(od, on, nd, nn, room), t, was)
      ensures forall o :: o in Objects() ==> o in old(Objects()) || fresh(o)
    {
      hide Mounted.Valid, Objects, N.Namespace.Valid, PagesOk, Renamed, Replaceable, Effect, TypesAfter, NonDot, Outside;
      TypesSame(ns.root, maxIno, t, N.Rename(od, on, nd, nn, room), was);
      Parts();
      var may := false;
      if od in ns.dirs && nd in ns.dirs && on in ns.dirs[od] && NonDot(on) && NonDot(nn) && GoodName(on) && GoodName(nn) {
        may := MayMove(od, on, nd, nn);
      }
      if may {
        var e := Rename(od, on, nd, nn, room, t);
        RenameEffect(ns.root, maxIno, t, od, on, nd, nn, room, Now(), e);
      } else {
        NotLetThrough(ns.root, maxIno, t, N.Rename(od, on, nd, nn, room));
      }
    }

    /** What the kernel checks before it renames. */
    method MayMove(od: Ino, on: Name, nd: Ino, nn: Name) returns (may: bool)
      requires Valid() && od in ns.dirs && nd in ns.dirs && on in ns.dirs[od] && NonDot(on) && NonDot(nn)
      ensures Valid() && Objects() == old(Objects()) && (may <==> Renamable(ns.root, ns.dirs, od, on, nd, nn))
    {
      hide Mounted.Valid, N.Namespace.Valid, Objects, PagesOk, Tables, Outside;
      Parts();
      var dirs, s := ns.dirs, ns.dirs[od][on];
      may := nn in dirs[nd] ==> dirs[nd][nn] != s && (dirs[nd][nn] in dirs <==> s in dirs);
      if may && s in dirs {
        NamedNotRoot(od, on);
        var below := BelowName(s, nd);
        may := !below;
      }
      Whole();
    }

    lemma NamedNotRoot(d: Ino, n: Name)
      requires ns.Valid() && d in ns.dirs && n in ns.dirs[d] && NonDot(n) && ns.dirs[d][n] in ns.dirs
      ensures ns.dirs[d][n] != ns.root
    {
      hide Connected, Counted, EntriesOk, DirsOk, NonDot;
      N.NotRoot(ns.root, ns.links, ns.dirs, ns.home, d, n);
    }

    method BelowName(s: Ino, x: Ino) returns (below: bool)
      requires ns.Valid() && PagesOk() && s in ns.dirs && x in ns.dirs && s != ns.root
      ensures ns.Valid() && PagesOk() && Tables() == old(Tables()) && Objects() == old(Objects())
      ensures below <==> !Outside(ns.root, ns.dirs, s, x)
    {
      hide PagesOk, N.Namespace.Valid, Tables, Objects, Outside;
      below := ns.Below(s, x);
      FilesKept();
    }

    ghost predicate EntriesTyped()
      reads this, files.Values
    {
      forall d, x :: d in files && x in files[d].Contents() ==>
        var e := files[d].Contents()[x];
        e.ftype == if filetype && e.inode in types then types[e.inode] else 0
    }

    /** From an empty volume, after any run: every inode's link count is the number
        of entries in the pages that name it, every directory but the root is entered
        once, in the one that its `..` names, and all are connected to the root. */
    method RunOps(ops: seq<N.Op>) returns (ghost trace: seq<N.Tree>)
      requires Valid()
      modifies this`files, this`types, ns, Objects()
      ensures Valid()
      ensures N.Healthy(ns.root, ns.links, Tables())
      ensures EntriesTyped()
      ensures |trace| == |ops| + 1 && trace[0] == old(Now()) && trace[|ops|] == Now() && Tables() == ns.dirs
      ensures forall i :: 0 <= i < |ops| ==> Effect(ns.root, maxIno, trace[i], ops[i], trace[i + 1])
    {
      hide Mounted.Valid, Objects, Tables, Effect, N.Healthy, EntriesTyped;
      trace := [Now()];
      for i := 0 to |ops|
        invariant Valid() && |trace| == i + 1 && trace[0] == old(Now()) && trace[i] == Now()
        invariant forall k :: 0 <= k < i ==> Effect(ns.root, maxIno, trace[k], ops[k], trace[k + 1])
        invariant forall o :: o in Objects() ==> o in old(Objects()) || fresh(o)
      {
        Step(ops[i], trace[i], types);
        trace := trace + [Now()];
      }
      RunFacts();
      TypesKept();
    }

    lemma RunFacts()
      requires Valid()
      ensures N.Healthy(ns.root, ns.links, Tables())
    {
      hide PagesOk, Tables, N.Healthy;
      N.RunFacts(ns.root, ns.links, ns.dirs, ns.home);
    }

    /** The entries in the pages have the types of their inodes. */
    lemma TypesKept()
      requires Valid()
      ensures Tables() == ns.dirs
      ensures EntriesTyped()
    {
      hide D.Directory.Valid, D.Directory.Contents, Tables, Apart;
      forall d, x | d in files && x in files[d].Contents()
        ensures var e := files[d].Contents()[x]; e.ftype == if filetype && e.inode in types then types[e.inode] else 0
      {
        assert FileOk(d);
      }
    }

    lemma NotAmongNames()
      ensures ns !in Objects() && this !in Objects()
    {
    }

    lemma RenameKnown(od: Ino, on: Name, nd: Ino)
      requires Valid() && od in ns.dirs && nd in ns.dirs && on in ns.dirs[od]
      ensures 0 < nd <= maxIno && 0 < ns.dirs[od][on] <= maxIno
    {
      hide PagesOk, Connected, Counted;
      assert EntryOk(ns.root, ns.links, ns.dirs, ns.home, od, on) && DirOk(ns.root, ns.links, ns.dirs, ns.home, nd);
    }

    lemma RenameReady(od: Ino, on: Name, nd: Ino, nn: Name)
      requires Valid() && Renamable(ns.root, ns.dirs, od, on, nd, nn)
      ensures MayRename(ns.dirs, od, on, nd, nn)
    {
      hide PagesOk, Connected, Counted, DirsOk, EntriesOk, MayRename;
      RenameMay(ns.root, ns.links, ns.dirs, ns.home, od, on, nd, nn);
    }

    /** The pages and the names of kr_rename. */
    method RenameBoth(od: Ino, on: seq<byte>, nd: Ino, nn: seq<byte>, room: bool, ghost was: Dirs) returns (e: N.Err)
      requires ns.Valid() && PagesOk() && InRange() && Tables() == ns.dirs == was && Renamable(ns.root, was, od, on, nd, nn)
      requires od in was && nd in was && on in was[od] && MayRename(was, od, on, nd, nn)
      requires |on| < 256 && 0 < |nn| < 256 && 0 < nd <= maxIno && 0 < was[od][on] <= maxIno
      modifies this`files, ns, Objects()
      ensures ns.Valid() && PagesOk() && InRange() && Tables() == ns.dirs && types == old(types) && (e.Ok? || e.NoSpace? || e.NotEmpty?)
      ensures forall o :: o in Objects() ==> o in old(Objects()) || fresh(o)
      ensures e.NotEmpty? <==> !Replaceable(was, nd, nn)
      ensures e.NoSpace? ==> !room && nn !in was[nd]
      ensures ns.dirs == if e.Ok? then Renamed(was, od, on, nd, nn) else was
      ensures ns.links.Keys == old(ns.links.Keys) && (!e.Ok? ==> ns.links == old(ns.links))
    {
      hide PagesOk, N.Namespace.Valid, Tables, Objects, Renamed, Moved, Replaceable, N.DotsOnly, InRange, Renamable, MayRename,
           Moved, N.Namespace.Valid;
      NotAmongNames();
      KeysOf();
      var s, over := ns.dirs[od][on], nn in ns.dirs[nd];
      var t := if over then ns.dirs[nd][nn] else 0;
      MayRenameMeans(was, od, on, nd, nn, s, over, t);
      e := RenamePages(od, on, nd, nn, s, room, over, t, was);
      e := RenameName(od, on, nd, nn, !e.NoSpace?, was);
    }

    /** kr_rename, as the kernel calls it */
    method Rename(od: Ino, on: seq<byte>, nd: Ino, nn: seq<byte>, room: bool, ghost was: N.Tree) returns (e: N.Err)
      requires Valid() && was == Now() && Renamable(ns.root, was.dirs, od, on, nd, nn) && |on| < 256 && 0 < |nn| < 256
      modifies this`files, ns, Objects()
      ensures Valid() && types == old(types) && (e.Ok? || e.NoSpace? || e.NotEmpty?)
      ensures forall o :: o in Objects() ==> o in old(Objects()) || fresh(o)
      ensures e.NotEmpty? <==> !Replaceable(was.dirs, nd, nn)
      ensures e.NoSpace? ==> !room && nn !in was.dirs[nd]
      ensures ns.dirs == if e.Ok? then Renamed(was.dirs, od, on, nd, nn) else was.dirs
      ensures ns.links.Keys == was.links.Keys && (!e.Ok? ==> ns.links == was.links)
    {
      hide PagesOk, N.Namespace.Valid, ChunkOk, Tables, Objects, Renamed, Replaceable, Mounted.Valid, InRange, MayRename;
      Parts();
      RenameReady(od, on, nd, nn);
      RenameKnown(od, on, nd);
      e := RenameBoth(od, on, nd, nn, room, was.dirs);
      Whole();
    }

    /** A number that is free is in no entry. */
    lemma FreeNumber(free: Ino)
      requires Valid() && free !in ns.links
      ensures free !in files && forall d, x :: d in files && x in Tables()[d] ==> Tables()[d][x] != free
    {
      hide PagesOk, Connected, Counted, DirsOk;
      N.NamelessIn(ns.root, ns.links, ns.dirs, ns.home, free);
      forall d, x | d in ns.dirs && x in ns.dirs[d]
        ensures ns.dirs[d][x] != free
      {
        assert EntryOk(ns.root, ns.links, ns.dirs, ns.home, d, x);
      }
    }

    /** Directories have numbers, and a number that is free is not that of a directory. */
    lemma Numbered(d: Ino, free: Ino)
      requires Valid() && d in files && free !in ns.links
      ensures d in ns.links && 0 < d <= maxIno && free !in files && free !in ns.dirs
    {
      hide PagesOk, Counted, EntriesOk, Connected;
      N.NamelessIn(ns.root, ns.links, ns.dirs, ns.home, free);
    }

    lemma Parts()
      requires Valid()
      ensures ns.Valid() && PagesOk() && Tables() == ns.dirs && ChunkOk(chunk) && maxIno < MAX32 && InRange()
      ensures files.Keys == ns.dirs.Keys
    {
    }

    lemma Whole()
      requires ns.Valid() && PagesOk() && Tables() == ns.dirs && ChunkOk(chunk) && maxIno < MAX32 && InRange()
      ensures Valid()
    {
    }

    /** Nothing that the pages are made of has changed. */
    twostate lemma FilesKept()
      requires old(PagesOk()) && files == old(files) && types == old(types)
      requires forall d :: d in files ==> unchanged(files[d]) && unchanged(files[d].PageSet())
      ensures PagesOk() && Tables() == old(Tables()) && Objects() == old(Objects())
    {
      hide D.Directory.Valid, D.Directory.Contents, Plain;
      forall d | d in files
        ensures FileOk(d) && files[d].Contents() == old(files[d].Contents()) && files[d].PageSet() == old(files[d].PageSet())
      {
        assert old(FileOk(d)) && old(files[d].Valid());
        var f := files[d];
        assert f.Valid();
      }
      SameTables(old(Tables()), Tables());
      assert Pages() == old(Pages()) && Objects() == old(Objects());
    }

    lemma FileIs(d: Ino)
      requires d in files
      ensures FileOk(d) <==> && files[d].Valid() && files[d].chunk == chunk && files[d].maxIno == maxIno && files[d].self == d
                             && d in types && types[d] == DIR_TYPE && Typed(files[d].Contents(), types, filetype)
    {
    }
  }
}
