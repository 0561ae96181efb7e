/**
 The operations on names: each adjusts link counts and directory entries in
 sequence, and undoes what it did when a later part fails. Directories are the
 tables that module Directory keeps in pages.
 */
module Namespace {
  import opened DirFirst
  import opened Links
  import opened Moves

  datatype Err = Ok | NoSpace | NoEntry | NotEmpty | Invalid

  /** What an operation finds out from the allocators: the number of a new inode,
      or 0; whether a new directory gets its block; whether an entry gets one. */
  datatype Luck = Luck(ino: Ino, block: bool, room: bool)

  class Namespace {
    const root: Ino
    /** i_nlink, of every inode there is */
    var links: map<Ino, int>
    /** the table of every directory there is */
    var dirs: Dirs
    /** the name of a directory's entry, in the directory that its `..` names */
    ghost var home: map<Ino, Name>

    ghost predicate Valid()
      reads this
    {
      Sound(root, links, dirs, home)
    }

    ghost predicate Fresh(ino: Ino)
      reads this
    {
      ino !in links
    }

    /** A file system with an empty root directory. */
    constructor (root: Ino)
      ensures Valid() && this.root == root && links == map[root := 2] && dirs == map[root := DotTable(root, root)]
    {
      this.root := root;
      links, dirs, home := map[root := 2], map[root := DotTable(root, root)], map[];
      new;
      RootSound(root);
    }

    // ---------- the parts that the operations are made of ----------

    /** kr_add_link, of a name that is not there; it may need a new block. */
    method AddLink(dir: Ino, name: Name, ino: Ino, room: bool) returns (e: Err)
      requires dir in dirs && name !in dirs[dir]
      modifies this`dirs
      ensures e == (if room then Ok else NoSpace)
      ensures dirs == if room then old(Put(dirs, dir, name, ino)) else old(dirs)
    {
      if !room { return NoSpace; }
      dirs := dirs[dir := dirs[dir][name := ino]];
      e := Ok;
    }

    method IncLinkCount(ino: Ino)
      requires ino in links
      modifies this`links
      ensures links == old(links[ino := links[ino] + 1])
    {
      links := links[ino := links[ino] + 1];
    }

    method DecLinkCount(ino: Ino)
      requires ino in links && links[ino] > 0
      modifies this`links
      ensures links == old(links[ino := links[ino] - 1])
    {
      links := links[ino := links[ino] - 1];
    }

    /** kr_new_inode: a link count of one, before there is a name. */
    method NewInode(ino: Ino)
      requires ino !in links
      modifies this`links
      ensures links == old(links)[ino := 1]
    {
      links := links[ino := 1];
    }

    /** iput, of the last reference to an inode without links */
    method Iput(ino: Ino)
      requires ino in links && links[ino] == 0
      modifies this`links
      ensures links == old(links) - {ino}
    {
      links := links - {ino};
    }

    // ---------- files ----------

    /** kr_add_nondir */
    method AddNondir(dir: Ino, name: Name, ino: Ino, room: bool) returns (e: Err)
      requires dir in dirs && name !in dirs[dir] && ino in links && links[ino] == 1
      modifies this`dirs, this`links
      ensures e == (if room then Ok else NoSpace)
      ensures room ==> links == old(links) && dirs == old(Put(dirs, dir, name, ino))
      ensures !room ==> links == old(links) - {ino} && dirs == old(dirs)
    {
      e := AddLink(dir, name, ino, room);
      if e.Ok? { return; }
      DecLinkCount(ino);
      Iput(ino);
    }

    /** kr_create, and kr_mknod */
    method Create(dir: Ino, name: Name, luck: Luck) returns (e: Err)
      requires Valid() && dir in dirs && name !in dirs[dir] && NonDot(name) && Fresh(luck.ino)
      modifies this
      ensures Valid()
      ensures e.Ok? <==> luck.ino != 0 && luck.room
      ensures e.Ok? ==> links == old(links)[luck.ino := 1] && dirs == old(Put(dirs, dir, name, luck.ino))
      ensures !e.Ok? ==> links == old(links) && dirs == old(dirs)
    {
      hide Sound, Put, NonDot;
      if luck.ino == 0 { return NoSpace; }
      NewGone(links, luck.ino);
      CreateSound(root, links, dirs, home, dir, name, luck.ino);
      NewInode(luck.ino);
      e := AddNondir(dir, name, luck.ino, luck.room);
    }

    /** kr_symlink, where the text may need a block */
    method Symlink(dir: Ino, name: Name, luck: Luck) returns (e: Err)
      requires Valid() && dir in dirs && name !in dirs[dir] && NonDot(name) && Fresh(luck.ino)
      modifies this
      ensures Valid()
      ensures e.Ok? <==> luck.ino != 0 && luck.block && luck.room
      ensures e.Ok? ==> links == old(links)[luck.ino := 1] && dirs == old(Put(dirs, dir, name, luck.ino))
      ensures !e.Ok? ==> links == old(links) && dirs == old(dirs)
    {
      hide Sound, Put, NonDot;
      if luck.ino == 0 { return NoSpace; }
      NewGone(links, luck.ino);
      CreateSound(root, links, dirs, home, dir, name, luck.ino);
      NewInode(luck.ino);
      if !luck.block {
        DecLinkCount(luck.ino);
        Iput(luck.ino);
        return NoSpace;
      }
      e := AddNondir(dir, name, luck.ino, luck.room);
    }

    /** kr_tmpfile: a file that has no name yet */
    method Tmpfile(luck: Luck) returns (e: Err)
      requires Valid() && Fresh(luck.ino)
      modifies this
      ensures Valid() && dirs == old(dirs) && e == if luck.ino == 0 then NoSpace else Ok
      ensures links == if luck.ino == 0 then old(links) else old(links)[luck.ino := 0]
    {
      hide Sound;
      if luck.ino == 0 { return NoSpace; }
      NewGone(links, luck.ino);
      FreshSound(root, links, dirs, home, luck.ino);
      NewInode(luck.ino);
      DecLinkCount(luck.ino);
      e := Ok;
    }

    /** The last use of an inode without links is over. */
    method Release(ino: Ino)
      requires Valid() && ino in links && links[ino] == 0
      modifies this
      ensures Valid() && links == old(links) - {ino} && dirs == old(dirs)
    {
      hide Sound;
      ReleaseSound(root, links, dirs, home, ino);
      Iput(ino);
    }

    /** kr_link */
    method Link(ino: Ino, dir: Ino, name: Name, room: bool) returns (e: Err)
      requires Valid() && dir in dirs && name !in dirs[dir] && NonDot(name) && ino in links && ino !in dirs
      modifies this
      ensures Valid() && (e.Ok? <==> room)
      ensures e.Ok? ==> links == old(links[ino := links[ino] + 1]) && dirs == old(Put(dirs, dir, name, ino))
      ensures !e.Ok? ==> links == old(links) && dirs == old(dirs)
    {
      hide Sound, Put, NonDot;
      LinkSound(root, links, dirs, home, dir, name, ino);
      CountsNat(root, links, dirs, home, ino);
      UpDown(links, ino);
      IncLinkCount(ino);
      e := AddLink(dir, name, ino, room);
      if e.Ok? { return; }
      DecLinkCount(ino);
    }

    /** kr_unlink: delete the entry, then count one link less. */
    method Unlink(dir: Ino, name: Name) returns (e: Err)
      requires dir in dirs && (name in dirs[dir] ==> dirs[dir][name] in links && links[dirs[dir][name]] > 0)
      modifies this`dirs, this`links
      ensures e == (if name in old(dirs[dir]) then Ok else NoEntry)
      ensures e.Ok? ==> dirs == old(Cut(dirs, dir, name))
      ensures e.Ok? ==> var t := old(dirs[dir][name]); links == old(links)[t := old(links)[t] - 1]
      ensures !e.Ok? ==> links == old(links) && dirs == old(dirs)
    {
      if name !in dirs[dir] { return NoEntry; }
      var inode := dirs[dir][name];
      dirs := dirs[dir := dirs[dir] - {name}];
      DecLinkCount(inode);
      e := Ok;
    }

    /** kr_unlink, of a file */
    method UnlinkFile(dir: Ino, name: Name) returns (e: Err)
      requires Valid() && dir in dirs && NonDot(name) && (name in dirs[dir] ==> dirs[dir][name] !in dirs)
      modifies this`dirs, this`links
      ensures Valid()
      ensures e == (if name in old(dirs[dir]) then Ok else NoEntry)
      ensures e.Ok? ==> dirs == old(Cut(dirs, dir, name))
      ensures e.Ok? ==> var t := old(dirs[dir][name]); t in old(links) && links == old(links)[t := old(links)[t] - 1]
      ensures !e.Ok? ==> links == old(links) && dirs == old(dirs)
    {
      hide Sound, Cut, NonDot;
      if name in dirs[dir] { UnlinkSound(root, links, dirs, home, dir, name); }
      e := Unlink(dir, name);
    }

    // ---------- directories ----------

    /** kr_mkdir */
    method Mkdir(dir: Ino, name: Name, luck: Luck) returns (e: Err)
      requires Valid() && dir in dirs && name !in dirs[dir] && NonDot(name) && Fresh(luck.ino)
      modifies this
      ensures Valid()
      ensures e.Ok? <==> luck.ino != 0 && luck.block && luck.room
      ensures e.Ok? ==> dir in old(links) && links == old(links)[luck.ino := 2][dir := old(links)[dir] + 1]
      ensures e.Ok? ==> dirs == old(MadeDir(dirs, dir, name, luck.ino)) && home == old(home)[luck.ino := name]
      ensures !e.Ok? ==> links == old(links) && dirs == old(dirs)
    {
      hide Sound, Put, NonDot, DotTable;
      var ino := luck.ino;
      MkdirSound(root, links, dirs, home, dir, name, ino);
      NamelessIn(root, links, dirs, home, ino);
      CountsNat(root, links, dirs, home, dir);
      UpDown(links, dir);
      IncLinkCount(dir);
      if ino == 0 {
        DecLinkCount(dir);
        return NoSpace;
      }
      e := MakeDir(dir, name, luck);
      if e.Ok? {
        Swap(old(links), dir, ino);
        home := home[ino := name];
      } else {
        DecLinkCount(dir);
      }
    }

    /** kr_mkdir from the new inode on; a failure leaves the parent's count to be undone. */
    method MakeDir(dir: Ino, name: Name, luck: Luck) returns (e: Err)
      requires dir in dirs && name !in dirs[dir] && luck.ino !in links && luck.ino !in dirs
      modifies this`dirs, this`links
      ensures e == (if luck.block && luck.room then Ok else NoSpace)
      ensures e.Ok? ==> links == old(links)[luck.ino := 2] && dirs == old(MadeDir(dirs, dir, name, luck.ino))
      ensures !e.Ok? ==> links == old(links) && dirs == old(dirs)
    {
      hide DotTable;
      var ino := luck.ino;
      NewInode(ino);
      IncLinkCount(ino);
      TwiceUp(old(links), ino);
      e := NoSpace;
      if luck.block {
        // kr_make_empty
        dirs := dirs[ino := DotTable(ino, dir)];
        e := AddLink(dir, name, ino, luck.room);
        if e.Ok? {
          MadeEither(old(dirs), dir, name, ino);
          return;
        }
      }
      DecLinkCount(ino);
      DecLinkCount(ino);
      Iput(ino);
      dirs := dirs - {ino};
      assert dirs == old(dirs);
    }

    /** kr_empty_dir: nothing but the entries for itself and its parent */
    predicate EmptyDir(dir: Ino)
      requires dir in dirs
      reads this
    {
      forall x :: x in dirs[dir] ==> x == PARENT || (x == SELF && dirs[dir][x] == dir)
    }

    /** kr_rmdir, of an entry that names a directory */
    method Rmdir(dir: Ino, name: Name) returns (e: Err)
      requires Valid() && dir in dirs && name in dirs[dir] && NonDot(name) && dirs[dir][name] in dirs
      modifies this
      ensures Valid()
      ensures e == (if old(EmptyDir(dirs[dir][name])) then Ok else NotEmpty)
      ensures e.Ok? ==> var t := old(dirs[dir][name]);
                        t in old(links) && dir in old(links) && t != dir
                        && links == old(links)[t := 0][dir := old(links)[dir] - 1] && dirs == old(RemovedDir(dirs, dir, name, t))
      ensures !e.Ok? ==> links == old(links) && dirs == old(dirs)
    {
      hide Sound, NonDot, Cut;
      var inode := dirs[dir][name];
      if !EmptyDir(inode) {
        return NotEmpty;
      }
      EmptyIsBare(root, links, dirs, home, inode);
      HeldIn(root, links, dirs, home, dir, name);
      RmdirSound(root, links, dirs, home, dir, name, inode);
      TwiceDown(links, inode, dir);
      e := Unlink(dir, name);
      // its size is set to 0: its entries are gone
      dirs := dirs - {inode};
      DecLinkCount(inode);
      DecLinkCount(dir);
      CutThenGone(old(dirs), dir, name, inode);
    }

    // ---------- renaming ----------

    /** kr_set_link, of an entry that is there */
    method SetLink(dir: Ino, name: Name, ino: Ino)
      requires dir in dirs && name in dirs[dir]
      modifies this`dirs
      ensures dirs == old(dirs[dir := dirs[dir][name := ino]])
    {
      dirs := dirs[dir := dirs[dir][name := ino]];
    }

    /** kr_delete_entry */
    method DeleteEntry(dir: Ino, name: Name)
      requires dir in dirs && name in dirs[dir]
      modifies this`dirs
      ensures dirs == old(Cut(dirs, dir, name))
    {
      dirs := dirs[dir := dirs[dir] - {name}];
    }

    /** The new name takes over the inode s, replacing what it stood for. */
    method TakeOver(nd: Ino, nn: Name, s: Ino, isDir: bool)
      requires nd in dirs && nd in links && nn in dirs[nd]
      requires var t := dirs[nd][nn]; t != nd && t in links && links[t] >= (if isDir then 2 else 1) && (t in dirs <==> isDir)
      modifies this`dirs, this`links
      ensures nd in old(Vacated(dirs, nd, nn)) && dirs == Put(old(Vacated(dirs, nd, nn)), nd, nn, s)
      ensures var t := old(dirs[nd][nn]); links == old(links)[t := old(links)[t] - if isDir then 2 else 1]
    {
      hide Vacated, Put;
      var t := dirs[nd][nn];
      PointedIsVacatedPut(dirs, nd, nn, s);
      SetLink(nd, nn, s);
      if isDir {
        // drop_nlink; without links, the directory's entries are gone
        DecLinkCount(t);
        dirs := dirs - {t};
      }
      DecLinkCount(t);
      TwoDown(old(links), t);
    }

    /** The old name goes; a directory that moved names its new parent. */
    method LeaveBehind(od: Ino, on: Name, nd: Ino, s: Ino, isDir: bool)
      requires od in dirs && on in dirs[od] && od in links
      requires isDir ==> links[od] > 0 && s in dirs && s != od && PARENT in dirs[s]
      modifies this`dirs, this`links
      ensures links == if isDir then old(links[od := links[od] - 1]) else old(links)
      ensures !isDir ==> dirs == old(Cut(dirs, od, on))
      ensures isDir && od == nd ==> dirs == old(Cut(dirs, od, on))
      ensures isDir && od != nd ==> var a := old(Cut(dirs, od, on)); s in a && dirs == a[s := a[s][PARENT := nd]]
    {
      DeleteEntry(od, on);
      if isDir {
        if od != nd { SetLink(s, PARENT, nd); }
        DecLinkCount(od);
      }
    }

    /** kr_rename, as the kernel calls it */
    method Rename(od: Ino, on: Name, nd: Ino, nn: Name, room: bool) returns (e: Err)
      requires Valid() && Renamable(root, dirs, od, on, nd, nn)
      modifies this
      ensures Valid()
      ensures e.NotEmpty? <==> !old(Replaceable(dirs, nd, nn))
      ensures e.NoSpace? <==> !room && nn !in old(dirs[nd])
      ensures e.Ok? || e.NoSpace? || e.NotEmpty?
      ensures e.Ok? ==> dirs == old(Renamed(dirs, od, on, nd, nn)) && links.Keys == old(links).Keys
      ensures !e.Ok? ==> links == old(links) && dirs == old(dirs)
    {
      hide Sound, Outside, NonDot, Cut, Put, MovedDir, Vacated, VacatedLinks, Replaceable, Bare, Renamed;
      var s := dirs[od][on];
      var isDir := s in dirs;
      ghost var dirs0, links0 := dirs, links;
      if nn in dirs[nd] && isDir {
        var t := dirs[nd][nn];
        EmptyReplaceable(root, links, dirs, home, nd, nn);
        if !EmptyDir(t) { return NotEmpty; }
      } else {
        NothingToEmpty(dirs, nd, nn);
      }
      RenameSound(root, links, dirs, home, od, on, nd, nn);
      RenameFacts(root, links, dirs, home, od, on, nd, nn);
      if nn in dirs[nd] {
        TakeOver(nd, nn, s, isDir);
      } else {
        NewNameIsPut(dirs, nd, nn, s);
        e := AddLink(nd, nn, s, room);
        if !e.Ok? { return; }
        if isDir { IncLinkCount(nd); }
      }
      AfterPut(dirs0, od, on, nd, nn, s);
      LeaveBehind(od, on, nd, s, isDir);
      RenamedTables(dirs0, od, on, nd, nn, s);
      RenamedCounts(links0, dirs0, od, on, nd, nn);
      home := RenamedHome(dirs0, home, od, on, nn);
      e := Ok;
    }

    // ---------- runs ----------

    /** The kernel's test before a directory moves: is x the directory s, or below it? */
    method Below(s: Ino, x: Ino) returns (below: bool)
      requires Valid() && s in dirs && x in dirs && s != root
      ensures below <==> !Outside(root, dirs, s, x)
    {
      hide Counted, EntriesOk, DirsOk, Outside;
      assert Reaches(root, dirs, x);
      ghost var k: nat :| Climb(root, dirs, x, k);
      var y := x;
      while y != root && y != s
        invariant Climb(root, dirs, y, k)
        invariant Outside(root, dirs, s, x) <==> Outside(root, dirs, s, y)
        decreases k
      {
        OutsideUp(root, dirs, s, y);
        y := dirs[y][PARENT];
        k := k - 1;
      }
      OutsideEnds(root, dirs, s, y);
      below := y == s;
    }

    /** One operation, if the kernel lets it through to the file system. */
    method Step(op: Op)
      requires Valid()
      modifies this
      ensures Valid() && Effect(root, old(Tree(links, dirs)), op, Tree(links, dirs))
    {
      hide Counted, EntriesOk, DirsOk, Connected, Replaceable, Renamed, Put, Cut, MadeDir, RemovedDir, NonDot, Outside;
      match op
      case Create(dir, name, luck) =>
        if dir in dirs && name !in dirs[dir] && NonDot(name) && luck.ino !in links { var _ := Create(dir, name, luck); }
      case Symlink(dir, name, luck) =>
        if dir in dirs && name !in dirs[dir] && NonDot(name) && luck.ino !in links { var _ := Symlink(dir, name, luck); }
      case Mkdir(dir, name, luck) =>
        if dir in dirs && name !in dirs[dir] && NonDot(name) && luck.ino !in links { var _ := Mkdir(dir, name, luck); }
      case Tmpfile(luck) =>
        if luck.ino !in links { var _ := Tmpfile(luck); }
      case Release(ino) =>
        if ino in links && links[ino] == 0 { Release(ino); }
      case Link(ino, dir, name, room) =>
        if dir in dirs && name !in dirs[dir] && NonDot(name) && ino in links && ino !in dirs { var _ := Link(ino, dir, name, room); }
      case Unlink(dir, name) =>
        if dir in dirs && NonDot(name) && name in dirs[dir] && dirs[dir][name] !in dirs { var _ := UnlinkFile(dir, name); }
      case Rmdir(dir, name) =>
        if dir in dirs && NonDot(name) && name in dirs[dir] && dirs[dir][name] in dirs { var _ := Rmdir(dir, name); }
      case Rename(od, on, nd, nn, room) =>
        if od in dirs && nd in dirs && on in dirs[od] && NonDot(on) && NonDot(nn) {
          var s := dirs[od][on];
          if nn in dirs[nd] && (dirs[nd][nn] == s || (dirs[nd][nn] in dirs) != (s in dirs)) { return; }
          if s in dirs {
            NotRoot(root, links, dirs, home, od, on);
            var below := Below(s, nd);
            if below { return; }
          }
          var _ := Rename(od, on, nd, nn, room);
        }
    }

    /** After any run, every link count is the number of entries that name the inode,
        and every directory but the root is entered, once, in the one its `..` names. */
    method RunOps(ops: seq<Op>) returns (ghost trace: seq<Tree>)
      requires Valid()
      modifies this
      ensures Valid()
      ensures |trace| == |ops| + 1 && trace[0] == old(Tree(links, dirs)) && trace[|ops|] == Tree(links, dirs)
      ensures forall i :: 0 <= i < |ops| ==> Effect(root, trace[i], ops[i], trace[i + 1])
      ensures Healthy(root, links, dirs)
    {
      hide Effect, Healthy, Sound;
      trace := [Tree(links, dirs)];
      for i := 0 to |ops|
        invariant Valid() && |trace| == i + 1 && trace[0] == old(Tree(links, dirs)) && trace[i] == Tree(links, dirs)
        invariant forall k :: 0 <= k < i ==> Effect(root, trace[k], ops[k], trace[k + 1])
      {
        Step(ops[i]);
        trace := trace + [Tree(links, dirs)];
      }
      RunFacts(root, links, dirs, home);
    }
  }

  datatype Op =
    | Create(dir: Ino, name: Name, luck: Luck)
    | Symlink(dir: Ino, name: Name, luck: Luck)
    | Mkdir(dir: Ino, name: Name, luck: Luck)
    | Tmpfile(luck: Luck)
    | Release(ino: Ino)
    | Link(ino: Ino, dir: Ino, name: Name, room: bool)
    | Unlink(dir: Ino, name: Name)
    | Rmdir(dir: Ino, name: Name)
    | Rename(oldDir: Ino, oldName: Name, newDir: Ino, newName: Name, room: bool)

  // ---------- what the operations do ----------

  /** The link counts and the tables. */
  datatype Tree = Tree(links: map<Ino, int>, dirs: Dirs)

  /** A name that a new entry can have. */
  ghost predicate Free(dirs: Dirs, dir: Ino, name: Name) {
    dir in dirs && name !in dirs[dir] && NonDot(name)
  }

  /** What the kernel checks before it calls the file system. */
  ghost predicate Allowed(root: Ino, t: Tree, op: Op) {
    match op
    case Create(dir, name, luck) => Free(t.dirs, dir, name) && luck.ino !in t.links
    case Symlink(dir, name, luck) => Free(t.dirs, dir, name) && luck.ino !in t.links
    case Mkdir(dir, name, luck) => Free(t.dirs, dir, name) && luck.ino !in t.links
    case Tmpfile(luck) => luck.ino !in t.links
    case Release(ino) => ino in t.links && t.links[ino] == 0
    case Link(ino, dir, name, room) => Free(t.dirs, dir, name) && ino in t.links && ino !in t.dirs
    case Unlink(dir, name) => dir in t.dirs && NonDot(name) && name in t.dirs[dir] && t.dirs[dir][name] !in t.dirs
    case Rmdir(dir, name) => dir in t.dirs && NonDot(name) && name in t.dirs[dir] && t.dirs[dir][name] in t.dirs
    case Rename(od, on, nd, nn, room) => Renamable(root, t.dirs, od, on, nd, nn)
  }

  /** The operation cannot be done: there is no inode or no block for it, or a directory that is to go is not empty. */
  ghost predicate Barred(root: Ino, t: Tree, op: Op)
    requires Allowed(root, t, op)
  {
    match op
    case Create(dir, name, luck) => luck.ino == 0
    case Symlink(dir, name, luck) => luck.ino == 0 || !luck.block
    case Mkdir(dir, name, luck) => luck.ino == 0 || !luck.block
    case Tmpfile(luck) => luck.ino == 0
    case Release(ino) => false
    case Link(ino, dir, name, room) => false
    case Unlink(dir, name) => false
    case Rmdir(dir, name) => !DotsOnly(t.dirs[t.dirs[dir][name]], t.dirs[dir][name])
    case Rename(od, on, nd, nn, room) => !Replaceable(t.dirs, nd, nn)
  }

  /** There is no room for an entry that the operation needs. */
  ghost predicate Crowded(root: Ino, t: Tree, op: Op)
    requires Allowed(root, t, op)
  {
    match op
    case Create(dir, name, luck) => !luck.room
    case Symlink(dir, name, luck) => !luck.room
    case Mkdir(dir, name, luck) => !luck.room
    case Tmpfile(luck) => false
    case Release(ino) => false
    case Link(ino, dir, name, room) => !room
    case Unlink(dir, name) => false
    case Rmdir(dir, name) => false
    case Rename(od, on, nd, nn, room) => !room && nn !in t.dirs[nd]
  }

  /** The tables and the inodes are what the operation is to make of them. */
  ghost predicate Done(root: Ino, t: Tree, op: Op, now: Tree)
    requires Allowed(root, t, op)
  {
    var inos, after := t.links.Keys, now.links.Keys;
    match op
    case Create(dir, name, luck) => now.dirs == Put(t.dirs, dir, name, luck.ino) && after == inos + {luck.ino}
    case Symlink(dir, name, luck) => now.dirs == Put(t.dirs, dir, name, luck.ino) && after == inos + {luck.ino}
    case Mkdir(dir, name, luck) => now.dirs == MadeDir(t.dirs, dir, name, luck.ino) && after == inos + {luck.ino}
    case Tmpfile(luck) => now.dirs == t.dirs && after == inos + {luck.ino}
    case Release(ino) => now.dirs == t.dirs && after == inos - {ino}
    case Link(ino, dir, name, room) => now.dirs == Put(t.dirs, dir, name, ino) && after == inos
    case Unlink(dir, name) => now.dirs == Cut(t.dirs, dir, name) && after == inos
    case Rmdir(dir, name) => now.dirs == RemovedDir(t.dirs, dir, name, t.dirs[dir][name]) && after == inos
    case Rename(od, on, nd, nn, room) => now.dirs == Renamed(t.dirs, od, on, nd, nn) && after == inos
  }

  /** An operation is done whole, or not at all, and it is done if it can be. */
  ghost predicate Effect(root: Ino, t: Tree, op: Op, now: Tree) {
    if Allowed(root, t, op) && !Barred(root, t, op) && !Crowded(root, t, op) then Done(root, t, op, now) else now == t
  }

  predicate DotsOnly(t: map<Name, Ino>, self: Ino) {
    forall x :: x in t ==> x == PARENT || (x == SELF && t[x] == self)
  }

  /** The entry n of p is the one entry of the directory d, leaving `.` and `..` aside. */
  predicate OnlyEntry(dirs: Dirs, d: Ino, p: Ino, n: Name) {
    && p in dirs && NonDot(n) && n in dirs[p] && dirs[p][n] == d
    && forall q, m :: q in dirs && m in dirs[q] && NonDot(m) && dirs[q][m] == d ==> q == p && m == n
  }

  /** The directory d is entered in the one that its `..` names, and nowhere else. */
  ghost predicate OneEntry(dirs: Dirs, d: Ino)
    requires d in dirs
  {
    PARENT in dirs[d] && exists n :: OnlyEntry(dirs, d, dirs[d][PARENT], n)
  }

  /** Every link count is the number of entries that name the inode, and every
      directory but the root is entered, once, in the one its `..` names. */
  ghost predicate Healthy(root: Ino, links: map<Ino, int>, dirs: Dirs) {
    && (forall i :: i in links ==> links[i] == |Refs(dirs, i)|)
    && (forall d, n :: d in dirs && n in dirs[d] ==> dirs[d][n] in links)
    && (forall d :: d in dirs && d != root ==> OneEntry(dirs, d))
    && (forall d :: d in dirs ==> Reaches(root, dirs, d))
  }

  lemma RunFacts(root: Ino, links: map<Ino, int>, dirs: Dirs, home: map<Ino, Name>)
    requires Sound(root, links, dirs, home)
    ensures Healthy(root, links, dirs)
  {
    hide Reaches, Refs, NonDot;
    forall d, n | d in dirs && n in dirs[d] ensures dirs[d][n] in links { assert EntryOk(root, links, dirs, home, d, n); }
    forall d | d in dirs && d != root ensures OneEntry(dirs, d) {
      DirKnown(root, links, dirs, home, d);
      forall p, m | p in dirs && m in dirs[p] && NonDot(m) && dirs[p][m] == d ensures p == dirs[d][PARENT] && m == home[d] {
        assert EntryOk(root, links, dirs, home, p, m);
      }
      assert OnlyEntry(dirs, d, dirs[d][PARENT], home[d]);
    }
  }

  lemma NotRoot(root: Ino, links: map<Ino, int>, dirs: Dirs, home: map<Ino, Name>, d: Ino, n: Name)
    requires Sound(root, links, dirs, home) && d in dirs && n in dirs[d] && NonDot(n) && dirs[d][n] in dirs
    ensures dirs[d][n] != root
  {
    Held(root, links, dirs, home, d, n);
  }

  lemma OutsideUp(root: Ino, dirs: Dirs, s: Ino, y: Ino)
    requires y in dirs && y != root && y != s && PARENT in dirs[y]
    ensures Outside(root, dirs, s, y) <==> Outside(root, dirs, s, dirs[y][PARENT])
  {
    if Outside(root, dirs, s, y) {
      var k: nat :| Avoids(root, dirs, s, y, k);
      assert Avoids(root, dirs, s, dirs[y][PARENT], k - 1);
    }
    if Outside(root, dirs, s, dirs[y][PARENT]) {
      var k: nat :| Avoids(root, dirs, s, dirs[y][PARENT], k);
      assert Avoids(root, dirs, s, y, k + 1);
    }
  }

  lemma OutsideEnds(root: Ino, dirs: Dirs, s: Ino, y: Ino)
    requires y in dirs && (y == root || y == s) && s != root
    ensures Outside(root, dirs, s, y) <==> y != s
  {
    if y == root { assert Avoids(root, dirs, s, y, 0); }
  }

  lemma RootSound(root: Ino)
    ensures Sound(root, map[root := 2], map[root := DotTable(root, root)], map[])
  {
    var dirs: Dirs := map[root := DotTable(root, root)];
    assert Climb(root, dirs, root, 0);
    assert Refs(dirs, root) == {(root, SELF), (root, PARENT)};
  }

  lemma CountsNat(root: Ino, links: map<Ino, int>, dirs: Dirs, home: map<Ino, Name>, i: Ino)
    requires Sound(root, links, dirs, home) && i in links
    ensures links[i] >= 0
  {
  }

  lemma NamelessIn(root: Ino, links: map<Ino, int>, dirs: Dirs, home: map<Ino, Name>, t: Ino)
    requires Sound(root, links, dirs, home) && t !in links
    ensures t !in dirs
  {
    Nameless(root, links, dirs, home, t);
  }

  lemma HeldIn(root: Ino, links: map<Ino, int>, dirs: Dirs, home: map<Ino, Name>, d: Ino, n: Name)
    requires Sound(root, links, dirs, home) && d in dirs && n in dirs[d] && NonDot(n) && dirs[d][n] in dirs
    ensures d in links && links[d] >= 3 && dirs[d][n] != d && PARENT in dirs[dirs[d][n]]
  {
    hide Connected, Refs, Counted, DirsOk, EntriesOk;
    Held(root, links, dirs, home, d, n);
    DirLinkCount(root, links, dirs, home, d);
    assert dirs[d][n] in Subdirs(root, dirs, d);
  }

  /** kr_empty_dir decides whether a directory can be replaced. */
  lemma EmptyReplaceable(root: Ino, links: map<Ino, int>, dirs: Dirs, home: map<Ino, Name>, nd: Ino, nn: Name)
    requires Sound(root, links, dirs, home) && nd in dirs && nn in dirs[nd] && dirs[nd][nn] in dirs
    ensures var t := dirs[nd][nn];
            Replaceable(dirs, nd, nn) <==> forall x :: x in dirs[t] ==> x == PARENT || (x == SELF && dirs[t][x] == t)
  {
    hide Connected, Counted, EntriesOk;
    EmptyIsBare(root, links, dirs, home, dirs[nd][nn]);
    DirKnown(root, links, dirs, home, dirs[nd][nn]);
  }

  lemma NothingToEmpty(dirs: Dirs, nd: Ino, nn: Name)
    requires nd in dirs && (nn in dirs[nd] ==> dirs[nd][nn] !in dirs)
    ensures Replaceable(dirs, nd, nn)
  {
  }

  /** What the steps of a rename need to know beforehand. */
  lemma RenameFacts(root: Ino, links: map<Ino, int>, dirs: Dirs, home: map<Ino, Name>, od: Ino, on: Name, nd: Ino, nn: Name)
    requires Sound(root, links, dirs, home) && Renamable(root, dirs, od, on, nd, nn) && Replaceable(dirs, nd, nn)
    ensures od in links && nd in links
    ensures dirs[od][on] in dirs ==> links[od] >= 3 && dirs[od][on] != od && PARENT in dirs[dirs[od][on]] && dirs[dirs[od][on]][PARENT] == od
    ensures dirs[od][on] in dirs ==> links[nd] >= 0 && dirs[od][on] != nd
    ensures nn in dirs[nd] ==> var t := dirs[nd][nn];
              && t in links && t != nd && t != od && links[t] >= (if dirs[od][on] in dirs then 2 else 1)
              && (dirs[od][on] in dirs ==> links[t] == 2)
    ensures var base := Vacated(dirs, nd, nn); var s := dirs[od][on];
            && od in base && on in base[od] && base[od][on] == s && nd in base && nn !in base[nd]
            && (s in dirs ==> s in base && PARENT in base[s] && base[s][PARENT] == od)
            && (s in base <==> s in dirs)
  {
    hide Connected, Counted, EntriesOk, Refs, Subdirs, Vacated, VacatedLinks;
    VacatedSound(root, links, dirs, home, od, on, nd, nn);
    DirKnown(root, links, dirs, home, nd);
    DirKnown(root, links, dirs, home, od);
    CountsNat(root, links, dirs, home, nd);
    var s := dirs[od][on];
    if s in dirs {
      HeldIn(root, links, dirs, home, od, on);
      Held(root, links, dirs, home, od, on);
      Held(root, VacatedLinks(links, dirs, nd, nn), Vacated(dirs, nd, nn), home, od, on);
      var k: nat :| Avoids(root, dirs, s, nd, k);
    }
    if nn in dirs[nd] {
      HasLink(root, links, dirs, home, nd, nn);
      if dirs[nd][nn] in dirs {
        Held(root, links, dirs, home, nd, nn);
        BareCount(root, links, dirs, home, dirs[nd][nn]);
      }
    }
  }

  lemma AfterPut(dirs: Dirs, od: Ino, on: Name, nd: Ino, nn: Name, s: Ino)
    requires nd in dirs && nd in Vacated(dirs, nd, nn) && od in Vacated(dirs, nd, nn) && on in Vacated(dirs, nd, nn)[od]
    ensures var a := Put(Vacated(dirs, nd, nn), nd, nn, s);
            && od in a && on in a[od]
            && (s in Vacated(dirs, nd, nn) && PARENT in Vacated(dirs, nd, nn)[s] ==> s in a && PARENT in a[s])
  {
    hide Vacated;
  }

  lemma RenamedTables(dirs: Dirs, od: Ino, on: Name, nd: Ino, nn: Name, s: Ino)
    requires od in dirs && nd in dirs && on in dirs[od] && dirs[od][on] == s && NonDot(on)
    requires var base := Vacated(dirs, nd, nn);
             && od in base && nd in base
             && (s in base ==> s != od && s != nd && PARENT in base[s] && base[s][PARENT] == od)
    ensures var a := Cut(Put(Vacated(dirs, nd, nn), nd, nn, s), od, on);
            && (s !in Vacated(dirs, nd, nn) || od == nd ==> Renamed(dirs, od, on, nd, nn) == a)
            && (s in Vacated(dirs, nd, nn) && od != nd ==> s in a && Renamed(dirs, od, on, nd, nn) == a[s := a[s][PARENT := nd]])
  {
    hide Vacated;
    var base := Vacated(dirs, nd, nn);
    if s in base && od == nd { SameParentMove(base, od, on, nn, s); }
  }

  lemma RenamedCounts(links: map<Ino, int>, dirs: Dirs, od: Ino, on: Name, nd: Ino, nn: Name)
    requires od in dirs && nd in dirs && on in dirs[od] && nd in links && od in links
    requires nn in dirs[nd] ==> dirs[nd][nn] in links && dirs[nd][nn] != nd && dirs[nd][nn] != od
    requires nn in dirs[nd] ==> (dirs[nd][nn] in dirs <==> dirs[od][on] in dirs)
    requires nn in dirs[nd] && dirs[od][on] in dirs ==> links[dirs[nd][nn]] == 2
    ensures var isDir, after := dirs[od][on] in dirs, RenamedLinks(links, dirs, od, on, nd, nn);
            after == if nn in dirs[nd] then
                       var t := dirs[nd][nn];
                       if isDir then links[t := links[t] - 2][od := links[od] - 1] else links[t := links[t] - 1]
                     else if isDir then MovedLinks(links, od, nd) else links
  {
    if nn in dirs[nd] && dirs[od][on] in dirs {
      ReplacedDirLinks(links, dirs, od, nd, nn);
      assert links[dirs[nd][nn] := 1][dirs[nd][nn] := 0] == links[dirs[nd][nn] := 0];
    }
  }

  // ---------- counts that go up and down ----------

  lemma NewGone(links: map<Ino, int>, i: Ino)
    requires i !in links
    ensures links[i := 1] - {i} == links && links[i := 1][i := 0] - {i} == links && links[i := 1][i := 0] == links[i := 0]
  {
  }

  lemma UpDown(links: map<Ino, int>, i: Ino)
    requires i in links
    ensures links[i := links[i] + 1][i := links[i]] == links
  {
  }

  lemma TwiceUp(links: map<Ino, int>, i: Ino)
    requires i !in links
    ensures links[i := 1][i := 2] == links[i := 2] && links[i := 2][i := 1][i := 0] - {i} == links
  {
  }

  lemma TwiceDown(links: map<Ino, int>, i: Ino, d: Ino)
    requires i in links && d in links && i != d && links[i] == 2
    ensures links[i := 1][i := 0][d := links[d] - 1] == links[i := 0][d := links[d] - 1]
  {
  }

  lemma TwoDown(links: map<Ino, int>, i: Ino)
    requires i in links
    ensures links[i := links[i] - 1][i := links[i] - 2] == links[i := links[i] - 2]
  {
  }

  lemma Swap(links: map<Ino, int>, d: Ino, i: Ino)
    requires d in links && i !in links
    ensures links[d := links[d] + 1][i := 2] == links[i := 2][d := links[d] + 1]
  {
  }

  lemma MadeEither(dirs: Dirs, d: Ino, n: Name, t: Ino)
    requires d in dirs && t !in dirs
    ensures var made: Dirs := dirs[t := DotTable(t, d)]; Put(made, d, n, t) == MadeDir(dirs, d, n, t)
  {
  }

  lemma CutThenGone(dirs: Dirs, d: Ino, n: Name, t: Ino)
    requires d in dirs
    ensures Cut(dirs, d, n) - {t} == RemovedDir(dirs, d, n, t)
  {
  }
}
