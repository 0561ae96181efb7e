/**
 The directory tree of a volume as tables of names, with the link counts of its
 inodes: what it means for them to agree, and why each change keeps that.
 */
module Links {
  import opened DirFirst

  type Name = seq<int>
  type Ino = int
  type Dirs = map<Ino, map<Name, Ino>>

  predicate NonDot(n: Name) {
    n != SELF && n != PARENT
  }

  /** The entries that name an inode, as pairs of a directory and a name. */
  ghost function Refs(dirs: Dirs, i: Ino): set<(Ino, Name)> {
    set d, n | d in dirs && n in dirs[d] && dirs[d][n] == i :: (d, n)
  }

  /** From d, k steps up at most lead to the root. */
  ghost predicate Climb(root: Ino, dirs: Dirs, d: Ino, k: nat)
    decreases k
  {
    d in dirs && (d == root || (k > 0 && PARENT in dirs[d] && Climb(root, dirs, dirs[d][PARENT], k - 1)))
  }

  ghost predicate Reaches(root: Ino, dirs: Dirs, d: Ino) {
    exists k: nat :: Climb(root, dirs, d, k)
  }

  /** A directory names itself and the directory that holds its entry. */
  predicate DirOk(root: Ino, links: map<Ino, int>, dirs: Dirs, home: map<Ino, Name>, d: Ino)
    requires d in dirs
  {
    && d in links && SELF in dirs[d] && dirs[d][SELF] == d
    && PARENT in dirs[d] && dirs[d][PARENT] in dirs
    && if d == root then dirs[d][PARENT] == root
       else var p := dirs[d][PARENT];
         d in home && NonDot(home[d]) && home[d] in dirs[p] && dirs[p][home[d]] == d
  }

  /** An entry names an inode; if it is a directory, the entry is its only one. */
  predicate EntryOk(root: Ino, links: map<Ino, int>, dirs: Dirs, home: map<Ino, Name>, d: Ino, n: Name)
    requires d in dirs && n in dirs[d]
  {
    var t := dirs[d][n];
    && t in links
    && (NonDot(n) && t in dirs ==> t != root && PARENT in dirs[t] && dirs[t][PARENT] == d && t in home && home[t] == n)
  }

  ghost predicate Counted(links: map<Ino, int>, dirs: Dirs) {
    forall i :: i in links ==> links[i] == |Refs(dirs, i)|
  }

  predicate DirsOk(root: Ino, links: map<Ino, int>, dirs: Dirs, home: map<Ino, Name>) {
    forall d :: d in dirs ==> DirOk(root, links, dirs, home, d)
  }

  predicate EntriesOk(root: Ino, links: map<Ino, int>, dirs: Dirs, home: map<Ino, Name>) {
    forall d, n :: d in dirs && n in dirs[d] ==> EntryOk(root, links, dirs, home, d, n)
  }

  ghost predicate Connected(root: Ino, dirs: Dirs) {
    forall d :: d in dirs ==> Reaches(root, dirs, d)
  }

  ghost predicate Sound(root: Ino, links: map<Ino, int>, dirs: Dirs, home: map<Ino, Name>) {
    && root in dirs && Counted(links, dirs)
    && DirsOk(root, links, dirs, home) && EntriesOk(root, links, dirs, home) && Connected(root, dirs)
  }

  function Put(dirs: Dirs, d: Ino, n: Name, t: Ino): Dirs
    requires d in dirs
  {
    dirs[d := dirs[d][n := t]]
  }

  function Cut(dirs: Dirs, d: Ino, n: Name): Dirs
    requires d in dirs
  {
    dirs[d := dirs[d] - {n}]
  }

  // ---------- counting ----------

  lemma PutRefs(dirs: Dirs, d: Ino, n: Name, t: Ino, i: Ino)
    requires d in dirs && n !in dirs[d]
    ensures Refs(Put(dirs, d, n, t), i) == Refs(dirs, i) + if i == t then {(d, n)} else {}
    ensures |Refs(Put(dirs, d, n, t), i)| == |Refs(dirs, i)| + if i == t then 1 else 0
  {
    var new' := Put(dirs, d, n, t);
    forall e | e in Refs(new', i) ensures e in Refs(dirs, i) + if i == t then {(d, n)} else {} {}
    forall e | e in Refs(dirs, i) + if i == t then {(d, n)} else {} ensures e in Refs(new', i) {
      assert e.0 in new' && e.1 in new'[e.0];
    }
    assert (d, n) !in Refs(dirs, i);
  }

  lemma CutRefs(dirs: Dirs, d: Ino, n: Name, i: Ino)
    requires d in dirs && n in dirs[d]
    ensures |Refs(Cut(dirs, d, n), i)| == |Refs(dirs, i)| - if i == dirs[d][n] then 1 else 0
  {
    var c := Cut(dirs, d, n);
    PutRefs(c, d, n, dirs[d][n], i);
    assert Put(c, d, n, dirs[d][n]) == dirs by { assert c[d][n := dirs[d][n]] == dirs[d]; }
  }

  function DotTable(t: Ino, p: Ino): map<Name, Ino> {
    map[SELF := t, PARENT := p]
  }

  lemma NoEntriesRefs(dirs: Dirs, t: Ino, i: Ino)
    requires t !in dirs
    ensures Refs(dirs[t := map[]], i) == Refs(dirs, i)
  {
    var d0: Dirs := dirs[t := map[]];
    forall e | e in Refs(dirs, i) ensures e in Refs(d0, i) { assert e.0 in d0 && e.1 in d0[e.0]; }
  }

  lemma TwoPuts(dirs: Dirs, t: Ino, p: Ino) returns (d0: Dirs, d1: Dirs)
    ensures d0 == dirs[t := map[]] && d1 == Put(d0, t, SELF, t) && t in d1 && PARENT !in d1[t]
    ensures Put(d1, t, PARENT, p) == dirs[t := DotTable(t, p)]
  {
    d0 := dirs[t := map[]];
    d1 := Put(d0, t, SELF, t);
    assert d1[t][PARENT := p] == DotTable(t, p);
  }

  lemma NewDirRefs(dirs: Dirs, t: Ino, p: Ino, i: Ino)
    requires t !in dirs && t != p
    ensures |Refs(dirs[t := DotTable(t, p)], i)| == |Refs(dirs, i)| + if i == t || i == p then 1 else 0
  {
    hide Put, Refs, DotTable;
    NoEntriesRefs(dirs, t, i);
    var d0, d1 := TwoPuts(dirs, t, p);
    PutRefs(d0, t, SELF, t, i);
    PutRefs(d1, t, PARENT, p, i);
  }

  // ---------- climbing ----------

  lemma {:induction false} ClimbSame(root: Ino, dirs: Dirs, after: Dirs, d: Ino, k: nat)
    requires Climb(root, dirs, d, k)
    requires forall x :: x in dirs ==> x in after && (PARENT in dirs[x] ==> PARENT in after[x] && after[x][PARENT] == dirs[x][PARENT])
    ensures Climb(root, after, d, k)
    decreases k
  {
    if d != root { ClimbSame(root, dirs, after, dirs[d][PARENT], k - 1); }
  }

  /** The parents stay, for the directories that are there. */
  predicate SameParents(dirs: Dirs, after: Dirs) {
    && dirs.Keys == after.Keys
    && forall x :: x in dirs ==> (PARENT in dirs[x] ==> PARENT in after[x] && after[x][PARENT] == dirs[x][PARENT])
  }

  lemma StillConnected(root: Ino, dirs: Dirs, after: Dirs)
    requires Connected(root, dirs) && SameParents(dirs, after)
    ensures Connected(root, after)
  {
    forall d | d in after ensures Reaches(root, after, d) {
      assert Reaches(root, dirs, d);
      var k: nat :| Climb(root, dirs, d, k);
      ClimbSame(root, dirs, after, d, k);
    }
  }

  /** No directory is its own parent but the root. */
  lemma {:induction false} NotOwnParent(root: Ino, dirs: Dirs, d: Ino, k: nat)
    requires Climb(root, dirs, d, k) && d != root
    ensures PARENT in dirs[d] && dirs[d][PARENT] != d
    decreases k
  {
    if dirs[d][PARENT] == d { NotOwnParent(root, dirs, d, k - 1); }
  }

  // ---------- files: entries for what is not a directory ----------

  lemma Nameless(root: Ino, links: map<Ino, int>, dirs: Dirs, home: map<Ino, Name>, t: Ino)
    requires DirsOk(root, links, dirs, home) && EntriesOk(root, links, dirs, home) && t !in links
    ensures Refs(dirs, t) == {} && t !in dirs
  {
    forall d, n | d in dirs && n in dirs[d] ensures dirs[d][n] != t { assert EntryOk(root, links, dirs, home, d, n); }
    forall d | d in dirs ensures d != t { assert DirOk(root, links, dirs, home, d); }
  }

  lemma PutDirs(root: Ino, links: map<Ino, int>, more: map<Ino, int>, dirs: Dirs, home: map<Ino, Name>, d: Ino, n: Name, t: Ino)
    requires DirsOk(root, links, dirs, home) && d in dirs && n !in dirs[d] && NonDot(n) && links.Keys <= more.Keys
    ensures DirsOk(root, more, Put(dirs, d, n, t), home) && SameParents(dirs, Put(dirs, d, n, t))
  {
    var after := Put(dirs, d, n, t);
    forall x | x in after ensures DirOk(root, more, after, home, x) {
      assert DirOk(root, links, dirs, home, x);
    }
  }

  lemma PutEntries(root: Ino, links: map<Ino, int>, more: map<Ino, int>, dirs: Dirs, home: map<Ino, Name>, d: Ino, n: Name, t: Ino)
    requires EntriesOk(root, links, dirs, home) && d in dirs && n !in dirs[d] && NonDot(n) && t !in dirs
    requires t in more && links.Keys <= more.Keys
    ensures EntriesOk(root, more, Put(dirs, d, n, t), home)
  {
    var after := Put(dirs, d, n, t);
    forall x, m | x in after && m in after[x] ensures EntryOk(root, more, after, home, x, m) {
      if !(x == d && m == n) { assert EntryOk(root, links, dirs, home, x, m); }
    }
  }

  lemma CreateSound(root: Ino, links: map<Ino, int>, dirs: Dirs, home: map<Ino, Name>, d: Ino, n: Name, t: Ino)
    requires Sound(root, links, dirs, home) && d in dirs && n !in dirs[d] && NonDot(n) && t !in links
    ensures Sound(root, links[t := 1], Put(dirs, d, n, t), home)
  {
    hide Connected, DirsOk, EntriesOk, Refs, Put;
    var after, more := Put(dirs, d, n, t), links[t := 1];
    Nameless(root, links, dirs, home, t);
    forall i | i in more ensures more[i] == |Refs(after, i)| { PutRefs(dirs, d, n, t, i); }
    PutDirs(root, links, more, dirs, home, d, n, t);
    PutEntries(root, links, more, dirs, home, d, n, t);
    StillConnected(root, dirs, after);
  }

  lemma LinkSound(root: Ino, links: map<Ino, int>, dirs: Dirs, home: map<Ino, Name>, d: Ino, n: Name, t: Ino)
    requires Sound(root, links, dirs, home) && d in dirs && n !in dirs[d] && NonDot(n) && t in links && t !in dirs
    ensures Sound(root, links[t := links[t] + 1], Put(dirs, d, n, t), home)
  {
    hide Connected, DirsOk, EntriesOk, Refs, Put;
    var after, more := Put(dirs, d, n, t), links[t := links[t] + 1];
    forall i | i in more ensures more[i] == |Refs(after, i)| { PutRefs(dirs, d, n, t, i); }
    PutDirs(root, links, more, dirs, home, d, n, t);
    PutEntries(root, links, more, dirs, home, d, n, t);
    StillConnected(root, dirs, after);
  }

  lemma HasLink(root: Ino, links: map<Ino, int>, dirs: Dirs, home: map<Ino, Name>, d: Ino, n: Name)
    requires Sound(root, links, dirs, home) && d in dirs && n in dirs[d]
    ensures dirs[d][n] in links && links[dirs[d][n]] > 0
  {
    hide Connected, DirsOk;
    assert EntryOk(root, links, dirs, home, d, n);
    assert (d, n) in Refs(dirs, dirs[d][n]);
  }

  lemma CutDirs(root: Ino, links: map<Ino, int>, less: map<Ino, int>, dirs: Dirs, home: map<Ino, Name>, d: Ino, n: Name)
    requires DirsOk(root, links, dirs, home) && d in dirs && n in dirs[d] && NonDot(n) && links.Keys <= less.Keys
    requires dirs[d][n] !in dirs
    ensures DirsOk(root, less, Cut(dirs, d, n), home) && SameParents(dirs, Cut(dirs, d, n))
  {
    var after := Cut(dirs, d, n);
    forall x | x in after ensures DirOk(root, less, after, home, x) {
      assert DirOk(root, links, dirs, home, x);
    }
    forall x | x in dirs ensures PARENT in dirs[x] ==> PARENT in after[x] && after[x][PARENT] == dirs[x][PARENT] {}
  }

  lemma CutEntries(root: Ino, links: map<Ino, int>, less: map<Ino, int>, dirs: Dirs, home: map<Ino, Name>, d: Ino, n: Name)
    requires EntriesOk(root, links, dirs, home) && d in dirs && n in dirs[d] && NonDot(n) && links.Keys <= less.Keys
    ensures EntriesOk(root, less, Cut(dirs, d, n), home)
  {
    var after := Cut(dirs, d, n);
    forall x, m | x in after && m in after[x] ensures EntryOk(root, less, after, home, x, m) {
      assert EntryOk(root, links, dirs, home, x, m);
    }
  }

  lemma UnlinkSound(root: Ino, links: map<Ino, int>, dirs: Dirs, home: map<Ino, Name>, d: Ino, n: Name)
    requires Sound(root, links, dirs, home) && d in dirs && n in dirs[d] && NonDot(n) && dirs[d][n] !in dirs
    ensures var t := dirs[d][n];
            t in links && links[t] > 0 && Sound(root, links[t := links[t] - 1], Cut(dirs, d, n), home)
  {
    hide Connected, DirsOk, EntriesOk, Refs, Cut;
    var t, after := dirs[d][n], Cut(dirs, d, n);
    HasLink(root, links, dirs, home, d, n);
    var less := links[t := links[t] - 1];
    forall i | i in less ensures less[i] == |Refs(after, i)| { CutRefs(dirs, d, n, i); }
    CutDirs(root, links, less, dirs, home, d, n);
    CutEntries(root, links, less, dirs, home, d, n);
    StillConnected(root, dirs, after);
  }

  // ---------- directories that come and go ----------

  /** A new directory t, entered as n in d. */
  function MadeDir(dirs: Dirs, d: Ino, n: Name, t: Ino): Dirs
    requires d in dirs
  {
    Put(dirs, d, n, t)[t := DotTable(t, d)]
  }

  lemma MadeDirOk(root: Ino, links: map<Ino, int>, more: map<Ino, int>, dirs: Dirs, home: map<Ino, Name>, d: Ino, n: Name, t: Ino)
    requires DirsOk(root, links, dirs, home) && d in dirs && n !in dirs[d] && NonDot(n) && t !in dirs && root in dirs
    requires t in more && links.Keys <= more.Keys
    ensures DirsOk(root, more, MadeDir(dirs, d, n, t), home[t := n])
  {
    var after, at := MadeDir(dirs, d, n, t), home[t := n];
    forall x | x in after ensures DirOk(root, more, after, at, x) {
      if x in dirs { assert DirOk(root, links, dirs, home, x); }
    }
  }

  lemma MadeEntriesOk(root: Ino, links: map<Ino, int>, more: map<Ino, int>, dirs: Dirs, home: map<Ino, Name>, d: Ino, n: Name, t: Ino)
    requires EntriesOk(root, links, dirs, home) && d in dirs && n !in dirs[d] && NonDot(n) && t !in dirs && root in dirs
    requires t !in links && t in more && d in more && links.Keys <= more.Keys
    ensures EntriesOk(root, more, MadeDir(dirs, d, n, t), home[t := n])
  {
    var after, at := MadeDir(dirs, d, n, t), home[t := n];
    forall x, m | x in after && m in after[x] ensures EntryOk(root, more, after, at, x, m) {
      if x != t && !(x == d && m == n) { assert EntryOk(root, links, dirs, home, x, m); }
    }
  }

  lemma MadeConnected(root: Ino, dirs: Dirs, d: Ino, n: Name, t: Ino)
    requires Connected(root, dirs) && d in dirs && NonDot(n) && t !in dirs
    ensures Connected(root, MadeDir(dirs, d, n, t))
  {
    var after := MadeDir(dirs, d, n, t);
    forall x | x in after ensures Reaches(root, after, x) {
      var y := if x == t then d else x;
      assert Reaches(root, dirs, y);
      var k: nat :| Climb(root, dirs, y, k);
      ClimbSame(root, dirs, after, y, k);
      if x == t { assert Climb(root, after, t, k + 1); }
    }
  }

  lemma PutKeys(dirs: Dirs, d: Ino, n: Name, t: Ino)
    requires d in dirs
    ensures Put(dirs, d, n, t).Keys == dirs.Keys
  {
  }

  lemma MadeKeys(dirs: Dirs, d: Ino, n: Name, t: Ino)
    requires d in dirs
    ensures MadeDir(dirs, d, n, t).Keys == dirs.Keys + {t}
  {
  }

  lemma MadeCounted(root: Ino, links: map<Ino, int>, dirs: Dirs, home: map<Ino, Name>, d: Ino, n: Name, t: Ino)
    requires Sound(root, links, dirs, home) && d in dirs && n !in dirs[d] && t !in links && d in links
    ensures Counted(links[t := 2][d := links[d] + 1], MadeDir(dirs, d, n, t))
  {
    hide Connected, DirsOk, EntriesOk, Refs, Put, DotTable;
    Nameless(root, links, dirs, home, t);
    var mid := Put(dirs, d, n, t);
    PutKeys(dirs, d, n, t);
    var more := links[t := 2][d := links[d] + 1];
    forall i | i in more ensures more[i] == |Refs(MadeDir(dirs, d, n, t), i)| {
      PutRefs(dirs, d, n, t, i);
      NewDirRefs(mid, t, d, i);
    }
  }

  lemma MkdirSound(root: Ino, links: map<Ino, int>, dirs: Dirs, home: map<Ino, Name>, d: Ino, n: Name, t: Ino)
    requires Sound(root, links, dirs, home) && d in dirs && n !in dirs[d] && NonDot(n) && t !in links
    ensures d in links && Sound(root, links[t := 2][d := links[d] + 1], MadeDir(dirs, d, n, t), home[t := n])
  {
    hide Connected, DirsOk, EntriesOk, Counted, MadeDir;
    Nameless(root, links, dirs, home, t);
    DirKnown(root, links, dirs, home, d);
    var more := links[t := 2][d := links[d] + 1];
    MadeCounted(root, links, dirs, home, d, n, t);
    MadeDirOk(root, links, more, dirs, home, d, n, t);
    MadeEntriesOk(root, links, more, dirs, home, d, n, t);
    MadeConnected(root, dirs, d, n, t);
    MadeKeys(dirs, d, n, t);
  }

  lemma DirKnown(root: Ino, links: map<Ino, int>, dirs: Dirs, home: map<Ino, Name>, d: Ino)
    requires DirsOk(root, links, dirs, home) && d in dirs
    ensures d in links && DirOk(root, links, dirs, home, d)
  {
  }

  /** The directory t, which is entered as n in d, gone. */
  function RemovedDir(dirs: Dirs, d: Ino, n: Name, t: Ino): Dirs
    requires d in dirs
  {
    Cut(dirs, d, n) - {t}
  }

  /** A directory with nothing but its two first entries. */
  predicate Bare(dirs: Dirs, t: Ino, p: Ino)
    requires t in dirs
  {
    dirs[t] == DotTable(t, p)
  }

  /** Of a directory in a sound tree, kr_empty_dir is right: it is bare. */
  lemma EmptyIsBare(root: Ino, links: map<Ino, int>, dirs: Dirs, home: map<Ino, Name>, t: Ino)
    requires Sound(root, links, dirs, home) && t in dirs
    ensures (forall x :: x in dirs[t] ==> x == PARENT || (x == SELF && dirs[t][x] == t))
            <==> Bare(dirs, t, dirs[t][PARENT])
  {
    hide Connected, EntriesOk, Counted;
    DirKnown(root, links, dirs, home, t);
  }

  /** The entry of a directory is where its parent and its name say. */
  lemma Held(root: Ino, links: map<Ino, int>, dirs: Dirs, home: map<Ino, Name>, d: Ino, n: Name)
    requires Sound(root, links, dirs, home) && d in dirs && n in dirs[d] && NonDot(n) && dirs[d][n] in dirs
    ensures var t := dirs[d][n];
            t != root && t != d && DirOk(root, links, dirs, home, t) && dirs[t][PARENT] == d && home[t] == n
    ensures d in links
  {
    hide Counted, Refs;
    var t := dirs[d][n];
    assert EntryOk(root, links, dirs, home, d, n);
    DirKnown(root, links, dirs, home, t);
    DirKnown(root, links, dirs, home, d);
    assert Reaches(root, dirs, t);
    var k: nat :| Climb(root, dirs, t, k);
    NotOwnParent(root, dirs, t, k);
  }

  // ---------- the link count of a directory ----------

  function Subdirs(root: Ino, dirs: Dirs, d: Ino): set<Ino> {
    set x | x in dirs && x != root && PARENT in dirs[x] && dirs[x][PARENT] == d
  }

  ghost function Parents(xs: set<Ino>): set<(Ino, Name)> {
    set x | x in xs :: (x, PARENT)
  }

  lemma Pick<T>(xs: set<T>) returns (x: T)
    requires xs != {}
    ensures x in xs
  {
    x :| x in xs;
  }

  lemma {:induction false} ParentsCount(xs: set<Ino>)
    ensures |Parents(xs)| == |xs|
    decreases xs
  {
    if xs != {} {
      var x := Pick(xs);
      ParentsCount(xs - {x});
      assert Parents(xs) == Parents(xs - {x}) + {(x, PARENT)};
    }
  }

  /** The entry of a directory; the root has its own `..` in place of one. */
  function OwnEntry(root: Ino, dirs: Dirs, home: map<Ino, Name>, d: Ino): (Ino, Name)
    requires d in dirs && PARENT in dirs[d] && (d != root ==> d in home)
  {
    if d == root then (d, PARENT) else (dirs[d][PARENT], home[d])
  }

  lemma DirRefs(root: Ino, links: map<Ino, int>, dirs: Dirs, home: map<Ino, Name>, d: Ino)
    requires DirsOk(root, links, dirs, home) && EntriesOk(root, links, dirs, home) && d in dirs && root in dirs
    ensures DirOk(root, links, dirs, home, d)
    ensures Refs(dirs, d) == {(d, SELF), OwnEntry(root, dirs, home, d)} + Parents(Subdirs(root, dirs, d))
  {
    DirKnown(root, links, dirs, home, d);
    var all := {(d, SELF), OwnEntry(root, dirs, home, d)} + Parents(Subdirs(root, dirs, d));
    forall e | e in Refs(dirs, d) ensures e in all {
      var x, n := e.0, e.1;
      assert EntryOk(root, links, dirs, home, x, n);
      DirKnown(root, links, dirs, home, x);
      if n == PARENT && x != root { assert x in Subdirs(root, dirs, d); }
    }
    forall e | e in all ensures e in Refs(dirs, d) {
      if e in Parents(Subdirs(root, dirs, d)) { assert e.0 in dirs && e.1 in dirs[e.0]; }
    }
  }

  lemma NotOwnSubdir(root: Ino, links: map<Ino, int>, dirs: Dirs, home: map<Ino, Name>, d: Ino)
    requires d in dirs && root in dirs && DirOk(root, links, dirs, home, d)
    ensures (d, SELF) !in Parents(Subdirs(root, dirs, d)) && OwnEntry(root, dirs, home, d) !in Parents(Subdirs(root, dirs, d))
  {
  }

  /** A directory's link count is two more than the number of its subdirectories. */
  lemma DirLinkCount(root: Ino, links: map<Ino, int>, dirs: Dirs, home: map<Ino, Name>, d: Ino)
    requires Sound(root, links, dirs, home) && d in dirs
    ensures d in links && links[d] == 2 + |Subdirs(root, dirs, d)|
  {
    hide Connected, Refs, Subdirs;
    DirRefs(root, links, dirs, home, d);
    var ps := Parents(Subdirs(root, dirs, d));
    ParentsCount(Subdirs(root, dirs, d));
    var own := OwnEntry(root, dirs, home, d);
    NotOwnSubdir(root, links, dirs, home, d);
    assert (d, SELF) != own;
    assert |{(d, SELF), own}| == 2;
    assert |{(d, SELF), own} + ps| == 2 + |ps|;
  }

  lemma BareCount(root: Ino, links: map<Ino, int>, dirs: Dirs, home: map<Ino, Name>, t: Ino)
    requires Sound(root, links, dirs, home) && t in dirs && t != root && PARENT in dirs[t] && Bare(dirs, t, dirs[t][PARENT])
    ensures t in links && links[t] == 2 && Subdirs(root, dirs, t) == {}
  {
    hide Connected, Refs, Counted;
    DirLinkCount(root, links, dirs, home, t);
    forall x | x in dirs && x != root ensures dirs[x][PARENT] != t { DirKnown(root, links, dirs, home, x); }
    assert Subdirs(root, dirs, t) == {};
  }

  // ---------- removing and moving directories ----------

  lemma RemovedDirOk(root: Ino, links: map<Ino, int>, less: map<Ino, int>, dirs: Dirs, home: map<Ino, Name>, d: Ino, n: Name, t: Ino)
    requires DirsOk(root, links, dirs, home) && d in dirs && n in dirs[d] && NonDot(n) && dirs[d][n] == t && t in dirs && t != root
    requires Subdirs(root, dirs, t) == {} && links.Keys <= less.Keys
    ensures DirsOk(root, less, RemovedDir(dirs, d, n, t), home)
  {
    var after := RemovedDir(dirs, d, n, t);
    forall x | x in after ensures DirOk(root, less, after, home, x) {
      DirKnown(root, links, dirs, home, x);
      assert x !in Subdirs(root, dirs, t);
    }
  }

  /** Every table is part of what it was, and keeps its `..`. */
  predicate Within(after: Dirs, dirs: Dirs) {
    forall y :: y in after ==>
                  && y in dirs && (PARENT in dirs[y] ==> PARENT in after[y])
                  && forall m :: m in after[y] ==> m in dirs[y] && after[y][m] == dirs[y][m]
  }

  lemma RemovedWithin(dirs: Dirs, d: Ino, n: Name, t: Ino)
    requires d in dirs && NonDot(n)
    ensures Within(RemovedDir(dirs, d, n, t), dirs)
  {
  }

  lemma WithinEntriesOk(root: Ino, links: map<Ino, int>, less: map<Ino, int>, dirs: Dirs, home: map<Ino, Name>, after: Dirs)
    requires EntriesOk(root, links, dirs, home) && Within(after, dirs) && links.Keys <= less.Keys
    ensures EntriesOk(root, less, after, home)
  {
    forall x, m | x in after && m in after[x] ensures EntryOk(root, less, after, home, x, m) {
      assert EntryOk(root, links, dirs, home, x, m);
    }
  }

  lemma {:induction false} ClimbPast(root: Ino, dirs: Dirs, after: Dirs, t: Ino, x: Ino, k: nat)
    requires Climb(root, dirs, x, k) && x != t && Subdirs(root, dirs, t) == {}
    requires forall y :: y in dirs && y != t && PARENT in dirs[y] ==> y in after && PARENT in after[y] && after[y][PARENT] == dirs[y][PARENT]
    requires root in after
    ensures Climb(root, after, x, k)
    decreases k
  {
    if x != root {
      assert x !in Subdirs(root, dirs, t);
      ClimbPast(root, dirs, after, t, dirs[x][PARENT], k - 1);
    }
  }

  lemma RemovedConnected(root: Ino, links: map<Ino, int>, dirs: Dirs, home: map<Ino, Name>, d: Ino, n: Name, t: Ino)
    requires DirsOk(root, links, dirs, home) && Connected(root, dirs) && d in dirs && NonDot(n) && t != root && root in dirs
    requires Subdirs(root, dirs, t) == {}
    ensures Connected(root, RemovedDir(dirs, d, n, t))
  {
    hide DirsOk;
    var after := RemovedDir(dirs, d, n, t);
    forall y | y in dirs && y != t && PARENT in dirs[y]
      ensures y in after && PARENT in after[y] && after[y][PARENT] == dirs[y][PARENT]
    {}
    forall x | x in after ensures Reaches(root, after, x) {
      assert Reaches(root, dirs, x);
      var k: nat :| Climb(root, dirs, x, k);
      ClimbPast(root, dirs, after, t, x, k);
    }
  }

  lemma RemovedCounted(root: Ino, links: map<Ino, int>, dirs: Dirs, d: Ino, n: Name, t: Ino)
    requires Counted(links, dirs) && d in dirs && n in dirs[d] && dirs[d][n] == t && t in dirs && t != d && Bare(dirs, t, d)
    requires t in links && d in links
    ensures Counted(links[t := links[t] - 2][d := links[d] - 1], RemovedDir(dirs, d, n, t))
  {
    hide Refs, DotTable;
    var mid, after := Cut(dirs, d, n), RemovedDir(dirs, d, n, t);
    assert after[t := DotTable(t, d)] == mid;
    var less := links[t := links[t] - 2][d := links[d] - 1];
    forall i | i in less ensures less[i] == |Refs(after, i)| {
      CutRefs(dirs, d, n, i);
      NewDirRefs(after, t, d, i);
    }
  }

  lemma RemovedKeys(dirs: Dirs, d: Ino, n: Name, t: Ino)
    requires d in dirs
    ensures RemovedDir(dirs, d, n, t).Keys == dirs.Keys - {t}
  {
  }

  lemma RmdirSound(root: Ino, links: map<Ino, int>, dirs: Dirs, home: map<Ino, Name>, d: Ino, n: Name, t: Ino)
    requires Sound(root, links, dirs, home) && d in dirs && n in dirs[d] && NonDot(n) && dirs[d][n] == t && t in dirs
    requires PARENT in dirs[t] && Bare(dirs, t, dirs[t][PARENT])
    ensures t in links && d in links && t != d && links[t] == 2
    ensures Sound(root, links[t := 0][d := links[d] - 1], RemovedDir(dirs, d, n, t), home)
  {
    hide Connected, DirsOk, EntriesOk, Counted, RemovedDir;
    Held(root, links, dirs, home, d, n);
    BareCount(root, links, dirs, home, t);
    var less := links[t := 0][d := links[d] - 1];
    RemovedDirOk(root, links, less, dirs, home, d, n, t);
    RemovedWithin(dirs, d, n, t);
    WithinEntriesOk(root, links, less, dirs, home, RemovedDir(dirs, d, n, t));
    RemovedConnected(root, links, dirs, home, d, n, t);
    RemovedCounted(root, links, dirs, d, n, t);
    RemovedKeys(dirs, d, n, t);
  }

  /** The climb from x does not pass through s: x is neither s nor below it. */
  ghost predicate Avoids(root: Ino, dirs: Dirs, s: Ino, x: Ino, k: nat)
    decreases k
  {
    x in dirs && x != s && (x == root || (k > 0 && PARENT in dirs[x] && Avoids(root, dirs, s, dirs[x][PARENT], k - 1)))
  }

  ghost predicate Outside(root: Ino, dirs: Dirs, s: Ino, x: Ino) {
    exists k: nat :: Avoids(root, dirs, s, x, k)
  }

  /** The entry of the directory s moved from od, on to nd, nn. */
  function MovedDir(dirs: Dirs, od: Ino, on: Name, nd: Ino, nn: Name, s: Ino): Dirs
    requires od in dirs && nd in dirs && s in dirs
  {
    var a := Cut(Put(dirs, nd, nn, s), od, on);
    a[s := a[s][PARENT := nd]]
  }

  predicate Movable(root: Ino, links: map<Ino, int>, dirs: Dirs, home: map<Ino, Name>, od: Ino, on: Name, nd: Ino, nn: Name, s: Ino) {
    && od in dirs && on in dirs[od] && NonDot(on) && dirs[od][on] == s && s in dirs && s != root && s != od && s != nd
    && nd in dirs && nn !in dirs[nd] && NonDot(nn)
    && s in home && home[s] == on && PARENT in dirs[s] && dirs[s][PARENT] == od
  }

  lemma MovedTables(root: Ino, links: map<Ino, int>, dirs: Dirs, home: map<Ino, Name>, od: Ino, on: Name, nd: Ino, nn: Name, s: Ino)
    requires Movable(root, links, dirs, home, od, on, nd, nn, s)
    ensures var after := MovedDir(dirs, od, on, nd, nn, s);
            && after.Keys == dirs.Keys && after[s] == dirs[s][PARENT := nd] && nn in after[nd] && after[nd][nn] == s
            && on !in after[od] - (if nd == od then {nn} else {})
            && (forall x, m :: x in dirs && x != s ==>
                  (m in after[x] <==> (m in dirs[x] && !(x == od && m == on)) || (x == nd && m == nn)))
            && (forall x, m :: x in dirs && x != s && m in after[x] ==>
                  after[x][m] == if x == nd && m == nn then s else dirs[x][m])
  {
  }

  lemma MovedDirOk(root: Ino, links: map<Ino, int>, more: map<Ino, int>, dirs: Dirs, home: map<Ino, Name>,
                   od: Ino, on: Name, nd: Ino, nn: Name, s: Ino)
    requires DirsOk(root, links, dirs, home) && Movable(root, links, dirs, home, od, on, nd, nn, s) && links.Keys <= more.Keys
    ensures DirsOk(root, more, MovedDir(dirs, od, on, nd, nn, s), home[s := nn])
  {
    hide MovedDir;
    var after, at := MovedDir(dirs, od, on, nd, nn, s), home[s := nn];
    MovedTables(root, links, dirs, home, od, on, nd, nn, s);
    forall x | x in after ensures DirOk(root, more, after, at, x) {
      DirKnown(root, links, dirs, home, x);
    }
  }

  lemma MovedEntriesOk(root: Ino, links: map<Ino, int>, more: map<Ino, int>, dirs: Dirs, home: map<Ino, Name>,
                       od: Ino, on: Name, nd: Ino, nn: Name, s: Ino)
    requires DirsOk(root, links, dirs, home) && EntriesOk(root, links, dirs, home)
    requires Movable(root, links, dirs, home, od, on, nd, nn, s) && links.Keys <= more.Keys
    ensures EntriesOk(root, more, MovedDir(dirs, od, on, nd, nn, s), home[s := nn])
  {
    hide MovedDir, DirsOk;
    var after, at := MovedDir(dirs, od, on, nd, nn, s), home[s := nn];
    MovedTables(root, links, dirs, home, od, on, nd, nn, s);
    DirKnown(root, links, dirs, home, nd);
    assert EntryOk(root, links, dirs, home, od, on);
    forall x, m | x in after && m in after[x] ensures EntryOk(root, more, after, at, x, m) {
      if m in dirs[x] { assert EntryOk(root, links, dirs, home, x, m); }
    }
  }

  lemma {:induction false} AvoidsAfter(root: Ino, dirs: Dirs, after: Dirs, s: Ino, x: Ino, k: nat)
    requires Avoids(root, dirs, s, x, k)
    requires forall y :: y in dirs && y != s && PARENT in dirs[y] ==> y in after && PARENT in after[y] && after[y][PARENT] == dirs[y][PARENT]
    requires dirs.Keys <= after.Keys
    ensures Climb(root, after, x, k)
    decreases k
  {
    if x != root { AvoidsAfter(root, dirs, after, s, dirs[x][PARENT], k - 1); }
  }

  lemma {:induction false} ClimbMoved(root: Ino, dirs: Dirs, after: Dirs, s: Ino, nd: Ino, x: Ino, k: nat)
    requires Climb(root, dirs, x, k) && Reaches(root, after, nd)
    requires forall y :: y in dirs && y != s && PARENT in dirs[y] ==> y in after && PARENT in after[y] && after[y][PARENT] == dirs[y][PARENT]
    requires dirs.Keys <= after.Keys && s in after && PARENT in after[s] && after[s][PARENT] == nd && s != root
    ensures Reaches(root, after, x)
    decreases k
  {
    if x == root {
      assert Climb(root, after, x, 0);
    } else if x == s {
      var j: nat :| Climb(root, after, nd, j);
      assert Climb(root, after, x, j + 1);
    } else {
      ClimbMoved(root, dirs, after, s, nd, dirs[x][PARENT], k - 1);
      var j: nat :| Climb(root, after, dirs[x][PARENT], j);
      assert Climb(root, after, x, j + 1);
    }
  }

  lemma MovedConnected(root: Ino, links: map<Ino, int>, dirs: Dirs, home: map<Ino, Name>, od: Ino, on: Name, nd: Ino, nn: Name, s: Ino)
    requires Connected(root, dirs) && Movable(root, links, dirs, home, od, on, nd, nn, s) && Outside(root, dirs, s, nd)
    ensures Connected(root, MovedDir(dirs, od, on, nd, nn, s))
  {
    hide MovedDir;
    var after := MovedDir(dirs, od, on, nd, nn, s);
    MovedTables(root, links, dirs, home, od, on, nd, nn, s);
    forall y | y in dirs && y != s && PARENT in dirs[y]
      ensures y in after && PARENT in after[y] && after[y][PARENT] == dirs[y][PARENT]
    {}
    var k: nat :| Avoids(root, dirs, s, nd, k);
    AvoidsAfter(root, dirs, after, s, nd, k);
    forall x | x in after ensures Reaches(root, after, x) {
      assert Reaches(root, dirs, x);
      var j: nat :| Climb(root, dirs, x, j);
      ClimbMoved(root, dirs, after, s, nd, x, j);
    }
  }

  /** The links that a move of a directory changes: those of its parents. */
  function MovedLinks(links: map<Ino, int>, od: Ino, nd: Ino): map<Ino, int>
    requires od in links && nd in links
  {
    var more := links[nd := links[nd] + 1];
    more[od := more[od] - 1]
  }

  lemma MovedCounted(root: Ino, links: map<Ino, int>, dirs: Dirs, home: map<Ino, Name>, od: Ino, on: Name, nd: Ino, nn: Name, s: Ino)
    requires Counted(links, dirs) && Movable(root, links, dirs, home, od, on, nd, nn, s) && od in links && nd in links
    ensures Counted(MovedLinks(links, od, nd), MovedDir(dirs, od, on, nd, nn, s))
  {
    hide Refs;
    var a := Put(dirs, nd, nn, s);
    var b := Cut(a, od, on);
    var c := Cut(b, s, PARENT);
    var after := MovedDir(dirs, od, on, nd, nn, s);
    assert b[s] == dirs[s];
    assert Put(c, s, PARENT, nd) == after by { assert c[s][PARENT := nd] == b[s][PARENT := nd]; }
    var more := MovedLinks(links, od, nd);
    forall i | i in more ensures more[i] == |Refs(after, i)| {
      PutRefs(dirs, nd, nn, s, i);
      CutRefs(a, od, on, i);
      CutRefs(b, s, PARENT, i);
      PutRefs(c, s, PARENT, nd, i);
    }
  }

  lemma MoveSound(root: Ino, links: map<Ino, int>, dirs: Dirs, home: map<Ino, Name>, od: Ino, on: Name, nd: Ino, nn: Name, s: Ino)
    requires Sound(root, links, dirs, home) && od in dirs && on in dirs[od] && NonDot(on) && dirs[od][on] == s && s in dirs
    requires nd in dirs && nn !in dirs[nd] && NonDot(nn) && Outside(root, dirs, s, nd)
    ensures od in links && nd in links
    ensures Sound(root, MovedLinks(links, od, nd), MovedDir(dirs, od, on, nd, nn, s), home[s := nn])
  {
    hide Connected, DirsOk, EntriesOk, Counted, MovedDir;
    Held(root, links, dirs, home, od, on);
    DirKnown(root, links, dirs, home, nd);
    var k: nat :| Avoids(root, dirs, s, nd, k);
    var more := MovedLinks(links, od, nd);
    MovedDirOk(root, links, more, dirs, home, od, on, nd, nn, s);
    MovedEntriesOk(root, links, more, dirs, home, od, on, nd, nn, s);
    MovedConnected(root, links, dirs, home, od, on, nd, nn, s);
    MovedCounted(root, links, dirs, home, od, on, nd, nn, s);
    MovedTables(root, links, dirs, home, od, on, nd, nn, s);
  }

  // ---------- inodes without a name ----------

  lemma FreshSound(root: Ino, links: map<Ino, int>, dirs: Dirs, home: map<Ino, Name>, t: Ino)
    requires Sound(root, links, dirs, home) && t !in links
    ensures Sound(root, links[t := 0], dirs, home)
  {
    hide Connected, Refs, SameParents;
    Nameless(root, links, dirs, home, t);
    var more := links[t := 0];
    forall x | x in dirs ensures DirOk(root, more, dirs, home, x) { DirKnown(root, links, dirs, home, x); }
    forall x, m | x in dirs && m in dirs[x] ensures EntryOk(root, more, dirs, home, x, m) {
      assert EntryOk(root, links, dirs, home, x, m);
    }
  }

  lemma ReleaseSound(root: Ino, links: map<Ino, int>, dirs: Dirs, home: map<Ino, Name>, t: Ino)
    requires Sound(root, links, dirs, home) && t in links && links[t] == 0
    ensures Sound(root, links - {t}, dirs, home) && t !in dirs
  {
    hide Connected, Refs;
    var less := links - {t};
    forall x | x in dirs ensures DirOk(root, less, dirs, home, x) {
      DirKnown(root, links, dirs, home, x);
      DirLinkCount(root, links, dirs, home, x);
    }
    forall x, m | x in dirs && m in dirs[x] ensures EntryOk(root, less, dirs, home, x, m) {
      assert EntryOk(root, links, dirs, home, x, m);
      HasLink(root, links, dirs, home, x, m);
    }
    if t in dirs { DirLinkCount(root, links, dirs, home, t); }
  }
}
