/**
 Renaming, as a change to the tables and the link counts: what the entry at the
 new name stood for is gone, and the renamed inode stands there instead.
 */
module Moves {
  import opened DirFirst
  import opened Links

  /** The tables without the entry that is to be replaced. */
  function Vacated(dirs: Dirs, nd: Ino, nn: Name): Dirs
    requires nd in dirs
  {
    if nn !in dirs[nd] then dirs
    else if dirs[nd][nn] in dirs then RemovedDir(dirs, nd, nn, dirs[nd][nn])
    else Cut(dirs, nd, nn)
  }

  function VacatedLinks(links: map<Ino, int>, dirs: Dirs, nd: Ino, nn: Name): map<Ino, int>
    requires nd in dirs && nd in links && (nn in dirs[nd] ==> dirs[nd][nn] in links)
  {
    if nn !in dirs[nd] then links
    else
      var t := dirs[nd][nn];
      if t in dirs then links[t := 0][nd := links[nd] - 1] else links[t := links[t] - 1]
  }

  /** What the kernel makes sure of before a rename: the old name is there; the new
      one is not another name of the same inode; directories replace directories
      only; and a directory does not move into itself or below itself. */
  ghost predicate Renamable(root: Ino, dirs: Dirs, od: Ino, on: Name, nd: Ino, nn: Name) {
    && od in dirs && nd in dirs && on in dirs[od] && NonDot(on) && NonDot(nn)
    && var s := dirs[od][on];
      && (nn in dirs[nd] ==> dirs[nd][nn] != s && (dirs[nd][nn] in dirs <==> s in dirs))
      && (s in dirs ==> Outside(root, dirs, s, nd))
  }

  /** A directory that is to be replaced holds nothing. */
  predicate Replaceable(dirs: Dirs, nd: Ino, nn: Name)
    requires nd in dirs
  {
    nn in dirs[nd] && dirs[nd][nn] in dirs ==>
      var t := dirs[nd][nn]; PARENT in dirs[t] && Bare(dirs, t, dirs[t][PARENT])
  }

  lemma {:induction false} AvoidsPast(root: Ino, dirs: Dirs, after: Dirs, t: Ino, s: Ino, x: Ino, k: nat)
    requires Avoids(root, dirs, s, x, k) && x != t && Subdirs(root, dirs, t) == {} && root in after
    requires forall y :: y in dirs && y != t && PARENT in dirs[y] ==> y in after && PARENT in after[y] && after[y][PARENT] == dirs[y][PARENT]
    ensures Avoids(root, after, s, x, k)
    decreases k
  {
    if x != root {
      assert x !in Subdirs(root, dirs, t);
      AvoidsPast(root, dirs, after, t, s, dirs[x][PARENT], k - 1);
    }
  }

  /** What is known after the place is vacated. */
  lemma VacatedSound(root: Ino, links: map<Ino, int>, dirs: Dirs, home: map<Ino, Name>, od: Ino, on: Name, nd: Ino, nn: Name)
    requires Sound(root, links, dirs, home) && Renamable(root, dirs, od, on, nd, nn) && Replaceable(dirs, nd, nn)
    ensures nd in links && od in links && (nn in dirs[nd] ==> dirs[nd][nn] in links)
    ensures Sound(root, VacatedLinks(links, dirs, nd, nn), Vacated(dirs, nd, nn), home)
    ensures var base, s := Vacated(dirs, nd, nn), dirs[od][on];
            && od in base && nd in base && on in base[od] && base[od][on] == s && nn !in base[nd]
            && (s in base <==> s in dirs) && (s in dirs ==> Outside(root, base, s, nd))
  {
    hide Connected, Counted, EntriesOk, Outside, Subdirs, Refs;
    DirKnown(root, links, dirs, home, nd);
    DirKnown(root, links, dirs, home, od);
    if nn in dirs[nd] {
      HasLink(root, links, dirs, home, nd, nn);
      var t := dirs[nd][nn];
      if t in dirs {
        RmdirSound(root, links, dirs, home, nd, nn, t);
        Held(root, links, dirs, home, nd, nn);
        BareCount(root, links, dirs, home, t);
        OutsideStill(root, dirs, nd, nn, t, dirs[od][on]);
      } else {
        UnlinkSound(root, links, dirs, home, nd, nn);
      }
    }
  }

  lemma OutsideStill(root: Ino, dirs: Dirs, nd: Ino, nn: Name, t: Ino, s: Ino)
    requires nd in dirs && NonDot(nn) && t in dirs && t != root && nd != t && Subdirs(root, dirs, t) == {} && root in dirs
    requires Outside(root, dirs, s, nd)
    ensures Outside(root, RemovedDir(dirs, nd, nn, t), s, nd)
  {
    var after := RemovedDir(dirs, nd, nn, t);
    forall y | y in dirs && y != t && PARENT in dirs[y]
      ensures y in after && PARENT in after[y] && after[y][PARENT] == dirs[y][PARENT]
    {}
    var k: nat :| Avoids(root, dirs, s, nd, k);
    AvoidsPast(root, dirs, after, t, s, nd, k);
  }

  /** The tables after the rename. */
  function Renamed(dirs: Dirs, od: Ino, on: Name, nd: Ino, nn: Name): Dirs
    requires od in dirs && nd in dirs && on in dirs[od]
  {
    var base, s := Vacated(dirs, nd, nn), dirs[od][on];
    if !(od in base && nd in base) then dirs
    else if s in base then MovedDir(base, od, on, nd, nn, s)
    else Cut(Put(base, nd, nn, s), od, on)
  }

  function RenamedLinks(links: map<Ino, int>, dirs: Dirs, od: Ino, on: Name, nd: Ino, nn: Name): map<Ino, int>
    requires od in dirs && nd in dirs && on in dirs[od] && nd in links && od in links && (nn in dirs[nd] ==> dirs[nd][nn] in links)
  {
    var freed := VacatedLinks(links, dirs, nd, nn);
    if dirs[od][on] in dirs then MovedLinks(freed, od, nd) else freed
  }

  function RenamedHome(dirs: Dirs, home: map<Ino, Name>, od: Ino, on: Name, nn: Name): map<Ino, Name>
    requires od in dirs && on in dirs[od]
  {
    if dirs[od][on] in dirs then home[dirs[od][on] := nn] else home
  }

  lemma FileSound(root: Ino, links: map<Ino, int>, dirs: Dirs, home: map<Ino, Name>, od: Ino, on: Name, nd: Ino, nn: Name, s: Ino)
    requires Sound(root, links, dirs, home) && od in dirs && on in dirs[od] && dirs[od][on] == s && s !in dirs && NonDot(on)
    requires nd in dirs && nn !in dirs[nd] && NonDot(nn)
    ensures Sound(root, links, Cut(Put(dirs, nd, nn, s), od, on), home)
  {
    hide Sound;
    HasLink(root, links, dirs, home, od, on);
    LinkSound(root, links, dirs, home, nd, nn, s);
    var more, mid := links[s := links[s] + 1], Put(dirs, nd, nn, s);
    UnlinkSound(root, more, mid, home, od, on);
    assert more[s := more[s] - 1] == links;
  }

  lemma RenameSound(root: Ino, links: map<Ino, int>, dirs: Dirs, home: map<Ino, Name>, od: Ino, on: Name, nd: Ino, nn: Name)
    requires Sound(root, links, dirs, home) && Renamable(root, dirs, od, on, nd, nn) && Replaceable(dirs, nd, nn)
    ensures nd in links && od in links && (nn in dirs[nd] ==> dirs[nd][nn] in links)
    ensures Sound(root, RenamedLinks(links, dirs, od, on, nd, nn), Renamed(dirs, od, on, nd, nn), RenamedHome(dirs, home, od, on, nn))
  {
    hide Sound, Outside, Vacated, VacatedLinks, Cut, Put, MovedDir, Replaceable;
    VacatedSound(root, links, dirs, home, od, on, nd, nn);
    var base, freed, s := Vacated(dirs, nd, nn), VacatedLinks(links, dirs, nd, nn), dirs[od][on];
    if s in dirs {
      MoveSound(root, freed, base, home, od, on, nd, nn, s);
    } else {
      FileSound(root, freed, base, home, od, on, nd, nn, s);
    }
  }

  // ---------- what the steps of kr_rename come to ----------

  /** An entry overwritten, and what it stood for gone, if that was a directory. */
  lemma PointedIsVacatedPut(dirs: Dirs, nd: Ino, nn: Name, s: Ino)
    requires nd in dirs && nn in dirs[nd] && dirs[nd][nn] != nd
    ensures var t := dirs[nd][nn];
            var over: Dirs := dirs[nd := dirs[nd][nn := s]];
            && nd in Vacated(dirs, nd, nn)
            && Put(Vacated(dirs, nd, nn), nd, nn, s) == if t in dirs then over - {t} else over
  {
    assert (dirs[nd] - {nn})[nn := s] == dirs[nd][nn := s];
  }

  lemma NewNameIsPut(dirs: Dirs, nd: Ino, nn: Name, s: Ino)
    requires nd in dirs && nn !in dirs[nd]
    ensures nd in Vacated(dirs, nd, nn) && Put(Vacated(dirs, nd, nn), nd, nn, s) == Put(dirs, nd, nn, s)
  {
  }

  /** Within one directory, `..` need not be written. */
  lemma SameParentMove(base: Dirs, d: Ino, on: Name, nn: Name, s: Ino)
    requires d in base && s in base && s != d && PARENT in base[s] && base[s][PARENT] == d && NonDot(on)
    ensures MovedDir(base, d, on, d, nn, s) == Cut(Put(base, d, nn, s), d, on)
  {
    var a := Cut(Put(base, d, nn, s), d, on);
    assert a[s] == base[s] && a[s][PARENT := d] == a[s];
  }

  lemma ReplacedDirLinks(links: map<Ino, int>, dirs: Dirs, od: Ino, nd: Ino, nn: Name)
    requires nd in dirs && nd in links && od in links && nn in dirs[nd] && dirs[nd][nn] in dirs && dirs[nd][nn] in links
    requires var t := dirs[nd][nn]; t != nd && t != od && links[t] == 2
    ensures var t := dirs[nd][nn];
            links[t := 1][t := 0][od := links[od] - 1] == MovedLinks(VacatedLinks(links, dirs, nd, nn), od, nd)
  {
  }
}
