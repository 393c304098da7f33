/** f_unlink (ff.c:6677-6775): the search, the refusals, the removal of the entries and of the clusters. */
module Unlink {
  import opened Bytes
  import opened Geometry
  import opened Volume
  import opened Chain
  import opened ChainRuns
  import opened FileRep
  import opened LongNames
  import opened ShortNames
  import opened DirRep
  import opened DirScan
  import opened Directory
  import opened DirEdit
  import opened DirOps
  import opened DirWalk
  import DirRuns
  import NameOps
  import File
  import Reopen

  // ----- is a sub-directory empty?

  /** AM_RDO */
  predicate ReadOnly(e: DirEntry) {
    e[11] as int % 2 == 1
  }

  /** AM_DIR */
  predicate IsFolder(e: DirEntry) {
    e[11] as int / 0x10 % 2 == 1
  }

  /** The first cluster of the object an entry describes. */
  function StartOf(g: Geometry, e: DirEntry): nat {
    File.LdClust(g, e, 0)
  }

  ghost predicate FirstShown(l: seq<DirEntry>, k: nat) {
    k < |l| && PassesOver(l, 0, k) && IsShown(l[k])
  }

  /** Some object lies before the end of the table. */
  ghost predicate Occupied(l: seq<DirEntry>) {
    exists k :: FirstShown(l, k)
  }

  /** The table has an end mark. */
  ghost predicate Ended(l: seq<DirEntry>) {
    exists k :: 0 <= k < |l| && IsEnd(l[k])
  }

  ghost predicate Rooted(g: Geometry, clst: nat) {
    StartCluster(g, clst) == 0 || IsCluster(g, StartCluster(g, clst))
  }

  /** What the test of a sub-directory reports, given the walk over its links. */
  ghost function FolderTest(g: Geometry, fat: seq<nat>, v: seq<Sector>, clst: nat, walk: seq<nat>): FResult {
    var l := Entries(g, v, walk);
    if !Rooted(g, clst) || l == [] then FrIntErr
    else if Occupied(l) then FrDenied
    else if Broken(g, fat, walk) && !Ended(l) then FrIntErr
    else FrOk
  }

  /** Where the reader stops decides both. */
  lemma StopDecides(l: seq<DirEntry>, q: nat)
    requires PassesOver(l, 0, q)
    ensures q < |l| && IsShown(l[q]) ==> Occupied(l)
    ensures q < |l| && IsEnd(l[q]) ==> !Occupied(l) && Ended(l)
    ensures q == |l| ==> !Occupied(l) && !Ended(l)
  {
    if q < |l| && IsShown(l[q]) {
      assert FirstShown(l, q);
    }
    if k: nat :| FirstShown(l, k) {
      assert k < q ==> !IsShown(l[k]);
      assert q < k ==> !IsEnd(l[q]);
    }
  }

  /** The sub-directory is opened, and its first object looked for (ff.c:6724-6741). */
  method TestFolder(fs: FatFs, clst: nat) returns (res: FResult, ghost walk: seq<nat>)
    requires fs.Valid()
    modifies fs`disk, fs`winsect, fs`wflag, fs`view, fs`fat, fs`lastClst, fs`freeClst, fs`fsiFlag, fs.win
    ensures fs.Valid() && |fs.disk| == |old(fs.disk)|
    ensures fs.view == old(fs.view) && fs.fat == old(fs.fat) && fs.freeClst == old(fs.freeClst)
    ensures WalksFrom(fs.g, |fs.disk|, fs.fat, walk, StartCluster(fs.g, clst))
    ensures res == FolderTest(fs.g, fs.fat, fs.view, clst, walk)
  {
    hide FatFs.Valid, Dir.Valid, Dir.Rootless, IsWalk, WalksFrom, Entries, Occupied, Ended, Broken, PassesOver, IsShown;
    walk := AlwaysAWalk(fs, StartCluster(fs.g, clst));
    var sub := new Dir(fs, clst, walk);
    res := sub.Sdi(0);
    FolderFacts(sub);
    if res == FrOk {
      NameOps.AtPlace(sub, 0);
      ghost var q;
      res, q := Read(sub, 0, map[]);
      FolderFacts(sub);
      StopDecides(sub.Listing(), q);
      if res == FrOk {
        res := FrDenied;
      } else if res == FrNoFile {
        res := FrOk;
      }
    }
  }

  lemma FolderFacts(d: Dir)
    requires d.Valid() || d.Rootless()
    ensures d.fs.Valid() && |d.Listing()| == Count(d.fs.g, d.chain)
    ensures d.Valid() <==> Rooted(d.fs.g, d.sclust)
  {
  }

  // ----- the refusals

  /** May the object of entry e be removed? */
  ghost function Verdict(g: Geometry, fat: seq<nat>, v: seq<Sector>, e: DirEntry, cdir: nat, walk: seq<nat>): FResult {
    if ReadOnly(e) then FrDenied
    else if !IsFolder(e) then FrOk
    else if StartOf(g, e) == cdir then FrDenied
    else FolderTest(g, fat, v, StartOf(g, e), walk)
  }

  /** The tests between the search and the removal (ff.c:6700-6743). */
  method MayRemove(d: Dir, cdir: nat, ghost q: nat) returns (res: FResult, clst: nat, ghost walk: seq<nat>)
    requires d.Whole() && d.At(q)
    modifies d.fs`disk, d.fs`winsect, d.fs`wflag, d.fs`view, d.fs`fat, d.fs`lastClst, d.fs`freeClst, d.fs`fsiFlag,
             d.fs.win
    ensures d.Whole() && d.At(q) && |d.fs.disk| == |old(d.fs.disk)|
    ensures d.fs.view == old(d.fs.view) && d.fs.fat == old(d.fs.fat) && d.fs.freeClst == old(d.fs.freeClst)
    ensures q < |d.Listing()| && clst == StartOf(d.fs.g, d.Listing()[q])
    ensures WalksFrom(d.fs.g, |d.fs.disk|, d.fs.fat, walk, StartCluster(d.fs.g, clst))
    ensures res == Verdict(d.fs.g, d.fs.fat, d.fs.view, d.Listing()[q], cdir, walk)
  {
    hide FatFs.Valid, Dir.Valid, Dir.At, IsWalk, IsTable, WalksFrom, Entries, FolderTest, StartOf;
    AtFacts(d, q);
    var e := Peek(d, q);
    d.ValidTable();
    clst := StartOf(d.fs.g, e);
    walk := AlwaysAWalk(d.fs, StartCluster(d.fs.g, clst));
    res := FrOk;
    if ReadOnly(e) {
      res := FrDenied;
    } else if IsFolder(e) {
      if clst == cdir {
        res := FrDenied;
      } else {
        res, walk := TestFolder(d.fs, clst);
        StillValid(d, |d.fs.disk|);
      }
    }
  }

  // ----- the directory part

  /** The first object that answers to the name is removed, unless it is read-only, the current directory or a directory
      with objects; afterwards the name is absent exactly if no further object answered to it. */
  method DeleteEntry(d: Dir, up: nat -> nat, cdir: nat, ghost s: DirRuns.State, ghost nm: DirRuns.Name)
    returns (res: FResult, clst: nat, ghost q: nat, ghost walk: seq<nat>)
    requires NameOps.Ready(d, up, s, nm)
    modifies d`dptr, d`clust, d`sect, d`blk, d`chain
    modifies d.fs`disk, d.fs`winsect, d.fs`wflag, d.fs`view, d.fs`fat, d.fs`lastClst, d.fs`freeClst, d.fs`fsiFlag,
             d.fs.win
    ensures d.Whole() && |d.fs.disk| == |old(d.fs.disk)|
    ensures d.chain == old(d.chain) && d.fs.fat == old(d.fs.fat) && d.fs.freeClst == old(d.fs.freeClst)
    ensures Kept(d.fs.g, d.fs.fat, d.fs.fat, d.chain, d.chain, old(d.fs.view), d.fs.view)
    ensures res == FrNoFile <==> DirRuns.Absent(up, s, nm)
    ensures res != FrNoFile ==>
              DirRuns.FirstNamed(up, s, nm, q) && q < |s.d| && clst == StartOf(d.fs.g, s.d[q])
              && WalksFrom(d.fs.g, |d.fs.disk|, d.fs.fat, walk, StartCluster(d.fs.g, clst))
              && res == Verdict(d.fs.g, d.fs.fat, old(d.fs.view), s.d[q], cdir, walk)
    ensures res != FrOk ==> d.fs.view == old(d.fs.view)
    ensures res == FrOk ==> DirRuns.Enabled(up, s, DirRuns.Remove(q))
    ensures res == FrOk ==> d.Listing() == DirRuns.Apply(up, s, DirRuns.Remove(q)).d
    ensures res == FrOk ==> DirRuns.Sound(up, DirRuns.Apply(up, s, DirRuns.Remove(q)))
    ensures res == FrOk ==>
              |d.lfnbuf| == 256 && (Find(KeyOf(d, up), d.Listing()) == None <==> DirRuns.OnlyNamed(up, s, nm, q))
  {
    hide FatFs.Valid, Dir.Valid, Entries, IsTable, IsWalk, Count, Dir.At, Find, Kept, NameFor, DirRuns.Sound,
      DirRuns.Absent, Mark, DirRuns.FirstNamed, DirRuns.OnlyNamed, DirRuns.Enabled, DirRuns.Apply, WalksFrom, Verdict,
      StartOf;
    NameOps.NameParts(d, up, s, nm);
    q, clst, walk := 0, 0, [];
    ghost var key := KeyOf(d, up);
    KeptSame(d.fs.g, d.fs.fat, d.chain, d.fs.view);
    DirRuns.FindGives(up, s, nm, key);
    res := DirFind(d, up);
    if res != FrOk {
      return;
    }
    q := Find(key, s.d).value.0;
    NameOps.NamedObject(up, s, nm, q);
    NameOps.ObjectStart(up, s, q, key);
    res, clst, walk := MayRemove(d, cdir, q);
    VerdictIs(d.fs.g, d.fs.fat, d.fs.view, s.d[q], cdir, walk);
    if res != FrOk {
      return;
    }
    res := Remove(d, DirRuns.First(s, q), q);
    DirRuns.RemoveSound(up, s, DirRuns.Remove(q));
    DirRuns.RemovedIsAbsent(up, s, q, nm, key);
  }

  lemma VerdictIs(g: Geometry, fat: seq<nat>, v: seq<Sector>, e: DirEntry, cdir: nat, walk: seq<nat>)
    ensures Verdict(g, fat, v, e, cdir, walk) != FrNoFile
  {
  }

  // ----- the clusters

  /** obj is the chain that starts with this cluster; cluster 0 stands for none. */
  ghost predicate Leads(g: Geometry, fat: seq<nat>, clst: nat, obj: seq<nat>) {
    HasChain(g, fat, obj) && clst == if obj == [] then 0 else obj[0]
  }

  /** The chain does not hold cluster 0, and with no cluster nothing is freed. */
  lemma ChainPlain(g: Geometry, fat: seq<nat>, obj: seq<nat>)
    requires HasChain(g, fat, obj)
    ensures 0 !in obj && Bounded(fat, obj) && (obj == [] ==> Freed(fat, obj) == fat)
    ensures obj != [] ==> IsChain(fat, obj) && 0 < |fat| && Cut(g, fat, 0) == fat
  {
  }

  lemma TableKept(g: Geometry, n: nat, fat: seq<nat>, fat': seq<nat>, obj: seq<nat>, chain: seq<nat>)
    requires IsTable(g, n, fat, chain) && HasChain(g, fat, obj) && Apart(obj, chain) && fat' == Freed(fat, obj)
    ensures IsTable(g, n, fat', chain)
  {
  }

  /** The table keeps its entries when only FATs and the FSInfo sector are rewritten. */
  lemma ListingKept(g: Geometry, n: nat, fat: seq<nat>, obj: seq<nat>, chain: seq<nat>, v: seq<Sector>, w: seq<Sector>)
    requires IsTable(g, n, fat, chain) && HasChain(g, fat, obj) && Apart(obj, chain) && |v| == |w| == n
    requires forall s :: 0 <= s < n && !InFat1(g, s) && s != g.volbase + 1 ==> w[s] == v[s]
    ensures Entries(g, w, chain) == Entries(g, v, chain)
  {
    hide Entries, Mine, InFat1, HasChain, Apart;
    forall s | 0 <= s < n && Mine(g, chain, s)
      ensures w[s] == v[s]
    {
      Reopen.TableSector(g, n, fat, obj, chain, s);
    }
    TableIsWalk(g, n, fat, chain);
    EntriesFrame(g, n, fat, chain, v, w);
  }

  /** The disk is the flat disk; only the second FAT may be late. */
  ghost predicate WrittenOut(fs: FatFs)
    reads fs
  {
    |fs.view| == |fs.disk| && forall s :: 0 <= s < |fs.disk| && !InFat2(fs.g, s) ==> fs.disk[s] == fs.view[s]
  }

  /** The chain is removed and the volume synchronised (ff.c:6747-6760). */
  method FreeObject(fs: FatFs, clst: nat, ghost obj: seq<nat>) returns (res: FResult)
    requires fs.Valid()
    modifies fs`disk, fs`winsect, fs`wflag, fs`view, fs`fat, fs`freeClst, fs`fsiFlag, fs.win
    ensures fs.Valid() && |fs.disk| == |old(fs.disk)| && |fs.view| == |old(fs.view)|
    ensures res == FrDiskErr || res == FrIntErr
    ensures Leads(fs.g, old(fs.fat), clst, obj) ==>
              res == FrDiskErr && Bounded(old(fs.fat), obj) && fs.fat == Freed(old(fs.fat), obj) && WrittenOut(fs)
    ensures old(Accurate(fs.freeClst, fs.fat)) ==> Accurate(fs.freeClst, fs.fat)
    ensures forall s :: 0 <= s < |fs.view| && !InFat1(fs.g, s) && s != fs.g.volbase + 1 ==>
                          fs.view[s] == old(fs.view)[s]
  {
    hide FatFs.Valid, InFat1, InFat2, Accurate, IsChain, Good, Cut, Freed, Bounded;
    ValidSizes(fs);
    if Leads(fs.g, fs.fat, clst, obj) { ChainPlain(fs.g, fs.fat, obj); }
    if clst != 0 {
      res := RemoveChain(fs, clst, 0, obj);
      ValidSizes(fs);
      if res != FrOk {
        return;
      }
    }
    res := fs.SyncFs();
    ValidSizes(fs);
  }

  /** An object answers to the name, and nothing forbids its removal. */
  ghost predicate Allowed(up: nat -> nat, g: Geometry, fat: seq<nat>, v: seq<Sector>, s: DirRuns.State,
                          nm: DirRuns.Name, q: nat, cdir: nat, walk: seq<nat>) {
    !DirRuns.Absent(up, s, nm) && q < |s.d| && Verdict(g, fat, v, s.d[q], cdir, walk) == FrOk
  }

  /** f_unlink. An object is removed exactly if the verdict allows it; then its name is gone, its clusters are free,
      every other link and sector is as before, and the disk holds all of it. The result reports the failing
      disk_ioctl. */
  method Unlink(d: Dir, up: nat -> nat, cdir: nat, ghost s: DirRuns.State, ghost nm: DirRuns.Name, ghost obj: seq<nat>)
    returns (res: FResult, ghost q: nat, ghost walk: seq<nat>)
    requires NameOps.Ready(d, up, s, nm)
    modifies d`dptr, d`clust, d`sect, d`blk, d`chain
    modifies d.fs`disk, d.fs`winsect, d.fs`wflag, d.fs`view, d.fs`fat, d.fs`lastClst, d.fs`freeClst, d.fs`fsiFlag,
             d.fs.win
    ensures d.fs.Valid() && |d.fs.disk| == |old(d.fs.disk)| && d.chain == old(d.chain)
    ensures res == FrNoFile <==> DirRuns.Absent(up, s, nm)
    ensures res != FrNoFile ==>
              DirRuns.FirstNamed(up, s, nm, q) && q < |s.d|
              && WalksFrom(d.fs.g, |d.fs.disk|, old(d.fs.fat), walk, StartCluster(d.fs.g, StartOf(d.fs.g, s.d[q])))
    ensures !Allowed(up, d.fs.g, old(d.fs.fat), old(d.fs.view), s, nm, q, cdir, walk) ==>
              d.Whole() && d.fs.view == old(d.fs.view) && d.fs.fat == old(d.fs.fat)
    ensures res != FrNoFile && !Allowed(up, d.fs.g, old(d.fs.fat), old(d.fs.view), s, nm, q, cdir, walk) ==>
              q < |s.d| && res == Verdict(d.fs.g, old(d.fs.fat), old(d.fs.view), s.d[q], cdir, walk)
    ensures Allowed(up, d.fs.g, old(d.fs.fat), old(d.fs.view), s, nm, q, cdir, walk)
            && Leads(d.fs.g, old(d.fs.fat), StartOf(d.fs.g, s.d[q]), obj) && Apart(obj, d.chain) ==>
              && res == FrDiskErr && d.Whole() && WrittenOut(d.fs)
              && Bounded(old(d.fs.fat), obj) && d.fs.fat == Freed(old(d.fs.fat), obj)
              && DirRuns.Enabled(up, s, DirRuns.Remove(q))
              && d.Listing() == DirRuns.Apply(up, s, DirRuns.Remove(q)).d
              && DirRuns.Sound(up, DirRuns.Apply(up, s, DirRuns.Remove(q)))
              && |d.lfnbuf| == 256 && (Find(KeyOf(d, up), d.Listing()) == None <==> DirRuns.OnlyNamed(up, s, nm, q))
    ensures old(Accurate(d.fs.freeClst, d.fs.fat)) ==> Accurate(d.fs.freeClst, d.fs.fat)
    ensures forall t :: 0 <= t < |d.fs.view| && !InFat1(d.fs.g, t) && t != d.fs.g.volbase + 1
                        && !Mine(d.fs.g, d.chain, t) ==>
                          t < |old(d.fs.view)| && d.fs.view[t] == old(d.fs.view)[t]
  {
    hide FatFs.Valid, Dir.Valid, Entries, IsTable, IsWalk, Count, Dir.At, Find, NameFor, DirRuns.Sound, InFat1, Mine,
      DirRuns.Absent, Mark, DirRuns.FirstNamed, DirRuns.OnlyNamed, DirRuns.Enabled, DirRuns.Apply, WalksFrom, Verdict,
      StartOf, HasChain, Apart, Freed, Bounded, Accurate, WrittenOut, Kept, NameOps.Ready;
    NameOps.NameParts(d, up, s, nm);
    d.ValidTable();
    ghost var v0, fat := d.fs.view, d.fs.fat;
    var clst;
    res, clst, q, walk := DeleteEntry(d, up, cdir, s, nm);
    d.ValidTable();
    KeptView(d.fs.g, fat, d.chain, v0, d.fs.view);
    if res != FrOk {
      return;
    }
    ghost var v, own := d.fs.view, Leads(d.fs.g, fat, clst, obj) && Apart(obj, d.chain);
    res := FreeObject(d.fs, clst, obj);
    ValidSizes(d.fs);
    if own {
      TableKept(d.fs.g, |d.fs.disk|, fat, d.fs.fat, obj, d.chain);
      ListingKept(d.fs.g, |d.fs.disk|, fat, obj, d.chain, v, d.fs.view);
      TableIsWalk(d.fs.g, |d.fs.disk|, d.fs.fat, d.chain);
      StillValid(d, |d.fs.disk|);
    }
  }

  lemma KeptView(g: Geometry, fat: seq<nat>, chain: seq<nat>, v: seq<Sector>, w: seq<Sector>)
    requires Kept(g, fat, fat, chain, chain, v, w)
    ensures |w| == |v| && forall t :: 0 <= t < |v| && !InFat1(g, t) && !Mine(g, chain, t) ==> w[t] == v[t]
  {
  }
}
