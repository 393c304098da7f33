/** The directory object DIR: its cursor over the table (ff.c:2160-2355). */
module Directory {
  import opened Bytes
  import opened Geometry
  import opened FatTable
  import opened Volume
  import opened Chain
  import opened ChainRuns
  import opened FileRep
  import opened FileState
  import opened LongNames
  import opened ShortNames
  import opened DirRep
  import opened DirScan
  import DirEdit

  function Zeros(n: nat): seq<Sector> {
    seq(n, _ => ZeroSector())
  }

  /** The loop of dir_clear: one sector at a time from the cleared window. */
  method ZeroRun(fs: FatFs, sect: nat)
    requires fs.win.Length == 512 && fs.win[..] == ZeroSector() && sect + fs.g.csize <= |fs.disk|
    modifies fs`disk
    ensures fs.disk == Overlay(old(fs.disk), sect, Zeros(fs.g.csize))
  {
    ghost var disk0 := fs.disk;
    var n := 0;
    while n < fs.g.csize
      invariant n <= fs.g.csize && |fs.disk| == |disk0|
      invariant forall s :: 0 <= s < |disk0| ==> fs.disk[s] == if sect <= s < sect + n then ZeroSector() else disk0[s]
    {
      fs.disk := fs.disk[sect + n := fs.win[..]];
      n := n + 1;
    }
  }

  /** dir_clear: a cluster is filled with zeros; the window shows its first sector. */
  method DirClear(fs: FatFs, clst: nat)
    requires fs.Valid() && IsCluster(fs.g, clst)
    modifies fs`disk, fs`winsect, fs`wflag, fs`view, fs.win
    ensures fs.Valid() && |fs.disk| == |old(fs.disk)| && |fs.view| == |old(fs.view)|
    ensures forall s :: 0 <= s < |fs.view| ==>
                          fs.view[s] == if InCluster(fs.g, clst, s) then ZeroSector() else old(fs.view)[s]
  {
    ClusterInData(fs.g, |fs.disk|, clst);
    fs.SyncWindow();
    hide Good, Mirrored, Links;
    var sect := Clst2Sect(fs.g, clst);
    ghost var disk0 := fs.disk;
    Fill(fs.win, ZeroSector());
    ZeroRun(fs, sect);
    fs.winsect := sect;
    ghost var before := fs.view;
    fs.view := Overlay(before, sect, Zeros(fs.g.csize));
    ClearedValid(fs, before, disk0);
  }

  lemma ClearedValid(fs: FatFs, before: seq<Sector>, disk0: seq<Sector>)
    requires fs.win.Length == 512 && Good(fs.g, |disk0|) && |before| == |disk0| && Links(fs.g, before, fs.fat)
    requires fs.win[..] == ZeroSector() && fs.g.database <= fs.winsect && fs.winsect + fs.g.csize <= |disk0|
      && !fs.wflag
    requires forall s :: 0 <= s < |disk0| && !InFat2(fs.g, s) ==> disk0[s] == before[s]
    requires fs.view == Overlay(before, fs.winsect, Zeros(fs.g.csize))
    requires fs.disk == Overlay(disk0, fs.winsect, Zeros(fs.g.csize))
    requires fs.mirrored ==> Mirrored(fs.g, disk0)
    requires fs.fsiFlag == 0 || fs.fsiFlag == 1 ==> fs.g.fsType.Fat32? ==> fs.g.volbase + 1 < fs.g.fatbase
    requires fs.lastClst < DWORD && fs.freeClst < DWORD
    ensures fs.Valid()
  {
    ClusterInData(fs.g, |disk0|, 2);
    LinksFrame(fs.g, before, fs.view, fs.fat);
    FatInsideDisk(fs.g, |disk0|);
  }

  /** The cluster that holds sector j of the table; 0 in the static table. */
  function ClusterOf(g: Geometry, chain: seq<nat>, j: nat): nat {
    if chain != [] && g.csize > 0 && Cl(g, j) < |chain| then chain[Cl(g, j)] else 0
  }

  /** The first cluster of a table; 0 for the static root table. */
  function StartCluster(g: Geometry, sclust: nat): nat {
    if sclust == 0 && g.fsType.Fat32? then g.dirbase else sclust
  }

  /** k clusters into the chain, rest bytes into the cluster. */
  lemma Position(g: Geometry, chain: seq<nat>, ofs: nat, k: nat, rest: nat)
    requires g.csize > 0 && ofs == rest + k * (g.csize * 512)
    ensures ofs / 512 == g.csize * k + rest / 512
    ensures rest < g.csize * 512 && k < |chain| ==>
              Cl(g, ofs / 512) == k && Of(g, ofs / 512) == rest / 512 && ofs / 512 < Cap(g, chain)
    ensures k >= |chain| ==> ofs / 512 >= Cap(g, chain)
  {
    assert k * (g.csize * 512) == (g.csize * k) * 512;
    AddMultiple(rest, g.csize * k);
    if rest < g.csize * 512 && k < |chain| {
      DivModOf(ofs / 512, g.csize, k, rest / 512);
      CapIndex(g, chain, ofs / 512);
    }
    if k >= |chain| {
      MulMonotone(|chain|, k, g.csize);
    }
  }

  lemma AddMultiple(r: nat, m: nat)
    ensures (r + m * 512) / 512 == m + r / 512
  {
  }

  /** The walk from a cluster; [] for the static table and for a number that is no cluster. */
  ghost predicate WalksFrom(g: Geometry, n: nat, fat: seq<nat>, chain: seq<nat>, start: nat) {
    IsWalk(g, n, fat, chain) && if IsCluster(g, start) then chain != [] && chain[0] == start else chain == []
  }

  /** There is one for every number on every FAT. */
  lemma AlwaysAWalk(fs: FatFs, start: nat) returns (chain: seq<nat>)
    requires fs.Valid()
    ensures WalksFrom(fs.g, |fs.disk|, fs.fat, chain, start)
  {
    chain := [];
    if IsCluster(fs.g, start) {
      chain := WalkFrom(fs.g, |fs.disk|, fs.fat, [start]);
    }
  }

  class Dir {
    const fs: FatFs
    const sclust: nat       // start cluster, 0 for the root directory
    var dptr: nat           // byte offset of the current entry
    var clust: nat
    var sect: nat           // 0 when the cursor ran off the table
    var blk: Option<nat>    // offset of the first entry of the LFN sequence
    var fn: seq<byte>       // short name being looked for
    var cf: Flags           // its flags
    var noLfn: bool         // NS_NOLFN
    var lfnbuf: seq<nat>    // name buffer of the volume
    ghost var chain: seq<nat>

    /** A directory object for the table that starts at a cluster, on any links and for any number; no name yet. */
    constructor (fs: FatFs, sclust: nat, ghost chain: seq<nat>)
      requires fs.Valid() && WalksFrom(fs.g, |fs.disk|, fs.fat, chain, StartCluster(fs.g, sclust))
      ensures this.fs == fs && this.sclust == sclust && this.chain == chain && (Valid() || Rootless())
      ensures Valid() <==> StartCluster(fs.g, sclust) == 0 || IsCluster(fs.g, StartCluster(fs.g, sclust))
    {
      this.fs, this.sclust, this.chain := fs, sclust, chain;
      dptr, clust, sect, blk := 0, 0, 0, None;
      fn, cf, noLfn := seq(11, _ => 0x20), NO_FLAGS, false;
      lfnbuf := seq(256, _ => 0);
    }

    /** The object fits the volume; the links of its table may be anything. */
    ghost predicate Valid()
      reads this, fs, fs.win
    {
      && fs.Valid()
      && IsWalk(fs.g, |fs.disk|, fs.fat, chain)
      && StartCluster(fs.g, sclust) == (if chain == [] then 0 else chain[0])
      && |fn| == 11 && |lfnbuf| == 256
    }

    /** The table's links are a chain of their own. */
    ghost predicate Intact()
      reads this`chain, fs`disk, fs`fat
    {
      IsTable(fs.g, |fs.disk|, fs.fat, chain)
    }

    /** An object whose table can be edited. */
    ghost predicate Whole()
      reads this, fs, fs.win
    {
      Valid() && Intact()
    }

    /** The start cluster is no cluster at all. */
    ghost predicate Rootless()
      reads this, fs, fs.win
    {
      fs.Valid() && StartCluster(fs.g, sclust) != 0 && !IsCluster(fs.g, StartCluster(fs.g, sclust)) && |fn| == 11
        && |lfnbuf| == 256
    }

    lemma HasRoot()
      requires Valid()
      ensures !Rootless()
    {
    }

    /** The directory's contents. */
    ghost function Listing(): seq<DirEntry>
      reads this`chain, fs`view
    {
      Entries(fs.g, fs.view, chain)
    }

    /** The cursor stands at entry i. */
    ghost predicate At(i: nat)
      reads this`dptr, this`clust, this`sect, this`chain
    {
      i < Count(fs.g, chain) && dptr == 32 * i && sect == SecOf(fs.g, chain, i / 16)
        && clust == ClusterOf(fs.g, chain, i / 16)
    }

    lemma ValidTable()
      requires Valid()
      ensures fs.Valid() && IsWalk(fs.g, |fs.disk|, fs.fat, chain) && |fs.view| == |fs.disk| && fs.win.Length == 512
        && |fs.fat| == fs.g.nFatent
      ensures fs.g.csize > 0 && Good(fs.g, |fs.disk|)
      ensures chain != [] ==> IsCluster(fs.g, chain[0])
      ensures StartCluster(fs.g, sclust) == (if chain == [] then 0 else chain[0])
      ensures |fn| == 11 && |lfnbuf| == 256
    {
    }

    /** Following the links from the first cluster, ofs bytes in (ff.c:2240-2250). */
    method Follow(ofs: nat) returns (ok: bool, clst: nat, rest: nat)
      requires (Valid() && chain != []) || Rootless()
      requires ofs < MAX_DIR
      modifies fs`disk, fs`winsect, fs`wflag, fs.win
      ensures |fs.disk| == |old(fs.disk)| && (old(Valid()) ==> Valid()) && (old(Rootless()) ==> Rootless())
      ensures old(Rootless()) && ok ==> clst == StartCluster(fs.g, sclust)
      ensures Valid() ==> (ok <==> ofs / 512 < Cap(fs.g, chain))
      ensures Valid() && ok ==>
                rest < fs.g.csize * 512 && Cl(fs.g, ofs / 512) < |chain| && clst == chain[Cl(fs.g, ofs / 512)]
      ensures Valid() && ok ==> Of(fs.g, ofs / 512) == rest / 512
    {
      hide Good, Cl, Of, Cap, IsWalk, FatFs.Valid;
      ghost var walk := Valid();
      if walk {
        HasRoot();
        ValidTable();
      }
      ClusterSize();
      clst, rest := StartCluster(fs.g, sclust), ofs;
      ghost var k := 0;
      var csz := fs.g.csize * 512;
      while rest >= csz
        invariant fs.Valid() && |fs.disk| == |old(fs.disk)| && rest <= ofs
        invariant if walk then 0 <= k < |chain| && clst == chain[k] && ofs == rest + k * csz
                    else clst == StartCluster(fs.g, sclust)
        decreases rest
      {
        if walk {
          assert ofs == (rest - csz) + (k + 1) * csz;
          Position(fs.g, chain, ofs, k + 1, rest - csz);
          WalkNext(fs.g, |fs.disk|, fs.fat, chain, k, ofs);
        }
        clst := fs.GetFat(clst);
        if clst < 2 || clst >= fs.g.nFatent {
          return false, clst, rest;
        }
        k, rest := k + 1, rest - csz;
      }
      if walk { Position(fs.g, chain, ofs, k, rest); }
      ok := true;
    }

    lemma ClusterSize()
      requires fs.Valid()
      ensures fs.g.csize > 0
    {
    }

    /** dir_sdi: the cursor goes to the entry at a byte offset. */
    method Sdi(ofs: nat) returns (res: FResult)
      requires Valid() || Rootless()
      modifies `dptr, `clust, `sect, fs`disk, fs`winsect, fs`wflag, fs.win
      ensures |fs.disk| == |old(fs.disk)| && (old(Valid()) ==> Valid()) && (old(Rootless()) ==> Rootless())
      ensures res == if Valid() && ofs % 32 == 0 && ofs / 32 < Count(fs.g, chain) then FrOk else FrIntErr
      ensures res == FrOk ==> At(ofs / 32)
    {
      hide Cl, Of, Good, Cap, IsWalk, FatFs.Valid, Count, RootSectors;
      ghost var walk := Valid();
      if walk {
        HasRoot();
        ValidTable();
      }
      CountBound(fs.g, chain);
      if ofs >= MAX_DIR || ofs % 32 != 0 {
        return FrIntErr;
      }
      dptr := ofs;
      var clst, rest := StartCluster(fs.g, sclust), ofs;
      if walk { TableEnd(fs.g, |fs.disk|, fs.fat, chain, ofs); }
      if clst == 0 {
        if ofs / 32 >= fs.g.nRootdir {
          return FrIntErr;
        }
        sect := fs.g.dirbase;
      } else {
        var ok;
        ok, clst, rest := Follow(ofs);
        if !ok {
          return FrIntErr;
        }
        sect := Clst2Sect(fs.g, clst);
      }
      clust := clst;
      if walk {
        TablePlace(fs.g, |fs.disk|, fs.fat, chain, ofs / 512);
        if chain != [] { ClusterSector(fs.g, |fs.disk|, clst); }
      }
      if sect == 0 {
        return FrIntErr;
      }
      sect := sect + rest / 512;
      res := FrOk;
    }

    /** dir_next: the cursor moves to the next entry; at the end of a dynamic table a cluster is added if asked for. */
    method Next(stretch: bool, ghost i: nat) returns (res: FResult)
      requires Valid() && At(i)
      modifies `dptr, `clust, `sect, `chain
      modifies fs`disk, fs`winsect, fs`wflag, fs`view, fs`fat, fs`lastClst, fs`freeClst, fs`fsiFlag, fs.win
      ensures Valid() && |fs.disk| == |old(fs.disk)|
      ensures !stretch || i + 1 < old(Count(fs.g, chain)) ==>
                fs.view == old(fs.view) && fs.fat == old(fs.fat) && chain == old(chain)
      ensures !stretch ==>
                fs.freeClst == old(fs.freeClst) && fs.lastClst == old(fs.lastClst) && fs.fsiFlag == old(fs.fsiFlag)
      ensures i + 1 < old(Count(fs.g, chain)) ==> res == FrOk
      ensures res == FrOk ==> At(i + 1)
      ensures res == FrOk && i + 1 == old(Count(fs.g, chain)) ==>
                stretch && Intact() && Listing() == DirEdit.Padded(old(Listing()), 16 * fs.g.csize)
      ensures res != FrOk ==> Listing() == old(Listing()) && chain == old(chain)
      ensures res == FrOk || res == FrNoFile || res == FrIntErr || (stretch && res == FrDenied)
      ensures !stretch && i + 1 == Count(fs.g, chain) ==>
                res == if Broken(fs.g, fs.fat, chain) then FrIntErr else FrNoFile
      ensures old(Intact()) ==> Intact() && (!stretch ==> res != FrIntErr)
      ensures old(chain) == [] ==> chain == []
      ensures res == FrNoFile ==> sect == 0 && (stretch ==> chain == [] || Size(fs.g, chain) >= MAX_SECTORS)
      ensures res == FrIntErr ==> (stretch && 1 in fs.fat) || Broken(fs.g, fs.fat, chain)
      ensures old(Accurate(fs.freeClst, fs.fat)) ==> Accurate(fs.freeClst, fs.fat)
      ensures res == FrDenied && Accurate(fs.freeClst, fs.fat) ==> Free(fs.fat) == {}
      ensures Grew(old(fs.fat), fs.fat, old(chain), chain) && Undisturbed(fs.g, chain, old(fs.view), fs.view)
    {
      hide Good, IsWalk, FatFs.Valid, Clst2Sect, RootSectors, Cap, Accurate, Free, Cl, Of, SecOf, Count;
      hide Grew, ClusterOf, Boundary, Undisturbed, Entries, Broken, IsTable;
      ValidTable();
      CountBound(fs.g, chain);
      NotBroken();
      NextPlace(fs.g, |fs.disk|, fs.fat, chain, i);
      Unchanged(fs.g, fs.fat, chain, fs.view);
      EntryOffset(i + 1);
      var ofs := dptr + 32;
      if ofs >= MAX_DIR {
        sect := 0;
      }
      if sect == 0 {
        return FrNoFile;
      }
      if ofs % 512 == 0 {
        sect := sect + 1;
        if clust == 0 {
          if ofs / 32 >= fs.g.nRootdir {
            sect := 0;
            return FrNoFile;
          }
        } else {
          if Of(fs.g, ofs / 512) == 0 {
            NextCluster(fs.g, |fs.disk|, fs.fat, chain, i);
            res := Cross(stretch, i);
            if res != FrOk {
              return res;
            }
          } else {
            NextInCluster(fs.g, |fs.disk|, fs.fat, chain, i);
          }
        }
      }
      dptr := ofs;
      res := FrOk;
    }

    /** The cursor goes to the first sector of the next cluster (ff.c:2293-2345). */
    method Cross(stretch: bool, ghost i: nat) returns (res: FResult)
      requires Valid() && Boundary(fs.g, fs.fat, chain, i, clust)
      modifies `clust, `sect, `chain
      modifies fs`disk, fs`winsect, fs`wflag, fs`view, fs`fat, fs`lastClst, fs`freeClst, fs`fsiFlag, fs.win
      ensures Valid() && |fs.disk| == |old(fs.disk)|
      ensures !stretch || i + 1 < old(Count(fs.g, chain)) ==>
                fs.view == old(fs.view) && fs.fat == old(fs.fat) && chain == old(chain)
      ensures !stretch ==>
                fs.freeClst == old(fs.freeClst) && fs.lastClst == old(fs.lastClst) && fs.fsiFlag == old(fs.fsiFlag)
      ensures i + 1 < old(Count(fs.g, chain)) ==> res == FrOk
      ensures res == FrOk ==> i + 1 < Count(fs.g, chain) && sect == SecOf(fs.g, chain, (i + 1) / 16)
      ensures res == FrOk ==> clust == ClusterOf(fs.g, chain, (i + 1) / 16)
      ensures res == FrOk && i + 1 == old(Count(fs.g, chain)) ==>
                stretch && Intact() && Listing() == DirEdit.Padded(old(Listing()), 16 * fs.g.csize)
      ensures res != FrOk ==> Listing() == old(Listing()) && chain == old(chain)
      ensures res == FrOk || res == FrNoFile || res == FrIntErr || (stretch && res == FrDenied)
      ensures !stretch && i + 1 == Count(fs.g, chain) ==>
                res == if Broken(fs.g, fs.fat, chain) then FrIntErr else FrNoFile
      ensures old(Intact()) ==> Intact() && (!stretch ==> res != FrIntErr)
      ensures res == FrNoFile ==> sect == 0 && !stretch
      ensures res == FrIntErr ==> (stretch && 1 in fs.fat) || Broken(fs.g, fs.fat, chain)
      ensures old(Accurate(fs.freeClst, fs.fat)) ==> Accurate(fs.freeClst, fs.fat)
      ensures res == FrDenied && Accurate(fs.freeClst, fs.fat) ==> Free(fs.fat) == {}
      ensures Grew(old(fs.fat), fs.fat, old(chain), chain) && Undisturbed(fs.g, chain, old(fs.view), fs.view)
    {
      hide Good, IsWalk, FatFs.Valid, Clst2Sect, RootSectors, Cap, Accurate, Free, Cl, Of, SecOf, Count, Grew,
        ClusterOf, IsTable;
      ValidTable();
      NotBroken();
      Unchanged(fs.g, fs.fat, chain, fs.view);
      var clst := fs.GetFat(clust);
      if clst <= 1 {
        return FrIntErr;
      }
      if clst >= fs.g.nFatent {
        if !stretch {
          sect := 0;
          return FrNoFile;
        }
        Ended();
        ghost var before := chain;
        res, clst := StretchTable();
        if res != FrOk {
          return res;
        }
        ValidTable();
        BehindEnd(fs.g, |fs.disk|, before, clst, i);
      }
      clust := clst;
      sect := Clst2Sect(fs.g, clst);
      res := FrOk;
    }

    /** A cluster behind the last one, cleared (ff.c:2308-2332). */
    method StretchTable() returns (res: FResult, clst: nat)
      requires Valid() && Intact() && chain != [] && clust == Last(chain) && Size(fs.g, chain) < MAX_SECTORS
      modifies `chain, fs`disk, fs`winsect, fs`wflag, fs`view, fs`fat, fs`lastClst, fs`freeClst, fs`fsiFlag, fs.win
      ensures Valid() && Intact() && |fs.disk| == |old(fs.disk)|
      ensures Grew(old(fs.fat), fs.fat, old(chain), chain) && Undisturbed(fs.g, chain, old(fs.view), fs.view)
      ensures res == FrOk || res == FrDenied || res == FrIntErr
      ensures res == FrIntErr ==> 1 in fs.fat
      ensures old(Accurate(fs.freeClst, fs.fat)) ==> Accurate(fs.freeClst, fs.fat)
      ensures res == FrDenied && Accurate(fs.freeClst, fs.fat) ==> Free(fs.fat) == {}
      ensures if res == FrOk
              then chain == old(chain) + [clst] && Listing() == DirEdit.Padded(old(Listing()), 16 * fs.g.csize)
              else chain == old(chain) && Listing() == old(Listing())
    {
      hide Good, IsWalk, IsTable, IsChain, FatFs.Valid, Clst2Sect, Count, RootSectors, Cap, Accurate, Free, InCluster;
      ValidTable();
      LastLink(fs.g, |fs.disk|, fs.fat, chain);
      ghost var v0, f0, n := fs.view, fs.fat, |fs.disk|;
      clst := CreateChain(fs, clust);
      ValidSizes(fs);
      if clst < 2 {
        FailedStretch(n, v0, f0);
        return if clst == 0 then FrDenied else FrIntErr, clst;
      }
      ghost var v1 := fs.view;
      DirClear(fs, clst);
      ghost var ch := chain;
      chain := chain + [clst];
      StretchedTable(fs.g, n, f0, fs.fat, ch, clst, v0, v1, fs.view);
      TableIsWalk(fs.g, n, fs.fat, chain);
      res := FrOk;
    }

    lemma NotBroken()
      requires Valid()
      ensures Intact() || chain == [] || Size(fs.g, chain) >= MAX_SECTORS ==> !Broken(fs.g, fs.fat, chain)
    {
    }

    lemma Ended()
      requires Valid() && chain != [] && Last(chain) < |fs.fat| && fs.fat[Last(chain)] >= fs.g.nFatent
      ensures Intact()
    {
      EndedIsTable(fs.g, |fs.disk|, fs.fat, chain);
    }

    lemma FailedStretch(n: nat, v0: seq<Sector>, f0: seq<nat>)
      requires fs.Valid() && IsWalk(fs.g, n, f0, chain) && n == |fs.disk| == |v0| == |fs.view| && fs.fat == f0
      requires forall s :: 0 <= s < n && !InFat1(fs.g, s) ==> fs.view[s] == v0[s]
      requires |fn| == 11 && |lfnbuf| == 256 && StartCluster(fs.g, sclust) == (if chain == [] then 0 else chain[0])
      ensures Valid() && Listing() == Entries(fs.g, v0, chain)
      ensures Grew(f0, fs.fat, chain, chain) && Undisturbed(fs.g, chain, v0, fs.view)
    {
      EntriesFrame(fs.g, n, f0, chain, v0, fs.view);
    }
  }

  /** Where the entry after entry i is, in the cases dir_next distinguishes. */
  lemma EntryOffset(i: nat)
    ensures 32 * i % 512 == 0 <==> i % 16 == 0
    ensures 32 * i / 512 == i / 16 && 32 * i / 32 == i
  {
  }

  lemma NextPlace(g: Geometry, n: nat, fat: seq<nat>, chain: seq<nat>, i: nat)
    requires IsWalk(g, n, fat, chain) && i < Count(g, chain)
    ensures g.csize > 0 && SecOf(g, chain, i / 16) > 0 && (ClusterOf(g, chain, i / 16) == 0 <==> chain == [])
    ensures (i + 1) % 16 != 0 ==> i + 1 < Count(g, chain) && (i + 1) / 16 == i / 16
    ensures (i + 1) * 32 < MAX_DIR && (i + 1) % 16 == 0 && chain == [] ==>
              (i + 1 < g.nRootdir <==> i + 1 < Count(g, chain))
    ensures (i + 1) % 16 == 0 && chain == [] ==> SecOf(g, chain, (i + 1) / 16) == SecOf(g, chain, i / 16) + 1
    ensures chain == [] ==> ClusterOf(g, chain, (i + 1) / 16) == 0
  {
    EntrySector(g, chain, i);
    TablePlace(g, n, fat, chain, i / 16);
  }

  /** The next sector lies in the same cluster. */
  lemma NextInCluster(g: Geometry, n: nat, fat: seq<nat>, chain: seq<nat>, i: nat)
    requires IsWalk(g, n, fat, chain) && i < Count(g, chain) && chain != [] && g.csize > 0
    requires (i + 1) % 16 == 0 && (i + 1) * 32 < MAX_DIR && Of(g, (i + 1) / 16) != 0
    ensures i + 1 < Count(g, chain) && SecOf(g, chain, (i + 1) / 16) == SecOf(g, chain, i / 16) + 1
    ensures ClusterOf(g, chain, (i + 1) / 16) == ClusterOf(g, chain, i / 16)
  {
    EntrySector(g, chain, i);
    TablePlace(g, n, fat, chain, i / 16);
    hide Good, Cl, Of;
    assert (i + 1) / 16 == i / 16 + 1;
    SameOffset(g, i / 16);
    CapIndex(g, chain, i / 16 + 1);
  }

  lemma SameOffset(g: Geometry, j: nat)
    requires g.csize > 0 && Of(g, j + 1) != 0
    ensures Of(g, j + 1) == Of(g, j) + 1 && Cl(g, j + 1) == Cl(g, j)
  {
    var c, q, r := g.csize, j / g.csize, j % g.csize;
    if r + 1 < c {
      DivModOf(j + 1, c, q, r + 1);
    } else {
      assert c * (q + 1) == c * q + c;
      DivModOf(j + 1, c, q + 1, 0);
    }
  }

  /** Entry i is the last of its cluster c: the link of c leads to the next sector, or the table ends. */
  ghost predicate Boundary(g: Geometry, fat: seq<nat>, chain: seq<nat>, i: nat, c: nat) {
    && IsCluster(g, c) && c < |fat| && chain != []
    && if 2 <= fat[c] < g.nFatent then
         i + 1 < Count(g, chain) && ClusterOf(g, chain, (i + 1) / 16) == fat[c]
           && SecOf(g, chain, (i + 1) / 16) == Clst2Sect(g, fat[c])
       else c == Last(chain) && i + 1 == Count(g, chain) && Size(g, chain) < MAX_SECTORS
  }

  lemma NextCluster(g: Geometry, n: nat, fat: seq<nat>, chain: seq<nat>, i: nat)
    requires IsWalk(g, n, fat, chain) && i < Count(g, chain) && chain != [] && g.csize > 0
    requires (i + 1) % 16 == 0 && (i + 1) * 32 < MAX_DIR && Of(g, (i + 1) / 16) == 0
    ensures Boundary(g, fat, chain, i, ClusterOf(g, chain, i / 16))
  {
    EntrySector(g, chain, i);
    TablePlace(g, n, fat, chain, i / 16);
    hide Good, Cl, Of;
    var j := i / 16;
    assert (i + 1) / 16 == j + 1;
    PreviousSector(g, j + 1);
    CapIndex(g, chain, j + 1);
    if Cl(g, j) + 1 == |chain| {
      CapIndex(g, chain, j);
    }
  }

  /** The first sector of a cluster put behind the end. */
  lemma BehindEnd(g: Geometry, n: nat, chain: seq<nat>, ncl: nat, i: nat)
    requires Good(g, n) && chain != [] && Size(g, chain) < MAX_SECTORS && i + 1 == Count(g, chain)
    ensures i + 1 < Count(g, chain + [ncl])
    ensures SecOf(g, chain + [ncl], (i + 1) / 16) == Clst2Sect(g, ncl)
      && ClusterOf(g, chain + [ncl], (i + 1) / 16) == ncl
  {
    RoomLeft(g, n, chain, ncl);
    assert (i + 1) / 16 == g.csize * |chain|;
    DivModOf((i + 1) / 16, g.csize, |chain|, 0);
  }

  /** Every sector outside the FAT and outside the table is as before. */
  ghost predicate Undisturbed(g: Geometry, chain: seq<nat>, v: seq<Sector>, w: seq<Sector>) {
    |w| == |v| && forall s :: 0 <= s < |v| && !InFat1(g, s) && !Mine(g, chain, s) ==> w[s] == v[s]
  }

  lemma Unchanged(g: Geometry, fat: seq<nat>, chain: seq<nat>, v: seq<Sector>)
    ensures Grew(fat, fat, chain, chain) && Undisturbed(g, chain, v, v)
  {
  }

  lemma LastLink(g: Geometry, n: nat, fat: seq<nat>, chain: seq<nat>)
    requires IsTable(g, n, fat, chain) && chain != []
    ensures 2 <= Last(chain) < |fat| && IsCluster(g, Last(chain)) && fat[Last(chain)] >= |fat|
  {
  }

  /** The table after a cluster was linked (v1) and cleared (v2). */
  lemma StretchedTable(g: Geometry, n: nat, f0: seq<nat>, f1: seq<nat>, chain: seq<nat>, ncl: nat,
                       v0: seq<Sector>, v1: seq<Sector>, v2: seq<Sector>)
    requires IsTable(g, n, f0, chain) && chain != [] && Size(g, chain) < MAX_SECTORS && |v0| == |v1| == |v2| == n
    requires Last(chain) < |f0| && f0[Last(chain)] >= |f0| && Extended(g, f0, f1, Last(chain), ncl)
    requires forall s :: 0 <= s < n && !InFat1(g, s) ==> v1[s] == v0[s]
    requires forall s :: 0 <= s < n ==> v2[s] == if InCluster(g, ncl, s) then ZeroSector() else v1[s]
    ensures IsTable(g, n, f1, chain + [ncl]) && (chain + [ncl])[0] == chain[0]
    ensures Entries(g, v2, chain + [ncl]) == DirEdit.Padded(Entries(g, v0, chain), 16 * g.csize)
    ensures Grew(f0, f1, chain, chain + [ncl]) && Undisturbed(g, chain + [ncl], v0, v2)
  {
    hide Good;
    LastLink(g, n, f0, chain);
    FreeNotOnChain(f0, chain, ncl);
    StretchedChain(g, n, f0, chain, ncl);
    hide IsChain;
    forall s | 0 <= s < n && InCluster(g, ncl, s)
      ensures !Mine(g, chain, s)
    {
      NewIsApart(g, chain, ncl, s);
    }
    EntriesStretch(g, n, f0, chain, ncl, v0, v2);
    assert (chain + [ncl])[|chain|] == ncl;
    assert forall s :: 0 <= s < n && InCluster(g, ncl, s) ==> Mine(g, chain + [ncl], s);
    assert forall s :: 0 <= s < n && Mine(g, chain, s) ==> Mine(g, chain + [ncl], s) by {
      forall s | 0 <= s < n && Mine(g, chain, s)
        ensures Mine(g, chain + [ncl], s)
      {
        OwnGrows(g, chain, chain + [ncl], s);
      }
    }
  }

  lemma NewIsApart(g: Geometry, chain: seq<nat>, ncl: nat, s: nat)
    requires chain != [] && ncl !in chain && InCluster(g, ncl, s)
    ensures !Mine(g, chain, s)
  {
    if Own(g, chain, s) {
      var k :| 0 <= k < |chain| && InCluster(g, chain[k], s);
      ClustersDisjoint(g, chain[k], ncl, s - Clst2Sect(g, chain[k]), s - Clst2Sect(g, ncl));
    }
  }

  /** A link of a walk: the next cluster, or where the walk ends; a walk below MAX_DIR does not end early. */
  lemma WalkNext(g: Geometry, n: nat, fat: seq<nat>, chain: seq<nat>, k: nat, ofs: nat)
    requires IsWalk(g, n, fat, chain) && k < |chain| && ofs < MAX_DIR
      && (k + 1 >= |chain| ==> ofs / 512 >= Cap(g, chain))
    ensures IsCluster(g, chain[k])
    ensures if k + 1 < |chain| then fat[chain[k]] == chain[k + 1] && IsCluster(g, chain[k + 1])
            else fat[chain[k]] >= g.nFatent || fat[chain[k]] < 2
  {
  }

  lemma ClusterSector(g: Geometry, n: nat, c: nat)
    requires Good(g, n) && IsCluster(g, c)
    ensures Clst2Sect(g, c) > 0
  {
    ClusterInData(g, n, c);
  }

  lemma CountBound(g: Geometry, chain: seq<nat>)
    ensures Count(g, chain) * 32 <= MAX_DIR && (Count(g, chain) * 32 == MAX_DIR ==> Size(g, chain) >= MAX_SECTORS)
  {
  }

  /** An index is in range exactly when its sector is. */
  lemma TableEnd(g: Geometry, n: nat, fat: seq<nat>, chain: seq<nat>, ofs: nat)
    requires IsWalk(g, n, fat, chain) && ofs < MAX_DIR && ofs % 32 == 0
    ensures ofs / 512 < Size(g, chain) <==> ofs / 32 < Count(g, chain)
    ensures chain == [] ==> (ofs / 32 < g.nRootdir <==> ofs / 32 < Count(g, chain))
    ensures ofs / 32 / 16 == ofs / 512 && (chain == [] && ofs / 32 < g.nRootdir ==> g.dirbase > 0)
  {
  }

  /** A directory object on any volume, for any start cluster, whatever the FAT holds: the searches that ask for no more
      than this end on every FAT. */
  method OpenDir(fs: FatFs, sclust: nat) returns (d: Dir)
    requires fs.Valid()
    ensures fresh(d) && d.fs == fs && d.sclust == sclust && (d.Valid() || d.Rootless())
    ensures d.Valid() <==> StartCluster(fs.g, sclust) == 0 || IsCluster(fs.g, StartCluster(fs.g, sclust))
  {
    ghost var chain := AlwaysAWalk(fs, StartCluster(fs.g, sclust));
    d := new Dir(fs, sclust, chain);
  }
}
