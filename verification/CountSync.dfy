/** The free cluster count across sync_fs and a fresh mount (ff.c:1418-1450, ff.c:4744-4767, ff.c:6506-6612). */
module CountSync {
  import opened Bytes
  import opened Geometry
  import opened FatTable
  import opened Volume
  import opened Chain
  import opened FreeCount
  import opened FileState
  import opened File
  import opened FileRuns
  import opened OpenFiles
  import Reopen

  ghost function CountOf(s: Sector): Option<nat> {
    if LoadFsInfo(s).Some? then Some(LoadFsInfo(s).value.0) else None
  }

  /** The FSInfo sector is in use and holds the cached count, unless a change is marked. */
  ghost predicate Counted(fs: FatFs)
    reads fs
  {
    && fs.g.fsType.Fat32? && (fs.fsiFlag == 0 || fs.fsiFlag == 1) && fs.freeClst + 2 <= fs.g.nFatent
    && fs.g.volbase + 1 < fs.g.fatbase && fs.g.volbase + 1 < |fs.view|
    && (fs.fsiFlag == 0 ==> CountOf(fs.view[fs.g.volbase + 1]) == Some(fs.freeClst))
  }

  /** Calls that mark what they change keep it so. */
  lemma StillCounted(g: Geometry, v: seq<Sector>, v': seq<Sector>, flag: nat, free: nat, flag': nat, free': nat)
    requires FrontKept(g, v, v') && g.volbase + 1 < g.fatbase && g.volbase + 1 < |v|
    requires Noted(g.nFatent, flag, free, flag', free') && (flag == 0 || flag == 1) && free + 2 <= g.nFatent
    requires flag == 0 ==> CountOf(v[g.volbase + 1]) == Some(free)
    ensures (flag' == 0 || flag' == 1) && free' + 2 <= g.nFatent
    ensures flag' == 0 ==> CountOf(v'[g.volbase + 1]) == Some(free')
  {
  }

  /** sync_fs and a fresh mount of the disk from its boot sector: the mount has the links of the volume, and its count
      is the cached one. */
  method SyncAndCount(fs: FatFs) returns (again: FatFs)
    requires fs.Valid() && Counted(fs) && Reopen.Booted(fs) && HasFsInfo(fs.view[fs.g.volbase], fs.g)
    modifies fs, fs.win
    ensures fs.Valid() && fs.fat == old(fs.fat) && fs.freeClst == old(fs.freeClst)
    ensures fresh(again) && fresh(again.win) && again.Valid() && again.g == fs.g && again.fat == fs.fat
    ensures again.freeClst == fs.freeClst && Counted(again)
  {
    hide FatFs.Valid, Good, ParseBpb, HasFsInfo, RsvdSecCnt, LoadFsInfo, FsInfo, InFat1, InFat2;
    VolumeParts(fs);
    BootNoFat(fs.g, |fs.disk|, []);
    ghost var v := fs.view;
    FsInfoRoundTrip(fs.freeClst, fs.lastClst);
    var res := fs.SyncFs();
    VolumeParts(fs);
    var m;
    res, m := MountVolume(fs.disk, fs.g.volbase);
    again := m;
    Reopen.TableIs(again);
    SameTable(fs.g, fs.view, fs.disk);
    VolumeParts(again);
  }

  lemma VolumeParts(fs: FatFs)
    requires fs.Valid()
    ensures Good(fs.g, |fs.disk|) && |fs.view| == |fs.disk| && fs.fat == Table(fs.g, fs.view)
    ensures fs.freeClst < DWORD && fs.lastClst < DWORD && fs.g.volbase + 1 <= fs.g.fatbase < |fs.disk|
    ensures fs.g.volbase + 1 < fs.g.fatbase ==> !InFat2(fs.g, fs.g.volbase + 1)
  {
    FatInsideDisk(fs.g, |fs.disk|);
  }

  /** The links depend on the first FAT only. */
  lemma SameTable(g: Geometry, v: seq<Sector>, w: seq<Sector>)
    requires Good(g, |v|) && |w| == |v| && forall s :: 0 <= s < |v| && !InFat2(g, s) ==> w[s] == v[s]
    ensures Table(g, w) == Table(g, v)
  {
    hide Good, Entry, InFat1, InFat2;
    FatsApart(g);
    LinksFrame(g, v, w, Table(g, v));
  }

  /** Any sequence of calls on the open files of a FAT32 volume with an FSInfo sector and an accurate count, sync_fs and
      a fresh mount: the count of the mount, and what f_getfree reports on it, is the number of free clusters. */
  method RunSyncMount(fs: FatFs, files: seq<File>, script: seq<Turn>) returns (again: FatFs, free: nat)
    requires fs.Valid() && AllUsable(fs, files) && Accurate(fs.freeClst, fs.fat)
    requires Counted(fs) && Reopen.Booted(fs) && HasFsInfo(fs.view[fs.g.volbase], fs.g)
    requires forall k :: 0 <= k < |script| ==> script[k].file < |files| && Feasible(script[k].op)
    modifies fs, fs.win, files, set j | 0 <= j < |files| :: files[j].buf
    ensures fs.Valid() && fresh(again) && again.Valid() && again.fat == fs.fat && Counted(again)
    ensures again.freeClst == free == |Free(fs.fat)|
  {
    hide FatFs.Valid, Good, ParseBpb, HasFsInfo, RsvdSecCnt, LoadFsInfo, InFat1, InFat2, AllUsable, Feasible, Free,
      AllOpen, AllStrangers, TurnStep, Noted;
    VolumeParts(fs);
    ghost var g, v, flag, count := fs.g, fs.view, fs.fsiFlag, fs.freeClst;
    var outs;
    ghost var trace;
    outs, trace := OpenFiles.Run(fs, files, script);
    VolumeParts(fs);
    StillCounted(g, v, fs.view, flag, count, fs.fsiFlag, fs.freeClst);
    again := SyncAndCount(fs);
    ValidSizes(fs);
    var res;
    res, free := GetFree(again);
  }
}
