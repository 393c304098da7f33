/** The filesystem object FATFS: the one-sector write-back window (ff.c:1362-1488) and the FAT access on it
    (ff.c:1512-1700). The medium is the field `disk`; its reads and writes succeed (diskio.c:66-101). */
module Volume {
  import BootSector
  import opened Bytes
  import opened Geometry
  import opened FatTable

  datatype FResult = FrOk | FrDiskErr | FrIntErr | FrNoFile | FrDenied | FrInvalidName | FrNoFilesystem

  const EOC: nat := 0xFFFF_FFFF

  /** The window over the disk shows the flat disk `view`; a clean window equals its sector on disk.
      The second FAT is written behind the first one and never enters the window. */
  ghost predicate Shows(g: Geometry, disk: seq<Sector>, win: seq<byte>, winsect: nat, wflag: bool, view: seq<Sector>) {
    && |view| == |disk|
    && |win| == 512
    && !InFat2(g, winsect)
    && (wflag ==> winsect < |disk|)
    && (winsect < |disk| ==> view[winsect] == win)
    && (winsect < |disk| && !wflag ==> disk[winsect] == win)
    && forall s :: 0 <= s < |disk| && s != winsect && !InFat2(g, s) ==> view[s] == disk[s]
  }

  /** Every sector of the second FAT equals its first-FAT sector on disk. */
  ghost predicate Mirrored(g: Geometry, disk: seq<Sector>) {
    g.nFats == 2 ==>
      forall s :: g.fatbase <= s < g.fatbase + g.fsize && s + g.fsize < |disk| ==> disk[s + g.fsize] == disk[s]
  }

  /** A run of sectors replaced. */
  function Overlay(d: seq<Sector>, sect: nat, data: seq<Sector>): (r: seq<Sector>)
    requires sect + |data| <= |d|
    ensures |r| == |d|
    ensures forall s :: 0 <= s < |d| ==> r[s] == if sect <= s < sect + |data| then data[s - sect] else d[s]
  {
    d[..sect] + data + d[sect + |data|..]
  }

  function ZeroSector(): Sector {
    seq(512, _ => 0)
  }

  /** The FSInfo sector sync_fs builds (ff.c:1436-1449). */
  function FsInfo(free: nat, last: nat): Sector {
    St32(St32(St32(St32(St32(ZeroSector(), 0, 0x4161_5252), 484, 0x6141_7272), 488, free), 492, last), 508, 0xAA55_0000)
  }

  /** What mount_volume reads from an FSInfo sector (ff.c:4744-4767). */
  function LoadFsInfo(s: Sector): Option<(nat, nat)> {
    if Ld32(s, 0) == 0x4161_5252 && Ld32(s, 484) == 0x6141_7272 && Ld32(s, 508) == 0xAA55_0000
    then Some((Ld32(s, 488), Ld32(s, 492)))
    else None
  }

  /** The allocation hints written by sync_fs are the ones the next mount reads. */
  lemma FsInfoRoundTrip(free: nat, last: nat)
    requires free < DWORD && last < DWORD
    ensures LoadFsInfo(FsInfo(free, last)) == Some((free, last))
  {
    hide St32, Ld32;
    var s1 := St32(ZeroSector(), 0, 0x4161_5252);
    var s2 := St32(s1, 484, 0x6141_7272);
    var s3 := St32(s2, 488, free);
    var s4 := St32(s3, 492, last);
    StoreLoad(ZeroSector(), 0, 0x4161_5252);
    StoreLoad(s1, 484, 0x6141_7272);
    StoreLoad(s2, 488, free);
    StoreLoad(s3, 492, last);
    StoreLoad(s4, 508, 0xAA55_0000);
    SameWord(s1, s2, 0); SameWord(s2, s3, 0); SameWord(s3, s4, 0); SameWord(s4, FsInfo(free, last), 0);
    SameWord(s2, s3, 484); SameWord(s3, s4, 484); SameWord(s4, FsInfo(free, last), 484);
    SameWord(s3, s4, 488); SameWord(s4, FsInfo(free, last), 488);
    SameWord(s4, FsInfo(free, last), 492);
  }

  /** A FAT32 volume whose FSInfo sector is next to the boot sector. */
  predicate HasFsInfo(b: Sector, g: Geometry) { g.fsType.Fat32? && Ld16(b, 48) == 1 }

  /** The window shows no sector. */
  const NO_SECT: nat := 0xFFFF_FFFF

  /** What mount_volume relies on: an accepted boot sector whose layout fits the disk, and an FSInfo sector before the
      FAT. */
  ghost predicate Mountable(disk: seq<Sector>, bsect: nat) {
    && bsect < |disk| && ParseBpb(disk[bsect], bsect).Some?
    && var b, g := disk[bsect], ParseBpb(disk[bsect], bsect).value;
       Good(g, |disk|) && (HasFsInfo(b, g) ==> RsvdSecCnt(b) > 1)
  }

  /** Where the boot sector and the FSInfo sector lie; this one is in front of the FAT exactly if a sector is reserved
      for it. */
  lemma MountedAt(b: Sector, bsect: nat, n: nat)
    requires ParseBpb(b, bsect).Some? && Good(ParseBpb(b, bsect).value, n)
    ensures var g := ParseBpb(b, bsect).value;
            g.volbase == bsect && g.fatbase < n && (bsect + 1 < g.fatbase <==> RsvdSecCnt(b) > 1)
  {
    hide Ld16, Ld32, FatSize, TotalSectors, NumFats, RootEntCnt, SecPerClus, FatBytes, SystemSectors;
    FatInsideDisk(ParseBpb(b, bsect).value, n);
  }

  lemma VolumeBase(b: Sector, bsect: nat)
    requires ParseBpb(b, bsect).Some?
    ensures ParseBpb(b, bsect).value.volbase == bsect
  {
  }

  /** Copies a sector into a buffer, as disk_read and memcpy do. */
  method Fill(a: array<byte>, s: Sector)
    requires a.Length == 512
    modifies a
    ensures a[..] == s
  {
    forall i | 0 <= i < 512 {
      a[i] := s[i];
    }
  }

  class FatFs {
    const g: Geometry
    const win: array<byte>
    var disk: seq<Sector>
    var winsect: nat
    var wflag: bool
    var fsiFlag: nat    // b7: FSInfo disabled, b0: allocation changed
    var lastClst: nat
    var freeClst: nat
    ghost var view: seq<Sector>
    ghost var fat: seq<nat>
    ghost const mirrored: bool  // were the two FATs equal at mount?

    ghost predicate Valid()
      reads this, win
    {
      && win.Length == 512
      && Good(g, |disk|)
      && Shows(g, disk, win[..], winsect, wflag, view)
      && Links(g, view, fat)
      && (mirrored ==> Mirrored(g, disk))
      && (fsiFlag == 0 || fsiFlag == 1 ==> g.fsType.Fat32? ==> g.volbase + 1 < g.fatbase)
      && lastClst < DWORD && freeClst < DWORD
    }

    /** The end of mount_volume (ff.c:4712-4770), once the boot sector is accepted: the geometry, the allocation hints
        of the FSInfo sector if there is one, and a clean window on the sector that was read last; it shows nothing
        after a read past the end of the medium. The volume is sound exactly if the layout fits the medium and the
        FSInfo sector, where it is used, lies before the FAT. */
    constructor (disk: seq<Sector>, bsect: nat)
      requires bsect < |disk| && ParseBpb(disk[bsect], bsect).Some?
      ensures fresh(win) && (Valid() <==> Mountable(disk, bsect))
      ensures Some(g) == ParseBpb(disk[bsect], bsect) && g.volbase == bsect && this.disk == disk && this.view == disk
        && !wflag
      ensures winsect == if !HasFsInfo(disk[bsect], g) then bsect else if bsect + 1 < |disk| then bsect + 1 else NO_SECT
      ensures fsiFlag == if HasFsInfo(disk[bsect], g) && bsect + 1 < |disk| then 0 else 0x80
      ensures Some((freeClst, lastClst)) ==
              if HasFsInfo(disk[bsect], g) && bsect + 1 < |disk| && LoadFsInfo(disk[bsect + 1]).Some?
              then LoadFsInfo(disk[bsect + 1]) else Some((0xFFFF_FFFF, 0xFFFF_FFFF))
      ensures mirrored <==> Mirrored(g, disk)
    {
      hide ParseBpb, Mirrored;
      var b, geo := disk[bsect], ParseBpb(disk[bsect], bsect).value;
      VolumeBase(b, bsect);
      if Good(geo, |disk|) { MountedAt(b, bsect, |disk|); }
      var info := HasFsInfo(b, geo) && bsect + 1 < |disk|;
      var shown := if info then disk[bsect + 1] else b;
      var hints := if info && LoadFsInfo(shown).Some? then LoadFsInfo(shown).value else (0xFFFF_FFFF, 0xFFFF_FFFF);
      this.g := geo;
      this.disk := disk;
      this.winsect, this.wflag := if info then bsect + 1 else if HasFsInfo(b, geo) then NO_SECT else bsect, false;
      this.win := new byte[512](i requires 0 <= i < 512 => shown[i]);
      this.fsiFlag := if info then 0 else 0x80;
      this.freeClst, this.lastClst := hints.0, hints.1;
      this.view := disk;
      this.fat := if Good(geo, |disk|) then Table(geo, disk) else [];
      this.mirrored := Mirrored(geo, disk);
      new;
      assert win[..] == shown;
      if Good(g, |disk|) { FatInsideDisk(g, |disk|); }
    }

    /** sync_window: the window goes to disk, and to the second FAT when it shows a first-FAT sector. */
    method SyncWindow()
      requires Valid()
      modifies `disk, `wflag
      ensures Valid() && !wflag && |disk| == |old(disk)|
      ensures forall s :: 0 <= s < |disk| && !InFat2(g, s) ==> disk[s] == view[s]
    {
      if wflag {
        FatInsideDisk(g, |disk|);
        disk := disk[winsect := win[..]];
        wflag := false;
        if g.fatbase <= winsect < g.fatbase + g.fsize {
          if g.nFats == 2 {
            disk := disk[winsect + g.fsize := win[..]];
          }
        }
      }
    }

    /** move_window: the requested sector appears in the window; the flat disk is unchanged. */
    method MoveWindow(sect: nat)
      requires Valid() && sect < |disk| && !InFat2(g, sect)
      modifies `disk, `winsect, `wflag, win
      ensures Valid() && winsect == sect && win[..] == view[sect] && |disk| == |old(disk)|
      ensures winsect == old(winsect) ==> disk == old(disk) && wflag == old(wflag)
      ensures winsect != old(winsect) ==> !wflag
    {
      if sect != winsect {
        SyncWindow();
        Fill(win, disk[sect]);
        winsect := sect;
      }
    }

    /** Brings the sector of byte i of the first FAT into the window and reads the byte. */
    method PeekFat(i: nat) returns (b: byte)
      requires Valid() && HasByte(g, |disk|, i)
      modifies `disk, `winsect, `wflag, win
      ensures Valid() && |disk| == |old(disk)| && winsect == ByteSect(g, i) && InFat1(g, winsect)
      ensures b == FatByte(g, view, i)
    {
      MoveWindow(ByteSect(g, i));
      b := win[i % 512];
    }

    /** Stores one byte of the first FAT through the window, which shows its sector. */
    method PokeFat(i: nat, b: byte)
      requires Valid() && HasByte(g, |disk|, i) && winsect == ByteSect(g, i)
      modifies `wflag, `view, `fat, win
      ensures Valid() && wflag && win[..] == view[winsect]
      ensures view == SetFatByte(g, old(view), i, b)
    {
      win[i % 512] := b;
      wflag := true;
      view := SetFatByte(g, view, i, b);
      fat := Table(g, view);
    }

    /** st_16 into the window. */
    method Stamp16(off: nat, val: nat)
      requires Valid() && off + 2 <= 512 && winsect < |disk|
      modifies `wflag, `view, `fat, win
      ensures Valid() && wflag
      ensures view == old(view)[winsect := St16(old(view)[winsect], off, val)]
      ensures win[..] == view[winsect]
    {
      win[off], win[off + 1] := ByteOf(val, 0), ByteOf(val, 1);
      wflag := true;
      view := view[winsect := St16(view[winsect], off, val)];
      fat := Table(g, view);
    }

    /** st_32 into the window. */
    method Stamp32(off: nat, val: nat)
      requires Valid() && off + 4 <= 512 && winsect < |disk|
      modifies `wflag, `view, `fat, win
      ensures Valid() && wflag
      ensures view == old(view)[winsect := St32(old(view)[winsect], off, val)]
      ensures win[..] == view[winsect]
    {
      win[off], win[off + 1], win[off + 2], win[off + 3] := ByteOf(val, 0), ByteOf(val, 1), ByteOf(val, 2),
          ByteOf(val, 3);
      wflag := true;
      view := view[winsect := St32(view[winsect], off, val)];
      fat := Table(g, view);
    }

    /** sync_fs: the window is written back; on FAT32 a pending allocation change rewrites the FSInfo sector.
        disk_ioctl reports an error on every call here (diskio.c:103-122), after everything is written. */
    method SyncFs() returns (res: FResult)
      requires Valid()
      modifies `disk, `wflag, `winsect, `fsiFlag, `view, win
      ensures Valid() && !wflag && |disk| == |old(disk)| && res == FrDiskErr
      ensures fsiFlag == if old(fsiFlag) == 1 then 0 else old(fsiFlag)
      ensures forall s :: 0 <= s < |disk| && !InFat2(g, s) ==> disk[s] == view[s]
      ensures forall s :: 0 <= s < |disk| && s != g.volbase + 1 ==> view[s] == old(view)[s]
      ensures if old(fsiFlag) == 1 && g.fsType.Fat32?
              then g.volbase + 1 < |view| && view[g.volbase + 1] == FsInfo(freeClst, lastClst)
                && winsect == g.volbase + 1
              else view == old(view) && winsect == old(winsect)
    {
      SyncWindow();
      if fsiFlag == 1 {
        fsiFlag := 0;
        if g.fsType.Fat32? {
          WriteFsInfo();
        }
      }
      return FrDiskErr;
    }

    /** The FSInfo sector is built in the window and written (ff.c:1436-1449). */
    method WriteFsInfo()
      requires Valid() && !wflag && g.volbase + 1 < g.fatbase
      modifies `disk, `winsect, `view, win
      ensures Valid() && |disk| == |old(disk)| == |view| && winsect == g.volbase + 1 < |view|
      ensures view[g.volbase + 1] == FsInfo(freeClst, lastClst)
      ensures forall s :: 0 <= s < |disk| && s != g.volbase + 1 ==> disk[s] == old(disk)[s] && view[s] == old(view)[s]
      ensures disk[g.volbase + 1] == view[g.volbase + 1]
    {
      hide FsInfo;
      FatInsideDisk(g, |disk|);
      Fill(win, FsInfo(freeClst, lastClst));
      winsect := g.volbase + 1;
      disk := disk[winsect := win[..]];
      ghost var before := view;
      view := view[winsect := win[..]];
      LinksFrame(g, before, view, fat);
    }

    /** New bytes for a sector in the window that is no FAT sector; the window becomes dirty. */
    method StoreWindow(t: Sector)
      requires Valid() && winsect < |disk| && !InFat1(g, winsect)
      modifies `wflag, `view, win
      ensures Valid() && wflag && view == old(view)[winsect := t] && win[..] == t
    {
      Fill(win, t);
      wflag := true;
      ghost var before := view;
      view := view[winsect := t];
      LinksFrame(g, before, view, fat);
    }

    /** disk_write of whole sectors into the data area, past the window. */
    method WriteData(sect: nat, data: seq<Sector>)
      requires Valid() && g.database <= sect && sect + |data| <= |disk|
      requires !(sect <= winsect < sect + |data|)
      modifies `disk, `view
      ensures Valid() && disk == Overlay(old(disk), sect, data) && view == Overlay(old(view), sect, data)
    {
      ClusterInData(g, |disk|, 2);
      disk := Overlay(disk, sect, data);
      ghost var before := view;
      view := Overlay(view, sect, data);
      LinksFrame(g, before, view, fat);
    }

    // get_fat, one method for each entry width.

    method GetFat12(clst: nat) returns (val: nat)
      requires Valid() && IsCluster(g, clst) && g.fsType.Fat12?
      modifies `disk, `winsect, `wflag, win
      ensures Valid() && |disk| == |old(disk)| && val == fat[clst] && InFat1(g, winsect)
    {
      EntryPlace(g, |disk|, clst);
      hide Shows, Good, Mirrored, Dec12, HasByte, Ofs12, FatByte, InFat1;
      var bc := Ofs12(clst);
      var b0 := PeekFat(bc);
      var b1 := PeekFat(bc + 1);
      val := Dec12(b0, b1, clst % 2 == 1);
    }

    method GetFat16(clst: nat) returns (val: nat)
      requires Valid() && IsCluster(g, clst) && g.fsType.Fat16?
      modifies `disk, `winsect, `wflag, win
      ensures Valid() && |disk| == |old(disk)| && val == fat[clst] && InFat1(g, winsect)
    {
      EntryPlace(g, |disk|, clst);
      FatsApart(g);
      hide Shows, Good, Mirrored, Ld16, Sect16, Ofs16;
      MoveWindow(Sect16(g, clst));
      val := Ld16(win[..], Ofs16(clst));
    }

    method GetFat32(clst: nat) returns (val: nat)
      requires Valid() && IsCluster(g, clst) && g.fsType.Fat32?
      modifies `disk, `winsect, `wflag, win
      ensures Valid() && |disk| == |old(disk)| && val == fat[clst] && InFat1(g, winsect)
    {
      EntryPlace(g, |disk|, clst);
      FatsApart(g);
      hide Shows, Good, Mirrored, Ld32, Sect32, Ofs32;
      MoveWindow(Sect32(g, clst));
      val := Ld32(win[..], Ofs32(clst)) % 0x1000_0000;
    }

    /** get_fat: the link of a cluster, 1 when the cluster number is out of range. */
    method GetFat(clst: nat) returns (val: nat)
      requires Valid()
      modifies `disk, `winsect, `wflag, win
      ensures Valid() && |disk| == |old(disk)|
      ensures val == if IsCluster(g, clst) then fat[clst] else 1
      ensures if IsCluster(g, clst) then InFat1(g, winsect) else winsect == old(winsect) && disk == old(disk)
    {
      if IsCluster(g, clst) {
        match g.fsType {
          case Fat12 => val := GetFat12(clst);
          case Fat16 => val := GetFat16(clst);
          case Fat32 => val := GetFat32(clst);
        }
      } else {
        val := 1;
      }
    }

    // put_fat, one method for each entry width.

    method PutFat12(i: nat, val: nat, odd: bool)
      requires Valid() && HasByte(g, |disk|, i) && HasByte(g, |disk|, i + 1)
      modifies `disk, `winsect, `wflag, `view, `fat, win
      ensures Valid() && |disk| == |old(disk)| && InFat1(g, winsect)
      ensures |view| == |old(view)| == |disk| && view == Put12Bytes(g, old(view), i, val, odd)
    {
      assert |view| == |disk|;
      hide Valid, Lo12, Hi12, HasByte, SetFatByte, FatByte, InFat1, ByteSect;
      var b0 := PeekFat(i);
      PokeFat(i, Lo12(b0, val, odd));
      var b1 := PeekFat(i + 1);
      PokeFat(i + 1, Hi12(b1, val, odd));
    }

    method PutFat16(clst: nat, val: nat)
      requires Valid() && IsCluster(g, clst) && g.fsType.Fat16?
      modifies `disk, `winsect, `wflag, `view, `fat, win
      ensures Valid() && |disk| == |old(disk)| && InFat1(g, winsect)
      ensures view == PutEntry(g, old(view), clst, val)
    {
      EntryPlace(g, |disk|, clst);
      FatsApart(g);
      hide Shows, Good, Mirrored, Links, Entry, St16, Sect16, Ofs16, InFat1;
      MoveWindow(Sect16(g, clst));
      Stamp16(Ofs16(clst), val);
    }

    method PutFat32(clst: nat, val: nat)
      requires Valid() && IsCluster(g, clst) && g.fsType.Fat32?
      modifies `disk, `winsect, `wflag, `view, `fat, win
      ensures Valid() && |disk| == |old(disk)| && InFat1(g, winsect)
      ensures view == PutEntry(g, old(view), clst, val)
    {
      EntryPlace(g, |disk|, clst);
      FatsApart(g);
      hide Shows, Good, Mirrored, Links, Entry, Ld32, St32, Sect32, Ofs32, InFat1;
      MoveWindow(Sect32(g, clst));
      Stamp32(Ofs32(clst), val % 0x1000_0000 + Ld32(win[..], Ofs32(clst)) / 0x1000_0000 * 0x1000_0000);
    }

    /** put_fat: the link is set modulo the entry width, every other link stays. */
    method PutFat(clst: nat, val: nat) returns (res: FResult)
      requires Valid()
      modifies `disk, `winsect, `wflag, `view, `fat, win
      ensures Valid() && |disk| == |old(disk)|
      ensures res == if IsCluster(g, clst) then FrOk else FrIntErr
      ensures IsCluster(g, clst) ==>
                && fat == old(fat)[clst := val % EntryLimit(g.fsType)]
                && view == PutEntry(g, old(view), clst, val)
                && InFat1(g, winsect)
      ensures forall s :: 0 <= s < |disk| && !InFat1(g, s) ==> view[s] == old(view)[s]
      ensures !IsCluster(g, clst) ==>
                fat == old(fat) && view == old(view) && winsect == old(winsect) && disk == old(disk)
    {
      if !IsCluster(g, clst) {
        return FrIntErr;
      }
      LinksPut(g, view, fat, clst, val);
      PutEntryFrame(g, view, clst, val);
      EntryPlace(g, |disk|, clst);
      hide Shows, Good, Mirrored, Entry, Links, Put12Bytes, HasByte, St16, St32;
      match g.fsType {
        case Fat12 => PutFat12(Ofs12(clst), val, clst % 2 == 1);
        case Fat16 => PutFat16(clst, val);
        case Fat32 => PutFat32(clst, val);
      }
      return FrOk;
    }
  }

  lemma FatsApart(g: Geometry)
    ensures forall s: nat :: InFat1(g, s) ==> !InFat2(g, s)
  {
  }

  /** The sizes a valid volume fixes. */
  lemma ValidSizes(fs: FatFs)
    requires fs.Valid()
    ensures |fs.fat| == fs.g.nFatent >= 3 && |fs.view| == |fs.disk| && fs.win.Length == 512
  {
  }

  /** mount_volume's FAT branch (ff.c:4652-4770): a boot sector it does not accept is no filesystem. */
  method MountVolume(disk: seq<Sector>, bsect: nat) returns (res: FResult, fs: FatFs?)
    requires bsect < |disk|
    ensures res == if BootSector.IsFat(disk[bsect]) then FrOk else FrNoFilesystem
    ensures res == FrOk <==> ParseBpb(disk[bsect], bsect).Some?
    ensures fs != null ==> BootSector.Describes(disk[bsect], fs.g.fsType)
    ensures res == FrOk <==> fs != null
    ensures fs != null ==> fresh(fs) && fresh(fs.win) && ParseBpb(disk[bsect], bsect) == Some(fs.g)
    ensures fs != null ==> (fs.Valid() <==> Mountable(disk, bsect))
    ensures fs != null ==> fs.disk == disk && fs.view == disk && !fs.wflag
    ensures fs != null && HasFsInfo(disk[bsect], fs.g) && bsect + 1 < |disk| ==>
              fs.fsiFlag == 0 && (LoadFsInfo(disk[bsect + 1]).Some? ==>
                                    LoadFsInfo(disk[bsect + 1]) == Some((fs.freeClst, fs.lastClst)))
  {
    hide ParseBpb, FatFs.Valid, Mountable, BootSector.Describes, BootSector.IsFat;
    BootSector.AcceptedAtAll(disk[bsect], bsect);
    if ParseBpb(disk[bsect], bsect).None? {
      return FrNoFilesystem, null;
    }
    fs := new FatFs(disk, bsect);
    res := FrOk;
  }
}
