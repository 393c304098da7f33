/** f_getfree (ff.c:6506-6612): the cached free count against a full scan of the FAT. */
module FreeCount {
  import opened Bytes
  import opened Geometry
  import opened FatTable
  import opened Volume
  import opened Chain

  /** The number of zero links among entries lo..hi-1. */
  ghost function Zeros(fat: seq<nat>, lo: nat, hi: nat): nat
    requires hi <= |fat|
    decreases hi
  {
    if hi <= lo then 0 else Zeros(fat, lo, hi - 1) + if fat[hi - 1] == 0 then 1 else 0
  }

  lemma ZerosStep(fat: seq<nat>, lo: nat, k: nat)
    requires lo <= k < |fat|
    ensures Zeros(fat, lo, k + 1) == Zeros(fat, lo, k) + if fat[k] == 0 then 1 else 0
  {
  }

  /** Counting zero links from entry 2 on gives the size of the free set. */
  lemma {:induction false} ZerosAreFree(fat: seq<nat>, hi: nat)
    requires 2 <= hi <= |fat|
    ensures Zeros(fat, 2, hi) == |Free(fat[..hi])|
    decreases hi
  {
    if hi == 2 {
      assert Free(fat[..hi]) == {};
    } else {
      ZerosAreFree(fat, hi - 1);
      var c: nat := hi - 1;
      assert Free(fat[..hi]) == Free(fat[..hi - 1]) + if fat[hi - 1] == 0 then {c} else {};
    }
  }

  /** The two reserved entries in front are counted as well when they are zero. */
  lemma {:induction false} ZerosFromStart(fat: seq<nat>, hi: nat)
    requires 2 <= hi <= |fat|
    ensures Zeros(fat, 0, hi) == Zeros(fat, 2, hi) + (if fat[0] == 0 then 1 else 0) + (if fat[1] == 0 then 1 else 0)
    decreases hi
  {
    if hi == 2 {
      assert Zeros(fat, 0, 1) == if fat[0] == 0 then 1 else 0;
    } else {
      ZerosFromStart(fat, hi - 1);
    }
  }

  /** FAT12: entry by entry through get_fat. A link with the value 1 stops the scan. */
  method ScanFat12(fs: FatFs) returns (res: FResult, nfree: nat)
    requires fs.Valid() && fs.g.fsType.Fat12?
    modifies fs`disk, fs`winsect, fs`wflag, fs.win
    ensures fs.Valid() && |fs.disk| == |old(fs.disk)|
    ensures res == if 1 in fs.fat[2..] then FrIntErr else FrOk
    ensures res == FrOk ==> nfree == |Free(fs.fat)|
  {
    hide FatFs.Valid, Good, InFat1;
    ValidSizes(fs);
    nfree := 0;
    var clst := 2;
    ghost var n := |fs.disk|;
    assert Zeros(fs.fat, 2, 2) == 0;
    hide Zeros, Free;
    while true
      invariant fs.Valid() && |fs.disk| == n && 2 <= clst < fs.g.nFatent
      invariant forall c :: 2 <= c < clst ==> fs.fat[c] != 1
      invariant nfree == Zeros(fs.fat, 2, clst)
      decreases fs.g.nFatent - clst
    {
      ZerosStep(fs.fat, 2, clst);
      var stat := fs.GetFat(clst);
      if stat == 1 {
        assert fs.fat[2..][clst - 2] == 1;
        return FrIntErr, nfree;
      }
      if stat == 0 {
        nfree := nfree + 1;
      }
      clst := clst + 1;
      if clst >= fs.g.nFatent {
        break;
      }
    }
    ZerosAreFree(fs.fat, |fs.fat|);
    assert fs.fat[..|fs.fat|] == fs.fat;
    res := FrOk;
  }

  /** The sector and offset of entry k in a FAT16 or FAT32 table. */
  function SectOf(g: Geometry, k: nat): nat {
    if g.fsType.Fat16? then Sect16(g, k) else Sect32(g, k)
  }

  function OfsOf(g: Geometry, k: nat): nat {
    if g.fsType.Fat16? then Ofs16(k) else Ofs32(k)
  }

  function Width(g: Geometry): nat {
    if g.fsType.Fat16? then 2 else 4
  }

  /** The next entry is in the same sector, or at the start of the next one. */
  lemma NextEntry(g: Geometry, k: nat)
    requires !g.fsType.Fat12?
    ensures OfsOf(g, k + 1) == (OfsOf(g, k) + Width(g)) % 512
    ensures SectOf(g, k + 1) == if OfsOf(g, k + 1) == 0 then SectOf(g, k) + 1 else SectOf(g, k)
    ensures OfsOf(g, 0) == 0 && SectOf(g, 0) == g.fatbase
  {
    Next16(g, k);
    Next32(g, k);
  }

  lemma Next16(g: Geometry, k: nat)
    ensures Ofs16(k + 1) == (Ofs16(k) + 2) % 512
    ensures Sect16(g, k + 1) == if Ofs16(k + 1) == 0 then Sect16(g, k) + 1 else Sect16(g, k)
  {
    var q, r := k / 256, k % 256;
    DivModOf(k * 2, 512, q, 2 * r);
    if r == 255 {
      DivModOf(k + 1, 256, q + 1, 0);
      DivModOf((k + 1) * 2, 512, q + 1, 0);
    } else {
      DivModOf(k + 1, 256, q, r + 1);
      DivModOf((k + 1) * 2, 512, q, 2 * r + 2);
    }
  }

  lemma Next32(g: Geometry, k: nat)
    ensures Ofs32(k + 1) == (Ofs32(k) + 4) % 512
    ensures Sect32(g, k + 1) == if Ofs32(k + 1) == 0 then Sect32(g, k) + 1 else Sect32(g, k)
  {
    var q, r := k / 128, k % 128;
    DivModOf(k * 4, 512, q, 4 * r);
    if r == 127 {
      DivModOf(k + 1, 128, q + 1, 0);
      DivModOf((k + 1) * 4, 512, q + 1, 0);
    } else {
      DivModOf(k + 1, 128, q, r + 1);
      DivModOf((k + 1) * 4, 512, q, 4 * r + 4);
    }
  }

  /** One entry in the window is free exactly when its link is 0 (ff.c:6576-6593). */
  method EntryIsFree(fs: FatFs, i: nat, ghost k: nat) returns (free: bool)
    requires fs.Valid() && !fs.g.fsType.Fat12? && k < fs.g.nFatent
    requires fs.winsect == SectOf(fs.g, k) && i == OfsOf(fs.g, k)
    ensures free <==> fs.fat[k] == 0
  {
    EntryPlace(fs.g, |fs.disk|, k);
    if fs.g.fsType.Fat16? {
      free := Ld16(fs.win[..], i) == 0;
    } else {
      free := Ld32(fs.win[..], i) % 0x1000_0000 == 0;
    }
  }

  /** FAT16/32: sector by sector, from entry 0. */
  method ScanSectors(fs: FatFs) returns (nfree: nat)
    requires fs.Valid() && !fs.g.fsType.Fat12?
    modifies fs`disk, fs`winsect, fs`wflag, fs.win
    ensures fs.Valid() && |fs.disk| == |old(fs.disk)|
    ensures nfree == |Free(fs.fat)| + (if fs.fat[0] == 0 then 1 else 0) + (if fs.fat[1] == 0 then 1 else 0)
  {
    hide FatFs.Valid, Good;
    ValidSizes(fs);
    ghost var n := |fs.disk|;
    ghost var k := 0;
    nfree := 0;
    var clst := fs.g.nFatent;
    var sect := fs.g.fatbase;
    var i := 0;
    NextEntry(fs.g, 0);
    assert Zeros(fs.fat, 0, 0) == 0;
    hide SectOf, OfsOf, Zeros, Free;
    while true
      invariant fs.Valid() && |fs.disk| == n && 0 < clst <= fs.g.nFatent && k == fs.g.nFatent - clst
      invariant i == OfsOf(fs.g, k)
      invariant if i == 0 then sect == SectOf(fs.g, k) else fs.winsect == SectOf(fs.g, k) && sect == fs.winsect + 1
      invariant nfree == Zeros(fs.fat, 0, k)
      decreases clst
    {
      NextEntry(fs.g, k);
      ZerosStep(fs.fat, 0, k);
      if i == 0 {
        SectOfInFat(fs, k);
        fs.MoveWindow(sect);
        sect := sect + 1;
      }
      var free := EntryIsFree(fs, i, k);
      if free {
        nfree := nfree + 1;
      }
      i := (i + Width(fs.g)) % 512;
      clst := clst - 1;
      k := k + 1;
      if clst == 0 {
        break;
      }
    }
    ZerosFromStart(fs.fat, |fs.fat|);
    ZerosAreFree(fs.fat, |fs.fat|);
    assert fs.fat[..|fs.fat|] == fs.fat;
  }

  lemma SectOfInFat(fs: FatFs, k: nat)
    requires fs.Valid() && !fs.g.fsType.Fat12? && k < fs.g.nFatent
    ensures SectOf(fs.g, k) < |fs.disk| && !InFat2(fs.g, SectOf(fs.g, k))
  {
    EntryPlace(fs.g, |fs.disk|, k);
  }

  /** f_getfree: a count in range is returned as it is; otherwise the FAT is scanned and the count stored.
      On FAT16/32 the stored count is accurate exactly when the reserved entries 0 and 1 are not zero. */
  method GetFree(fs: FatFs) returns (res: FResult, nclst: nat)
    requires fs.Valid()
    modifies fs`disk, fs`winsect, fs`wflag, fs`freeClst, fs`fsiFlag, fs.win
    ensures fs.Valid() && |fs.disk| == |old(fs.disk)|
    ensures old(fs.freeClst) <= fs.g.nFatent - 2 ==> res == FrOk && nclst == fs.freeClst == old(fs.freeClst)
    ensures res == FrOk <==> old(fs.freeClst) <= fs.g.nFatent - 2 || !(fs.g.fsType.Fat12? && 1 in fs.fat[2..])
    ensures res == FrOk && old(fs.freeClst) > fs.g.nFatent - 2 ==>
              && nclst == fs.freeClst
              && (nclst == |Free(fs.fat)| <==> fs.g.fsType.Fat12? || (fs.fat[0] != 0 && fs.fat[1] != 0))
    ensures fs.fsiFlag / 2 == old(fs.fsiFlag) / 2
    ensures if res == FrOk && old(fs.freeClst) > fs.g.nFatent - 2 then fs.fsiFlag % 2 == 1
            else fs.fsiFlag == old(fs.fsiFlag)
    ensures res == FrOk && old(Accurate(fs.freeClst, fs.fat)) && fs.fat[0] != 0 && fs.fat[1] != 0 ==>
              nclst == |Free(fs.fat)|
  {
    assert |fs.fat| == fs.g.nFatent;
    res := FrOk;
    if fs.freeClst <= fs.g.nFatent - 2 {
      return FrOk, fs.freeClst;
    }
    if fs.g.fsType.Fat12? {
      res, nclst := ScanFat12(fs);
    } else {
      nclst := ScanSectors(fs);
    }
    if res == FrOk {
      FreeBound(fs.fat);
      fs.freeClst := nclst;
      fs.fsiFlag := SetDirty(fs.fsiFlag);
    }
  }
}
