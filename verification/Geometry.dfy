/** Volume geometry: the FAT branch of mount_volume (ff.c:4652-4742) and clst2sect (ff.c:1496-1506). */
module Geometry {
  import opened Bytes

  datatype FsType = Fat12 | Fat16 | Fat32

  datatype Geometry = Geometry(
    fsType: FsType,
    volbase: nat,   // volume start sector
    fatbase: nat,   // first FAT start sector
    fsize: nat,     // sectors per FAT
    nFats: nat,     // 1 or 2
    csize: nat,     // sectors per cluster
    nRootdir: nat,  // root directory entries (FAT12/16)
    dirbase: nat,   // root directory sector (FAT12/16) or cluster (FAT32)
    database: nat,  // first data sector
    nFatent: nat    // number of clusters + 2
  )

  datatype Option<+T> = None | Some(value: T)

  const MAX_FAT12: nat := 0xFF5
  const MAX_FAT16: nat := 0xFFF5
  const MAX_FAT32: nat := 0x0FFF_FFF5
  const DWORD: nat := 0x1_0000_0000

  predicate PowerOfTwo(c: nat) {
    c in {1, 2, 4, 8, 16, 32, 64, 128}
  }

  /** Entries are read modulo this (12, 16 or 28 bits). */
  function EntryLimit(t: FsType): (r: nat)
    ensures r > 0
  {
    match t
    case Fat12 => 0x1000
    case Fat16 => 0x1_0000
    case Fat32 => 0x1000_0000
  }

  /** The number of FAT bytes that n entries need, as mount_volume computes it (ff.c:4714-4727). */
  function FatBytes(t: FsType, n: nat): nat {
    match t
    case Fat12 => n * 3 / 2 + n % 2
    case Fat16 => n * 2
    case Fat32 => n * 4
  }

  function RootSectors(g: Geometry): nat {
    g.nRootdir / 16
  }

  /** The layout every access below relies on: reserved, FAT, root and data areas follow each other
      and end inside a medium of n sectors; the first FAT holds every entry. */
  ghost predicate Good(g: Geometry, n: nat) {
    && g.volbase < g.fatbase
    && (g.nFats == 1 || g.nFats == 2)
    && PowerOfTwo(g.csize)
    && 3 <= g.nFatent
    && g.nFatent - 2 <= (match g.fsType case Fat12 => MAX_FAT12 case Fat16 => MAX_FAT16 case Fat32 => MAX_FAT32)
    && g.fatbase + g.nFats * g.fsize + RootSectors(g) == g.database
    && (g.fsType.Fat32? ==> g.nRootdir == 0)
    && (!g.fsType.Fat32? ==> g.nRootdir > 0 && g.nRootdir % 16 == 0 && g.dirbase == g.fatbase + g.nFats * g.fsize)
    && g.database + (g.nFatent - 2) * g.csize <= n < DWORD
    && FatBytes(g.fsType, g.nFatent) <= g.fsize * 512
  }

  // Boot sector fields (ff.c:108-150).
  function BytsPerSec(b: Sector): nat { Ld16(b, 11) }
  function SecPerClus(b: Sector): nat { b[13] }
  function RsvdSecCnt(b: Sector): nat { Ld16(b, 14) }
  function NumFats(b: Sector): nat { b[16] }
  function RootEntCnt(b: Sector): nat { Ld16(b, 17) }
  function FatSize(b: Sector): nat { if Ld16(b, 22) == 0 then Ld32(b, 36) else Ld16(b, 22) }
  function TotalSectors(b: Sector): nat { if Ld16(b, 19) == 0 then Ld32(b, 32) else Ld16(b, 19) }
  function RootClus32(b: Sector): nat { Ld32(b, 44) }
  function FsVer32(b: Sector): nat { Ld16(b, 42) }

  /** sysect, in the 32-bit arithmetic of the source. */
  function SystemSectors(b: Sector): (r: nat)
    ensures r < DWORD
  {
    var fasize := FatSize(b) * NumFats(b) % DWORD;
    (RsvdSecCnt(b) + fasize + RootEntCnt(b) / 16) % DWORD
  }

  function SubType(nclst: nat): Option<FsType> {
    if nclst <= MAX_FAT12 then Some(Fat12)
    else if nclst <= MAX_FAT16 then Some(Fat16)
    else if nclst <= MAX_FAT32 then Some(Fat32)
    else None
  }

  /** The FAT branch of mount_volume: None is FR_NO_FILESYSTEM. Every sum is taken modulo 2^32, as in the source. */
  function ParseBpb(b: Sector, bsect: nat): Option<Geometry> {
    if BytsPerSec(b) != 512 then None
    else if NumFats(b) != 1 && NumFats(b) != 2 then None
    else if !PowerOfTwo(SecPerClus(b)) then None
    else if RootEntCnt(b) % 16 != 0 then None
    else if RsvdSecCnt(b) == 0 then None
    else if TotalSectors(b) < SystemSectors(b) then None
    else
      var nclst := (TotalSectors(b) - SystemSectors(b)) / SecPerClus(b);
      if nclst == 0 then None
      else match SubType(nclst)
        case None => None
        case Some(t) =>
          var fatbase := (bsect + RsvdSecCnt(b)) % DWORD;
          var fasize := FatSize(b) * NumFats(b) % DWORD;
          if t.Fat32? && (FsVer32(b) != 0 || RootEntCnt(b) != 0) then None
          else if !t.Fat32? && RootEntCnt(b) == 0 then None
          else
            var dirbase := if t.Fat32? then RootClus32(b) else (fatbase + fasize) % DWORD;
            if FatSize(b) < (FatBytes(t, nclst + 2) + 511) / 512 then None
            else Some(Geometry(t, bsect, fatbase, FatSize(b), NumFats(b), SecPerClus(b), RootEntCnt(b),
                               dirbase, (bsect + SystemSectors(b)) % DWORD, nclst + 2))
  }

  /** What a caller can check on the boot sector before trusting the mount: no 32-bit sum wraps. */
  predicate NoWrap(b: Sector, bsect: nat) {
    && RsvdSecCnt(b) + FatSize(b) * NumFats(b) + RootEntCnt(b) / 16 < DWORD
    && bsect + TotalSectors(b) < DWORD
  }

  /** An accepted boot sector yields the good layout exactly when no 32-bit sum wraps. */
  lemma MountGeometry(b: Sector, bsect: nat)
    requires ParseBpb(b, bsect).Some? && bsect < DWORD
    ensures Good(ParseBpb(b, bsect).value, bsect + TotalSectors(b)) <==> NoWrap(b, bsect)
  {
    if NoWrap(b, bsect) {
      NoWrapIsGood(b, bsect);
    }
    if Good(ParseBpb(b, bsect).value, bsect + TotalSectors(b)) {
      GoodDoesNotWrap(b, bsect);
    }
  }

  lemma NoWrapIsGood(b: Sector, bsect: nat)
    requires ParseBpb(b, bsect).Some? && NoWrap(b, bsect)
    ensures Good(ParseBpb(b, bsect).value, bsect + TotalSectors(b))
  {
    hide Ld16, Ld32, FatSize, TotalSectors, RsvdSecCnt, NumFats, RootEntCnt, SecPerClus, FatBytes, SystemSectors;
    var g := ParseBpb(b, bsect).value;
    NoWrapSums(b, bsect);
    DivMulBound(TotalSectors(b) - SystemSectors(b), g.csize);
    CeilingCovers(FatBytes(g.fsType, g.nFatent), g.fsize);
  }

  /** The sums mount_volume takes, when none of them wraps. */
  lemma NoWrapSums(b: Sector, bsect: nat)
    requires NoWrap(b, bsect)
    ensures var fa := NumFats(b) * FatSize(b);
            && FatSize(b) * NumFats(b) % DWORD == fa && SystemSectors(b) == RsvdSecCnt(b) + fa + RootEntCnt(b) / 16
            && (TotalSectors(b) >= SystemSectors(b) ==>
                 && (bsect + RsvdSecCnt(b)) % DWORD == bsect + RsvdSecCnt(b)
                 && (bsect + RsvdSecCnt(b) + fa) % DWORD == bsect + RsvdSecCnt(b) + fa
                 && (bsect + SystemSectors(b)) % DWORD == bsect + SystemSectors(b))
  {
    hide Ld16, Ld32, FatSize, TotalSectors, RsvdSecCnt, NumFats, RootEntCnt;
    var fa := FatSize(b) * NumFats(b);
    assert fa == NumFats(b) * FatSize(b) && fa >= 0;
    SmallMod(fa);
    SmallMod(RsvdSecCnt(b) + fa + RootEntCnt(b) / 16);
    if TotalSectors(b) >= SystemSectors(b) {
      SmallMod(bsect + RsvdSecCnt(b));
      SmallMod(bsect + RsvdSecCnt(b) + fa);
      SmallMod(bsect + SystemSectors(b));
    }
  }

  lemma GoodDoesNotWrap(b: Sector, bsect: nat)
    requires ParseBpb(b, bsect).Some? && bsect < DWORD
    requires Good(ParseBpb(b, bsect).value, bsect + TotalSectors(b))
    ensures NoWrap(b, bsect)
  {
    var g := ParseBpb(b, bsect).value;
    WrapDropsBelow(bsect, RsvdSecCnt(b));
    FitsBelow(g.fatbase, g.nFats, g.fsize, RootSectors(g), (g.nFatent - 2) * g.csize, bsect + TotalSectors(b));
    assert FatSize(b) * NumFats(b) == g.nFats * g.fsize;
  }

  /** A wrapped 16-bit offset lands below its base. */
  lemma WrapDropsBelow(base: nat, k: nat)
    requires base < DWORD && 0 < k < 0x1_0000
    ensures base < (base + k) % DWORD ==> (base + k) % DWORD == base + k
  {
  }

  lemma FitsBelow(base: nat, nf: nat, fsize: nat, root: nat, data: int, n: nat)
    requires base + nf * fsize + root + data <= n < DWORD && data >= 0
    ensures base + fsize * nf + root < DWORD
  {
  }

  lemma SmallMod(x: nat)
    requires x < DWORD
    ensures x % DWORD == x
  {
  }

  lemma DivMulBound(x: nat, d: nat)
    requires d > 0
    ensures x / d * d <= x
  {
  }

  lemma CeilingCovers(need: nat, sectors: nat)
    requires (need + 511) / 512 <= sectors
    ensures need <= sectors * 512
  {
  }

  /** A boot sector whose FAT size wraps is accepted and its FAT area overruns the volume:
      fsize = 2^31 and two FATs give fasize = 0. */
  lemma WrappedMountIsBad(b: Sector)
    requires BytsPerSec(b) == 512 && SecPerClus(b) == 1 && RsvdSecCnt(b) == 1 && NumFats(b) == 2
    requires RootEntCnt(b) == 16 && Ld16(b, 22) == 0 && Ld32(b, 36) == 0x8000_0000 && TotalSectors(b) == 100
    ensures ParseBpb(b, 0).Some? && !Good(ParseBpb(b, 0).value, 100)
  {
    assert 0x8000_0000 * 2 % DWORD == 0;
    assert SystemSectors(b) == 2;
  }

  /** The sector of entry c, for each byte of the entry, lies inside the first FAT. */
  lemma EntryInsideFat(g: Geometry, n: nat, c: nat)
    requires Good(g, n) && c < g.nFatent
    ensures g.fsType.Fat12? ==> (c + c / 2 + 1) / 512 < g.fsize
    ensures g.fsType.Fat16? ==> c / 256 == c * 2 / 512 == (c * 2 + 1) / 512 < g.fsize
    ensures g.fsType.Fat32? ==> c / 128 == c * 4 / 512 == (c * 4 + 3) / 512 < g.fsize
  {
    assert FatBytes(g.fsType, g.nFatent) <= g.fsize * 512;
    hide Good;
    match g.fsType
    case Fat12 => Inside12(c, g.nFatent, g.fsize);
    case Fat16 => Inside16(c, g.nFatent, g.fsize);
    case Fat32 => Inside32(c, g.nFatent, g.fsize);
  }

  lemma Inside12(c: nat, n: nat, fsize: nat)
    requires c < n && n * 3 / 2 + n % 2 <= fsize * 512
    ensures (c + c / 2 + 1) / 512 < fsize
  {
    assert c + c / 2 + 1 < n * 3 / 2 + n % 2;
  }

  lemma Inside16(c: nat, n: nat, fsize: nat)
    requires c < n && n * 2 <= fsize * 512
    ensures c / 256 == c * 2 / 512 == (c * 2 + 1) / 512 < fsize
  {
  }

  lemma Inside32(c: nat, n: nat, fsize: nat)
    requires c < n && n * 4 <= fsize * 512
    ensures c / 128 == c * 4 / 512 == (c * 4 + 3) / 512 < fsize
  {
  }

  predicate InFat1(g: Geometry, s: nat) {
    g.fatbase <= s < g.fatbase + g.fsize
  }

  /** The second copy, present only with two FATs. */
  predicate InFat2(g: Geometry, s: nat) {
    g.nFats == 2 && g.fatbase + g.fsize <= s < g.fatbase + 2 * g.fsize
  }

  predicate IsCluster(g: Geometry, c: nat) {
    2 <= c < g.nFatent
  }

  /** clst2sect, 0 for an invalid cluster number. */
  function Clst2Sect(g: Geometry, c: nat): (r: nat)
  {
    if IsCluster(g, c) then g.database + g.csize * (c - 2) else 0
  }

  /** The sectors of a cluster lie in the data area, past both FATs and the root directory. */
  lemma ClusterInData(g: Geometry, n: nat, c: nat)
    requires Good(g, n) && IsCluster(g, c)
    ensures g.fatbase + g.fsize <= g.database <= Clst2Sect(g, c) && Clst2Sect(g, c) + g.csize <= n
    ensures forall s :: g.database <= s ==> !InFat1(g, s) && !InFat2(g, s)
  {
    var m := g.nFatent - 2;
    MulMonotone(c - 1, m, g.csize);
    assert g.csize * (c - 1) == g.csize * (c - 2) + g.csize;
  }

  lemma MulMonotone(a: nat, b: nat, k: nat)
    requires a <= b
    ensures k * a <= b * k
  {
  }

  /** clst2sect is injective sector-wise: distinct clusters never share a sector. */
  lemma ClustersDisjoint(g: Geometry, c: nat, d: nat, i: nat, j: nat)
    requires IsCluster(g, c) && IsCluster(g, d) && i < g.csize && j < g.csize
    requires Clst2Sect(g, c) + i == Clst2Sect(g, d) + j
    ensures c == d && i == j
  {
    if c < d {
      assert g.csize * (d - 2) == g.csize * (c - 2) + g.csize * (d - c);
      MulMonotone(1, d - c, g.csize);
    } else if d < c {
      assert g.csize * (c - 2) == g.csize * (d - 2) + g.csize * (c - d);
      MulMonotone(1, c - d, g.csize);
    }
  }

  /** The end mark 0xFFFFFFFF, cut to the entry width, reads back as past the last cluster. */
  lemma EndMarkEndsChains(g: Geometry, n: nat)
    requires Good(g, n)
    ensures 0xFFFF_FFFF % EntryLimit(g.fsType) >= g.nFatent
    ensures forall v: nat :: v < g.nFatent ==> v % EntryLimit(g.fsType) == v
  {
    var lim := EntryLimit(g.fsType);
    assert g.nFatent < lim && 0xFFFF_FFFF % lim == lim - 1;
    hide Good, EntryLimit;
    forall v: nat | v < g.nFatent
      ensures v % lim == v
    {
      SmallRemainder(v, lim);
    }
  }

  lemma SmallRemainder(v: nat, lim: nat)
    requires v < lim
    ensures v % lim == v
  {
  }
}
