/** Which boot sectors mount_volume takes for a FAT volume, and what it makes of them (ff.c:4652-4742), in terms of the
    bytes on the disk. */
module BootSector {
  import opened Bytes
  import opened Geometry

  // ----- the fields, byte by byte

  ghost function Two(b: Sector, i: nat): nat
    requires i + 2 <= 512
  {
    b[i] as int + 0x100 * b[i + 1] as int
  }

  ghost function Four(b: Sector, i: nat): nat
    requires i + 4 <= 512
  {
    b[i] as int + 0x100 * b[i + 1] as int + 0x1_0000 * b[i + 2] as int + 0x100_0000 * b[i + 3] as int
  }

  ghost function Reserved(b: Sector): nat { Two(b, 14) }
  ghost function Fats(b: Sector): nat { b[16] }
  ghost function RootEntries(b: Sector): nat { Two(b, 17) }

  /** The 16-bit fields count unless they are zero. */
  ghost function Total(b: Sector): nat { if Two(b, 19) != 0 then Two(b, 19) else Four(b, 32) }
  ghost function PerFat(b: Sector): nat { if Two(b, 22) != 0 then Two(b, 22) else Four(b, 36) }

  /** The sectors in front of the data area, modulo 2^32. */
  ghost function Front(b: Sector): nat {
    (Reserved(b) + PerFat(b) * Fats(b) + RootEntries(b) / 16) % DWORD
  }

  ghost function Clusters(b: Sector): nat
    requires b[13] > 0 && Front(b) <= Total(b)
  {
    (Total(b) - Front(b)) / b[13]
  }

  /** The sub-type is a matter of the number of clusters alone. */
  ghost predicate HasType(t: FsType, clusters: nat) {
    match t
    case Fat12 => 1 <= clusters <= 0xFF5
    case Fat16 => 0xFF6 <= clusters <= 0xFFF5
    case Fat32 => 0xFFF6 <= clusters <= 0x0FFF_FFF5
  }

  ghost function BitsPerEntry(t: FsType): nat {
    match t
    case Fat12 => 12
    case Fat16 => 16
    case Fat32 => 32
  }

  /** A boot sector of a FAT volume of type t: 512-byte sectors, one or two FATs, clusters of a power of two, a root
      table of whole sectors, which FAT32 alone does not have, room for a cluster, and FATs that hold an entry for
      each. */
  ghost predicate Describes(b: Sector, t: FsType) {
    && Two(b, 11) == 512 && Fats(b) in {1, 2} && b[13] in {1, 2, 4, 8, 16, 32, 64, 128}
    && RootEntries(b) % 16 == 0 && Reserved(b) > 0 && Front(b) <= Total(b)
    && HasType(t, Clusters(b))
    && (t == Fat32 <==> RootEntries(b) == 0) && (t == Fat32 ==> Two(b, 42) == 0)
    && BitsPerEntry(t) * (Clusters(b) + 2) <= 8 * 512 * PerFat(b)
  }

  // ----- the fields of the model

  lemma FieldsAre(b: Sector)
    ensures BytsPerSec(b) == Two(b, 11) && SecPerClus(b) == b[13] && RsvdSecCnt(b) == Reserved(b)
      && NumFats(b) == Fats(b)
    ensures RootEntCnt(b) == RootEntries(b) && FatSize(b) == PerFat(b) && TotalSectors(b) == Total(b)
    ensures RootClus32(b) == Four(b, 44) && FsVer32(b) == Two(b, 42)
  {
  }

  lemma FrontIs(b: Sector)
    ensures SystemSectors(b) == Front(b)
  {
    FieldsAre(b);
    hide Two, Four, Reserved, Fats, RootEntries, PerFat, FatSize, NumFats, RsvdSecCnt, RootEntCnt;
    ModSum(Reserved(b) + RootEntries(b) / 16, PerFat(b) * Fats(b));
  }

  lemma ModSum(a: nat, f: nat)
    ensures (a + f % DWORD) % DWORD == (a + f) % DWORD
  {
  }

  lemma TypeIs(clusters: nat, t: FsType)
    requires clusters > 0
    ensures SubType(clusters) == Some(t) <==> HasType(t, clusters)
    ensures SubType(clusters) == None <==> clusters > 0x0FFF_FFF5
  {
  }

  /** Whole sectors of the FAT hold the bytes exactly if they hold the bits. */
  lemma RoomIs(t: FsType, n: nat, sectors: nat)
    ensures sectors < (FatBytes(t, n) + 511) / 512 <==> BitsPerEntry(t) * n > 8 * 512 * sectors
  {
    Ceiling(FatBytes(t, n), sectors);
    if t == Fat12 {
      assert n * 3 / 2 + n % 2 == (n * 3 + 1) / 2;
    }
  }

  lemma Ceiling(x: nat, k: nat)
    ensures k < (x + 511) / 512 <==> x > 512 * k
  {
  }

  /** What ParseBpb does, with its tests side by side. */
  lemma ParseIs(b: Sector, bsect: nat)
    ensures ParseBpb(b, bsect).Some? <==>
            && BytsPerSec(b) == 512 && (NumFats(b) == 1 || NumFats(b) == 2) && PowerOfTwo(SecPerClus(b))
            && RootEntCnt(b) % 16 == 0 && RsvdSecCnt(b) != 0 && SystemSectors(b) <= TotalSectors(b)
            && var n := (TotalSectors(b) - SystemSectors(b)) / SecPerClus(b);
               && n != 0 && SubType(n).Some?
               && var t := SubType(n).value;
                  && (t.Fat32? ==> FsVer32(b) == 0 && RootEntCnt(b) == 0) && (!t.Fat32? ==> RootEntCnt(b) != 0)
                  && FatSize(b) >= (FatBytes(t, n + 2) + 511) / 512
    ensures ParseBpb(b, bsect).Some? ==>
              var g := ParseBpb(b, bsect).value;
              && SecPerClus(b) > 0 && SystemSectors(b) <= TotalSectors(b)
              && var n := (TotalSectors(b) - SystemSectors(b)) / SecPerClus(b);
                 SubType(n) == Some(g.fsType) && g.nFatent == n + 2
  {
    hide Ld16, Ld32, FatSize, TotalSectors, SystemSectors, FatBytes, SubType, RsvdSecCnt, NumFats, RootEntCnt, FsVer32,
      SecPerClus, BytsPerSec, RootClus32;
  }

  /** A boot sector is accepted exactly if it describes a FAT volume, of just one type; the sub-type and the geometry
      are those its bytes give. */
  lemma Accepted(b: Sector, bsect: nat, t: FsType)
    ensures ParseBpb(b, bsect).Some? && ParseBpb(b, bsect).value.fsType == t <==> Describes(b, t)
  {
    FieldsAre(b);
    FrontIs(b);
    ParseIs(b, bsect);
    hide Two, Four, Reserved, Fats, RootEntries, PerFat, Total, Front, FatSize, NumFats, RsvdSecCnt, RootEntCnt,
      TotalSectors, SystemSectors, ParseBpb, BytsPerSec, SecPerClus, FsVer32, FatBytes, SubType;
    if b[13] > 0 && Front(b) <= Total(b) && Clusters(b) > 0 {
      TypeIs(Clusters(b), t);
      RoomIs(t, Clusters(b) + 2, PerFat(b));
    }
  }

  ghost predicate IsFat(b: Sector) { exists t :: Describes(b, t) }

  lemma AcceptedAtAll(b: Sector, bsect: nat)
    ensures ParseBpb(b, bsect).Some? <==> IsFat(b)
    ensures ParseBpb(b, bsect).Some? ==> Describes(b, ParseBpb(b, bsect).value.fsType)
  {
    hide ParseBpb, Describes;
    if ParseBpb(b, bsect).Some? {
      Accepted(b, bsect, ParseBpb(b, bsect).value.fsType);
    }
    if t :| Describes(b, t) {
      Accepted(b, bsect, t);
    }
  }

  lemma AcceptedGeometry(b: Sector, bsect: nat)
    requires ParseBpb(b, bsect).Some?
    ensures var g := ParseBpb(b, bsect).value;
            && g.volbase == bsect && g.csize == b[13] > 0 && g.nFats == Fats(b) && g.fsize == PerFat(b)
            && g.nRootdir == RootEntries(b) && Front(b) <= Total(b) && g.nFatent == Clusters(b) + 2
            && g.fatbase == (bsect + Reserved(b)) % DWORD && g.database == (bsect + Front(b)) % DWORD
            && g.dirbase == if g.fsType.Fat32? then Four(b, 44)
                            else (bsect + Reserved(b) + PerFat(b) * Fats(b)) % DWORD
  {
    FieldsAre(b);
    FrontIs(b);
    hide Two, Four, Reserved, Fats, RootEntries, PerFat, Total, Front, FatSize, NumFats, RsvdSecCnt, RootEntCnt,
      TotalSectors, SystemSectors, BytsPerSec, SecPerClus, FsVer32, FatBytes, SubType, RootClus32;
    RootPlaceIs(bsect + Reserved(b), PerFat(b) * Fats(b));
  }

  lemma RootPlaceIs(a: nat, f: nat)
    ensures (a % DWORD + f % DWORD) % DWORD == (a + f) % DWORD
  {
  }

  /** A 1.44 MB floppy disk. */
  lemma Floppy(b: Sector)
    requires b[11..15] == [0x00, 0x02, 0x01, 0x01]
    requires b[15..24] == [0x00, 0x02, 0xE0, 0x00, 0x40, 0x0B, 0xF0, 0x09, 0x00]
    ensures ParseBpb(b, 0) == Some(Geometry(Fat12, 0, 1, 9, 2, 1, 224, 19, 33, 2849))
  {
    assert forall i :: 11 <= i < 15 ==> b[i] == b[11..15][i - 11];
    assert forall i :: 15 <= i < 24 ==> b[i] == b[15..24][i - 15];
  }
}
