/** The on-disk format byte by byte (ff.c:96-207), for everything the model reads and writes through functions of its
    own: FAT entries, clusters, the FSInfo sector, short-name entries and long-name entries. */
module DiskFormat {
  import opened Bytes
  import opened Geometry
  import opened FatTable
  import opened Volume
  import opened LongNames
  import opened ShortNames
  import opened DirScan
  import opened DirEdit
  import opened Directory
  import FileInfo
  import File
  import NumberedNames
  import Unlink

  // ----- the FAT

  /** Byte i of a FAT that starts at sector base. */
  ghost function At(v: seq<Sector>, base: nat, i: nat): int {
    if base + i / 512 < |v| then v[base + i / 512][i % 512] else 0
  }

  /** Entry c of the first FAT: 12 bits in three half-bytes, 16 bits, or the low 28 of 32 bits, lowest byte first. */
  lemma EntryBytes(g: Geometry, v: seq<Sector>, c: nat)
    requires Good(g, |v|) && c < g.nFatent
    ensures g.fsType.Fat12? && c % 2 == 0 ==>
              Entry(g, v, c) == At(v, g.fatbase, c / 2 * 3) + 0x100 * (At(v, g.fatbase, c / 2 * 3 + 1) % 0x10)
    ensures g.fsType.Fat12? && c % 2 == 1 ==>
              Entry(g, v, c) == At(v, g.fatbase, c / 2 * 3 + 1) / 0x10 + 0x10 * At(v, g.fatbase, c / 2 * 3 + 2)
    ensures g.fsType.Fat16? ==> Entry(g, v, c) == At(v, g.fatbase, 2 * c) + 0x100 * At(v, g.fatbase, 2 * c + 1)
    ensures g.fsType.Fat32? ==>
              Entry(g, v, c) == At(v, g.fatbase, 4 * c) + 0x100 * At(v, g.fatbase, 4 * c + 1)
                                + 0x1_0000 * At(v, g.fatbase, 4 * c + 2)
                                + 0x100_0000 * (At(v, g.fatbase, 4 * c + 3) % 0x10)
  {
    EntryPlace(g, |v|, c);
    match g.fsType {
      case Fat12 => Entry12(g, v, c);
      case Fat16 => Entry16(g, v, c);
      case Fat32 => Entry32(g, v, c);
    }
  }

  lemma Entry12(g: Geometry, v: seq<Sector>, c: nat)
    requires Good(g, |v|) && c < g.nFatent && g.fsType.Fat12? && HasByte(g, |v|, Ofs12(c))
      && HasByte(g, |v|, Ofs12(c) + 1)
    ensures c % 2 == 0 ==>
              Entry(g, v, c) == At(v, g.fatbase, c / 2 * 3) + 0x100 * (At(v, g.fatbase, c / 2 * 3 + 1) % 0x10)
    ensures c % 2 == 1 ==>
              Entry(g, v, c) == At(v, g.fatbase, c / 2 * 3 + 1) / 0x10 + 0x10 * At(v, g.fatbase, c / 2 * 3 + 2)
  {
    hide Good;
    var h := c / 2;
    assert c + c / 2 == h * 3 + c % 2;
    var b0, b1 := FatByte(g, v, Ofs12(c)) as int, FatByte(g, v, Ofs12(c) + 1) as int;
    DivModOf(b0 + 0x100 * b1, 0x1000, b1 / 0x10, b0 + 0x100 * (b1 % 0x10));
    DivModOf(b0 + 0x100 * b1, 0x10, b0 / 0x10 + 0x10 * b1, b0 % 0x10);
  }

  lemma Entry16(g: Geometry, v: seq<Sector>, c: nat)
    requires Good(g, |v|) && c < g.nFatent && g.fsType.Fat16? && Sect16(g, c) < |v|
    ensures Entry(g, v, c) == At(v, g.fatbase, 2 * c) + 0x100 * At(v, g.fatbase, 2 * c + 1)
  {
    hide Good;
    var q, r := c / 256, c % 256;
    DivModOf(2 * c, 512, q, 2 * r);
    DivModOf(2 * c + 1, 512, q, 2 * r + 1);
  }

  lemma Entry32(g: Geometry, v: seq<Sector>, c: nat)
    requires Good(g, |v|) && c < g.nFatent && g.fsType.Fat32? && Sect32(g, c) < |v|
    ensures Entry(g, v, c) == At(v, g.fatbase, 4 * c) + 0x100 * At(v, g.fatbase, 4 * c + 1)
                              + 0x1_0000 * At(v, g.fatbase, 4 * c + 2)
                              + 0x100_0000 * (At(v, g.fatbase, 4 * c + 3) % 0x10)
  {
    hide Good;
    var q, r := c / 128, c % 128;
    DivModOf(4 * c, 512, q, 4 * r);
    DivModOf(4 * c + 1, 512, q, 4 * r + 1);
    DivModOf(4 * c + 2, 512, q, 4 * r + 2);
    DivModOf(4 * c + 3, 512, q, 4 * r + 3);
    var w, b := v[g.fatbase + q], 4 * r;
    var low := w[b] as int + 0x100 * w[b + 1] as int + 0x1_0000 * w[b + 2] as int;
    var top := w[b + 3] as int;
    DivModOf(low + 0x100_0000 * top, 0x1000_0000, top / 0x10, low + 0x100_0000 * (top % 0x10));
  }

  /** Cluster 2 is at the start of the data area, and each cluster is right behind the one before it. */
  lemma ClustersInOrder(g: Geometry, c: nat)
    requires IsCluster(g, 2)
    ensures Clst2Sect(g, 2) == g.database
    ensures IsCluster(g, c) && IsCluster(g, c + 1) ==> Clst2Sect(g, c + 1) == Clst2Sect(g, c) + g.csize
    ensures !IsCluster(g, c) ==> Clst2Sect(g, c) == 0
  {
  }

  /** The root directory: the area in front of the data area, or on FAT32 the chain that the boot sector names. */
  lemma RootStart(g: Geometry, sclust: nat)
    ensures StartCluster(g, 0) == if g.fsType.Fat32? then g.dirbase else 0
    ensures sclust != 0 ==> StartCluster(g, sclust) == sclust
  {
  }

  // ----- FSInfo

  /** The boot sector says that FSInfo is in the next sector. */
  lemma FsInfoField(b: Sector, g: Geometry)
    ensures HasFsInfo(b, g) <==> g.fsType.Fat32? && b[48] == 1 && b[49] == 0
  {
  }

  /** The word at offset i, lowest byte first. */
  ghost predicate WordAt(s: seq<byte>, i: nat, v: nat) {
    && i + 4 <= |s| && s[i] == v % 0x100 && s[i + 1] == v / 0x100 % 0x100 && s[i + 2] == v / 0x1_0000 % 0x100
    && s[i + 3] == v / 0x100_0000 % 0x100
  }

  /** st_32 writes those four bytes and no other. */
  lemma Word32(s: seq<byte>, i: nat, v: nat)
    requires i + 4 <= |s|
    ensures WordAt(St32(s, i, v), i, v) && forall k :: 0 <= k < |s| && !(i <= k < i + 4) ==> St32(s, i, v)[k] == s[k]
  {
  }

  /** st_16 writes the lower two. */
  lemma Word16(s: seq<byte>, i: nat, v: nat)
    requires i + 2 <= |s|
    ensures St16(s, i, v)[i] == v % 0x100 && St16(s, i, v)[i + 1] == v / 0x100 % 0x100
    ensures forall k :: 0 <= k < |s| && !(i <= k < i + 2) ==> St16(s, i, v)[k] == s[k]
  {
  }

  lemma WordStays(s: seq<byte>, t: seq<byte>, i: nat, v: nat)
    requires WordAt(s, i, v) && |t| == |s| && forall k :: i <= k < i + 4 ==> t[k] == s[k]
    ensures WordAt(t, i, v)
  {
  }

  /** The signatures "RRaA" and "rrAa", the two hints and the signature of a boot sector; the rest is zero. */
  lemma FsInfoBytes(free: nat, last: nat)
    ensures var s := FsInfo(free, last);
            && WordAt(s, 0, 0x4161_5252) && WordAt(s, 484, 0x6141_7272) && WordAt(s, 508, 0xAA55_0000)
            && WordAt(s, 488, free) && WordAt(s, 492, last)
            && (forall i :: 4 <= i < 484 || 496 <= i < 508 ==> s[i] == 0)
  {
    hide St32, WordAt;
    var s1 := St32(ZeroSector(), 0, 0x4161_5252);
    var s2 := St32(s1, 484, 0x6141_7272);
    var s3 := St32(s2, 488, free);
    var s4 := St32(s3, 492, last);
    var s := FsInfo(free, last);
    Word32(ZeroSector(), 0, 0x4161_5252);
    Word32(s1, 484, 0x6141_7272);
    Word32(s2, 488, free);
    Word32(s3, 492, last);
    Word32(s4, 508, 0xAA55_0000);
    WordStays(s1, s, 0, 0x4161_5252);
    WordStays(s2, s, 484, 0x6141_7272);
    WordStays(s3, s, 488, free);
    WordStays(s4, s, 492, last);
  }

  // ----- directory entries

  /** A new short-name entry: the name, no attributes, the case flags, and zeros. */
  lemma SfnEntryBytes(fn: seq<byte>, nt: byte)
    requires |fn| == 11
    ensures var e := SfnEntry(fn, nt);
            e[..11] == fn && e[11] == 0 && e[12] == nt && forall i :: 13 <= i < 32 ==> e[i] == 0
  {
  }

  /** The case flags: 8 for a body and 16 for an extension in lower case. */
  lemma NtResBits(cf: Flags)
    ensures FileInfo.NtRes(cf) == if cf.body then (if cf.ext then 24 else 8) else if cf.ext then 16 else 0
  {
  }

  /** The first cluster: bytes 26 and 27, and on FAT32 bytes 20 and 21 above them. */
  lemma ClusterBytes(g: Geometry, e: DirEntry)
    ensures File.LdClust(g, e, 0) == e[26] as int + 0x100 * e[27] as int
              + if g.fsType.Fat32? then 0x1_0000 * e[20] as int + 0x100_0000 * e[21] as int else 0
  {
  }

  /** What f_sync writes into an entry: the archive bit, no access date, the time of modification, the cluster and the
      size; the name, the other attributes, the case flags and the time of creation stay. */
  lemma SyncedBytes(g: Geometry, s: Sector, o: nat, cl: nat, size: nat)
    requires o + 32 <= 512
    ensures var t := File.SyncEntry(g, s, o, cl, size);
            && t[o..o + 11] == s[o..o + 11] && t[o + 11] == File.SetArchive(s[o + 11])
            && t[o + 12..o + 18] == s[o + 12..o + 18] && t[o + 18] == 0 && t[o + 19] == 0
            && t[o + 22..o + 26] == [0x00, 0x00, 0x21, 0x5A] && WordAt(t, o + 28, size)
            && t[o + 26] == cl % 0x100 && t[o + 27] == cl / 0x100 % 0x100
            && (g.fsType.Fat32? ==> t[o + 20] == cl / 0x1_0000 % 0x100 && t[o + 21] == cl / 0x100_0000 % 0x100)
            && (!g.fsType.Fat32? ==> t[o + 20] == s[o + 20] && t[o + 21] == s[o + 21])
  {
    hide File.SetArchive, St16, St32;
    var a: Sector := s[o + 11 := File.SetArchive(s[o + 11])];
    var b := St16(a, o + 26, cl);
    var c := if g.fsType.Fat32? then St16(b, o + 20, cl / 0x1_0000) else b;
    var d := St32(c, o + 28, size);
    var e := St32(d, o + 22, File.FATTIME);
    Word16(a, o + 26, cl);
    Word16(b, o + 20, cl / 0x1_0000);
    HighHalf(cl);
    Word32(c, o + 28, size);
    Word32(d, o + 22, File.FATTIME);
    Word16(e, o + 18, 0);
    assert File.SyncEntry(g, s, o, cl, size) == St16(e, o + 18, 0);
  }

  lemma HighHalf(cl: nat)
    ensures cl / 0x1_0000 / 0x100 == cl / 0x100_0000
  {
  }

  /** The attributes, bit by bit: read-only 1, directory 16, archive 32. */
  lemma AttributeBits(e: DirEntry, ro: nat, mid: nat, dir: nat, arc: nat, high: nat)
    requires ro < 2 && mid < 8 && dir < 2 && arc < 2 && e[11] == ro + 2 * mid + 0x10 * dir + 0x20 * arc + 0x40 * high
    ensures Unlink.ReadOnly(e) <==> ro == 1
    ensures Unlink.IsFolder(e) <==> dir == 1
    ensures File.SetArchive(e[11]) == ro + 2 * mid + 0x10 * dir + 0x20 + 0x40 * high
  {
    var a := e[11] as int;
    DivModOf(a, 2, mid + 8 * dir + 0x10 * arc + 0x20 * high, ro);
    DivModOf(a, 0x10, dir + 2 * arc + 4 * high, ro + 2 * mid);
    DivModOf(a, 0x20, arc + 2 * high, ro + 2 * mid + 0x10 * dir);
  }

  /** What an entry is: a long-name entry has the four lowest attributes and neither of the next two, a label the one of
      8, a file or directory not that one. */
  lemma KindBits(e: DirEntry, ro: nat, hid: nat, sys: nat, vol: nat, dir: nat, arc: nat, high: nat)
    requires ro < 2 && hid < 2 && sys < 2 && vol < 2 && dir < 2 && arc < 2
    requires e[11] == ro + 2 * hid + 4 * sys + 8 * vol + 0x10 * dir + 0x20 * arc + 0x40 * high
    ensures IsFree(e) <==> e[0] == 0 || e[0] == 0xE5
    ensures IsLong(e) <==> !IsFree(e) && ro == hid == sys == vol == 1 && dir == arc == 0
    ensures IsLabel(e) <==> !IsFree(e) && vol == 1 && !IsLong(e)
    ensures IsSfn(e) <==> !IsFree(e) && vol == 0
  {
    var a := e[11] as int;
    var low := ro + 2 * hid + 4 * sys + 8 * vol + 0x10 * dir + 0x20 * arc;
    DivModOf(a, 0x40, high, low);
    DivModOf(low, 8, vol + 2 * dir + 4 * arc, ro + 2 * hid + 4 * sys);
  }

  // ----- long-name entries

  /** The 13 characters are in ascending order in the bytes that hold nothing else. */
  lemma SlotsInOrder(di: nat, dj: nat)
    requires di < dj < 13
    ensures 1 <= LfnOfs(di) && LfnOfs(di) + 2 <= LfnOfs(dj) && LfnOfs(dj) + 2 <= 32
    ensures LfnOfs(di) + 2 <= 11 || (14 <= LfnOfs(di) && LfnOfs(di) + 2 <= 26) || 28 <= LfnOfs(di)
    ensures LfnOfs(dj) + 2 <= 11 || (14 <= LfnOfs(dj) && LfnOfs(dj) + 2 <= 26) || 28 <= LfnOfs(dj)
  {
  }

  /** The order byte: 0x40 marks the last entry of a name, which comes first; the other bits are the number. */
  lemma OrderBits(ord: nat, last: nat, top: nat)
    requires ord < 0x40 && last < 2 && top < 2
    ensures HasLlef(ord + 0x40 * last + 0x80 * top) <==> last == 1
    ensures Order(ord + 0x40 * last + 0x80 * top) == ord + 0x80 * top
  {
    DivModOf(ord + 0x40 * last + 0x80 * top, 0x40, last + 2 * top, ord);
  }

  /** The filler is 0xFFFF, behind a terminator of zero. */
  lemma FillerIs(lfn: seq<nat>, k: nat)
    ensures k < |lfn| ==> CharAt(lfn, k) == lfn[k]
    ensures k == |lfn| ==> CharAt(lfn, k) == 0
    ensures k > |lfn| ==> CharAt(lfn, k) == 0xFFFF
  {
  }

  /** The checksum turns right: each bit moves one place down, the lowest to the top. */
  lemma RotatedBits(x: byte)
    ensures Rotated(x) < 0x100 && Rotated(x) / 0x80 == x as int % 2
    ensures Rotated(x) % 0x80 == x as int / 2
  {
  }

  /** The polynomial of the hash: bits 0, 5 and 12 are turned over, and no other. */
  lemma StirBits(b0: nat, low: nat, b5: nat, mid: nat, b12: nat, high: nat)
    requires b0 < 2 && low < 0x10 && b5 < 2 && mid < 0x40 && b12 < 2 && high < 8
    ensures NumberedNames.Stir(b0 + 2 * low + 0x20 * b5 + 0x40 * mid + 0x1000 * b12 + 0x2000 * high) ==
            (1 - b0) + 2 * low + 0x20 * (1 - b5) + 0x40 * mid + 0x1000 * (1 - b12) + 0x2000 * high
  {
    var x := b0 + 2 * low + 0x20 * b5 + 0x40 * mid + 0x1000 * b12 + 0x2000 * high;
    var y := x - b0 + (1 - b0);
    var z := y - 0x20 * b5 + 0x20 * (1 - b5);
    FlipIs(x, 1, b0, x / 2, 0);
    FlipIs(y, 0x20, b5, mid + 0x40 * b12 + 0x80 * high, 1 - b0 + 2 * low);
    FlipIs(z, 0x1000, b12, high, 1 - b0 + 2 * low + 0x20 * (1 - b5) + 0x40 * mid);
  }

  lemma FlipIs(x: nat, p: nat, bit: nat, above: nat, below: nat)
    requires p > 0 && bit < 2 && below < p && x == below + p * bit + 2 * p * above
    ensures NumberedNames.Flip(x, p) == below + p * (1 - bit) + 2 * p * above
  {
    assert x == p * (bit + 2 * above) + below by {
      assert p * (bit + 2 * above) == p * bit + p * (2 * above);
      assert p * (2 * above) == 2 * p * above;
    }
    DivModOf(x, p, bit + 2 * above, below);
    assert (bit + 2 * above) % 2 == bit;
    if bit == 1 { assert p * bit == p && p * (1 - bit) == 0 && 2 * p * above >= 0; }
    else { assert p * bit == 0 && p * (1 - bit) == p; }
  }

  // ----- characters

  /** The characters no name may hold, and those a short name may not hold. */
  lemma CharacterSets(c: nat)
    ensures IsIllegal(c) <==> c == 0x7F || exists k :: 0 <= k < 7 && "*:<>|\"?"[k] as int == c
    ensures IsLossy(c) <==> exists k :: 0 <= k < 6 && "+,;=[]"[k] as int == c
    ensures IsSeparator(c) <==> c == '/' as int || c == '\\' as int
    ensures IsUpper(c) <==> 'A' as int <= c <= 'Z' as int
    ensures IsLower(c) <==> 'a' as int <= c <= 'z' as int
  {
    assert "*:<>|\"?"[0] as int == 0x2A && "*:<>|\"?"[1] as int == 0x3A && "*:<>|\"?"[2] as int == 0x3C;
    assert "*:<>|\"?"[3] as int == 0x3E && "*:<>|\"?"[4] as int == 0x7C && "*:<>|\"?"[5] as int == 0x22;
    assert "*:<>|\"?"[6] as int == 0x3F;
    assert "+,;=[]"[0] as int == 0x2B && "+,;=[]"[1] as int == 0x2C && "+,;=[]"[2] as int == 0x3B;
    assert "+,;=[]"[3] as int == 0x3D && "+,;=[]"[4] as int == 0x5B && "+,;=[]"[5] as int == 0x5D;
  }
}
