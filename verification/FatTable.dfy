/** The packed 12/16/28-bit FAT on a flat disk: get_fat and put_fat without the window (ff.c:1512-1700). */
module FatTable {
  import opened Bytes
  import opened Geometry

  /** Byte i lies in the first FAT of a disk of n sectors. */
  predicate HasByte(g: Geometry, n: nat, i: nat) {
    i / 512 < g.fsize && g.fatbase + i / 512 < n
  }

  function ByteSect(g: Geometry, i: nat): nat { g.fatbase + i / 512 }

  /** Byte i of the first FAT. */
  function FatByte(g: Geometry, v: seq<Sector>, i: nat): (b: byte)
    requires HasByte(g, |v|, i)
  {
    v[g.fatbase + i / 512][i % 512]
  }

  function SetFatByte(g: Geometry, v: seq<Sector>, i: nat, b: byte): (r: seq<Sector>)
    requires HasByte(g, |v|, i)
    ensures |r| == |v|
  {
    v[g.fatbase + i / 512 := v[g.fatbase + i / 512][i % 512 := b]]
  }

  // Where an entry is stored (ff.c:1529-1552).

  /** FAT12: the offset of the first of two bytes, which may lie in different sectors. */
  function Ofs12(c: nat): nat { c + c / 2 }

  function Sect16(g: Geometry, c: nat): nat { g.fatbase + c / 256 }

  function Ofs16(c: nat): (r: nat)
    ensures r + 2 <= 512
  { c * 2 % 512 }

  function Sect32(g: Geometry, c: nat): nat { g.fatbase + c / 128 }

  function Ofs32(c: nat): (r: nat)
    ensures r + 4 <= 512
  { c * 4 % 512 }

  /** The entry lies in the first FAT. */
  lemma EntryPlace(g: Geometry, n: nat, c: nat)
    requires Good(g, n) && c < g.nFatent
    ensures g.fsType.Fat12? ==> HasByte(g, n, Ofs12(c)) && HasByte(g, n, Ofs12(c) + 1)
    ensures g.fsType.Fat16? ==> InFat1(g, Sect16(g, c)) && Sect16(g, c) < n
    ensures g.fsType.Fat32? ==> InFat1(g, Sect32(g, c)) && Sect32(g, c) < n
  {
    EntryInsideFat(g, n, c);
    FatInsideDisk(g, n);
  }

  // FAT12 packs an even entry in the low 12 bits of its two bytes and an odd entry in the high 12 bits.

  function Dec12(b0: byte, b1: byte, odd: bool): (r: nat)
    ensures r < 0x1000
  {
    var w := b0 as int + 0x100 * b1 as int;
    if odd then w / 0x10 else w % 0x1000
  }

  /** The first byte put_fat stores for val over b. */
  function Lo12(b: byte, val: nat, odd: bool): byte {
    if odd then b % 0x10 + val % 0x10 * 0x10 else val % 0x100
  }

  /** The second byte put_fat stores for val over b. */
  function Hi12(b: byte, val: nat, odd: bool): byte {
    if odd then val / 0x10 % 0x100 else b / 0x10 * 0x10 + val / 0x100 % 0x10
  }

  lemma Codec12(b0: byte, b1: byte, val: nat, odd: bool)
    ensures Dec12(Lo12(b0, val, odd), Hi12(b1, val, odd), odd) == val % 0x1000
  {
    Nibbles(val);
    var w := Lo12(b0, val, odd) as int + 0x100 * Hi12(b1, val, odd) as int;
    if odd {
      DivModOf(w, 0x10, val % 0x1000, b0 % 0x10);
    } else {
      DivModOf(w, 0x1000, b1 / 0x10, val % 0x1000);
    }
  }

  /** The nibble that belongs to the neighbour survives in the shared byte. */
  lemma Neighbours12(x: byte, b: byte, val: nat)
    ensures Dec12(x, Lo12(b, val, true), false) == Dec12(x, b, false)
    ensures Dec12(Hi12(b, val, false), x, true) == Dec12(b, x, true)
  {
    var lo, hi := Lo12(b, val, true), Hi12(b, val, false);
    DivModOf(x as int + 0x100 * b as int, 0x1000, b / 0x10, x as int + 0x100 * (b % 0x10));
    DivModOf(x as int + 0x100 * lo as int, 0x1000, val % 0x10, x as int + 0x100 * (b % 0x10));
    DivModOf(b as int + 0x100 * x as int, 0x10, b / 0x10 + 0x10 * x as int, b % 0x10);
    DivModOf(hi as int + 0x100 * x as int, 0x10, b / 0x10 + 0x10 * x as int, val / 0x100 % 0x10);
  }

  /** The value get_fat returns for entry c. */
  function Entry(g: Geometry, v: seq<Sector>, c: nat): (r: nat)
    requires Good(g, |v|) && c < g.nFatent
    ensures r < EntryLimit(g.fsType)
  {
    EntryPlace(g, |v|, c);
    match g.fsType
    case Fat12 => Dec12(FatByte(g, v, Ofs12(c)), FatByte(g, v, Ofs12(c) + 1), c % 2 == 1)
    case Fat16 => Ld16(v[Sect16(g, c)], Ofs16(c))
    case Fat32 => Ld32(v[Sect32(g, c)], Ofs32(c)) % 0x1000_0000
  }

  lemma FatInsideDisk(g: Geometry, n: nat)
    requires Good(g, n)
    ensures g.fatbase + g.fsize <= g.database <= n
    ensures g.nFats == 2 ==> g.fatbase + 2 * g.fsize <= g.database
  {
    assert 0 <= (g.nFatent - 2) * g.csize;
  }

  /** The four reserved bits of a FAT32 entry. */
  function Reserved(g: Geometry, v: seq<Sector>, c: nat): (r: nat)
    requires Good(g, |v|) && c < g.nFatent && g.fsType.Fat32?
    ensures r < 0x10
  {
    EntryPlace(g, |v|, c);
    Ld32(v[Sect32(g, c)], Ofs32(c)) / 0x1000_0000
  }

  /** The two bytes of a FAT12 entry, stored one after the other. */
  function Put12Bytes(g: Geometry, v: seq<Sector>, i: nat, val: nat, odd: bool): (r: seq<Sector>)
    requires HasByte(g, |v|, i) && HasByte(g, |v|, i + 1)
    ensures |r| == |v|
  {
    var v1 := SetFatByte(g, v, i, Lo12(FatByte(g, v, i), val, odd));
    SetFatByte(g, v1, i + 1, Hi12(FatByte(g, v1, i + 1), val, odd))
  }

  /** put_fat of the low bits of val, byte by byte as the source stores them. */
  function PutEntry(g: Geometry, v: seq<Sector>, c: nat, val: nat): (r: seq<Sector>)
    requires Good(g, |v|) && c < g.nFatent
    ensures |r| == |v|
  {
    EntryPlace(g, |v|, c);
    match g.fsType
    case Fat12 =>
      Put12Bytes(g, v, Ofs12(c), val, c % 2 == 1)
    case Fat16 =>
      v[Sect16(g, c) := St16(v[Sect16(g, c)], Ofs16(c), val)]
    case Fat32 =>
      v[Sect32(g, c) := St32(v[Sect32(g, c)], Ofs32(c), val % 0x1000_0000 + Reserved(g, v, c) * 0x1000_0000)]
  }

  lemma SetByteReads(g: Geometry, v: seq<Sector>, i: nat, b: byte, j: nat)
    requires HasByte(g, |v|, i) && HasByte(g, |v|, j)
    ensures FatByte(g, SetFatByte(g, v, i, b), j) == if j == i then b else FatByte(g, v, j)
  {
  }

  /** Two stores into adjacent bytes, then a load. */
  lemma SetTwoReads(g: Geometry, v: seq<Sector>, i: nat, b0: byte, b1: byte, j: nat)
    requires HasByte(g, |v|, i) && HasByte(g, |v|, i + 1) && HasByte(g, |v|, j)
    ensures FatByte(g, SetFatByte(g, SetFatByte(g, v, i, b0), i + 1, b1), j)
            == if j == i then b0 else if j == i + 1 then b1 else FatByte(g, v, j)
  {
    SetByteReads(g, v, i, b0, j);
    SetByteReads(g, SetFatByte(g, v, i, b0), i + 1, b1, j);
  }

  /** FAT codec, FAT12: the 12 bits written come back, and both neighbours, which share a byte, are kept. */
  lemma Put12(g: Geometry, v: seq<Sector>, c: nat, val: nat, d: nat)
    requires Good(g, |v|) && c < g.nFatent && d < g.nFatent && g.fsType.Fat12?
    ensures Entry(g, PutEntry(g, v, c, val), d) == if d == c then val % 0x1000 else Entry(g, v, d)
  {
    hide FatByte, SetFatByte, Dec12, Lo12, Hi12;
    EntryPlace(g, |v|, c);
    EntryPlace(g, |v|, d);
    var i, odd := Ofs12(c), c % 2 == 1;
    var b0 := Lo12(FatByte(g, v, i), val, odd);
    SetByteReads(g, v, i, b0, i + 1);
    var b1 := Hi12(FatByte(g, v, i + 1), val, odd);
    assert PutEntry(g, v, c, val) == SetFatByte(g, SetFatByte(g, v, i, b0), i + 1, b1);
    var j := Ofs12(d);
    SetTwoReads(g, v, i, b0, b1, j);
    SetTwoReads(g, v, i, b0, b1, j + 1);
    if d == c {
      Codec12(FatByte(g, v, i), FatByte(g, v, i + 1), val, odd);
    } else if odd && d == c - 1 {
      assert j + 1 == i;
      Neighbours12(FatByte(g, v, j), FatByte(g, v, i), val);
    } else if !odd && d == c + 1 {
      assert j == i + 1;
      Neighbours12(FatByte(g, v, j + 1), FatByte(g, v, j), val);
    } else {
      Apart12(c, d);
    }
  }

  /** Entries further apart share no byte. */
  lemma Apart12(c: nat, d: nat)
    requires c != d && !(c % 2 == 1 && d == c - 1) && !(c % 2 == 0 && d == c + 1)
    ensures Ofs12(d) + 1 < Ofs12(c) || Ofs12(c) + 1 < Ofs12(d)
  {
  }

  lemma Nibbles(val: nat)
    ensures val % 0x10 + 0x10 * (val / 0x10 % 0x100) == val % 0x1000
    ensures val % 0x100 + 0x100 * (val / 0x100 % 0x10) == val % 0x1000
  {
    var q, r := val / 0x1000, val % 0x1000;
    DivModOf(val / 0x10, 0x100, q, r / 0x10);
    DivModOf(val / 0x100, 0x10, q, r / 0x100);
  }

  /** Entries of one sector do not overlap. */
  lemma PlacesApart(g: Geometry, c: nat, d: nat)
    requires c != d
    ensures Sect16(g, c) == Sect16(g, d) ==> Ofs16(c) + 2 <= Ofs16(d) || Ofs16(d) + 2 <= Ofs16(c)
    ensures Sect32(g, c) == Sect32(g, d) ==> Ofs32(c) + 4 <= Ofs32(d) || Ofs32(d) + 4 <= Ofs32(c)
  {
    DivModOf(c * 2, 512, c / 256, 2 * (c % 256));
    DivModOf(d * 2, 512, d / 256, 2 * (d % 256));
    DivModOf(c * 4, 512, c / 128, 4 * (c % 128));
    DivModOf(d * 4, 512, d / 128, 4 * (d % 128));
  }

  /** FAT codec, FAT16: a WORD array. */
  lemma Put16(g: Geometry, v: seq<Sector>, c: nat, val: nat, d: nat)
    requires Good(g, |v|) && c < g.nFatent && d < g.nFatent && g.fsType.Fat16?
    ensures Entry(g, PutEntry(g, v, c, val), d) == if d == c then val % 0x1_0000 else Entry(g, v, d)
  {
    EntryPlace(g, |v|, c);
    EntryPlace(g, |v|, d);
    hide Good, ByteOf, St16, Ld16, Sect16, Ofs16, InFat1;
    var s := v[Sect16(g, c)];
    StoreLoad(s, Ofs16(c), val);
    if d != c && Sect16(g, d) == Sect16(g, c) {
      PlacesApart(g, c, d);
      SameHalf(s, St16(s, Ofs16(c), val), Ofs16(d));
    }
  }

  /** FAT codec, FAT32: a DWORD array whose top four bits are kept. */
  lemma Put32(g: Geometry, v: seq<Sector>, c: nat, val: nat, d: nat)
    requires Good(g, |v|) && c < g.nFatent && d < g.nFatent && g.fsType.Fat32?
    ensures Entry(g, PutEntry(g, v, c, val), d) == if d == c then val % 0x1000_0000 else Entry(g, v, d)
    ensures Reserved(g, PutEntry(g, v, c, val), d) == Reserved(g, v, d)
  {
    EntryPlace(g, |v|, c);
    EntryPlace(g, |v|, d);
    hide Good, ByteOf, St32, Ld32, Sect32, Ofs32, InFat1;
    var s, low, top := v[Sect32(g, c)], val % 0x1000_0000, Reserved(g, v, c);
    var w := low + top * 0x1000_0000;
    StoreLoad(s, Ofs32(c), w);
    DivModOf(w, 0x1000_0000, top, low);
    if d != c && Sect32(g, d) == Sect32(g, c) {
      PlacesApart(g, c, d);
      SameWord(s, St32(s, Ofs32(c), w), Ofs32(d));
    }
  }

  lemma PutEntryFrame(g: Geometry, v: seq<Sector>, c: nat, val: nat)
    requires Good(g, |v|) && c < g.nFatent
    ensures forall s :: 0 <= s < |v| && !InFat1(g, s) ==> PutEntry(g, v, c, val)[s] == v[s]
  {
    EntryPlace(g, |v|, c);
  }

  /** put_fat then get_fat: the value modulo 2^12, 2^16 or 2^28; every other entry, every sector outside
      the first FAT and the reserved bits of every FAT32 entry are as before. */
  lemma CodecRoundTrip(g: Geometry, v: seq<Sector>, c: nat, val: nat)
    requires Good(g, |v|) && c < g.nFatent
    ensures Entry(g, PutEntry(g, v, c, val), c) == val % EntryLimit(g.fsType)
    ensures forall d :: 0 <= d < g.nFatent && d != c ==> Entry(g, PutEntry(g, v, c, val), d) == Entry(g, v, d)
    ensures forall s :: 0 <= s < |v| && !InFat1(g, s) ==> PutEntry(g, v, c, val)[s] == v[s]
    ensures g.fsType.Fat32? ==>
              forall d :: 0 <= d < g.nFatent ==> Reserved(g, PutEntry(g, v, c, val), d) == Reserved(g, v, d)
  {
    PutEntryFrame(g, v, c, val);
    hide Entry, PutEntry, Reserved;
    forall d | 0 <= d < g.nFatent
      ensures Entry(g, PutEntry(g, v, c, val), d) == if d == c then val % EntryLimit(g.fsType) else Entry(g, v, d)
      ensures g.fsType.Fat32? ==> Reserved(g, PutEntry(g, v, c, val), d) == Reserved(g, v, d)
    {
      match g.fsType
      case Fat12 => Put12(g, v, c, val, d);
      case Fat16 => Put16(g, v, c, val, d);
      case Fat32 => Put32(g, v, c, val, d);
    }
  }

  /** The FAT as an array of links. */
  ghost predicate Links(g: Geometry, v: seq<Sector>, fat: seq<nat>) {
    && Good(g, |v|)
    && |fat| == g.nFatent
    && forall c :: 0 <= c < g.nFatent ==> fat[c] == Entry(g, v, c)
  }

  /** The links a flat disk holds. */
  ghost function Table(g: Geometry, v: seq<Sector>): (fat: seq<nat>)
    requires Good(g, |v|)
    ensures Links(g, v, fat)
  {
    seq(g.nFatent, c requires 0 <= c < g.nFatent => Entry(g, v, c))
  }

  /** Links only depend on the sectors of the first FAT. */
  lemma LinksFrame(g: Geometry, v: seq<Sector>, w: seq<Sector>, fat: seq<nat>)
    requires Links(g, v, fat) && |w| == |v|
    requires forall s :: 0 <= s < |v| && InFat1(g, s) ==> w[s] == v[s]
    ensures Links(g, w, fat)
  {
    forall c | 0 <= c < g.nFatent
      ensures Entry(g, w, c) == Entry(g, v, c)
    {
      EntryPlace(g, |v|, c);
    }
  }

  lemma LinksPut(g: Geometry, v: seq<Sector>, fat: seq<nat>, c: nat, val: nat)
    requires Links(g, v, fat) && c < g.nFatent
    ensures Links(g, PutEntry(g, v, c, val), fat[c := val % EntryLimit(g.fsType)])
  {
    CodecRoundTrip(g, v, c, val);
  }
}
