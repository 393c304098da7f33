/** Bytes, sectors and the little-endian words FatFs stores in them (ff.c:860-916). */
module Bytes {
  type byte = x: int | 0 <= x < 256

  /** A 512-byte sector, the only size configured (FF_MIN_SS == FF_MAX_SS == 512). */
  type Sector = s: seq<byte> | |s| == 512 witness seq(512, _ => 0)

  /** ld_16: a 2-byte little-endian word. */
  function Ld16(s: seq<byte>, i: nat): (r: nat)
    requires i + 2 <= |s|
    ensures r < 0x1_0000
  {
    s[i] as int + 0x100 * s[i + 1] as int
  }

  /** ld_32: a 4-byte little-endian word. */
  function Ld32(s: seq<byte>, i: nat): (r: nat)
    requires i + 4 <= |s|
    ensures r < 0x1_0000_0000
  {
    s[i] as int + 0x100 * s[i + 1] as int + 0x1_0000 * s[i + 2] as int + 0x100_0000 * s[i + 3] as int
  }

  /** The four bytes of a 32-bit word, lowest first. */
  function ByteOf(v: nat, k: nat): (b: byte)
    requires k < 4
  {
    match k
    case 0 => v % 0x100
    case 1 => v / 0x100 % 0x100
    case 2 => v / 0x1_0000 % 0x100
    case _ => v / 0x100_0000 % 0x100
  }

  /** st_16: the low 16 bits of v at offset i. */
  function St16(s: seq<byte>, i: nat, v: nat): (r: seq<byte>)
    requires i + 2 <= |s|
    ensures |r| == |s|
  {
    s[i := ByteOf(v, 0)][i + 1 := ByteOf(v, 1)]
  }

  /** st_32: the low 32 bits of v at offset i. */
  function St32(s: seq<byte>, i: nat, v: nat): (r: seq<byte>)
    requires i + 4 <= |s|
    ensures |r| == |s|
  {
    s[i := ByteOf(v, 0)][i + 1 := ByteOf(v, 1)][i + 2 := ByteOf(v, 2)][i + 3 := ByteOf(v, 3)]
  }

  /** The bytes of a word add up to the word. */
  lemma BytesAddUp(v: nat)
    ensures ByteOf(v, 0) as int + 0x100 * ByteOf(v, 1) as int == v % 0x1_0000
    ensures v < 0x1_0000_0000 ==>
              ByteOf(v, 0) as int + 0x100 * ByteOf(v, 1) as int + 0x1_0000 * ByteOf(v, 2) as int
                + 0x100_0000 * ByteOf(v, 3) as int == v
  {
    var a, b, c := v / 0x100, v / 0x1_0000, v / 0x100_0000;
    assert b == a / 0x100 && c == b / 0x100;
    assert v == 0x100 * a + v % 0x100;
    assert a == 0x100 * b + a % 0x100;
    assert b == 0x100 * c + b % 0x100;
  }

  /** st_32 then ld_32 returns the word; st_16 then ld_16 returns it modulo 2^16. Bytes elsewhere are kept. */
  lemma StoreLoad(s: seq<byte>, i: nat, v: nat)
    ensures i + 2 <= |s| ==> Ld16(St16(s, i, v), i) == v % 0x1_0000
    ensures i + 4 <= |s| && v < 0x1_0000_0000 ==> Ld32(St32(s, i, v), i) == v
    ensures i + 2 <= |s| ==> forall k :: 0 <= k < |s| && !(i <= k < i + 2) ==> St16(s, i, v)[k] == s[k]
    ensures i + 4 <= |s| ==> forall k :: 0 <= k < |s| && !(i <= k < i + 4) ==> St32(s, i, v)[k] == s[k]
  {
    BytesAddUp(v);
  }

  lemma SameWord(s: seq<byte>, t: seq<byte>, i: nat)
    requires i + 4 <= |s| == |t|
    requires forall k :: i <= k < i + 4 ==> s[k] == t[k]
    ensures Ld32(s, i) == Ld32(t, i)
  {
  }

  lemma SameHalf(s: seq<byte>, t: seq<byte>, i: nat)
    requires i + 2 <= |s| == |t| && s[i] == t[i] && s[i + 1] == t[i + 1]
    ensures Ld16(s, i) == Ld16(t, i)
  {
  }

  /** Quotient and remainder are determined by the division equation. */
  lemma DivModOf(x: int, d: int, q: int, r: int)
    requires d > 0 && x == d * q + r && 0 <= r < d
    ensures x / d == q && x % d == r
  {
    var k := q - x / d;
    assert d * k == x % d - r by {
      assert x == d * (x / d) + x % d;
      assert d * k == d * q - d * (x / d);
    }
    assert d * -k == -(d * k);
    if k > 0 {
      MulGap(d, k);
    } else if k < 0 {
      MulGap(d, -k);
    }
  }

  lemma MulGap(d: int, k: int)
    requires d > 0 && k >= 1
    ensures d * k >= d
  {
  }

  lemma DivNat(x: nat, d: nat)
    requires d > 0
    ensures x / d >= 0
  {
    assert x == d * (x / d) + x % d;
  }

  /** A subset is no larger. */
  lemma {:induction false} SubsetSize<T>(a: set<T>, b: set<T>)
    requires a <= b
    ensures |a| <= |b|
    decreases a
  {
    if a != {} {
      var x :| x in a;
      SubsetSize(a - {x}, b - {x});
    }
  }
}
