/** Numbered short names for names out of 8.3 form: gen_numname (ff.c:2572-2625). */
module NumberedNames {
  import opened Bytes

  // ----- the hash used after many collisions

  /** One bit shifted into the 16-bit CRC register; bit 16 and the polynomial cancel. */
  function CrcBit(crc: nat, bit: nat): (r: nat)
    requires crc < 0x1_0000 && bit < 2
    ensures r < 0x1_0000
  {
    var t := crc * 2 + bit;
    if t >= 0x1_0000 then Stir(t - 0x1_0000) else t
  }

  /** The bit of weight p flipped. */
  function Flip(x: nat, p: nat): nat
    requires p > 0
  {
    if x / p % 2 == 0 then x + p else if x >= p then x - p else x
  }

  /** Exclusive or with 0x1021: bits 0, 5 and 12 are flipped. */
  function Stir(x: nat): (r: nat)
    requires x < 0x1_0000
    ensures r < 0x1_0000
  {
    Flip(Flip(Flip(x, 1), 0x20), 0x1000)
  }

  /** The given number of low bits of a character, lowest first. */
  function CrcUnit(crc: nat, wc: nat, bits: nat): (r: nat)
    requires crc < 0x1_0000
    ensures r < 0x1_0000
    decreases bits
  {
    if bits == 0 then crc else CrcUnit(CrcBit(crc, wc % 2), wc / 2, bits - 1)
  }

  function Crc(crc: nat, lfn: seq<nat>): (r: nat)
    requires crc < 0x1_0000
    ensures r < 0x1_0000
  {
    if lfn == [] then crc else CrcUnit(Crc(crc, lfn[..|lfn| - 1]), lfn[|lfn| - 1], 16)
  }

  /** The number put behind the tilde: the sequence number itself, or a hash of the name. */
  function Suffix(num: nat, lfn: seq<nat>): (h: nat)
    requires num < 0x1_0000
    ensures h < 0x1_0000
  {
    if num > 5 then Crc(num, lfn) else num
  }

  method HashName(num: nat, lfn: seq<nat>) returns (h: nat)
    requires num < 0x1_0000
    ensures h == Suffix(num, lfn)
  {
    hide CrcBit;
    h := num;
    if num > 5 {
      var k := 0;
      while k < |lfn|
        invariant 0 <= k <= |lfn| && h == Crc(num, lfn[..k])
      {
        assert lfn[..k + 1][..k] == lfn[..k];
        var wc := lfn[k];
        ghost var goal := CrcUnit(h, wc, 16);
        var i := 0;
        while i < 16
          invariant 0 <= i <= 16 && h < 0x1_0000 && CrcUnit(h, wc, 16 - i) == goal
        {
          h := CrcBit(h, wc % 2);
          wc := wc / 2;
          i := i + 1;
        }
        k := k + 1;
      }
      assert lfn[..k] == lfn;
    }
  }

  lemma FlipTwice(x: nat, p: nat)
    requires p in {1, 0x20, 0x1000}
    ensures Flip(Flip(x, p), p) == x
  {
    assert (x + p) / p == x / p + 1;
    assert x >= p ==> (x - p) / p == x / p - 1;
  }

  lemma FlipParity(x: nat, p: nat)
    requires p in {1, 0x20, 0x1000}
    ensures Flip(x, p) % 2 == if p == 1 then 1 - x % 2 else x % 2
  {
  }

  lemma FlipFacts(x: nat, p: nat)
    requires p in {1, 0x20, 0x1000}
    ensures Flip(Flip(x, p), p) == x && Flip(x, p) % 2 == if p == 1 then 1 - x % 2 else x % 2
  {
    hide Flip;
    FlipTwice(x, p);
    FlipParity(x, p);
  }

  /** The polynomial flips the lowest bit, and no two values become one. */
  lemma StirFacts(x: nat, y: nat)
    requires x < 0x1_0000 && y < 0x1_0000
    ensures Stir(x) % 2 == 1 - x % 2 && (Stir(x) == Stir(y) ==> x == y)
  {
    hide Flip;
    FlipFacts(x, 1);
    FlipFacts(y, 1);
    FlipFacts(Flip(x, 1), 0x20);
    FlipFacts(Flip(y, 1), 0x20);
    FlipFacts(Flip(Flip(x, 1), 0x20), 0x1000);
    FlipFacts(Flip(Flip(y, 1), 0x20), 0x1000);
  }

  /** A step loses nothing of the register. */
  lemma CrcBitKeeps(a: nat, b: nat, bit: nat)
    requires a < 0x1_0000 && b < 0x1_0000 && bit < 2 && CrcBit(a, bit) == CrcBit(b, bit)
    ensures a == b
  {
    hide Stir;
    var t, u := a * 2 + bit, b * 2 + bit;
    if t >= 0x1_0000 { StirFacts(t - 0x1_0000, if u >= 0x1_0000 then u - 0x1_0000 else 0); }
    if u >= 0x1_0000 { StirFacts(u - 0x1_0000, 0); }
  }

  lemma {:induction false} CrcUnitKeeps(a: nat, b: nat, wc: nat, bits: nat)
    requires a < 0x1_0000 && b < 0x1_0000 && CrcUnit(a, wc, bits) == CrcUnit(b, wc, bits)
    ensures a == b
    decreases bits
  {
    hide CrcBit;
    if bits > 0 {
      CrcUnitKeeps(CrcBit(a, wc % 2), CrcBit(b, wc % 2), wc / 2, bits - 1);
      CrcBitKeeps(a, b, wc % 2);
    }
  }

  lemma {:induction false} CrcKeeps(a: nat, b: nat, lfn: seq<nat>)
    requires a < 0x1_0000 && b < 0x1_0000 && Crc(a, lfn) == Crc(b, lfn)
    ensures a == b
  {
    hide CrcUnit;
    if lfn != [] {
      var front, last := lfn[..|lfn| - 1], lfn[|lfn| - 1];
      CrcUnitKeeps(Crc(a, front), Crc(b, front), last, 16);
      CrcKeeps(a, b, front);
    }
  }

  /** No number is tried twice for a name: neither among the plain ones nor among the hashed ones. */
  lemma SuffixDiffers(m: nat, n: nat, lfn: seq<nat>)
    requires m < n < 0x1_0000 && (n <= 5 || 5 < m)
    ensures Suffix(m, lfn) != Suffix(n, lfn)
  {
    hide Crc;
    if Suffix(m, lfn) == Suffix(n, lfn) && 5 < m {
      CrcKeeps(m, n, lfn);
    }
  }

  // ----- the suffix

  function HexDigit(d: nat): byte
    requires d < 16
  {
    if d < 10 then d + 0x30 else d + 0x37
  }

  /** The value of a hexadecimal numeral. */
  function HexValue(s: seq<byte>): nat {
    if s == [] then 0
    else HexValue(s[..|s| - 1]) * 16 + (if s[|s| - 1] < 0x3A then s[|s| - 1] as int - 0x30
        else s[|s| - 1] as int - 0x37) % 16
  }

  predicate IsHex(b: byte) { 0x30 <= b <= 0x39 || 0x41 <= b <= 0x46 }

  /** The numeral of h, without leading zeros, or 0. */
  function Numeral(h: nat): (s: seq<byte>)
    ensures |s| >= 1 && forall k :: 0 <= k < |s| ==> IsHex(s[k])
  {
    (if h < 16 then [] else Numeral(h / 16)) + [HexDigit(h % 16)]
  }

  lemma {:induction false} NumeralValue(h: nat)
    ensures HexValue(Numeral(h)) == h
  {
    hide HexDigit, HexValue, Numeral;
    var high := if h < 16 then [] else Numeral(h / 16);
    NumeralParts(h);
    LastDigit(high, h % 16);
    if h >= 16 {
      NumeralValue(h / 16);
    }
  }

  lemma NumeralParts(h: nat)
    ensures Numeral(h) == (if h < 16 then [] else Numeral(h / 16)) + [HexDigit(h % 16)] && HexValue([]) == 0
  {
  }

  lemma LastDigit(s: seq<byte>, d: nat)
    requires d < 16
    ensures HexValue(s + [HexDigit(d)]) == HexValue(s) * 16 + d
  {
    var t := s + [HexDigit(d)];
    assert t[..|t| - 1] == s;
    assert t[|t| - 1] == HexDigit(d);
  }

  lemma {:induction false} WordNumeral(h: nat)
    ensures h < 0x10 ==> |Numeral(h)| == 1
    ensures h < 0x100 ==> |Numeral(h)| <= 2
    ensures h < 0x1000 ==> |Numeral(h)| <= 3
    ensures h < 0x1_0000 ==> |Numeral(h)| <= 4
  {
    if 16 <= h {
      WordNumeral(h / 16);
    }
  }

  /** dst is src with its body cut at j, a tilde and the numeral d appended, padded with spaces; the extension is
      kept. */
  ghost predicate IsNumbered(dst: seq<byte>, src: seq<byte>, j: nat, d: seq<byte>) {
    && |dst| == |src| == 11 && 1 <= |d| <= 4 && j + 1 + |d| <= 8
    && (forall k :: 0 <= k < j ==> dst[k] == src[k] != 0x20) && (j == 7 - |d| || src[j] == 0x20)
    && dst[j] == 0x7E && (forall k :: 0 <= k < |d| ==> dst[j + 1 + k] == d[k])
    && (forall k :: j + 1 + |d| <= k < 8 ==> dst[k] == 0x20)
    && (forall k :: 8 <= k < 11 ==> dst[k] == src[k])
  }

  /** There is one such name only. */
  lemma NumberedUnique(dst: seq<byte>, dst': seq<byte>, src: seq<byte>, j: nat, j': nat, d: seq<byte>)
    requires IsNumbered(dst, src, j, d) && IsNumbered(dst', src, j', d)
    ensures dst == dst'
  {
    assert j == j';
    forall k | 0 <= k < 11
      ensures dst[k] == dst'[k]
    {
      assert j + 1 <= k < j + 1 + |d| ==> dst[j + 1 + (k - j - 1)] == d[k - j - 1];
    }
  }

  /** The digits of a number, right-aligned in eight bytes behind a tilde. */
  method MakeSuffix(h: nat) returns (ns: seq<byte>, i: nat)
    requires h < 0x1_0000
    ensures |ns| == 8 && 3 <= i == 7 - |Numeral(h)| && ns[i] == 0x7E && ns[i + 1..] == Numeral(h)
  {
    WordNumeral(h);
    ns := seq(8, _ => 0x20);
    i := 7;
    var n := h;
    ns := ns[7 := HexDigit(n % 16)];
    n := n / 16;
    i := 6;
    while i > 0 && n > 0
      invariant |ns| == 8 && 0 <= i <= 6
      invariant Numeral(h) == (if n == 0 then [] else Numeral(n)) + ns[i + 1..]
      decreases i
    {
      ns := ns[i := HexDigit(n % 16)];
      assert ns[i..] == [ns[i]] + ns[i + 1..];
      n := n / 16;
      i := i - 1;
    }
    ghost var digits := ns[i + 1..];
    ns := ns[i := 0x7E];
    assert ns[i + 1..] == digits;
  }

  /** The offset to append the suffix at (ff.c:2611-2618); there are no double-byte characters. */
  method FindOffset(dst: seq<byte>, i: nat) returns (j: nat)
    requires |dst| == 11 && i <= 7
    ensures j <= i && (forall k :: 0 <= k < j ==> dst[k] != 0x20) && (j == i || dst[j] == 0x20)
  {
    j := 0;
    while j < i && dst[j] != 0x20
      invariant 0 <= j <= i && forall k :: 0 <= k < j ==> dst[k] != 0x20
    {
      j := j + 1;
    }
  }

  /** Appending the suffix (ff.c:2619-2621). */
  method AppendSuffix(src: seq<byte>, ns: seq<byte>, at: nat, start: nat) returns (dst: seq<byte>)
    requires |src| == 11 && |ns| == 8 && at <= start < 8
    ensures |dst| == 11 && forall k :: 0 <= k < 11 ==>
              dst[k] == if k < at || 8 <= k then src[k] else if start + (k - at) < 8 then ns[start + (k - at)] else 0x20
  {
    dst := src;
    var j, i := at, start;
    while j < 8
      invariant at <= j <= 8 && |dst| == 11 && i == (if start + (j - at) <= 8 then start + (j - at) else 8)
      invariant forall k :: 0 <= k < 11 ==>
                  dst[k] == if k < at || j <= k then src[k] else if start + (k - at) < 8 then ns[start + (k - at)]
                      else 0x20
    {
      if i < 8 {
        dst := dst[j := ns[i]];
        i := i + 1;
      } else {
        dst := dst[j := 0x20];
      }
      j := j + 1;
    }
  }

  /** gen_numname: the body is shortened to make room for a tilde and a number. */
  method GenNumname(src: seq<byte>, lfn: seq<nat>, num: nat) returns (dst: seq<byte>, at: nat)
    requires |src| == 11 && num < 0x1_0000
    ensures IsNumbered(dst, src, at, Numeral(Suffix(num, lfn)))
  {
    hide Numeral, Suffix;
    var h := HashName(num, lfn);
    WordNumeral(h);
    var ns, i := MakeSuffix(h);
    ghost var d := Numeral(h);
    assert forall k :: 0 <= k < |d| ==> ns[8 - |d| + k] == ns[i + 1..][k] == d[k];
    var j := FindOffset(src, i);
    at := j;
    dst := AppendSuffix(src, ns, j, i);
  }
}
