/** Long file name entries: put_lfn, pick_lfn, cmp_lfn and sum_sfn (ff.c:2447-2562, ff.c:2632-2642). */
module LongNames {
  import opened Bytes

  type DirEntry = e: seq<byte> | |e| == 32 witness seq(32, _ => 0)

  /** The offsets of the 13 characters in an entry (ff.c:723-724). */
  function LfnOfs(di: nat): (o: nat)
    requires di < 13
    ensures 1 <= o && o + 2 <= 32
  {
    [1, 3, 5, 7, 9, 14, 16, 18, 20, 22, 24, 28, 30][di]
  }

  const LLEF: nat := 0x40
  const MAX_LFN: nat := 255

  /** A UTF-16 name: no terminator and no filler inside. */
  ghost predicate IsName(lfn: seq<nat>) {
    1 <= |lfn| <= MAX_LFN && forall k :: 0 <= k < |lfn| ==> 0 < lfn[k] < 0xFFFF
  }

  /** The number of entries for a name of len characters. */
  function EntriesFor(len: nat): nat {
    (len + 12) / 13
  }

  /** What an entry set holds at character position k: the name, its terminator, then filler. */
  function CharAt(lfn: seq<nat>, k: nat): nat {
    if k < |lfn| then lfn[k] else if k == |lfn| then 0 else 0xFFFF
  }

  /** e is entry number ord of the set for a name, tied to a short name with this checksum. */
  ghost predicate IsLfnEntry(e: DirEntry, lfn: seq<nat>, ord: nat, sum: byte) {
    && 1 <= ord <= EntriesFor(|lfn|)
    && e[0] == (if ord == EntriesFor(|lfn|) then ord + LLEF else ord)
    && e[11] == 0x0F && e[12] == 0 && e[13] == sum && Ld16(e, 26) == 0
    && forall di :: 0 <= di < 13 ==> Ld16(e, LfnOfs(di)) == CharAt(lfn, (ord - 1) * 13 + di)
  }

  lemma EntryCount(len: nat)
    requires 1 <= len <= MAX_LFN
    ensures 1 <= EntriesFor(len) <= 20 && (EntriesFor(len) - 1) * 13 < len <= EntriesFor(len) * 13
  {
  }

  /** Character slots do not overlap each other or the other fields. */
  lemma SlotsApart(di: nat, dj: nat)
    requires di < 13 && dj < 13
    ensures di != dj ==> LfnOfs(di) + 2 <= LfnOfs(dj) || LfnOfs(dj) + 2 <= LfnOfs(di)
    ensures (LfnOfs(di) + 2 <= 11 || 14 <= LfnOfs(di)) && (LfnOfs(di) + 2 <= 26 || 28 <= LfnOfs(di))
  {
  }

  /** The first di characters of an entry, and its fields, are in place. */
  ghost predicate Filled(e: seq<byte>, lfn: seq<nat>, base: nat, di: nat, sum: byte) {
    && |e| == 32 && di <= 13
    && e[11] == 0x0F && e[12] == 0 && e[13] == sum && Ld16(e, 26) == 0
    && forall k :: 0 <= k < di ==> Ld16(e, LfnOfs(k)) == CharAt(lfn, base + k)
  }

  lemma FilledStep(e: seq<byte>, lfn: seq<nat>, base: nat, di: nat, sum: byte, chr: nat)
    requires Filled(e, lfn, base, di, sum) && di < 13 && chr == CharAt(lfn, base + di) < 0x1_0000
    ensures Filled(St16(e, LfnOfs(di), chr), lfn, base, di + 1, sum)
  {
    hide LfnOfs, St16, Ld16;
    var t := St16(e, LfnOfs(di), chr);
    StoreLoad(e, LfnOfs(di), chr);
    SlotsApart(di, di);
    SameHalf(e, t, 26);
    forall k | 0 <= k < di
      ensures Ld16(t, LfnOfs(k)) == Ld16(e, LfnOfs(k))
    {
      SlotsApart(di, k);
      SameHalf(e, t, LfnOfs(k));
    }
  }

  /** The order byte does not disturb the rest. */
  lemma FilledOrder(e: seq<byte>, lfn: seq<nat>, base: nat, sum: byte, b: byte)
    requires Filled(e, lfn, base, 13, sum)
    ensures Filled(e[0 := b], lfn, base, 13, sum)
  {
    hide LfnOfs, Ld16;
    SameHalf(e, e[0 := b], 26);
    forall k | 0 <= k < 13
      ensures Ld16(e[0 := b], LfnOfs(k)) == Ld16(e, LfnOfs(k))
    {
      SameHalf(e, e[0 := b], LfnOfs(k));
    }
  }

  /** put_lfn: entry number ord of the name in the NUL-terminated buffer. */
  method PutLfn(buf: seq<nat>, ghost lfn: seq<nat>, dir: DirEntry, ord: nat, sum: byte) returns (e: DirEntry)
    requires IsName(lfn) && |lfn| < |buf| && buf[..|lfn|] == lfn && buf[|lfn|] == 0
    requires 1 <= ord <= EntriesFor(|lfn|)
    ensures IsLfnEntry(e, lfn, ord, sum)
  {
    EntryCount(|lfn|);
    e := dir[13 := sum][11 := 0x0F][12 := 0];
    e := St16(e, 26, 0);
    ghost var base := (ord - 1) * 13;
    assert Filled(e, lfn, base, 0, sum);
    hide Filled, LfnOfs, St16, EntriesFor;
    var ni := (ord - 1) * 13;
    var di, chr := 0, 0;
    while di < 13
      invariant 0 <= di <= 13 && Filled(e, lfn, base, di, sum)
      invariant if chr == 0xFFFF then |lfn| < base + di else ni == base + di <= |lfn|
    {
      if chr != 0xFFFF {
        chr := buf[ni];
        ni := ni + 1;
      }
      assert chr == CharAt(lfn, base + di);
      FilledStep(e, lfn, base, di, sum, chr);
      e := St16(e, LfnOfs(di), chr);
      if chr == 0 {
        chr := 0xFFFF;
      }
      di := di + 1;
    }
    var last := chr == 0xFFFF || buf[ni] == 0;
    FilledOrder(e, lfn, base, sum, if last then ord + LLEF else ord);
    e := e[0 := if last then ord + LLEF else ord];
    FilledIsEntry(e, lfn, ord, sum);
  }

  lemma FilledIsEntry(e: seq<byte>, lfn: seq<nat>, ord: nat, sum: byte)
    requires IsName(lfn) && 1 <= ord <= EntriesFor(|lfn|) && Filled(e, lfn, (ord - 1) * 13, 13, sum)
    requires e[0] == if |lfn| <= ord * 13 then ord + LLEF else ord
    ensures IsLfnEntry(e, lfn, ord, sum)
  {
    EntryCount(|lfn|);
  }

  predicate HasLlef(b: byte) {
    b / LLEF % 2 == 1
  }

  /** b & ~LLEF */
  function Order(b: byte): byte {
    if HasLlef(b) then b - LLEF else b
  }

  /** The first character position of an entry, in 32-bit arithmetic: order 0 wraps around. */
  function FirstChar(ord: nat): nat {
    if ord == 0 then 0xFFFF_FFF3 else (ord - 1) * 13
  }

  lemma OrderOf(e: DirEntry, lfn: seq<nat>, ord: nat, sum: byte)
    requires IsName(lfn) && IsLfnEntry(e, lfn, ord, sum)
    ensures Order(e[0]) == e[0] % 0x40 == ord <= 20 && FirstChar(ord) == (ord - 1) * 13
      && (HasLlef(e[0]) <==> ord == EntriesFor(|lfn|))
  {
    EntryCount(|lfn|);
  }

  // ----- pick_lfn

  /** One past the last position that entry ord of a name determines: its 13 characters, or up to the terminator. */
  function EndOf(lfn: seq<nat>, ord: nat): nat {
    if ord == EntriesFor(|lfn|) then |lfn| + 1 else ord * 13
  }

  /** pick_lfn: the characters of an entry go to their place in the name buffer. */
  method PickLfn(buf: seq<nat>, e: DirEntry, ghost lfn: seq<nat>, ghost ord: nat, ghost sum: byte)
    returns (ok: bool, out: seq<nat>)
    requires |buf| == 256
    ensures |out| == 256 && (Order(e[0]) == 0 ==> !ok)
    ensures IsName(lfn) && IsLfnEntry(e, lfn, ord, sum) ==>
              && ok
              && forall k :: 0 <= k < 256 ==>
                   out[k] == if (ord - 1) * 13 <= k < EndOf(lfn, ord) then CharAt(lfn, k) else buf[k]
  {
    ghost var good := IsName(lfn) && IsLfnEntry(e, lfn, ord, sum);
    out := buf;
    if Ld16(e, 26) != 0 {
      return false, out;
    }
    if good {
      OrderOf(e, lfn, ord, sum);
      EntryCount(|lfn|);
    }
    ghost var base := if good then (ord - 1) * 13 else 0;
    var ni: nat := FirstChar(Order(e[0]));
    assert Order(e[0]) == 0 ==> ni >= 256;
    var di, pchr := 0, 1;
    hide Order, FirstChar, HasLlef, LfnOfs;
    while di < 13
      invariant 0 <= di <= 13 && |out| == 256
      invariant Order(e[0]) == 0 ==> di == 0 && pchr != 0 && ni >= 256
      invariant good ==> if pchr == 0 then ni == |lfn| + 1 <= base + di else ni == base + di <= |lfn|
      invariant good ==> forall k :: 0 <= k < 256 ==> out[k] == if base <= k < ni then CharAt(lfn, k) else buf[k]
    {
      var chr := Ld16(e, LfnOfs(di));
      assert good ==> chr == CharAt(lfn, base + di);
      if pchr != 0 {
        if ni >= MAX_LFN + 1 {
          return false, out;
        }
        out := out[ni := chr];
        ni := ni + 1;
        pchr := chr;
      } else {
        if chr != 0xFFFF {
          return false, out;
        }
      }
      di := di + 1;
    }
    if HasLlef(e[0]) && pchr != 0 {
      if ni >= MAX_LFN + 1 {
        return false, out;
      }
      out := out[ni := 0];
    }
    ok := true;
  }

  // ----- cmp_lfn

  /** The comparison of characters di..12 of an entry with the buffer from ni on. */
  ghost predicate CmpFrom(up: nat -> nat, buf: seq<nat>, e: DirEntry, di: nat, ni: nat, pchr: nat)
    requires |buf| == 256 && di <= 13
    decreases 13 - di
  {
    if di == 13 then
      !(HasLlef(e[0]) && pchr != 0 && ni < 256 && buf[ni] != 0)
    else
      var chr := Ld16(e, LfnOfs(di));
      if pchr != 0 then
        ni < 256 && up(chr) == up(buf[ni]) && CmpFrom(up, buf, e, di + 1, ni + 1, chr)
      else
        chr == 0xFFFF && CmpFrom(up, buf, e, di + 1, ni, 0)
  }

  ghost predicate Cmp(up: nat -> nat, buf: seq<nat>, e: DirEntry)
    requires |buf| == 256
  {
    Ld16(e, 26) == 0 && CmpFrom(up, buf, e, 0, FirstChar(e[0] % 0x40), 1)
  }

  /** cmp_lfn: does this part of the stored name match the name in the buffer? */
  method CmpLfn(up: nat -> nat, buf: seq<nat>, e: DirEntry) returns (r: bool)
    requires |buf| == 256
    ensures r <==> Cmp(up, buf, e)
  {
    if Ld16(e, 26) != 0 {
      return false;
    }
    var ni: nat := FirstChar(e[0] % 0x40);
    ghost var base := ni;
    var di, pchr := 0, 1;
    while di < 13
      invariant 0 <= di <= 13 && (pchr != 0 ==> ni == base + di && (di > 0 ==> ni <= 256))
      invariant Cmp(up, buf, e) <==> CmpFrom(up, buf, e, di, ni, pchr)
    {
      var chr := Ld16(e, LfnOfs(di));
      if pchr != 0 {
        if ni >= MAX_LFN + 1 || up(chr) != up(buf[ni]) {
          return false;
        }
        ni := ni + 1;
        pchr := chr;
      } else {
        if chr != 0xFFFF {
          return false;
        }
      }
      di := di + 1;
    }
    r := !(HasLlef(e[0]) && pchr != 0 && buf[ni] != 0);
  }

  /** Folding maps only the terminator to the terminator. */
  ghost predicate Folds(up: nat -> nat) {
    forall x: nat :: up(x) == 0 <==> x == 0
  }

  /** The buffer holds the NUL-terminated name; what follows is left over from earlier names. */
  ghost predicate Buffered(buf: seq<nat>, lfn: seq<nat>) {
    |buf| == 256 && |lfn| <= 255 && buf[..|lfn|] == lfn && buf[|lfn|] == 0 && forall k :: 0 <= k < |lfn| ==> lfn[k] != 0
  }

  /** Entry ord of the stored name agrees with the buffer at the positions it determines. */
  ghost predicate PartMatches(up: nat -> nat, buf: seq<nat>, stored: seq<nat>, ord: nat)
    requires |buf| == 256 && |stored| <= 255
  {
    forall k :: (ord - 1) * 13 <= k < EndOf(stored, ord) && 0 <= k <= |stored| ==> up(CharAt(stored, k)) == up(buf[k])
  }

  lemma {:induction false} CmpPart(up: nat -> nat, buf: seq<nat>, e: DirEntry, stored: seq<nat>, ord: nat, sum: byte,
                                   di: nat, ni: nat, pchr: nat)
    requires Folds(up) && |buf| == 256 && IsName(stored) && IsLfnEntry(e, stored, ord, sum) && di <= 13
    requires if pchr == 0 then ni == |stored| + 1 <= (ord - 1) * 13 + di else ni == (ord - 1) * 13 + di <= |stored|
    ensures CmpFrom(up, buf, e, di, ni, pchr) <==>
              forall k :: ni <= k < EndOf(stored, ord) && k <= |stored| ==> up(CharAt(stored, k)) == up(buf[k])
    decreases 13 - di
  {
    EntryCount(|stored|);
    OrderOf(e, stored, ord, sum);
    if di < 13 {
      var chr := Ld16(e, LfnOfs(di));
      assert chr == CharAt(stored, (ord - 1) * 13 + di);
      if pchr == 0 {
        CmpPart(up, buf, e, stored, ord, sum, di + 1, ni, 0);
      } else {
        CmpPart(up, buf, e, stored, ord, sum, di + 1, ni + 1, chr);
      }
    }
  }

  /** cmp_lfn on an entry of a stored name compares exactly the positions of that entry. */
  lemma CmpIsPart(up: nat -> nat, buf: seq<nat>, e: DirEntry, stored: seq<nat>, ord: nat, sum: byte)
    requires Folds(up) && |buf| == 256 && IsName(stored) && IsLfnEntry(e, stored, ord, sum)
    ensures Cmp(up, buf, e) <==> PartMatches(up, buf, stored, ord)
  {
    EntryCount(|stored|);
    OrderOf(e, stored, ord, sum);
    CmpPart(up, buf, e, stored, ord, sum, 0, (ord - 1) * 13, 1);
  }

  /** Two names are equal up to case. */
  ghost predicate SameName(up: nat -> nat, a: seq<nat>, b: seq<nat>) {
    |a| == |b| && forall k :: 0 <= k < |a| ==> up(a[k]) == up(b[k])
  }

  /** All entries of a stored name match the buffer exactly when the two names are equal up to case. */
  lemma AllPartsMatch(up: nat -> nat, buf: seq<nat>, lfn: seq<nat>, stored: seq<nat>)
    requires Folds(up) && Buffered(buf, lfn) && IsName(stored)
    ensures (forall ord :: 1 <= ord <= EntriesFor(|stored|) ==> PartMatches(up, buf, stored, ord)) <==>
              SameName(up, lfn, stored)
  {
    EntryCount(|stored|);
    if forall ord :: 1 <= ord <= EntriesFor(|stored|) ==> PartMatches(up, buf, stored, ord) {
      forall k | 0 <= k <= |stored|
        ensures up(CharAt(stored, k)) == up(buf[k])
      {
        var ord := if k == |stored| then EntriesFor(|stored|) else k / 13 + 1;
        assert PartMatches(up, buf, stored, ord);
      }
      assert up(CharAt(stored, |stored|)) == up(buf[|stored|]);
      assert |lfn| <= |stored| ==> up(CharAt(stored, |lfn|)) == up(buf[|lfn|]);
    }
    if SameName(up, lfn, stored) {
      forall ord | 1 <= ord <= EntriesFor(|stored|)
        ensures PartMatches(up, buf, stored, ord)
      {
      }
    }
  }

  // ----- sum_sfn

  /** One step of the checksum: rotate right, then add, in 8 bits. */
  function SumStep(sum: byte, b: byte): byte {
    (Rotated(sum) + b as int) % 0x100
  }

  /** Rotated right by one bit. */
  function Rotated(x: byte): nat { x as int / 2 + x as int % 2 * 0x80 }

  function SumOf(s: seq<byte>): byte {
    if s == [] then 0 else SumStep(SumOf(s[..|s| - 1]), s[|s| - 1])
  }

  /** sum_sfn: the checksum over the 11 bytes of a short name. */
  method SumSfn(dir: seq<byte>) returns (sum: byte)
    requires |dir| >= 11
    ensures sum == SumOf(dir[..11])
  {
    sum := 0;
    var n := 0;
    while n < 11
      invariant 0 <= n <= 11 && sum == SumOf(dir[..n])
    {
      assert dir[..n + 1][..n] == dir[..n];
      sum := SumStep(sum, dir[n]);
      n := n + 1;
    }
  }

  /** A step loses neither the sum so far nor the byte. */
  lemma SumStepKeeps(x: byte, y: byte, b: byte, c: byte)
    ensures x != y ==> SumStep(x, b) != SumStep(y, b)
    ensures b != c ==> SumStep(x, b) != SumStep(x, c)
  {
    hide Rotated;
    RotatedKeeps(x, y);
    AddKeeps(Rotated(x), Rotated(y), b);
    AddKeeps(b, c, Rotated(x));
  }

  lemma RotatedKeeps(x: byte, y: byte)
    ensures Rotated(x) < 0x100 && Rotated(y) < 0x100 && (Rotated(x) == Rotated(y) ==> x == y)
  {
  }

  lemma AddKeeps(p: nat, q: nat, b: nat)
    requires p < 0x100 && q < 0x100
    ensures (p + b) % 0x100 == (q + b) % 0x100 ==> p == q
  {
  }

  /** The checksum tells two short names apart that differ in one byte. */
  lemma {:induction false} SumDetects(s: seq<byte>, k: nat, b: byte)
    requires k < |s| && s[k] != b
    ensures SumOf(s[k := b]) != SumOf(s)
  {
    hide SumStep;
    var t, n := s[k := b], |s| - 1;
    if k < n {
      assert t[..n] == s[..n][k := b];
      SumDetects(s[..n], k, b);
      SumStepKeeps(SumOf(s[..n]), SumOf(t[..n]), s[n], s[n]);
    } else {
      assert t[..n] == s[..n];
      SumStepKeeps(SumOf(s[..n]), 0, s[n], b);
    }
  }
}
