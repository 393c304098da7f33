/** 8.3 names: create_name (ff.c:3657-3847). */
module ShortNames {
  import opened Bytes
  import opened Volume
  import opened LongNames

  /** A single-byte code page: ff_oem2uni, ff_uni2oem and the up-case table of extended characters. */
  datatype CodePage = CodePage(toUni: byte -> nat, toOem: nat -> nat, exCvt: byte -> byte)

  /** ASCII maps to itself, extended characters map to distinct UTF-16 units outside ASCII and back. */
  ghost predicate Lawful(cp: CodePage) {
    && (forall b: byte :: b < 0x80 ==> cp.toUni(b) == b)
    && (forall b: byte :: b >= 0x80 ==> 0x80 <= cp.toUni(b) < 0xD800 && cp.toOem(cp.toUni(b)) == b)
    && (forall u: nat :: u < 0x80 ==> cp.toOem(u) == u)
    && (forall u: nat :: u >= 0x80 ==> cp.toOem(u) == 0 || 0x80 <= cp.toOem(u) < 0x100)
    && (forall u: nat :: u >= 0x1_0000 ==> cp.toOem(u) == 0)
    && (forall b: byte :: b >= 0x80 ==> cp.exCvt(b) >= 0x80 || IsUpper(cp.exCvt(b)))
  }

  // NS_ flags of a name (ff.c:76-85).
  datatype Flags = Flags(loss: bool, lfn: bool, last: bool, body: bool, ext: bool, dot: bool)

  /** The long name to be stored: none if the short form stands for the name. */
  function LongPart(lfn: seq<nat>, cf: Flags): seq<nat> { if cf.lfn then lfn else [] }

  const NO_FLAGS: Flags := Flags(false, false, false, false, false, false)

  predicate IsUpper(c: nat) { 0x41 <= c <= 0x5A }
  predicate IsLower(c: nat) { 0x61 <= c <= 0x7A }
  predicate IsSeparator(c: nat) { c == 0x2F || c == 0x5C }

  /** One of * : < > | " ? DEL, which no name may hold. */
  predicate IsIllegal(c: nat) { c in {0x2A, 0x3A, 0x3C, 0x3E, 0x7C, 0x22, 0x3F, 0x7F} }

  /** One of + , ; = [ ], which a short name may not hold. */
  predicate IsLossy(c: nat) { c in {0x2B, 0x2C, 0x3B, 0x3D, 0x5B, 0x5D} }

  function Up(c: nat): nat { if IsLower(c) then c - 0x20 else c }

  /** A character that fits an 8.3 field as it is, up to case. */
  predicate IsPlain(c: nat) {
    0x20 < c < 0x80 && c != 0x2E && !IsLossy(c)
  }

  ghost predicate AllPlain(s: seq<nat>) { forall k :: 0 <= k < |s| ==> IsPlain(s[k]) }
  ghost predicate HasUpper(s: seq<nat>) { exists k :: 0 <= k < |s| && IsUpper(s[k]) }
  ghost predicate HasLower(s: seq<nat>) { exists k :: 0 <= k < |s| && IsLower(s[k]) }

  /** A field of an 8.3 name: the upper-cased characters, padded with spaces. */
  ghost predicate IsField(f: seq<byte>, s: seq<nat>) {
    |s| <= |f| && (forall k :: 0 <= k < |s| ==> f[k] == Up(s[k])) && forall k :: |s| <= k < |f| ==> f[k] == 0x20
  }

  /** One past the last dot of a name; 0 when it has none. */
  function LastDot(lfn: seq<nat>): (d: nat)
    ensures d <= |lfn| && (d > 0 ==> lfn[d - 1] == 0x2E) && forall k :: d <= k < |lfn| ==> lfn[k] != 0x2E
  {
    if lfn == [] then 0 else if lfn[|lfn| - 1] == 0x2E then |lfn| else LastDot(lfn[..|lfn| - 1])
  }

  function BodyOf(lfn: seq<nat>): seq<nat> {
    if LastDot(lfn) == 0 then lfn else lfn[..LastDot(lfn) - 1]
  }

  function ExtOf(lfn: seq<nat>): seq<nat> {
    if LastDot(lfn) == 0 then [] else lfn[LastDot(lfn)..]
  }

  /** The name has 8.3 form up to case. */
  ghost predicate Fits(lfn: seq<nat>) {
    1 <= |BodyOf(lfn)| <= 8 && |ExtOf(lfn)| <= 3 && AllPlain(BodyOf(lfn)) && AllPlain(ExtOf(lfn))
  }

  ghost predicate OneCase(s: seq<nat>) { !(HasUpper(s) && HasLower(s)) }

  /** fn holds the body and the extension of the name, upper-cased. */
  ghost predicate FieldsOf(lfn: seq<nat>, fn: seq<byte>) {
    |fn| == 11 && IsField(fn[..8], BodyOf(lfn)) && IsField(fn[8..], ExtOf(lfn))
  }

  /** fn with the case flags stands for the name by itself. */
  ghost predicate IsShort(lfn: seq<nat>, fn: seq<byte>, cf: Flags) {
    && Fits(lfn) && OneCase(BodyOf(lfn)) && OneCase(ExtOf(lfn)) && FieldsOf(lfn, fn)
    && cf.body == HasLower(BodyOf(lfn)) && cf.ext == HasLower(ExtOf(lfn))
  }

  /** A name as it stands in the buffer: trimmed and free of control characters. */
  ghost predicate IsTrimmed(lfn: seq<nat>) {
    && 1 <= |lfn| <= 255 && (forall k :: 0 <= k < |lfn| ==> 0x20 <= lfn[k] < 0xD800)
    && lfn[|lfn| - 1] != 0x20 && lfn[|lfn| - 1] != 0x2E
  }

  // ----- what the short form is

  /** The code of a character; extended characters in upper case, 0 if there is none. */
  ghost function Code(cp: CodePage, c: nat): nat
    requires Lawful(cp)
  {
    if c < 0x80 then c else if cp.toOem(c) < 0x80 then cp.toOem(c) else cp.exCvt(cp.toOem(c))
  }

  ghost predicate Coded(cp: CodePage, c: nat)
    requires Lawful(cp)
  {
    Code(cp, c) != 0 && !IsLossy(Code(cp, c))
  }

  /** What stands for a character in a short name: its code in upper case, or a low line. */
  ghost function SfnChar(cp: CodePage, c: nat): nat
    requires Lawful(cp)
  {
    if !Coded(cp, c) then 0x5F else if 0x61 <= Code(cp, c) <= 0x7A then Code(cp, c) - 0x20 else Code(cp, c)
  }

  ghost predicate Dropped(c: nat) { c == 0x20 || c == 0x2E }

  /** The characters that are not dropped. */
  ghost function Letters(s: seq<nat>): (r: seq<nat>)
    ensures |r| <= |s|
  {
    if s == [] then [] else Letters(s[..|s| - 1]) + if Dropped(s[|s| - 1]) then [] else [s[|s| - 1]]
  }

  /** f holds the first characters of s that are not dropped, as many as there is room for, and spaces behind them. */
  ghost predicate Fills(cp: CodePage, f: seq<byte>, s: seq<nat>)
    requires Lawful(cp)
  {
    forall k :: 0 <= k < |f| ==> f[k] == if k < |Letters(s)| then SfnChar(cp, Letters(s)[k]) else 0x20
  }

  ghost predicate AllCoded(cp: CodePage, s: seq<nat>)
    requires Lawful(cp)
  {
    forall k :: 0 <= k < |s| ==> !Dropped(s[k]) && Coded(cp, s[k])
  }

  /** Nothing of the name but its case is lost in the short form. */
  ghost predicate Lossless(cp: CodePage, lfn: seq<nat>)
    requires Lawful(cp)
  {
    1 <= |BodyOf(lfn)| <= 8 && |ExtOf(lfn)| <= 3 && AllCoded(cp, BodyOf(lfn)) && AllCoded(cp, ExtOf(lfn))
  }

  /** fn is the short form of the name: what is in front of the last dot and what is behind it, each cut to its field. A
      first byte that would mark a deleted entry is written as 5. */
  ghost predicate ShortForm(cp: CodePage, lfn: seq<nat>, fn: seq<byte>)
    requires Lawful(cp)
  {
    && |fn| == 11 && fn[0] != 0xE5
    && Fills(cp, if fn[0] == 0x05 then [0xE5] + fn[1..8] else fn[..8], BodyOf(lfn)) && Fills(cp, fn[8..], ExtOf(lfn))
  }

  /** The short form and its flags: loss is told exactly, and the case flags are for names without a long form only. */
  ghost predicate Formed(cp: CodePage, lfn: seq<nat>, fn: seq<byte>, cf: Flags)
    requires Lawful(cp)
  {
    ShortForm(cp, lfn, fn) && (cf.loss <==> !Lossless(cp, lfn)) && (cf.lfn ==> !cf.body && !cf.ext)
  }

  lemma LettersStep(s: seq<nat>, c: nat)
    ensures Letters(s + [c]) == Letters(s) + if Dropped(c) then [] else [c]
  {
    assert (s + [c])[..|s|] == s;
  }

  lemma {:induction false} LettersPrefix(s: seq<nat>, k: nat)
    requires k <= |s|
    ensures Letters(s[..k]) <= Letters(s)
    decreases |s| - k
  {
    if k == |s| {
      assert s[..k] == s;
    } else {
      LettersPrefix(s, k + 1);
      assert s[..k + 1] == s[..k] + [s[k]];
      LettersStep(s[..k], s[k]);
    }
  }

  lemma {:induction false} LettersAll(cp: CodePage, s: seq<nat>)
    requires Lawful(cp) && AllCoded(cp, s)
    ensures Letters(s) == s
  {
    if s != [] {
      LettersAll(cp, s[..|s| - 1]);
      assert s == s[..|s| - 1] + [s[|s| - 1]];
    }
  }

  lemma AllCodedStep(cp: CodePage, s: seq<nat>, c: nat)
    requires Lawful(cp)
    ensures AllCoded(cp, s + [c]) <==> AllCoded(cp, s) && !Dropped(c) && Coded(cp, c)
  {
    var t := s + [c];
    assert forall k :: 0 <= k < |s| ==> t[k] == s[k];
    assert t[|s|] == c;
  }

  /** Once a field is full, what follows does not matter. */
  lemma FillsFull(cp: CodePage, f: seq<byte>, s: seq<nat>, k: nat)
    requires Lawful(cp) && k <= |s| && Fills(cp, f, s[..k]) && |Letters(s[..k])| >= |f|
    ensures Fills(cp, f, s)
  {
    LettersPrefix(s, k);
  }

  lemma FillsStep(cp: CodePage, f: seq<byte>, s: seq<nat>, c: nat)
    requires Lawful(cp) && Fills(cp, f, s) && !Dropped(c) && |Letters(s)| < |f| && SfnChar(cp, c) < 0x100
    ensures Fills(cp, f[|Letters(s)| := SfnChar(cp, c)], s + [c])
  {
    LettersStep(s, c);
  }

  lemma FillsDrop(cp: CodePage, f: seq<byte>, s: seq<nat>, c: nat)
    requires Lawful(cp) && Fills(cp, f, s) && Dropped(c)
    ensures Fills(cp, f, s + [c])
  {
    LettersStep(s, c);
  }

  // ----- the conversion, step by step

  /** The conversion so far: what was read of the field is in it, and loss is known. */
  ghost predicate Filled(cp: CodePage, lfn: seq<nat>, fn: seq<byte>, c: Cursor, lossy: bool)
    requires Lawful(cp)
  {
    |fn| == 11 && if c.ni == 8 then InBody(cp, lfn, fn, c.si, c.i, lossy) else InExt(cp, lfn, fn, c.si, c.i, lossy)
  }

  ghost predicate InBody(cp: CodePage, lfn: seq<nat>, fn: seq<byte>, si: nat, i: nat, lossy: bool)
    requires Lawful(cp) && |fn| == 11
  {
    && si <= |lfn| && (LastDot(lfn) == 0 || si < LastDot(lfn)) && i == |Letters(lfn[..si])| <= 8
    && Fills(cp, fn[..8], lfn[..si]) && Fills(cp, fn[8..], [])
    && (lossy <==> Leads(lfn) || !AllCoded(cp, lfn[..si]))
  }

  ghost predicate InExt(cp: CodePage, lfn: seq<nat>, fn: seq<byte>, si: nat, i: nat, lossy: bool)
    requires Lawful(cp) && |fn| == 11
  {
    var di := LastDot(lfn);
    && 1 <= di <= si <= |lfn| && i == 8 + |Letters(lfn[di..si])| <= 11
    && Fills(cp, fn[..8], BodyOf(lfn)) && Fills(cp, fn[8..], lfn[di..si])
    && (lossy <==> Leads(lfn) || !AllCoded(cp, BodyOf(lfn)) || |BodyOf(lfn)| > 8 || !AllCoded(cp, lfn[di..si]))
  }

  /** A dot is the first character that is no space. */
  ghost predicate Leads(lfn: seq<nat>) {
    exists k :: 0 <= k < |lfn| && lfn[k] == 0x2E && forall j :: 0 <= j < k ==> lfn[j] == 0x20
  }

  lemma FilledStart(cp: CodePage, lfn: seq<nat>, si: nat)
    requires Lawful(cp) && si < |lfn| && (forall j :: 0 <= j < si ==> lfn[j] == 0x20) && lfn[si] != 0x20
    ensures Filled(cp, lfn, Spaces(), Cursor(si, 0, 8, false, false, false, false), si > 0 || lfn[si] == 0x2E)
  {
    NoLetters(lfn[..si]);
    assert lfn[si] == 0x2E ==> Leads(lfn);
    if Leads(lfn) {
      var k :| 0 <= k < |lfn| && lfn[k] == 0x2E && forall j :: 0 <= j < k ==> lfn[j] == 0x20;
      assert k == si;
    }
    if si > 0 {
      assert lfn[..si][0] == 0x20;
    }
  }

  lemma {:induction false} NoLetters(s: seq<nat>)
    requires forall j :: 0 <= j < |s| ==> s[j] == 0x20
    ensures Letters(s) == []
  {
    if s != [] { NoLetters(s[..|s| - 1]); }
  }

  /** A space, or a dot that is not the last one, is dropped. */
  lemma FilledDrop(cp: CodePage, lfn: seq<nat>, fn: seq<byte>, c: Cursor, lossy: bool)
    requires Lawful(cp) && Filled(cp, lfn, fn, c, lossy) && c.si < |lfn| && Dropped(lfn[c.si])
    requires c.si + 1 != LastDot(lfn)
    ensures Filled(cp, lfn, fn, c.(si := c.si + 1), true)
  {
    hide LastDot, Lawful, InBody, InExt;
    if c.ni == 8 { DropInBody(cp, lfn, fn, c.si, c.i, lossy); } else { DropInExt(cp, lfn, fn, c.si, c.i, lossy); }
  }

  lemma DropInBody(cp: CodePage, lfn: seq<nat>, fn: seq<byte>, si: nat, i: nat, lossy: bool)
    requires Lawful(cp) && |fn| == 11 && InBody(cp, lfn, fn, si, i, lossy) && si < |lfn| && Dropped(lfn[si])
    requires si + 1 != LastDot(lfn)
    ensures InBody(cp, lfn, fn, si + 1, i, true)
  {
    hide LastDot, Leads, Coded, SfnChar, Fills, Letters, AllCoded, Lawful;
    var s, x := lfn[..si], lfn[si];
    assert lfn[..si + 1] == s + [x];
    LettersStep(s, x);
    AllCodedStep(cp, s, x);
    FillsDrop(cp, fn[..8], s, x);
  }

  lemma DropInExt(cp: CodePage, lfn: seq<nat>, fn: seq<byte>, si: nat, i: nat, lossy: bool)
    requires Lawful(cp) && |fn| == 11 && InExt(cp, lfn, fn, si, i, lossy) && si < |lfn| && Dropped(lfn[si])
    ensures InExt(cp, lfn, fn, si + 1, i, true)
  {
    hide LastDot, Leads, Coded, SfnChar, Fills, Letters, AllCoded, Lawful, BodyOf;
    var s, x := lfn[LastDot(lfn)..si], lfn[si];
    assert lfn[LastDot(lfn)..si + 1] == s + [x];
    LettersStep(s, x);
    AllCodedStep(cp, s, x);
    FillsDrop(cp, fn[8..], s, x);
  }

  /** A character goes to its place. */
  lemma FilledCopy(cp: CodePage, lfn: seq<nat>, fn: seq<byte>, c: Cursor, lossy: bool)
    requires Lawful(cp) && Filled(cp, lfn, fn, c, lossy) && c.si < |lfn| && !Dropped(lfn[c.si]) && c.i < c.ni
    requires (c.ni == 8 || c.ni == 11) && SfnChar(cp, lfn[c.si]) < 0x100 && c.si + 1 != LastDot(lfn)
    ensures Filled(cp, lfn, fn[c.i := SfnChar(cp, lfn[c.si])], c.(si := c.si + 1, i := c.i + 1),
                   lossy || !Coded(cp, lfn[c.si]))
  {
    hide LastDot, Lawful, InBody, InExt, SfnChar, Coded;
    if c.ni == 8 { CopyInBody(cp, lfn, fn, c.si, c.i, lossy); } else { CopyInExt(cp, lfn, fn, c.si, c.i, lossy); }
  }

  lemma CopyInBody(cp: CodePage, lfn: seq<nat>, fn: seq<byte>, si: nat, i: nat, lossy: bool)
    requires Lawful(cp) && |fn| == 11 && InBody(cp, lfn, fn, si, i, lossy) && si < |lfn| && !Dropped(lfn[si]) && i < 8
    requires SfnChar(cp, lfn[si]) < 0x100 && si + 1 != LastDot(lfn)
    ensures InBody(cp, lfn, fn[i := SfnChar(cp, lfn[si])], si + 1, i + 1, lossy || !Coded(cp, lfn[si]))
  {
    hide LastDot, Leads, Coded, SfnChar, Fills, Letters, AllCoded, Lawful;
    var s, x := lfn[..si], lfn[si];
    var fn' := fn[i := SfnChar(cp, x)];
    assert lfn[..si + 1] == s + [x];
    LettersStep(s, x);
    AllCodedStep(cp, s, x);
    assert fn'[..8] == fn[..8][i := SfnChar(cp, x)] && fn'[8..] == fn[8..];
    FillsStep(cp, fn[..8], s, x);
  }

  lemma CopyInExt(cp: CodePage, lfn: seq<nat>, fn: seq<byte>, si: nat, i: nat, lossy: bool)
    requires Lawful(cp) && |fn| == 11 && InExt(cp, lfn, fn, si, i, lossy) && si < |lfn| && !Dropped(lfn[si]) && i < 11
    requires SfnChar(cp, lfn[si]) < 0x100
    ensures InExt(cp, lfn, fn[i := SfnChar(cp, lfn[si])], si + 1, i + 1, lossy || !Coded(cp, lfn[si]))
  {
    hide LastDot, Leads, Coded, SfnChar, Fills, Letters, AllCoded, Lawful, BodyOf;
    var s, x := lfn[LastDot(lfn)..si], lfn[si];
    var fn' := fn[i := SfnChar(cp, x)];
    assert lfn[LastDot(lfn)..si + 1] == s + [x];
    LettersStep(s, x);
    AllCodedStep(cp, s, x);
    assert fn'[8..] == fn[8..][i - 8 := SfnChar(cp, x)] && fn'[..8] == fn[..8];
    FillsStep(cp, fn[8..], s, x);
  }

  /** The body is over: at its dot, or because the field is full. */
  lemma FilledBody(cp: CodePage, lfn: seq<nat>, fn: seq<byte>, c: Cursor, lossy: bool)
    requires Lawful(cp) && Filled(cp, lfn, fn, c, lossy) && c.si < |lfn| && c.ni == 8
    requires c.si + 1 == LastDot(lfn) || (c.i == 8 && !Dropped(lfn[c.si]))
    ensures Fills(cp, fn[..8], BodyOf(lfn)) && Fills(cp, fn[8..], [])
    ensures (lossy || c.si + 1 != LastDot(lfn)) <==> Leads(lfn) || !AllCoded(cp, BodyOf(lfn)) || |BodyOf(lfn)| > 8
  {
    hide LastDot, Leads, Coded, SfnChar, AllCoded;
    var b := BodyOf(lfn);
    assert c.si <= |b| && b[..c.si] == lfn[..c.si];
    if c.si + 1 == LastDot(lfn) {
      assert b == lfn[..c.si];
      if AllCoded(cp, b) { LettersAll(cp, b); }
    } else {
      FillsFull(cp, fn[..8], b, c.si);
      assert c.si < |b| && b[..c.si + 1] == b[..c.si] + [lfn[c.si]];
      LettersStep(b[..c.si], lfn[c.si]);
    }
  }

  lemma FilledJump(cp: CodePage, lfn: seq<nat>, fn: seq<byte>, c: Cursor, lossy: bool)
    requires Lawful(cp) && Filled(cp, lfn, fn, c, lossy) && c.si < |lfn| && c.ni == 8 && c.si < LastDot(lfn)
    requires c.si + 1 == LastDot(lfn) || (c.i == 8 && !Dropped(lfn[c.si]))
    ensures Filled(cp, lfn, fn, Cursor(LastDot(lfn), 8, 11, false, false, c.up, c.low),
                   lossy || c.si + 1 != LastDot(lfn))
  {
    hide LastDot, Leads, Coded, SfnChar, Fills, BodyOf, InBody, Lawful, AllCoded, Letters;
    FilledBody(cp, lfn, fn, c, lossy);
    DotAt(lfn);
    assert lfn[LastDot(lfn)..LastDot(lfn)] == [];
    NoneCoded(cp);
    NoLetters([]);
  }

  /** A name with nothing dropped or replaced and short fields is all there is. */
  lemma LossIs(cp: CodePage, lfn: seq<nat>)
    requires Lawful(cp) && lfn != []
    ensures Lossless(cp, lfn) <==> !Leads(lfn) && AllCoded(cp, BodyOf(lfn)) && |BodyOf(lfn)| <= 8
                                   && AllCoded(cp, ExtOf(lfn)) && |ExtOf(lfn)| <= 3
  {
    hide Coded;
    if BodyOf(lfn) == [] {
      assert lfn[0] == 0x2E;
      assert Leads(lfn);
    } else if Leads(lfn) {
      var k :| 0 <= k < |lfn| && lfn[k] == 0x2E && forall j :: 0 <= j < k ==> lfn[j] == 0x20;
      assert BodyOf(lfn)[0] == lfn[0];
      assert Dropped(BodyOf(lfn)[0]);
    }
  }

  /** The end of the name, or a full extension. */
  lemma FilledEnd(cp: CodePage, lfn: seq<nat>, fn: seq<byte>, c: Cursor, lossy: bool)
    requires Lawful(cp) && Filled(cp, lfn, fn, c, lossy) && lfn != [] && (c.ni == 8 || c.ni == 11)
    requires c.si == |lfn| || (c.ni == 11 && c.i == 11 && !Dropped(lfn[c.si]))
    ensures Fills(cp, fn[..8], BodyOf(lfn)) && Fills(cp, fn[8..], ExtOf(lfn))
    ensures (lossy || c.si < |lfn|) <==> !Lossless(cp, lfn)
  {
    hide LastDot, Leads, Coded, SfnChar, AllCoded, Lossless;
    LossIs(cp, lfn);
    var e, di := ExtOf(lfn), LastDot(lfn);
    if c.ni == 8 {
      assert lfn[..c.si] == lfn && BodyOf(lfn) == lfn && e == [];
      if AllCoded(cp, lfn) { LettersAll(cp, lfn); }
      NoneCoded(cp);
    } else {
      assert e[..c.si - di] == lfn[di..c.si];
      if c.si == |lfn| {
        assert e == lfn[di..c.si];
        if AllCoded(cp, e) { LettersAll(cp, e); }
      } else {
        FillsFull(cp, fn[8..], e, c.si - di);
        assert e[..c.si - di + 1] == e[..c.si - di] + [lfn[c.si]];
        LettersStep(e[..c.si - di], lfn[c.si]);
        LettersPrefix(e, c.si - di + 1);
      }
    }
  }

  lemma NoneCoded(cp: CodePage)
    requires Lawful(cp)
    ensures AllCoded(cp, [])
  {
  }

  /** A body without an extension behind it that does not fit. */
  lemma FilledOver(cp: CodePage, lfn: seq<nat>, fn: seq<byte>, c: Cursor, lossy: bool)
    requires Lawful(cp) && Filled(cp, lfn, fn, c, lossy) && c.si < |lfn| && c.ni == 8 && LastDot(lfn) == 0
    requires c.i == 8 && !Dropped(lfn[c.si])
    ensures Fills(cp, fn[..8], BodyOf(lfn)) && Fills(cp, fn[8..], ExtOf(lfn)) && !Lossless(cp, lfn)
  {
    FilledBody(cp, lfn, fn, c, lossy);
    LossIs(cp, lfn);
  }

  // ----- the short form, second half of create_name

  /** Where the conversion stands: next character, next byte, end of the field, and the capitals of the field. */
  datatype Cursor = Cursor(si: nat, i: nat, ni: nat, up: bool, low: bool, bodyUp: bool, bodyLow: bool)

  /** A byte that may stand in a short name. */
  predicate SfnByte(b: byte) { b >= 0x20 && b != 0x2E }

  ghost predicate AllSfn(fn: seq<byte>) { |fn| == 11 && forall k :: 0 <= k < 11 ==> SfnByte(fn[k]) }

  /** The part s of a field was copied to f, and the capitals seen are recorded. */
  ghost predicate Copied(f: seq<byte>, s: seq<nat>, up: bool, low: bool) {
    AllPlain(s) && IsField(f, s) && up == HasUpper(s) && low == HasLower(s)
  }

  /** As long as no long name is called for, everything up to the cursor was copied as it is. */
  ghost predicate Clean(lfn: seq<nat>, fn: seq<byte>, c: Cursor) {
    var di := LastDot(lfn);
    && |fn| == 11 && c.si <= |lfn|
    && if c.ni == 8 then
         c.i == c.si && (di == 0 || c.si < di) && c.si <= 8 && Copied(fn[..8], lfn[..c.si], c.up, c.low)
         && IsField(fn[8..], [])
       else
         2 <= di <= c.si && c.i == 8 + c.si - di && c.i <= 11
         && Copied(fn[..8], lfn[..di - 1], c.bodyUp, c.bodyLow) && Copied(fn[8..], lfn[di..c.si], c.up, c.low)
  }

  lemma CopiedStep(f: seq<byte>, s: seq<nat>, c: nat, up: bool, low: bool)
    requires Copied(f, s, up, low) && IsPlain(c) && |s| < |f|
    ensures Copied(f[|s| := Up(c)], s + [c], up || IsUpper(c), low || IsLower(c))
  {
    var t := s + [c];
    assert t[|s|] == c;
    assert HasUpper(t) == (HasUpper(s) || IsUpper(c)) by {
      if HasUpper(s) {
        var k :| 0 <= k < |s| && IsUpper(s[k]);
        assert IsUpper(t[k]);
      }
    }
    assert HasLower(t) == (HasLower(s) || IsLower(c)) by {
      if HasLower(s) {
        var k :| 0 <= k < |s| && IsLower(s[k]);
        assert IsLower(t[k]);
      }
    }
  }

  /** Copying one more character. */
  lemma CleanStep(lfn: seq<nat>, fn: seq<byte>, c: Cursor)
    requires Clean(lfn, fn, c) && c.si < |lfn| && IsPlain(lfn[c.si]) && c.i < c.ni && (c.ni == 8 || c.ni == 11)
    ensures var x := lfn[c.si];
            Clean(lfn, fn[c.i := Up(x)],
                  c.(si := c.si + 1, i := c.i + 1, up := c.up || IsUpper(x), low := c.low || IsLower(x)))
  {
    assert IsPlain(lfn[c.si]) ==> Up(lfn[c.si]) < 0x100;
    hide Copied, IsPlain, IsUpper, IsLower, Up, LastDot;
    var x := lfn[c.si];
    var di := LastDot(lfn);
    PlainIsNoDot(lfn, c.si);
    if c.ni == 8 {
      CopiedStep(fn[..8], lfn[..c.si], x, c.up, c.low);
      assert fn[c.i := Up(x)][..8] == fn[..8][c.i := Up(x)];
      assert lfn[..c.si + 1] == lfn[..c.si] + [x];
      assert fn[c.i := Up(x)][8..] == fn[8..];
    } else {
      CopiedStep(fn[8..], lfn[di..c.si], x, c.up, c.low);
      assert fn[c.i := Up(x)][8..] == fn[8..][c.i - 8 := Up(x)];
      assert lfn[di..c.si + 1] == lfn[di..c.si] + [x];
      assert fn[c.i := Up(x)][..8] == fn[..8];
    }
  }

  lemma PlainIsNoDot(lfn: seq<nat>, k: nat)
    requires k < |lfn| && IsPlain(lfn[k])
    ensures k + 1 != LastDot(lfn)
  {
  }

  /** Reaching the last dot. */
  lemma CleanJump(lfn: seq<nat>, fn: seq<byte>, c: Cursor)
    requires Clean(lfn, fn, c) && c.ni == 8 && c.si + 1 == LastDot(lfn) && c.si > 0
    ensures Clean(lfn, fn, Cursor(c.si + 1, 8, 11, false, false, c.up, c.low))
  {
    hide LastDot;
    assert lfn[c.si + 1..c.si + 1] == [];
    assert Copied(fn[8..], [], false, false);
  }

  /** Where a clean conversion stands. */
  lemma CleanPlace(lfn: seq<nat>, fn: seq<byte>, c: Cursor)
    requires Clean(lfn, fn, c)
    ensures var di := LastDot(lfn);
            if c.ni == 8 then c.i == c.si && (di == 0 || c.si < di) && c.si <= 8
                else 2 <= di <= c.si && c.i == 8 + c.si - di && c.i <= 11
  {
    hide Copied, LastDot;
  }

  lemma PlainAt(s: seq<nat>, k: nat)
    requires AllPlain(s) && k < |s|
    ensures IsPlain(s[k])
  {
  }

  /** A name of 8.3 form calls for a long name at no character. */
  lemma FitsStep(lfn: seq<nat>, fn: seq<byte>, c: Cursor)
    requires Fits(lfn) && Clean(lfn, fn, c) && c.si < |lfn| && (c.ni == 8 || c.ni == 11)
    ensures if c.si + 1 == LastDot(lfn) then lfn[c.si] == 0x2E && c.ni == 8 && c.si > 0
              else IsPlain(lfn[c.si]) && c.i < c.ni
  {
    hide Clean, IsPlain, AllPlain, LastDot, BodyOf, ExtOf;
    CleanPlace(lfn, fn, c);
    BodyAt(lfn, c.si);
    ExtAt(lfn, c.si);
    var di := LastDot(lfn);
    if di == 0 || c.si + 1 < di {
      PlainAt(BodyOf(lfn), c.si);
    } else if di <= c.si {
      PlainAt(ExtOf(lfn), c.si - di);
    }
  }

  lemma BodyAt(lfn: seq<nat>, k: nat)
    ensures |BodyOf(lfn)| == (if LastDot(lfn) == 0 then |lfn| else LastDot(lfn) - 1)
      && (k < |BodyOf(lfn)| ==> BodyOf(lfn)[k] == lfn[k])
    ensures LastDot(lfn) > 0 ==> lfn[LastDot(lfn) - 1] == 0x2E
  {
  }

  lemma ExtAt(lfn: seq<nat>, k: nat)
    ensures LastDot(lfn) > 0 ==> |ExtOf(lfn)| == |lfn| - LastDot(lfn)
    ensures 0 < LastDot(lfn) <= k < |lfn| ==> ExtOf(lfn)[k - LastDot(lfn)] == lfn[k]
  {
  }

  /** All characters copied: the fields are those of the name. */
  lemma CleanEnd(lfn: seq<nat>, fn: seq<byte>, c: Cursor)
    requires Clean(lfn, fn, c) && c.si == |lfn| && |lfn| > 0 && (c.ni == 8 || c.ni == 11)
    ensures Fits(lfn)
    ensures var (bu, bl, eu, el) := if c.ni == 8 then (c.up, c.low, false, false)
              else (c.bodyUp, c.bodyLow, c.up, c.low);
            Copied(fn[..8], BodyOf(lfn), bu, bl) && Copied(fn[8..], ExtOf(lfn), eu, el) && fn[0] < 0x80
  {
    hide LastDot;
    assert lfn[..c.si] == lfn;
    assert BodyOf(lfn)[0] == lfn[0];
    assert fn[0] == fn[..8][0] == Up(lfn[0]);
  }

  lemma NoFieldYet(lfn: seq<nat>)
    requires lfn != [] && lfn[0] != 0x2E
    ensures Clean(lfn, Spaces(), Cursor(0, 0, 8, false, false, false, false)) && LastDot(lfn) != 1
  {
    assert lfn[..0] == [];
    assert IsField(Spaces()[..8], []) && IsField(Spaces()[8..], []);
  }

  lemma FitsHead(lfn: seq<nat>)
    requires lfn != [] && Fits(lfn)
    ensures lfn[0] != 0x20 && lfn[0] != 0x2E
  {
    assert BodyOf(lfn)[0] == lfn[0];
  }

  function Spaces(): seq<byte> { seq(11, _ => 0x20) }

  /** The conversion of a name to its two fields, and the capitals of each (ff.c:3728-3811). */
  method Fields(cp: CodePage, lfn: seq<nat>) returns (fn: seq<byte>, lossy: bool, long: bool, bodyUp: bool,
    bodyLow: bool,
    up: bool, low: bool)
    requires Lawful(cp) && IsTrimmed(lfn)
    ensures AllSfn(fn) && (lossy ==> long) && (!long <==> Fits(lfn)) && (!long ==> !lossy)
    ensures Fills(cp, fn[..8], BodyOf(lfn)) && Fills(cp, fn[8..], ExtOf(lfn)) && (lossy <==> !Lossless(cp, lfn))
    ensures !long ==>
              Copied(fn[..8], BodyOf(lfn), bodyUp, bodyLow) && Copied(fn[8..], ExtOf(lfn), up, low) && fn[0] < 0x80
  {
    hide Clean, Copied, Fits, LastDot, BodyOf, ExtOf, Filled, Fills, Lossless, Coded, SfnChar, Lawful;
    var si := 0;
    while lfn[si] == 0x20
      invariant 0 <= si < |lfn| && forall j :: 0 <= j < si ==> lfn[j] == 0x20
      decreases |lfn| - si
    {
      si := si + 1;
    }
    lossy := si > 0 || lfn[si] == 0x2E;
    var di := FindDot(lfn);
    fn := Spaces();
    var i, ni := 0, 8;
    up, low, bodyUp, bodyLow := false, false, false, false;
    long := lossy;
    if Fits(lfn) { FitsHead(lfn); }
    if !lossy { NoFieldYet(lfn); }
    FilledStart(cp, lfn, si);
    while true
      invariant si <= |lfn| && (ni == 8 || ni == 11) && i <= ni && AllSfn(fn) && (lossy ==> long)
      invariant !long ==> Clean(lfn, fn, Cursor(si, i, ni, up, low, bodyUp, bodyLow))
      invariant !long ==> di != 1
      invariant Fits(lfn) ==> !long
      invariant Filled(cp, lfn, fn, Cursor(si, i, ni, false, false, false, false), lossy)
      decreases |lfn| - si
    {
      ghost var at := Cursor(si, i, ni, up, low, bodyUp, bodyLow);
      ghost var place := Cursor(si, i, ni, false, false, false, false);
      if si == |lfn| {
        FilledEnd(cp, lfn, fn, place, lossy);
        break;
      }
      if !long && Fits(lfn) { FitsStep(lfn, fn, at); }
      var wc := lfn[si];
      si := si + 1;
      if wc == 0x20 || (wc == 0x2E && si != di) {
        DotAt(lfn);
        FilledDrop(cp, lfn, fn, place, lossy);
        lossy, long := true, true;
        continue;
      }
      if i >= ni || si == di {
        FilledPlace(cp, lfn, fn, place, lossy);
        if ni == 11 {
          FilledEnd(cp, lfn, fn, place, lossy);
          lossy, long := true, true;
          break;
        }
        if di == 0 { FilledOver(cp, lfn, fn, place, lossy); } else { FilledJump(cp, lfn, fn, place, lossy); }
        if si != di {
          lossy, long := true, true;
        }
        if si > di {
          break;
        }
        if !long { CleanJump(lfn, fn, at); }
        si, i, ni, bodyUp, bodyLow, up, low := di, 8, 11, up, low, false, false;
        continue;
      }
      ghost var old_ := lossy;
      var b, lost, ext := Convert(cp, wc);
      if lost {
        lossy := true;
      }
      if ext {
        long := true;
      }
      if !long { CleanStep(lfn, fn, at); }
      FilledCopy(cp, lfn, fn, place, old_);
      if !lost {
        up, low := up || IsUpper(b), low || IsLower(b);
      }
      fn := fn[i := Up(b)];
      i := i + 1;
    }
    if !long { CleanEnd(lfn, fn, Cursor(si, i, ni, up, low, bodyUp, bodyLow)); }
    if ni == 8 {
      bodyUp, bodyLow, up, low := up, low, false, false;
    }
  }

  lemma FilledPlace(cp: CodePage, lfn: seq<nat>, fn: seq<byte>, c: Cursor, lossy: bool)
    requires Lawful(cp) && Filled(cp, lfn, fn, c, lossy)
    ensures c.ni == 8 ==> LastDot(lfn) == 0 || c.si < LastDot(lfn)
    ensures c.ni != 8 ==> LastDot(lfn) <= c.si
  {
  }

  lemma DotAt(lfn: seq<nat>)
    ensures LastDot(lfn) > 0 ==> lfn[LastDot(lfn) - 1] == 0x2E
  {
  }

  /** One character: its code, whether it had to be replaced, and whether a long name is needed for it. */
  method Convert(cp: CodePage, wc: nat) returns (b: byte, lost: bool, long: bool)
    requires Lawful(cp) && 0x20 < wc < 0xD800 && wc != 0x2E
    ensures SfnByte(b) && SfnByte(Up(b)) && (lost ==> long) && (!long <==> IsPlain(wc)) && (!long ==> b == wc)
    ensures Up(b) == SfnChar(cp, wc) && (lost <==> !Coded(cp, wc))
  {
    var c := wc;
    long := wc >= 0x80;
    if wc >= 0x80 {
      c := cp.toOem(wc);
      if c >= 0x80 {
        c := cp.exCvt(c);
      }
    }
    lost := c == 0 || IsLossy(c);
    if lost {
      c, long := 0x5F, true;
    }
    b := c;
  }

  /** The short form of a name, in directory form, and whether it stands for the name by itself. */
  method MakeSfn(cp: CodePage, lfn: seq<nat>) returns (fn: seq<byte>, cf: Flags)
    requires Lawful(cp) && IsTrimmed(lfn)
    ensures |fn| == 11 && fn[0] != 0 && fn[0] != 0xE5 && fn[0] != 0x2E && !cf.last && !cf.dot
    ensures cf.loss ==> cf.lfn
    ensures !cf.lfn <==> Fits(lfn) && OneCase(BodyOf(lfn)) && OneCase(ExtOf(lfn))
    ensures !cf.lfn ==> IsShort(lfn, fn, cf)
    ensures Fits(lfn) ==> !cf.loss && FieldsOf(lfn, fn)
    ensures Formed(cp, lfn, fn, cf)
  {
    hide LastDot, Fits, BodyOf, ExtOf, AllPlain, IsField, Fills, Lossless, Lawful;
    var lossy, long, bodyUp, bodyLow, up, low;
    fn, lossy, long, bodyUp, bodyLow, up, low := Fields(cp, lfn);
    ghost var raw := fn;
    if fn[0] == 0xE5 {
      fn := fn[0 := 0x05];
    }
    assert raw[0] == 0xE5 ==> [0xE5] + fn[1..8] == raw[..8];
    assert fn[8..] == raw[8..];
    if (bodyUp && bodyLow) || (up && low) {
      long := true;
    }
    cf := NO_FLAGS.(loss := lossy, lfn := long);
    if !long {
      cf := cf.(ext := low, body := bodyLow);
    }
  }

  /** The search for the extension (ff.c:3733-3734). */
  method FindDot(lfn: seq<nat>) returns (di: nat)
    ensures di == LastDot(lfn)
  {
    di := |lfn|;
    while di > 0 && lfn[di - 1] != 0x2E
      invariant di <= |lfn| && forall k :: di <= k < |lfn| ==> lfn[k] != 0x2E
    {
      di := di - 1;
    }
  }

  // ----- the segment, first half of create_name

  /** A NUL-terminated string: it reads as 0 at and after its end. */
  function At(path: seq<byte>, k: nat): byte {
    if k < |path| then path[k] else 0
  }

  predicate EndsSegment(c: byte) { c < 0x20 || IsSeparator(c) }

  /** The end of the path segment that starts at p. */
  function SegEnd(path: seq<byte>, p: nat): (e: nat)
    requires p <= |path|
    ensures p <= e <= |path| && EndsSegment(At(path, e)) && forall k :: p <= k < e ==> !EndsSegment(path[k])
    decreases |path| - p
  {
    if EndsSegment(At(path, p)) then p else SegEnd(path, p + 1)
  }

  function Uni(cp: CodePage, s: seq<byte>): (u: seq<nat>)
    ensures |u| == |s| && forall k :: 0 <= k < |s| ==> u[k] == cp.toUni(s[k])
  {
    seq(|s|, k requires 0 <= k < |s| => cp.toUni(s[k]))
  }

  /** A name without its trailing spaces and dots. */
  function Trim(s: seq<nat>): seq<nat> {
    if s != [] && (s[|s| - 1] == 0x20 || s[|s| - 1] == 0x2E) then Trim(s[..|s| - 1]) else s
  }

  predicate IsDotName(s: seq<nat>) { s == [0x2E] || s == [0x2E, 0x2E] }

  ghost predicate AllLegal(s: seq<nat>) { forall k :: 0 <= k < |s| ==> !IsIllegal(s[k]) }

  /** fn and its flags are right for a name. */
  ghost predicate NameFor(lfn: seq<nat>, fn: seq<byte>, cf: Flags) {
    && IsTrimmed(lfn) && |fn| == 11 && fn[0] != 0 && fn[0] != 0xE5 && fn[0] != 0x2E && !cf.dot && (cf.loss ==> cf.lfn)
    && (!cf.lfn <==> Fits(lfn) && OneCase(BodyOf(lfn)) && OneCase(ExtOf(lfn)))
    && (!cf.lfn ==> IsShort(lfn, fn, cf)) && (Fits(lfn) ==> !cf.loss && FieldsOf(lfn, fn))
  }

  /** The loop that fills the name buffer: ok unless a character is illegal or there are too many. */
  method TakeSegment(cp: CodePage, path: seq<byte>, p: nat, buf: seq<nat>) returns (ok: bool, out: seq<nat>, di: nat)
    requires Lawful(cp) && p <= |path| && |buf| == 256
    ensures |out| == 256
    ensures var u := Uni(cp, path[p..SegEnd(path, p)]);
            (ok <==> AllLegal(u) && |u| <= 255) && (ok ==> di == |u| && out[..di] == u)
  {
    ghost var e := SegEnd(path, p);
    ghost var u := Uni(cp, path[p..e]);
    out, di := buf, 0;
    while !EndsSegment(At(path, p + di))
      invariant p + di <= e && di <= 255 && |out| == 256 && out[..di] == u[..di] && AllLegal(u[..di])
      decreases e - p - di
    {
      hide IsIllegal, SegEnd;
      var wc := cp.toUni(path[p + di]);
      assert wc == u[di];
      assert wc != 0;
      if wc < 0x80 && IsIllegal(wc) {
        return false, out, di;
      }
      if di >= MAX_LFN {
        return false, out, di;
      }
      NotIllegal(wc);
      out := out[di := wc];
      assert u[..di + 1] == u[..di] + [wc];
      di := di + 1;
    }
    assert p + di == e;
    assert u[..di] == u;
    ok := true;
  }

  lemma NotIllegal(wc: nat)
    ensures wc >= 0x80 ==> !IsIllegal(wc)
  {
  }

  lemma {:induction false} TrimPrefix(s: seq<nat>)
    ensures |Trim(s)| <= |s| && Trim(s) == s[..|Trim(s)|]
    ensures Trim(s) != [] ==> s[|Trim(s)| - 1] != 0x20 && s[|Trim(s)| - 1] != 0x2E
  {
    if s != [] && (s[|s| - 1] == 0x20 || s[|s| - 1] == 0x2E) {
      TrimPrefix(s[..|s| - 1]);
    }
  }

  /** create_name: the next segment of a path becomes a name in the buffer and its short form. */
  method CreateName(cp: CodePage, path: seq<byte>, p: nat, buf: seq<nat>)
    returns (res: FResult, out: seq<nat>, fn: seq<byte>, cf: Flags, q: nat)
    requires Lawful(cp) && p <= |path| && |buf| == 256
    ensures |out| == 256
    ensures var u := Uni(cp, path[p..SegEnd(path, p)]);
            && res == (if AllLegal(u) && |u| <= 255 && (IsDotName(u) || Trim(u) != []) then FrOk else FrInvalidName)
            && (res == FrOk ==> Buffered(out, if IsDotName(u) then u else Trim(u)))
            && (res == FrOk && !IsDotName(u) ==> NameFor(Trim(u), fn, cf) && Formed(cp, Trim(u), fn, cf))
            && (res == FrOk && IsDotName(u) ==> cf.dot && fn == Spaces()[0 := 0x2E][|u| - 1 := 0x2E])
    ensures res == FrOk ==> q > SegEnd(path, p) && forall k :: SegEnd(path, p) < k < q ==> IsSeparator(At(path, k))
    ensures res == FrOk ==>
              if At(path, SegEnd(path, p)) < 0x20 then q == SegEnd(path, p) + 1 else !IsSeparator(At(path, q))
    ensures res == FrOk ==> (cf.last <==> At(path, SegEnd(path, p)) < 0x20 || At(path, q) < 0x20)
  {
    hide IsIllegal, SegEnd, AllLegal, NameFor, Formed;
    ghost var e := SegEnd(path, p);
    ghost var u := Uni(cp, path[p..e]);
    var ok, di;
    ok, out, di := TakeSegment(cp, path, p, buf);
    fn, cf, q := Spaces(), NO_FLAGS, p;
    if !ok {
      return FrInvalidName, out, fn, cf, q;
    }
    q := p + di + 1;
    var last := At(path, q - 1) < 0x20;
    if !last {
      while IsSeparator(At(path, q))
        invariant q > e && forall k :: e < k < q ==> IsSeparator(At(path, k))
        decreases |path| - q
      {
        q := q + 1;
      }
      last := At(path, q) < 0x20;
    }
    assert forall k :: 0 <= k < |u| ==> u[k] == out[k] && 0x20 <= u[k] < 0xD800;
    if (di == 1 && out[0] == 0x2E) || (di == 2 && out[1] == 0x2E && out[0] == 0x2E) {
      assert u == if di == 1 then [0x2E] else [0x2E, 0x2E];
      out := out[di := 0];
      fn := Spaces()[0 := 0x2E][di - 1 := 0x2E];
      assert out[..di] == u;
      return FrOk, out, fn, cf.(dot := true, last := last), q;
    }
    assert !IsDotName(u);
    assert out[..di] == u;
    res, out, fn, cf := FinishName(cp, out, di, last);
  }

  /** Snipping, terminating and shortening a name that is no dot name (ff.c:3713-3845). */
  method FinishName(cp: CodePage, buf: seq<nat>, n: nat, last: bool) returns (res: FResult, out: seq<nat>,
    fn: seq<byte>, cf: Flags)
    requires Lawful(cp) && |buf| == 256 && n <= 255 && forall k :: 0 <= k < n ==> 0x20 <= buf[k] < 0xD800
    ensures |out| == 256 && cf.last == (last && res == FrOk)
      && res == (if Trim(buf[..n]) == [] then FrInvalidName else FrOk)
    ensures res == FrOk ==> Buffered(out, Trim(buf[..n])) && NameFor(Trim(buf[..n]), fn, cf)
    ensures res == FrOk ==> Formed(cp, Trim(buf[..n]), fn, cf)
  {
    hide Fits, BodyOf, ExtOf, IsShort, OneCase, FieldsOf, ShortForm, Lossless, Lawful;
    fn, cf := Spaces(), NO_FLAGS;
    var di := Snip(buf, n);
    TrimPrefix(buf[..n]);
    out := buf[di := 0];
    if di == 0 {
      return FrInvalidName, out, fn, cf;
    }
    assert out[..di] == buf[..di];
    fn, cf := MakeSfn(cp, out[..di]);
    cf := cf.(last := last);
    res := FrOk;
    ShortLast(out[..di], fn, cf);
  }

  /** The last-segment flag does not matter to a short name. */
  lemma ShortLast(lfn: seq<nat>, fn: seq<byte>, cf: Flags)
    ensures IsShort(lfn, fn, cf.(last := false)) <==> IsShort(lfn, fn, cf)
  {
  }

  /** Snipping off trailing spaces and dots. */
  method Snip(buf: seq<nat>, n: nat) returns (di: nat)
    requires n <= |buf|
    ensures di <= n && buf[..di] == Trim(buf[..n])
  {
    di := n;
    while di > 0 && (buf[di - 1] == 0x20 || buf[di - 1] == 0x2E)
      invariant di <= n && Trim(buf[..di]) == Trim(buf[..n])
    {
      assert buf[..di][..di - 1] == buf[..di - 1];
      di := di - 1;
    }
  }
}
