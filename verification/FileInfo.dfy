/** The text of a directory entry's name: get_fileinfo (ff.c:3428-3520). */
module FileInfo {
  import opened Bytes
  import opened LongNames
  import opened ShortNames

  /** The first si bytes of a short name as text: no padding, a dot before the extension. */
  function AltName(e: DirEntry, si: nat): seq<byte>
    requires si <= 11
  {
    if si == 0 then
      []
    else if e[si - 1] == 0x20 then
      AltName(e, si - 1)
    else
      AltName(e, si - 1) + (if si == 9 then [0x2E] else []) + [if e[si - 1] == 0x05 then 0xE5 else e[si - 1]]
  }

  ghost predicate DotIn(s: seq<byte>) { exists k :: 0 <= k < |s| && s[k] == 0x2E }

  predicate HasBit(b: byte, m: nat) requires m > 0 { b as int / m % 2 == 1 }

  const NS_BODY: nat := 0x08
  const NS_EXT: nat := 0x10

  /** One character of the text with the case information of its field. */
  ghost function CasedAt(alt: seq<byte>, ntres: byte, k: nat): byte
    requires k < |alt|
  {
    if IsUpper(alt[k]) && HasBit(ntres, if DotIn(alt[..k + 1]) then NS_EXT else NS_BODY) then alt[k] + 0x20 else alt[k]
  }

  /** The text of a short name with the case flags applied. */
  ghost predicate IsCased(s: seq<byte>, alt: seq<byte>, ntres: byte) {
    |s| == |alt| && forall k :: 0 <= k < |s| ==> s[k] == CasedAt(alt, ntres, k)
  }

  /** Every unit of the name has a code in the code page. */
  ghost predicate Encodable(cp: CodePage, lfn: seq<nat>) {
    forall k :: 0 <= k < |lfn| ==> !(0xD800 <= lfn[k] <= 0xDFFF) && 0 < cp.toOem(lfn[k]) < 0x100
  }

  /** The long name as text; empty when some unit cannot be shown. */
  method ShowLong(cp: CodePage, buf: seq<nat>, ghost lfn: seq<nat>) returns (fname: seq<byte>)
    requires Lawful(cp) && Buffered(buf, lfn)
    ensures if Encodable(cp, lfn) then |fname| == |lfn| && forall k :: 0 <= k < |lfn| ==> fname[k] == cp.toOem(lfn[k])
              else fname == []
  {
    fname := [];
    var si := 0;
    var hs := 0;
    while buf[si] != 0
      invariant si <= |lfn| && (hs != 0 ==> 0xD800 <= hs <= 0xDFFF && !Encodable(cp, lfn))
      invariant hs == 0 ==> |fname| == si && forall k :: 0 <= k < si ==> !(0xD800 <= lfn[k] <= 0xDFFF)
                                                                         && 0 < cp.toOem(lfn[k]) < 0x100
                                                                         && fname[k] == cp.toOem(lfn[k])
      decreases |lfn| - si
    {
      var wc := buf[si];
      assert wc == lfn[si];
      si := si + 1;
      if hs == 0 && 0xD800 <= wc <= 0xDFFF {
        hs := wc;
        continue;
      }
      var b := cp.toOem(hs * 0x1_0000 + wc);
      if b == 0 || |fname| >= 255 {
        return [];
      }
      fname := fname + [b];
      hs := 0;
    }
    if hs != 0 {
      fname := [];
    }
  }

  /** The short name as text. */
  method ShowShort(e: DirEntry) returns (alt: seq<byte>)
    ensures alt == AltName(e, 11)
  {
    alt := [];
    var si := 0;
    while si < 11
      invariant si <= 11 && alt == AltName(e, si)
    {
      var wc := e[si];
      si := si + 1;
      if wc == 0x20 {
        continue;
      }
      if wc == 0x05 {
        wc := 0xE5;
      }
      if si == 9 {
        alt := alt + [0x2E];
      }
      alt := alt + [wc];
    }
  }

  /** Copying the short name with case information. */
  method ApplyCase(alt: seq<byte>, ntres: byte) returns (s: seq<byte>)
    ensures IsCased(s, alt, ntres)
  {
    s := [];
    var flag := NS_BODY;
    var si := 0;
    while si < |alt|
      invariant si <= |alt| && |s| == si && flag == (if DotIn(alt[..si]) then NS_EXT else NS_BODY)
      invariant forall k :: 0 <= k < si ==> s[k] == CasedAt(alt, ntres, k)
    {
      var wc := alt[si];
      DotStep(alt, si);
      if wc == 0x2E {
        flag := NS_EXT;
      }
      if IsUpper(wc) && HasBit(ntres, flag) {
        wc := wc + 0x20;
      }
      assert wc == CasedAt(alt, ntres, si);
      s := s + [wc];
      si := si + 1;
    }
  }

  lemma DotStep(s: seq<byte>, k: nat)
    requires k < |s|
    ensures DotIn(s[..k + 1]) <==> DotIn(s[..k]) || s[k] == 0x2E
  {
    var t := s[..k + 1];
    assert t[k] == s[k];
    if DotIn(s[..k]) {
      var j :| 0 <= j < k && s[..k][j] == 0x2E;
      assert t[j] == 0x2E;
    }
  }

  /** get_fileinfo: the long name if there is one that can be shown, else the short name with case information. */
  method GetFileinfo(cp: CodePage, buf: seq<nat>, ghost lfn: seq<nat>, e: DirEntry,
    hasLfn: bool) returns (fname: seq<byte>, altname: seq<byte>)
    requires Lawful(cp) && (hasLfn ==> Buffered(buf, lfn))
    ensures if hasLfn && lfn != [] && Encodable(cp, lfn) then
              |fname| == |lfn| && forall k :: 0 <= k < |lfn| ==> fname[k] == cp.toOem(lfn[k])
            else if AltName(e, 11) == [] then fname == [0x3F] else IsCased(fname, AltName(e, 11), e[12])
    ensures altname == if (hasLfn && lfn != [] && Encodable(cp, lfn)) || e[12] != 0 then AltName(e, 11) else []
  {
    fname := [];
    if hasLfn {
      fname := ShowLong(cp, buf, lfn);
    }
    altname := ShowShort(e);
    if fname == [] {
      if altname == [] {
        fname := [0x3F];
      } else {
        fname := ApplyCase(altname, e[12]);
      }
      if e[12] == 0 {
        altname := [];
      }
    }
  }

  /** The case flags as they are stored in the entry (ff.c:3277-3279). */
  function NtRes(cf: Flags): byte {
    (if cf.body then NS_BODY else 0) + (if cf.ext then NS_EXT else 0)
  }

  /** The upper-cased characters of a plain field. */
  function UpOf(s: seq<nat>): (r: seq<byte>)
    requires AllPlain(s)
    ensures |r| == |s| && forall k :: 0 <= k < |s| ==> r[k] == Up(s[k])
  {
    seq(|s|, k requires 0 <= k < |s| => Up(s[k]))
  }

  lemma {:induction false} AltBody(e: DirEntry, body: seq<nat>, si: nat)
    requires si <= 8 && AllPlain(body) && IsField(e[..8], body)
    ensures AltName(e, si) == UpOf(body)[..if si < |body| then si else |body|]
  {
    if si > 0 {
      AltBody(e, body, si - 1);
      assert e[si - 1] == e[..8][si - 1];
    }
  }

  lemma {:induction false} AltExt(e: DirEntry, body: seq<nat>, ext: seq<nat>, n: nat)
    requires n <= 3 && AllPlain(body) && AllPlain(ext) && IsField(e[..8], body) && IsField(e[8..11], ext)
    ensures AltName(e, 8 + n) == UpOf(body) + if n == 0 || ext == [] then []
              else [0x2E] + UpOf(ext)[..if n < |ext| then n else |ext|]
  {
    if n == 0 {
      AltBody(e, body, 8);
    } else {
      AltExt(e, body, ext, n - 1);
      ExtByte(e, ext, n - 1);
      hide IsField, AllPlain;
      var x := e[8 + n - 1];
      if n <= |ext| {
        assert UpOf(ext)[..n] == UpOf(ext)[..n - 1] + [x];
      }
    }
  }

  lemma ExtByte(e: DirEntry, ext: seq<nat>, k: nat)
    requires k < 3 && AllPlain(ext) && IsField(e[8..11], ext)
    ensures |ext| <= 3
      && if k < |ext| then e[8 + k] == UpOf(ext)[k] && e[8 + k] != 0x20 && e[8 + k] != 0x05 else e[8 + k] == 0x20
  {
    assert e[8 + k] == e[8..11][k];
  }

  /** Undoing the upper-casing of a field of one case. */
  lemma CaseBack(s: seq<nat>, k: nat)
    requires AllPlain(s) && OneCase(s) && k < |s|
    ensures s[k] == if IsUpper(Up(s[k])) && HasLower(s) then Up(s[k]) + 0x20 else Up(s[k])
  {
  }

  /** A body and, if there is one, a dot and an extension. */
  function Joined<T>(body: seq<T>, dot: T, ext: seq<T>): seq<T> {
    body + if ext == [] then [] else [dot] + ext
  }

  lemma CasedBody(body: seq<nat>, ext: seq<byte>, ntres: byte, k: nat)
    requires AllPlain(body) && OneCase(body) && HasBit(ntres, NS_BODY) == HasLower(body) && k < |body|
    ensures CasedAt(Joined(UpOf(body), 0x2E, ext), ntres, k) == body[k]
  {
    CaseBack(body, k);
    var alt := Joined(UpOf(body), 0x2E, ext);
    assert forall j :: 0 <= j <= k ==> alt[..k + 1][j] == Up(body[j]) != 0x2E;
    assert alt[k] == Up(body[k]);
  }

  lemma CasedExt(body: seq<byte>, ext: seq<nat>, ntres: byte, k: nat)
    requires AllPlain(ext) && OneCase(ext) && HasBit(ntres, NS_EXT) == HasLower(ext) && k < |ext|
    ensures CasedAt(Joined(body, 0x2E, UpOf(ext)), ntres, |body|) == 0x2E
    ensures CasedAt(Joined(body, 0x2E, UpOf(ext)), ntres, |body| + 1 + k) == ext[k]
  {
    CaseBack(ext, k);
    var alt := Joined(body, 0x2E, UpOf(ext));
    assert alt[..|body| + 2 + k][|body|] == 0x2E;
  }

  lemma NameJoined(lfn: seq<nat>)
    requires IsTrimmed(lfn)
    ensures lfn == Joined(BodyOf(lfn), 0x2E, ExtOf(lfn))
  {
  }

  lemma NtResBits(cf: Flags)
    ensures HasBit(NtRes(cf), NS_BODY) == cf.body && HasBit(NtRes(cf), NS_EXT) == cf.ext
  {
  }

  /** The fields of an entry for a name of 8.3 form, as text. */
  lemma ShortAlt(e: DirEntry, lfn: seq<nat>, cf: Flags)
    requires IsShort(lfn, e[..11], cf)
    ensures AllPlain(BodyOf(lfn)) && AllPlain(ExtOf(lfn)) && OneCase(BodyOf(lfn)) && OneCase(ExtOf(lfn))
      && BodyOf(lfn) != []
    ensures AltName(e, 11) == Joined(UpOf(BodyOf(lfn)), 0x2E, UpOf(ExtOf(lfn)))
  {
    assert e[..11][..8] == e[..8] && e[..11][8..] == e[8..11];
    hide AltName, BodyOf, ExtOf, AllPlain, IsField, OneCase;
    AltExt(e, BodyOf(lfn), ExtOf(lfn), 3);
  }

  /** The text of a name of 8.3 form is the name. */
  lemma ShortText(e: DirEntry, lfn: seq<nat>, cf: Flags, s: seq<byte>)
    requires IsTrimmed(lfn) && IsShort(lfn, e[..11], cf) && e[12] == NtRes(cf)
    ensures AltName(e, 11) != []
    ensures IsCased(s, AltName(e, 11), e[12]) ==> |s| == |lfn| && forall k :: 0 <= k < |lfn| ==> s[k] == lfn[k]
  {
    hide OneCase, IsField, HasBit, HasLower, BodyOf, ExtOf, CasedAt, AltName, AllPlain, Fits, IsTrimmed, NtRes;
    var body, ext := BodyOf(lfn), ExtOf(lfn);
    NtResBits(cf);
    ShortAlt(e, lfn, cf);
    NameJoined(lfn);
    var alt := AltName(e, 11);
    if IsCased(s, alt, e[12]) {
      forall k | 0 <= k < |lfn|
        ensures s[k] == lfn[k]
      {
        if k < |body| {
          CasedBody(body, UpOf(ext), e[12], k);
        } else {
          CasedExt(UpOf(body), ext, e[12], if k == |body| then 0 else k - |body| - 1);
        }
      }
    }
  }
}
