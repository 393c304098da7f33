/** A name once created is listed exactly as it was given. */
module NameRoundTrip {
  import opened Bytes
  import opened Geometry
  import opened Volume
  import opened Chain
  import opened FileState
  import opened LongNames
  import opened ShortNames
  import opened FileInfo
  import opened DirRep
  import opened DirScan
  import opened Directory
  import opened DirEdit
  import opened DirOps
  import opened DirWalk
  import opened NameOps
  import DirRuns

  /** A legal name: at most 255 printable characters, no separator or wildcard, no dot name, no trailing dot or
      space. */
  predicate LegalName(name: seq<byte>) {
    && 1 <= |name| <= 255
    && (forall k :: 0 <= k < |name| ==> name[k] >= 0x20 && !IsSeparator(name[k]) && !IsIllegal(name[k]))
    && name != [0x2E] && name != [0x2E, 0x2E]
    && name[|name| - 1] != 0x20 && name[|name| - 1] != 0x2E
  }

  lemma {:induction false} WholeSegment(name: seq<byte>, p: nat)
    requires p <= |name| && forall k :: 0 <= k < |name| ==> !EndsSegment(name[k])
    ensures SegEnd(name, p) == |name|
    decreases |name| - p
  {
    if p < |name| {
      WholeSegment(name, p + 1);
    }
  }

  lemma UniChar(cp: CodePage, b: byte)
    requires Lawful(cp) && b >= 0x20
    ensures cp.toUni(b) == b || (b >= 0x80 && cp.toUni(b) >= 0x80)
    ensures !IsIllegal(b) ==> !IsIllegal(cp.toUni(b))
    ensures 0x20 <= cp.toUni(b) < 0xD800 && cp.toOem(cp.toUni(b)) == b
  {
  }

  /** create_name takes a legal name as it is. */
  lemma LegalTaken(cp: CodePage, name: seq<byte>)
    requires Lawful(cp) && LegalName(name)
    ensures var u := Uni(cp, name[0..SegEnd(name, 0)]);
            name[0..SegEnd(name, 0)] == name && AllLegal(u) && |u| <= 255 && !IsDotName(u) && Trim(u) == u != []
  {
    WholeSegment(name, 0);
    assert name[0..|name|] == name;
    var u := Uni(cp, name);
    hide Lawful, IsIllegal, LegalName;
    forall k | 0 <= k < |u|
      ensures !IsIllegal(u[k]) && (u[k] == name[k] || (name[k] >= 0x80 && u[k] >= 0x80))
    {
      LegalChar(name, k);
      UniChar(cp, name[k]);
    }
    LegalEnds(name);
    if |u| == 1 { assert name == [name[0]]; }
    if |u| == 2 { assert name == [name[0], name[1]]; }
  }

  /** And no other name. */
  lemma TakenLegal(cp: CodePage, name: seq<byte>)
    requires Lawful(cp) && SegEnd(name, 0) == |name| <= 255
    requires var u := Uni(cp, name); AllLegal(u) && !IsDotName(u) && Trim(u) == u != []
    ensures LegalName(name)
  {
    var u := Uni(cp, name);
    forall k | 0 <= k < |name|
      ensures name[k] >= 0x20 && !IsSeparator(name[k]) && !IsIllegal(name[k]) && (name[k] < 0x80 ==> u[k] == name[k])
    {
      assert !EndsSegment(name[k]);
      SmallIllegal(cp, name[k]);
    }
    TrimPrefix(u);
    if |u| == 1 { assert u == [u[0]]; }
    if |u| == 2 { assert u == [u[0], u[1]]; }
  }

  lemma LegalExactly(cp: CodePage, name: seq<byte>)
    requires Lawful(cp)
    ensures var u := Uni(cp, name);
            LegalName(name) <==>
              SegEnd(name, 0) == |name| <= 255 && AllLegal(u) && !IsDotName(u) && Trim(u) == u != []
  {
    hide Trim, AllLegal, Lawful, SegEnd;
    if LegalName(name) {
      LegalTaken(cp, name);
      assert |name[0..SegEnd(name, 0)]| == |name|;
    }
    if SegEnd(name, 0) == |name| <= 255 && AllLegal(Uni(cp, name)) && !IsDotName(Uni(cp, name))
       && Trim(Uni(cp, name)) == Uni(cp, name) != [] {
      TakenLegal(cp, name);
    }
  }

  lemma SmallIllegal(cp: CodePage, b: byte)
    requires Lawful(cp)
    ensures (b < 0x80 ==> cp.toUni(b) == b) && (IsIllegal(b) || IsSeparator(b) ==> b < 0x80)
  {
  }

  lemma LegalChar(name: seq<byte>, k: nat)
    requires LegalName(name) && k < |name|
    ensures name[k] >= 0x20 && !IsIllegal(name[k]) && !EndsSegment(name[k])
  {
  }

  lemma LegalEnds(name: seq<byte>)
    requires LegalName(name)
    ensures 1 <= |name| <= 255 && name != [0x2E] && name != [0x2E, 0x2E] && name[|name| - 1] != 0x20
      && name[|name| - 1] != 0x2E
  {
  }

  /** The long form shows the name. */
  lemma LongShows(cp: CodePage, name: seq<byte>)
    requires Lawful(cp) && LegalName(name)
    ensures Encodable(cp, Uni(cp, name)) && forall k :: 0 <= k < |name| ==> cp.toOem(Uni(cp, name)[k]) == name[k]
  {
    hide Lawful, LegalName;
    forall k | 0 <= k < |name|
      ensures 0x20 <= Uni(cp, name)[k] < 0xD800 && 0 < cp.toOem(Uni(cp, name)[k]) < 0x100
        && cp.toOem(Uni(cp, name)[k]) == name[k]
    {
      LegalChar(name, k);
      UniChar(cp, name[k]);
    }
  }

  /** The short form shows the name. */
  lemma ShortShows(cp: CodePage, name: seq<byte>, fn: seq<byte>, cf: Flags, s: seq<byte>)
    requires Lawful(cp) && LegalName(name) && IsTrimmed(Uni(cp, name)) && IsShort(Uni(cp, name), fn, cf) && |fn| == 11
    ensures AltName(SfnEntry(fn, NtRes(cf)), 11) != []
    ensures IsCased(s, AltName(SfnEntry(fn, NtRes(cf)), 11), SfnEntry(fn, NtRes(cf))[12]) ==> s == name
  {
    var u, e := Uni(cp, name), SfnEntry(fn, NtRes(cf));
    assert e[..11] == fn && e[12] == NtRes(cf);
    assert Fits(u);
    hide LegalName, IsTrimmed, IsShort, AltName, IsCased, SfnEntry, Lawful;
    ShortText(e, u, cf, s);
    if IsCased(s, AltName(e, 11), e[12]) {
      forall k | 0 <= k < |u|
        ensures s[k] == name[k]
      {
        DirRuns.FitsIsAscii(u, k);
        LegalChar(name, k);
        UniChar(cp, name[k]);
      }
    }
  }

  /** Whatever is shown of the new object is its name. */
  lemma ObjectShows(cp: CodePage, name: seq<byte>, nm: DirRuns.Name, fn: seq<byte>, l: seq<DirEntry>, L: map<nat,
    seq<nat>>, q: nat, fname: seq<byte>)
    requires Lawful(cp) && LegalName(name) && nm.lfn == Uni(cp, name) && NameFor(nm.lfn, nm.fn, nm.cf)
    requires q in L && q < |l| && L[q] == DirRuns.LongOf(nm) && |fn| == 11 && l[q] == SfnEntry(fn, NtRes(nm.cf))
      && (!nm.cf.loss ==> fn == nm.fn)
    requires NameShown(cp, l, L, q, fname)
    ensures fname == name
  {
    hide Lawful, LegalName, Fits, IsShort, FieldsOf, OneCase, Encodable, AltName, IsCased;
    LegalEnds(name);
    LongShows(cp, name);
    if nm.cf.lfn {
      assert fname == name;
    } else {
      ShortShows(cp, name, fn, nm.cf, fname);
    }
  }

  /** The new object in the new listing. */
  lemma NewObject(up: nat -> nat, s: DirRuns.State, ev: DirRuns.Event)
    requires ev.Register? && DirRuns.Enabled(up, s, ev) && |ev.b| >= 1
    ensures |ev.fn| == 11 && ev.fn[0] != 0x2E && (!ev.nm.cf.loss ==> ev.fn == ev.nm.fn)
    ensures Stored(DirRuns.Apply(up, s, ev), ev.p + |ev.b| - 1, DirRuns.LongOf(ev.nm), SfnEntry(ev.fn, NtRes(ev.nm.cf)))
  {
    hide NameFor, DirRuns.Absent, DirRuns.Unused;
    GapInside(Padded(s.d, ev.room), ev.p, |ev.b|);
  }

  /** The object at q has this long name and this short-name entry. */
  ghost predicate Stored(t: DirRuns.State, q: nat, lfn: seq<nat>, e: DirEntry) {
    q < |t.d| && q in t.objects && t.objects[q] == lfn && t.d[q] == e
  }

  lemma NewLabels(up: nat -> nat, s: DirRuns.State, ev: DirRuns.Event)
    requires ev.Register? && DirRuns.Enabled(up, s, ev) && PlainLabels(s.d)
    ensures PlainLabels(DirRuns.Apply(up, s, ev).d)
  {
    hide NameFor, DirRuns.Absent, DirRuns.Unused, IsBlock, IsGap, NtRes;
    GapInside(Padded(s.d, ev.room), ev.p, |ev.b|);
    BlockProper(ev.b, DirRuns.LongOf(ev.nm), ev.fn, NtRes(ev.nm.cf));
    ProperLabels(s.d, ev.room, ev.p, ev.b);
  }

  lemma ProperLabels(l: seq<DirEntry>, room: nat, p: nat, b: seq<DirEntry>)
    requires PlainLabels(l) && Proper(b) && p + |b| <= |Padded(l, room)|
    ensures PlainLabels(Put(Padded(l, room), p, b))
  {
    var w := Padded(l, room);
    assert forall j :: 0 <= j < |b| ==> !IsLabel(b[j]);
    assert forall i :: |l| <= i < |w| ==> !IsLabel(w[i]);
    assert forall i :: 0 <= i < |l| ==> w[i] == l[i];
    hide IsLabel, Attr;
    assert forall i :: p <= i < p + |b| ==> Put(w, p, b)[i] == b[i - p];
  }

  /** The name create_name produced goes into the directory object. */
  method SetName(d: Dir, buf: seq<nat>, fn: seq<byte>, cf: Flags)
    requires d.Whole() && |buf| == 256 && |fn| == 11
    modifies d`lfnbuf, d`fn, d`cf, d`noLfn
    ensures d.Whole() && d.lfnbuf == buf && d.fn == fn && d.cf == cf && !d.noLfn
  {
    d.lfnbuf, d.fn, d.cf, d.noLfn := buf, fn, cf, false;
  }

  /** Name round trip: a legal name that is created anew appears, byte for byte, in a full listing of the directory. It
      is created exactly if no object answers to it and it need not be refused. */
  method CreateThenList(d: Dir, cp: CodePage, up: nat -> nat, name: seq<byte>, ghost s: DirRuns.State)
    returns (res: FResult, created: bool, names: seq<seq<byte>>, ghost nm: DirRuns.Name, ghost buf: seq<nat>)
    requires d.Whole() && s.d == d.Listing() && DirRuns.Sound(up, s) && PlainLabels(s.d)
    requires Folds(up) && DirRuns.FoldsAscii(up) && Lawful(cp) && LegalName(name)
    modifies d`dptr, d`clust, d`sect, d`blk, d`chain, d`fn, d`cf, d`noLfn, d`lfnbuf
    modifies d.fs`disk, d.fs`winsect, d.fs`wflag, d.fs`view, d.fs`fat, d.fs`lastClst, d.fs`freeClst, d.fs`fsiFlag,
             d.fs.win
    ensures d.Whole() && |d.fs.disk| == |old(d.fs.disk)|
    ensures nm.lfn == Uni(cp, name) && NameFor(nm.lfn, nm.fn, nm.cf) && |buf| == 256 && d.fs.g.csize > 0
    ensures created ==> name in names
    ensures created <==> res == FrOk && DirRuns.Absent(up, s, nm)
    ensures old(Accurate(d.fs.freeClst, d.fs.fat) && 1 !in d.fs.fat) ==> res == FrOk || res == FrDenied
    ensures old(Accurate(d.fs.freeClst, d.fs.fat) && 1 !in d.fs.fat) ==>
              (res == FrDenied <==> DirRuns.Absent(up, s, nm)
                                    && DirRegister.Refused(up, buf, nm.fn, nm.cf, nm.lfn, s.d,
                                                           MaxRoom(d.fs.g, old(d.fs.fat), old(d.chain))))
  {
    hide FatFs.Valid, Dir.Valid, Entries, Dir.At, DirRuns.Sound, DirRuns.Apply, DirRuns.Enabled, PlainLabels, Lawful,
      LegalName, NameFor, Listed, AllShown, Kept, Accurate, MaxRoom, DirRegister.Refused, DirRuns.Absent;
    hide Folds, DirRuns.FoldsAscii, Buffered, AllLegal, Readable;
    d.ValidTable();
    LegalTaken(cp, name);
    names := [];
    var wide, fn, cf, next;
    res, wide, fn, cf, next := CreateName(cp, name, 0, d.lfnbuf);
    buf, nm := wide, DirRuns.Name(Uni(cp, name), fn, cf);
    NameForSize(nm.lfn, fn, cf);
    SetName(d, wide, fn, cf);
    ghost var ev, f0, c0, v0 := DirRuns.Remove(0), d.fs.fat, d.chain, d.fs.view;
    res, created, ev := CreateEntry(d, up, s, nm);
    if 1 !in f0 { StillNoOnes(d, f0, c0, v0); }
    if created {
      names := ListCreated(d, cp, up, name, s, ev);
    }
  }

  lemma StillNoOnes(d: Dir, fat: seq<nat>, chain: seq<nat>, view: seq<Sector>)
    requires d.Whole() && Kept(d.fs.g, fat, d.fs.fat, chain, d.chain, view, d.fs.view) && 1 !in fat
    ensures 1 !in d.fs.fat
  {
    GrewNoOnes(d.fs.g, fat, d.fs.fat, chain, d.chain);
  }

  /** Once a legal name is registered, a full listing shows it. */
  method ListCreated(d: Dir, cp: CodePage, up: nat -> nat, ghost name: seq<byte>, ghost s: DirRuns.State,
    ghost ev: DirRuns.Event)
    returns (names: seq<seq<byte>>)
    requires d.Whole() && ev.Register? && |ev.b| >= 1 && DirRuns.Enabled(up, s, ev) && PlainLabels(s.d)
    requires d.Listing() == DirRuns.Apply(up, s, ev).d && DirRuns.Sound(up, DirRuns.Apply(up, s, ev))
    requires Lawful(cp) && LegalName(name) && ev.nm.lfn == Uni(cp, name) && NameFor(ev.nm.lfn, ev.nm.fn, ev.nm.cf)
    modifies d`dptr, d`clust, d`sect, d`blk, d`chain, d`lfnbuf
    modifies d.fs`disk, d.fs`winsect, d.fs`wflag, d.fs`view, d.fs`fat, d.fs`lastClst, d.fs`freeClst, d.fs`fsiFlag,
             d.fs.win
    ensures d.Whole() && |d.fs.disk| == |old(d.fs.disk)| && name in names
  {
    hide FatFs.Valid, Dir.Valid, Entries, Dir.At, DirRuns.Sound, DirRuns.Apply, DirRuns.Enabled, PlainLabels, Lawful,
      LegalName, NameFor, Listed, AllShown, Readable;
    ghost var t := DirRuns.Apply(up, s, ev);
    NewObject(up, s, ev);
    NewLabels(up, s, ev);
    SoundReadable(up, t);
    ghost var qs;
    names, qs := List(d, cp, t.objects);
    InListing(cp, name, ev.nm, ev.fn, t.d, t.objects, ev.p + |ev.b| - 1, qs, names);
  }

  lemma NameForSize(lfn: seq<nat>, fn: seq<byte>, cf: Flags)
    requires NameFor(lfn, fn, cf)
    ensures |fn| == 11
  {
  }

  lemma SoundReadable(up: nat -> nat, t: DirRuns.State)
    requires DirRuns.Sound(up, t) && PlainLabels(t.d)
    ensures Readable(t.d, t.objects, 0)
  {
  }

  /** The new object is among the listed ones, under its name. */
  lemma InListing(cp: CodePage, name: seq<byte>, nm: DirRuns.Name, fn: seq<byte>, l: seq<DirEntry>, L: map<nat,
    seq<nat>>, q: nat,
                  qs: seq<nat>, names: seq<seq<byte>>)
    requires Lawful(cp) && LegalName(name) && nm.lfn == Uni(cp, name) && NameFor(nm.lfn, nm.fn, nm.cf)
    requires q in L && q < |l| && L[q] == DirRuns.LongOf(nm) && |fn| == 11 && l[q] == SfnEntry(fn, NtRes(nm.cf))
      && (!nm.cf.loss ==> fn == nm.fn)
    requires fn[0] != 0x2E && Listed(l, L, qs, |l|) && AllShown(cp, l, L, qs, names)
    ensures name in names
  {
    hide Lawful, LegalName, NameFor, NameShown;
    assert l[q][0] == fn[0];
    assert q in qs;
    var k :| 0 <= k < |qs| && qs[k] == q;
    ObjectShows(cp, name, nm, fn, l, L, q, names[k]);
    assert names[k] in names;
  }
}
