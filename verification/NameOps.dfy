/** Names through the whole stack: creating, finding and listing (ff.c:4914-4970, ff.c:6360-6397). */
module NameOps {
  import opened Bytes
  import opened Geometry
  import opened Volume
  import opened Chain
  import opened LongNames
  import opened ShortNames
  import opened FileInfo
  import opened NumberedNames
  import opened DirRep
  import opened DirScan
  import opened Directory
  import opened DirEdit
  import opened DirOps
  import opened DirWalk
  import DirRegister
  import DirRuns

  // ----- listing

  /** fname is the text of the object at q. */
  ghost predicate NameShown(cp: CodePage, l: seq<DirEntry>, L: map<nat, seq<nat>>, q: nat, fname: seq<byte>) {
    && q in L && q < |l|
    && if L[q] != [] && Encodable(cp, L[q]) then
         |fname| == |L[q]| && forall k :: 0 <= k < |L[q]| ==> fname[k] == cp.toOem(L[q][k])
       else if AltName(l[q], 11) == [] then fname == [0x3F] else IsCased(fname, AltName(l[q], 11), l[q][12])
  }

  lemma ShownBuffer(blk: Option<nat>, buf: seq<nat>, q: nat, lfn: seq<nat>)
    requires Shown(blk, buf, q, lfn)
    ensures (blk.Some? <==> lfn != []) && (lfn != [] ==> Buffered(buf, lfn))
  {
  }

  /** f_readdir: the text of the next object; the cursor moves behind it. */
  method Readdir(d: Dir, cp: CodePage, ghost i: nat, ghost L: map<nat, seq<nat>>) returns (found: bool,
    fname: seq<byte>, ghost q: nat)
    requires d.Whole() && Lawful(cp) && (d.sect == 0 || (d.At(i) && Readable(d.Listing(), L, i)))
    modifies d`dptr, d`clust, d`sect, d`blk, d`chain, d`lfnbuf
    modifies d.fs`disk, d.fs`winsect, d.fs`wflag, d.fs`view, d.fs`fat, d.fs`lastClst, d.fs`freeClst, d.fs`fsiFlag,
             d.fs.win
    ensures d.Whole() && |d.fs.disk| == |old(d.fs.disk)|
    ensures d.fs.view == old(d.fs.view) && d.fs.fat == old(d.fs.fat) && d.chain == old(d.chain)
    ensures found ==> old(d.sect) != 0 && NextVisible(d.Listing(), L, i, q) && NameShown(cp, d.Listing(), L, q, fname)
    ensures found ==> q < |d.Listing()| && if q + 1 < |d.Listing()| then d.At(q + 1) else d.sect == 0
    ensures !found ==> fname == [] && (old(d.sect) != 0 ==> NoneVisible(d.Listing(), L, i, |d.Listing()|))
  {
    hide FatFs.Valid, Dir.Valid, Entries, Good, IsWalk, IsTable, Count, Dir.At, Readable, NoneVisible, NextVisible,
      Shown, Buffered, Lawful;
    var res;
    res, q := Read(d, i, L);
    found, fname := false, [];
    if res == FrOk {
      VisibleIn(d.Listing(), L, i, q);
      ShownBuffer(d.blk, d.lfnbuf, q, L[q]);
      var e := Peek(d, q);
      AtFacts(d, q);
      var alt;
      fname, alt := GetFileinfo(cp, d.lfnbuf, L[q], e, d.blk.Some?);
      res := NextEntry(d, q);
      found := true;
    }
  }

  lemma VisibleIn(l: seq<DirEntry>, L: map<nat, seq<nat>>, i: nat, q: nat)
    requires NextVisible(l, L, i, q)
    ensures q in L && i <= q < |l| && l[q][0] != 0x2E
  {
  }

  /** qs are the visible objects below i, in order. */
  ghost predicate Listed(l: seq<DirEntry>, L: map<nat, seq<nat>>, qs: seq<nat>, i: nat) {
    && (forall k :: 0 <= k < |qs| ==> qs[k] in L && qs[k] < i && qs[k] < |l| && l[qs[k]][0] != 0x2E)
    && (forall k, m :: 0 <= k < m < |qs| ==> qs[k] < qs[m])
    && forall q :: q in L && q < i && q < |l| && l[q][0] != 0x2E ==> q in qs
  }

  lemma ListedNext(l: seq<DirEntry>, L: map<nat, seq<nat>>, qs: seq<nat>, i: nat, q: nat)
    requires Listed(l, L, qs, i) && NextVisible(l, L, i, q)
    ensures Listed(l, L, qs + [q], q + 1)
  {
    var t := qs + [q];
    assert t[|qs|] == q;
    assert forall r :: r in qs ==> r in t;
  }

  lemma ListedEnd(l: seq<DirEntry>, L: map<nat, seq<nat>>, qs: seq<nat>, i: nat)
    requires Listed(l, L, qs, i) && NoneVisible(l, L, i, |l|) && i <= |l|
    ensures Listed(l, L, qs, |l|)
  {
  }

  lemma ReadableNext(l: seq<DirEntry>, L: map<nat, seq<nat>>, i: nat, q: nat)
    requires Readable(l, L, i) && q in L && q < |l|
    ensures Readable(l, L, q + 1)
  {
    hide Ends, Sets, Chained;
  }

  /** Every name shown belongs to its object. */
  ghost predicate AllShown(cp: CodePage, l: seq<DirEntry>, L: map<nat, seq<nat>>, qs: seq<nat>, names: seq<seq<byte>>) {
    |names| == |qs| && forall k :: 0 <= k < |qs| ==> NameShown(cp, l, L, qs[k], names[k])
  }

  lemma AllShownNext(cp: CodePage, l: seq<DirEntry>, L: map<nat, seq<nat>>, qs: seq<nat>, names: seq<seq<byte>>, q: nat,
    fname: seq<byte>)
    requires AllShown(cp, l, L, qs, names) && NameShown(cp, l, L, q, fname)
    ensures AllShown(cp, l, L, qs + [q], names + [fname])
  {
    hide NameShown;
  }

  /** A whole pass of f_readdir lists every object but the dot entries, each once, in directory order. */
  method List(d: Dir, cp: CodePage, ghost L: map<nat, seq<nat>>) returns (names: seq<seq<byte>>, ghost qs: seq<nat>)
    requires d.Whole() && Lawful(cp) && Readable(d.Listing(), L, 0)
    modifies d`dptr, d`clust, d`sect, d`blk, d`chain, d`lfnbuf
    modifies d.fs`disk, d.fs`winsect, d.fs`wflag, d.fs`view, d.fs`fat, d.fs`lastClst, d.fs`freeClst, d.fs`fsiFlag,
             d.fs.win
    ensures d.Whole() && |d.fs.disk| == |old(d.fs.disk)|
    ensures d.fs.view == old(d.fs.view) && d.fs.fat == old(d.fs.fat) && d.chain == old(d.chain)
    ensures Listed(d.Listing(), L, qs, |d.Listing()|) && AllShown(cp, d.Listing(), L, qs, names)
  {
    hide FatFs.Valid, Dir.Valid, Entries, Good, IsWalk, IsTable, Count, Dir.At, Readable, NoneVisible, NextVisible,
      Listed, AllShown, NameShown, Lawful;
    NotEmpty(d);
    var res := Rewind(d);
    ghost var l, i := d.Listing(), 0;
    names, qs := [], [];
    ListedNone(cp, l, L);
    AtPlace(d, 0);
    while d.sect != 0
      invariant d.Whole() && |d.fs.disk| == |old(d.fs.disk)| && i <= |l|
      invariant d.fs.view == old(d.fs.view) && d.fs.fat == old(d.fs.fat) && d.chain == old(d.chain)
      invariant if d.sect == 0 then Listed(l, L, qs, |l|)
                else i < |l| && d.At(i) && Readable(l, L, i) && Listed(l, L, qs, i)
      invariant AllShown(cp, l, L, qs, names)
      decreases d.sect != 0, |l| - i
    {
      var found, fname;
      ghost var q;
      found, fname, q := Readdir(d, cp, i, L);
      if !found {
        ListedEnd(l, L, qs, i);
        return;
      }
      VisibleIn(l, L, i, q);
      ListedNext(l, L, qs, i, q);
      AllShownNext(cp, l, L, qs, names, q, fname);
      ReadableNext(l, L, i, q);
      names, qs := names + [fname], qs + [q];
      i := q + 1;
      if i < |l| { AtPlace(d, i); }
    }
  }

  lemma ListedNone(cp: CodePage, l: seq<DirEntry>, L: map<nat, seq<nat>>)
    ensures Listed(l, L, [], 0) && AllShown(cp, l, L, [], [])
  {
  }

  /** A cursor in the table is not the end. */
  lemma AtPlace(d: Dir, i: nat)
    requires d.Valid() && d.At(i)
    ensures d.sect != 0
  {
    EntrySector(d.fs.g, d.chain, i);
    TablePlace(d.fs.g, |d.fs.disk|, d.fs.fat, d.chain, i / 16);
  }

  // ----- creating

  /** A numbered name starts with a character in use. */
  lemma NumberedHead(fn: seq<byte>, sn: seq<byte>, lfn: seq<nat>)
    requires DirRegister.Numbered(fn, sn, lfn) && |sn| == 11 && sn[0] != 0 && sn[0] != 0xE5 && sn[0] != 0x2E
    ensures |fn| == 11 && fn[0] != 0 && fn[0] != 0xE5 && fn[0] != 0x2E
  {
    var j: nat, num: nat :| 1 <= num < 100 && IsNumbered(fn, sn, j, Numeral(Suffix(num, lfn)));
    assert j == 0 || fn[0] == sn[0];
  }

  /** What dir_register did is a step of the directory's runs. */
  lemma RegisterIsEvent(up: nat -> nat, s: DirRuns.State, l: seq<DirEntry>, nm: DirRuns.Name, fn: seq<byte>,
    buf: seq<nat>,
                        room: nat, p: nat, b: seq<DirEntry>)
    requires Folds(up) && DirRuns.Sound(up, s) && NameFor(nm.lfn, nm.fn, nm.cf) && Buffered(buf, nm.lfn)
      && DirRuns.Absent(up, s, nm)
    requires DirRegister.Registered(s.d, l, nm.lfn, fn, nm.cf, room, p, b)
    requires !nm.cf.loss ==> fn == nm.fn
    requires nm.cf.loss ==>
              DirRegister.Numbered(fn, nm.fn, nm.lfn) && Find(DirRegister.ShortKey(up, buf, fn), s.d) == None
    ensures DirRuns.Enabled(up, s, DirRuns.Register(nm, fn, room, p, b))
    ensures DirRuns.Apply(up, s, DirRuns.Register(nm, fn, room, p, b)).d == l
  {
    assert WellFormed(s.d, s.objects);
    hide Find, WellFormed, IsGap, IsBlock, Put, Padded, Fits, IsShort, FieldsOf, OneCase;
    if nm.cf.loss {
      NumberedHead(fn, nm.fn, nm.lfn);
      DirRuns.CollisionDecides(s, nm.lfn, DirRegister.ShortKey(up, buf, fn));
    }
  }

  lemma TrimmedIsName(lfn: seq<nat>)
    requires IsTrimmed(lfn)
    ensures IsName(lfn)
  {
  }

  /** The name in the directory object, and the run it is to be added to. */
  ghost predicate Ready(d: Dir, up: nat -> nat, s: DirRuns.State, nm: DirRuns.Name)
    reads d, d.fs, d.fs.win
  {
    && d.Whole() && s.d == d.Listing() && DirRuns.Sound(up, s) && Folds(up) && DirRuns.FoldsAscii(up)
    && NameFor(nm.lfn, nm.fn, nm.cf) && Buffered(d.lfnbuf, nm.lfn) && d.fn == nm.fn && d.cf == nm.cf && !d.noLfn
  }

  /** The directory part of f_open with creation (ff.c:4947-4970): search, and register a name that is absent. */
  method CreateEntry(d: Dir, up: nat -> nat, ghost s: DirRuns.State, ghost nm: DirRuns.Name)
    returns (res: FResult, created: bool, ghost ev: DirRuns.Event)
    requires Ready(d, up, s, nm)
    modifies d`dptr, d`clust, d`sect, d`blk, d`chain, d`fn, d`cf, d`noLfn
    modifies d.fs`disk, d.fs`winsect, d.fs`wflag, d.fs`view, d.fs`fat, d.fs`lastClst, d.fs`freeClst, d.fs`fsiFlag,
             d.fs.win
    ensures d.Whole() && |d.fs.disk| == |old(d.fs.disk)|
    ensures Kept(d.fs.g, old(d.fs.fat), d.fs.fat, old(d.chain), d.chain, old(d.fs.view), d.fs.view)
    ensures created ==> res == FrOk && ev.Register? && ev.nm == nm && DirRuns.Enabled(up, s, ev)
    ensures created ==> d.Listing() == DirRuns.Apply(up, s, ev).d
    ensures created ==> |ev.b| >= 1 && d.At(ev.p + |ev.b| - 1) && DirRuns.Sound(up, DirRuns.Apply(up, s, ev))
    ensures !created && res == FrOk ==> d.Listing() == old(d.Listing()) && !DirRuns.Absent(up, s, nm)
    ensures res != FrOk ==> DirRuns.Absent(up, s, nm) && exists room :: d.Listing() == Padded(old(d.Listing()), room)
    ensures created <==> res == FrOk && DirRuns.Absent(up, s, nm)
    ensures old(Accurate(d.fs.freeClst, d.fs.fat)) && 1 !in d.fs.fat ==>
              d.fs.g.csize > 0 && |d.lfnbuf| == 256 && (res == FrOk || res == FrDenied)
              && (res == FrDenied <==> DirRuns.Absent(up, s, nm)
                                       && DirRegister.Refused(up, d.lfnbuf, nm.fn, nm.cf, nm.lfn, old(d.Listing()),
                                                              MaxRoom(d.fs.g, old(d.fs.fat), old(d.chain))))
  {
    hide FatFs.Valid, Dir.Valid, Entries, IsTable, IsWalk, Count, Dir.At, Find, Kept, NameFor, DirRuns.Sound,
      DirRuns.Absent, DirRegister.Numbered, DirRegister.Registered, DirRuns.Apply, DirRuns.Enabled, Padded;
    created, ev := false, DirRuns.Remove(0);
    ghost var l0, f0, c0, v0, buf := d.Listing(), d.fs.fat, d.chain, d.fs.view, d.lfnbuf;
    KeptSame(d.fs.g, f0, c0, v0);
    NameParts(d, up, s, nm);
    d.ValidTable();
    ghost var key := KeyOf(d, up);
    DirRuns.FindDecides(up, s, nm, key);
    res := DirFind(d, up);
    if res == FrNoFile {
      ghost var p, room, b;
      res, p, room, b := DirRegister.Register(d, up, nm.lfn);
      created := res == FrOk;
      if created {
        ev := DirRuns.Register(nm, d.fn, room, p, b);
        RegisterIsEvent(up, s, d.Listing(), nm, d.fn, buf, room, p, b);
        DirRuns.RegisterSound(up, s, ev);
        RegisteredSize(l0, d.Listing(), nm.lfn, d.fn, nm.cf, room, p, b);
      }
    }
  }

  lemma RegisteredSize(l0: seq<DirEntry>, l: seq<DirEntry>, lfn: seq<nat>, fn: seq<byte>, cf: Flags, room: nat, p: nat,
    b: seq<DirEntry>)
    requires DirRegister.Registered(l0, l, lfn, fn, cf, room, p, b)
    ensures |b| >= 1
  {
  }

  lemma NameParts(d: Dir, up: nat -> nat, s: DirRuns.State, nm: DirRuns.Name)
    requires Ready(d, up, s, nm)
    ensures d.Whole() && IsName(nm.lfn) && |nm.fn| == 11 && WellFormed(s.d, s.objects)
      && DirRuns.IsKeyOf(KeyOf(d, up), up, nm) && !nm.cf.dot
    ensures |d.lfnbuf| == 256
  {
    TrimmedIsName(nm.lfn);
  }

  lemma NamedObject(up: nat -> nat, s: DirRuns.State, nm: DirRuns.Name, q: nat)
    requires DirRuns.FirstNamed(up, s, nm, q)
    ensures q in s.objects
  {
  }

  lemma ObjectStart(up: nat -> nat, s: DirRuns.State, q: nat, key: Key)
    requires DirRuns.Sound(up, s) && q in s.objects && !key.noLfn
    ensures DirRuns.Enabled(up, s, DirRuns.Remove(q)) && DirRuns.First(s, q) <= q
    ensures DirRuns.Apply(up, s, DirRuns.Remove(q)).d == Mark(s.d, DirRuns.First(s, q), q)
    ensures BlockOf(key, q, s.objects[q]) == if DirRuns.First(s, q) == q then None else Some(DirRuns.First(s, q))
  {
    hide DirRuns.Sound, HasSet, Mark;
    ObjectSet(up, s, q);
    if s.objects[q] != [] {
      SetNames(s.d, q, s.objects[q]);
      SetSize(s.d, q, s.objects[q]);
    }
  }

  lemma ObjectSet(up: nat -> nat, s: DirRuns.State, q: nat)
    requires DirRuns.Sound(up, s) && q in s.objects
    ensures s.objects[q] != [] ==> HasSet(s.d, q, s.objects[q])
  {
    hide HasSet, Ends, Chained, Distinct, DirRuns.Apart, NameFor;
  }
}
