/** dir_remove (ff.c:3297-3343) and dir_read (ff.c:2907-3007). */
module DirWalk {
  import opened Bytes
  import opened Geometry
  import opened Volume
  import opened Chain
  import opened LongNames
  import opened DirRep
  import opened DirScan
  import opened Directory
  import opened DirEdit
  import opened DirOps

  // ----- dir_remove

  /** Entries s..i-1 are marked. */
  ghost predicate Marked(l0: seq<DirEntry>, l: seq<DirEntry>, s: nat, i: nat) {
    |l| == |l0| && forall k :: 0 <= k < |l| ==> l[k] == if s <= k < i then Deleted(l0[k]) else l0[k]
  }

  lemma MarkOne(l0: seq<DirEntry>, l: seq<DirEntry>, s: nat, i: nat)
    requires Marked(l0, l, s, i) && s <= i < |l|
    ensures l[i] == l0[i] && Marked(l0, l[i := Deleted(l[i])], s, i + 1)
  {
  }

  lemma MarkedIsMark(l0: seq<DirEntry>, l: seq<DirEntry>, s: nat, q: nat)
    requires Marked(l0, l, s, q + 1)
    ensures l == Mark(l0, s, q)
  {
  }

  /** The entry under the cursor is marked as deleted (ff.c:3313-3327). */
  method MarkEntry(d: Dir, ghost i: nat, ghost l0: seq<DirEntry>, ghost v0: seq<Sector>, ghost s: nat)
    requires d.Whole() && d.At(i) && s <= i && Marked(l0, d.Listing(), s, i)
      && Kept(d.fs.g, d.fs.fat, d.fs.fat, d.chain, d.chain, v0, d.fs.view)
    modifies d.fs`disk, d.fs`winsect, d.fs`wflag, d.fs`view, d.fs.win
    ensures d.Whole() && |d.fs.disk| == |old(d.fs.disk)| && d.At(i) && d.dptr == 32 * i
    ensures Marked(l0, d.Listing(), s, i + 1) && Kept(d.fs.g, d.fs.fat, d.fs.fat, d.chain, d.chain, v0, d.fs.view)
  {
    hide FatFs.Valid, Dir.Valid, Dir.At, Entries, Kept, Marked;
    AtFacts(d, i);
    var e := Peek(d, i);
    ghost var v := d.fs.view;
    MarkOne(l0, d.Listing(), s, i);
    StoreEntry(d, i, Deleted(e));
    KeptTrans(d.fs.g, d.fs.fat, d.fs.fat, d.fs.fat, d.chain, d.chain, d.chain, v0, v, d.fs.view);
  }

  /** The cursor goes to the first entry of the object (ff.c:3308-3310). */
  method ToFirst(d: Dir, ghost s: nat, ghost q: nat)
    requires d.Whole() && d.At(q) && s <= q && d.blk == Offset(if s == q then None else Some(s))
    modifies d`dptr, d`clust, d`sect, d.fs`disk, d.fs`winsect, d.fs`wflag, d.fs.win
    ensures d.Whole() && d.At(s) && |d.fs.disk| == |old(d.fs.disk)|
  {
    hide FatFs.Valid, Dir.Valid, IsWalk, IsTable, Count, Dir.At;
    AtFacts(d, q);
    if d.blk.Some? {
      var res := d.Sdi(d.blk.value);
    }
  }

  /** dir_remove: the entries of the object under the cursor, from the start of its LFN sequence on, are marked. */
  method Remove(d: Dir, ghost s: nat, ghost q: nat) returns (res: FResult)
    requires d.Whole() && d.At(q) && s <= q && d.blk == Offset(if s == q then None else Some(s))
    modifies d`dptr, d`clust, d`sect, d`chain
    modifies d.fs`disk, d.fs`winsect, d.fs`wflag, d.fs`view, d.fs`fat, d.fs`lastClst, d.fs`freeClst, d.fs`fsiFlag,
             d.fs.win
    ensures d.Whole() && |d.fs.disk| == |old(d.fs.disk)| && res == FrOk
    ensures d.chain == old(d.chain) && d.fs.fat == old(d.fs.fat) && d.fs.freeClst == old(d.fs.freeClst)
    ensures Kept(d.fs.g, d.fs.fat, d.fs.fat, d.chain, d.chain, old(d.fs.view), d.fs.view)
    ensures d.Listing() == Mark(old(d.Listing()), s, q)
  {
    hide FatFs.Valid, Dir.Valid, Good, IsWalk, IsTable, Count, Dir.At, Entries, Kept, Marked, Mark;
    d.ValidTable();
    ghost var l0, f0, c0, v0 := d.Listing(), d.fs.fat, d.chain, d.fs.view;
    KeptSame(d.fs.g, f0, c0, v0);
    MarkNone(l0, s);
    AtFacts(d, q);
    var last := d.dptr;
    ToFirst(d, s, q);
    ghost var i := s;
    while true
      invariant d.Whole() && |d.fs.disk| == |old(d.fs.disk)| && s <= i <= q && d.At(i) && d.chain == c0
        && d.fs.fat == f0 && d.fs.freeClst == old(d.fs.freeClst)
      invariant Kept(d.fs.g, f0, f0, c0, c0, v0, d.fs.view) && Marked(l0, d.Listing(), s, i)
      decreases q - i
    {
      AtFacts(d, i);
      MarkEntry(d, i, l0, v0, s);
      if d.dptr >= last {
        MarkedIsMark(l0, d.Listing(), s, q);
        return FrOk;
      }
      res := NextEntry(d, i);
      i := i + 1;
    }
  }

  lemma MarkNone(l: seq<DirEntry>, s: nat)
    ensures Marked(l, l, s, s)
  {
  }

  // ----- dir_read

  /** The characters from entry number rem + 1 of the set up are in the buffer. */
  ghost predicate Picked(buf: seq<nat>, lfn: seq<nat>, rem: nat) {
    |buf| == 256 && |lfn| <= 255 && forall k :: rem * 13 <= k <= |lfn| ==> buf[k] == CharAt(lfn, k)
  }

  lemma PickedAll(buf: seq<nat>, lfn: seq<nat>)
    requires Picked(buf, lfn, 0) && IsName(lfn)
    ensures Buffered(buf, lfn)
  {
    assert forall k :: 0 <= k < |lfn| ==> buf[k] == lfn[k];
    assert buf[..|lfn|] == lfn;
  }

  lemma PickedOne(buf: seq<nat>, out: seq<nat>, lfn: seq<nat>, k: nat)
    requires IsName(lfn) && 1 <= k <= EntriesFor(|lfn|) && |out| == |buf| == 256
      && (k < EntriesFor(|lfn|) ==> Picked(buf, lfn, k))
    requires forall j :: 0 <= j < 256 ==> out[j] == if (k - 1) * 13 <= j < EndOf(lfn, k) then CharAt(lfn, j) else buf[j]
    ensures Picked(out, lfn, k - 1)
  {
    EntryCount(|lfn|);
  }

  /** Volume labels have the label attribute alone, perhaps with the archive bit. */
  ghost predicate PlainLabels(l: seq<DirEntry>) {
    forall i :: 0 <= i < |l| && IsLabel(l[i]) ==> Attr(l[i]) == 0x08 || Attr(l[i]) == 0x28
  }

  /** The state of the reader before entry i: between objects, or inside the set of the object at o. */
  ghost predicate Reading(l: seq<DirEntry>, L: map<nat, seq<nat>>, i: nat, o: Option<nat>, ord: byte, sum: byte,
    blk: Option<nat>, buf: seq<nat>) {
    match o
    case None => i <= |l| && (i == 0 || !IsLong(l[i - 1])) && ord == 0xFF
    case Some(q) =>
      && q in L && L[q] != [] && HasSet(l, q, L[q]) && Start(q, L[q]) < i <= q && IsLong(l[i - 1])
      && ord == q - i && sum == SumOf(l[q][..11]) && 0 <= Start(q, L[q]) && blk == Some(32 * Start(q, L[q]))
      && Picked(buf, L[q], q - i)
  }

  /** The object an LFN entry belongs to: the one being read, or the next one. */
  lemma OwnerAt(l: seq<DirEntry>, L: map<nat, seq<nat>>, i: nat, o: Option<nat>, ord: byte, sum: byte, blk: Option<nat>,
    buf: seq<nat>) returns (q: nat)
    requires WellFormed(l, L) && i < |l| && IsLong(l[i]) && Reading(l, L, i, o, ord, sum, blk, buf)
    ensures q in L && L[q] != [] && HasSet(l, q, L[q]) && Start(q, L[q]) <= i < q
    ensures o.Some? ==> o.value == q
    ensures o.None? ==> i == Start(q, L[q])
    ensures o.Some? ==> Start(q, L[q]) < i
  {
    hide WellFormed, HasSet, SumOf, Picked, IsLong;
    LongNotLive(l, L, i);
    if o.Some? {
      q := o.value;
    } else {
      q := OwnerOf(l, L, i);
      SetNames(l, q, L[q]);
      if Start(q, L[q]) < i { SetEntry(l, q, L[q], q - i + 1); }
    }
  }

  /** An LFN entry (ff.c:2958-2974). */
  method ReadLong(d: Dir, e: DirEntry, ord: byte, sum: byte, ghost l: seq<DirEntry>, ghost L: map<nat, seq<nat>>,
    ghost i: nat, ghost o: Option<nat>, ghost good: bool)
    returns (ord': byte, sum': byte, ghost o': Option<nat>)
    requires d.Valid() && d.dptr == 32 * i && i < |l| && e == l[i] && IsLong(e)
    requires good ==> WellFormed(l, L) && Reading(l, L, i, o, ord, sum, d.blk, d.lfnbuf)
    modifies d`blk, d`lfnbuf
    ensures d.Valid()
    ensures good ==> Reading(l, L, i + 1, o', ord', sum', d.blk, d.lfnbuf)
  {
    ghost var q, lfn, k := 0, [], 0;
    if good {
      q := OwnerAt(l, L, i, o, ord, sum, d.blk, d.lfnbuf);
      lfn, k := L[q], q - i;
      SetNames(l, q, lfn);
      SetEntry(l, q, lfn, k);
    }
    hide FatFs.Valid, IsWalk, StartCluster, WellFormed, HasSet, IsPart, SumOf, IsLong, IsName, IsLfnEntry, Order,
      HasLlef, EndOf, CharAt, Picked;
    ord', sum' := ord, sum;
    var et := e[0];
    if HasLlef(et) {
      sum' := e[13];
      et := Order(et);
      ord' := et;
      d.blk := Some(d.dptr);
    }
    assert good ==> ord' == k && sum' == e[13] == SumOf(l[q][..11]) && d.blk == Some(32 * Start(q, lfn));
    assert good ==> (k < EntriesFor(|lfn|) ==> Picked(d.lfnbuf, lfn, k));
    NoLlef(e);
    var ok := et == ord' && sum' == e[13];
    if ok {
      var buf;
      ok, buf := PickLfn(d.lfnbuf, e, lfn, k, sum');
      if good { PickedPart(d.lfnbuf, buf, lfn, k, l, q); }
      d.lfnbuf := buf;
    }
    ord' := if ok then ord' - 1 else 0xFF;
    o' := Some(q);
  }

  lemma NoLlef(e: DirEntry)
    ensures !HasLlef(e[0]) ==> Order(e[0]) == e[0]
  {
  }

  lemma PickedPart(buf: seq<nat>, out: seq<nat>, lfn: seq<nat>, k: nat, l: seq<DirEntry>, q: nat)
    requires HasSet(l, q, lfn) && 1 <= k <= EntriesFor(|lfn|) && |out| == |buf| == 256
      && (k < EntriesFor(|lfn|) ==> Picked(buf, lfn, k))
    requires IsPart(l, q, lfn, k)
    requires IsName(lfn) && IsLfnEntry(l[q - k], lfn, k, SumOf(l[q][..11])) ==>
               forall j :: 0 <= j < 256 ==>
                             out[j] == if (k - 1) * 13 <= j < EndOf(lfn, k) then CharAt(lfn, j) else buf[j]
    ensures Picked(out, lfn, k - 1)
  {
    PickedOne(buf, out, lfn, k);
  }

  /** At a short name the reader knows the object's long name, if it has one. */
  lemma ReadShort(l: seq<DirEntry>, L: map<nat, seq<nat>>, i: nat, o: Option<nat>, ord: byte, sum: byte,
    blk: Option<nat>, buf: seq<nat>)
    requires WellFormed(l, L) && i < |l| && IsSfn(l[i]) && Reading(l, L, i, o, ord, sum, blk, buf)
    ensures i in L && (L[i] == [] <==> !(ord == 0 && sum == SumOf(l[i][..11])))
    ensures L[i] != [] ==> 0 <= Start(i, L[i]) && blk == Some(32 * Start(i, L[i])) && Buffered(buf, L[i])
  {
    hide HasSet, SumOf, Picked, Buffered;
    if o.Some? {
      var q := o.value;
      SetNames(l, q, L[q]);
      if i < q { SetEntry(l, q, L[q], q - i); }
      assert i == q;
      PickedAll(buf, L[q]);
    } else {
      PlainShort(l, L, i);
    }
  }

  /** Other entries end a sequence. */
  lemma ReadOther(l: seq<DirEntry>, L: map<nat, seq<nat>>, i: nat, sum: byte, blk: Option<nat>, buf: seq<nat>)
    requires i < |l| && !IsLong(l[i])
    ensures Reading(l, L, i + 1, None, 0xFF, sum, blk, buf)
  {
  }

  /** An entry in use, without valid data for the reader (ff.c:2953-2956): deleted, a dot entry or a label. */
  predicate Skipped(e: DirEntry) {
    e[0] == 0xE5 || e[0] == 0x2E || Attr(e) == 0x08 || Attr(e) == 0x28
  }

  /** An entry at which the reader stops. */
  predicate IsShown(e: DirEntry) {
    !IsEnd(e) && !Skipped(e) && Attr(e) != 0x0F
  }

  /** The reader passes over the entries from i to q. */
  ghost predicate PassesOver(l: seq<DirEntry>, i: nat, q: nat) {
    q <= |l| && forall k :: i <= k < q ==> !IsEnd(l[k]) && !IsShown(l[k])
  }

  /** The loop body of dir_read (ff.c:2947-2992). */
  method ReadEntry(d: Dir, e: DirEntry, ord: byte, sum: byte, ghost l: seq<DirEntry>, ghost L: map<nat, seq<nat>>,
    ghost i: nat, ghost o: Option<nat>, ghost good: bool)
    returns (stop: bool, ord': byte, sum': byte, ghost o': Option<nat>)
    requires d.Valid() && d.dptr == 32 * i && i < |l| && e == l[i] && !IsEnd(e)
    requires good ==> WellFormed(l, L) && PlainLabels(l) && Reading(l, L, i, o, ord, sum, d.blk, d.lfnbuf)
    modifies d`blk, d`lfnbuf
    ensures d.Valid() && (stop <==> IsShown(e))
    ensures good && !stop ==> Reading(l, L, i + 1, o', ord', sum', d.blk, d.lfnbuf) && (i in L ==> e[0] == 0x2E)
    ensures good && stop ==> i in L && e[0] != 0x2E && Shown(d.blk, d.lfnbuf, i, L[i])
  {
    hide FatFs.Valid, IsWalk, StartCluster, Reading, SumOf, Ends, Sets, Chained, Buffered;
    stop, ord', sum', o' := false, ord, sum, None;
    if Skipped(e) {
      ord' := 0xFF;
      if good { LongIsNotSkipped(l, L, i); ReadOther(l, L, i, sum, d.blk, d.lfnbuf); }
    } else if e[11] as int % 0x40 == 0x0F {
      ord', sum', o' := ReadLong(d, e, ord, sum, l, L, i, o, good);
    } else {
      var cs := SumSfn(e);
      if good { ReadShort(l, L, i, o, ord, sum, d.blk, d.lfnbuf); }
      if ord != 0 || sum != cs {
        d.blk := None;
      }
      stop := true;
    }
  }

  /** What the reader reports of the object at q. */
  ghost predicate Shown(blk: Option<nat>, buf: seq<nat>, q: nat, lfn: seq<nat>) {
    if lfn == [] then blk == None else 0 <= Start(q, lfn) && blk == Some(32 * Start(q, lfn)) && Buffered(buf, lfn)
  }

  /** An entry of a set is not skipped. */
  lemma LongIsNotSkipped(l: seq<DirEntry>, L: map<nat, seq<nat>>, i: nat)
    requires WellFormed(l, L) && i < |l| && Skipped(l[i])
    ensures !IsLong(l[i]) && (IsSfn(l[i]) ==> l[i][0] == 0x2E)
  {
    if IsLong(l[i]) {
      var q := OwnerOf(l, L, i);
      hide WellFormed, HasSet;
      SetNames(l, q, L[q]);
      SetEntry(l, q, L[q], q - i);
      OrderRange(l[i]);
    }
  }

  lemma OrderRange(e: DirEntry)
    requires Order(e[0]) <= 20
    ensures e[0] != 0x2E && e[0] != 0xE5
  {
  }

  /** q is the first object at or after i that is no dot entry. */
  ghost predicate NextVisible(l: seq<DirEntry>, L: map<nat, seq<nat>>, i: nat, q: nat) {
    q in L && i <= q < |l| && l[q][0] != 0x2E && NoneVisible(l, L, i, q)
  }

  ghost predicate NoneVisible(l: seq<DirEntry>, L: map<nat, seq<nat>>, i: nat, q: nat) {
    forall r :: r in L && i <= r < q && r < |l| ==> l[r][0] == 0x2E
  }

  /** The reader may start here: at the top, or behind an entry that is no LFN entry. */
  ghost predicate Readable(l: seq<DirEntry>, L: map<nat, seq<nat>>, i: nat) {
    WellFormed(l, L) && PlainLabels(l) && i <= |l| && (i == 0 || !IsLong(l[i - 1]))
  }

  lemma NoneAfterEnd(l: seq<DirEntry>, L: map<nat, seq<nat>>, i0: nat, i: nat)
    requires WellFormed(l, L) && i < |l| && IsEnd(l[i]) && NoneVisible(l, L, i0, i)
    ensures NoneVisible(l, L, i0, |l|)
  {
    forall r: nat | i <= r < |l|
      ensures r !in L
    {
      NothingAfter(l, L, i, r);
    }
  }

  /** dir_read on any links: it ends at the first entry that is shown, at a blank entry, or at the end of the walk; in a
      well-formed directory that is the next object, with its whole long name in the buffer. */
  method Read(d: Dir, ghost i0: nat, ghost L: map<nat, seq<nat>>) returns (res: FResult, ghost q: nat)
    requires d.Valid() && (d.sect == 0 || d.At(i0))
    modifies d`dptr, d`clust, d`sect, d`blk, d`chain, d`lfnbuf
    modifies d.fs`disk, d.fs`winsect, d.fs`wflag, d.fs`view, d.fs`fat, d.fs`lastClst, d.fs`freeClst, d.fs`fsiFlag,
             d.fs.win
    ensures d.Valid() && |d.fs.disk| == |old(d.fs.disk)|
    ensures d.fs.view == old(d.fs.view) && d.fs.fat == old(d.fs.fat) && d.chain == old(d.chain)
    ensures d.fs.freeClst == old(d.fs.freeClst)
    ensures res == FrOk || ((res == FrNoFile || res == FrIntErr) && d.sect == 0)
    ensures old(d.sect) == 0 ==> res == FrNoFile
    ensures old(d.sect) != 0 ==> i0 <= q <= |d.Listing()| && PassesOver(d.Listing(), i0, q)
    ensures res == FrOk ==>
              old(d.sect) != 0 && d.At(q) && d.fs.winsect == d.sect && q < |d.Listing()| && IsShown(d.Listing()[q])
    ensures res == FrNoFile && old(d.sect) != 0 ==>
              if q < |d.Listing()| then IsEnd(d.Listing()[q]) else !Broken(d.fs.g, d.fs.fat, d.chain)
    ensures res == FrIntErr ==> q == |d.Listing()| && Broken(d.fs.g, d.fs.fat, d.chain) && !d.Intact()
    ensures res == FrOk && Readable(d.Listing(), L, i0) ==>
              NextVisible(d.Listing(), L, i0, q) && Shown(d.blk, d.lfnbuf, q, L[q])
    ensures res == FrNoFile && old(d.sect) != 0 && Readable(d.Listing(), L, i0) ==>
              NoneVisible(d.Listing(), L, i0, |d.Listing()|)
  {
    hide FatFs.Valid, Dir.Valid, Entries, Good, IsWalk, IsTable, Broken, Count, Dir.At, Reading, Shown, Readable,
      NoneVisible, NextVisible, IsLong, WellFormed, IsShown, PassesOver;
    q := i0;
    if d.sect == 0 {
      return FrNoFile, q;
    }
    AtFacts(d, i0);
    ghost var l := d.Listing();
    ghost var good := Readable(l, L, i0);
    ghost var o: Option<nat> := None;
    var ord, sum := 0xFF, 0xFF;
    if good { ReadStart(l, L, i0, sum, d.blk, d.lfnbuf); }
    NoneYet(l, L, i0);
    while true
      invariant d.Valid() && |d.fs.disk| == |old(d.fs.disk)| && d.At(q) && q < |l| && d.dptr == 32 * q && i0 <= q
        && d.Listing() == l
      invariant d.fs.view == old(d.fs.view) && d.fs.fat == old(d.fs.fat) && d.chain == old(d.chain)
      invariant d.fs.freeClst == old(d.fs.freeClst)
      invariant PassesOver(l, i0, q)
        && (good ==> Reading(l, L, q, o, ord, sum, d.blk, d.lfnbuf) && NoneVisible(l, L, i0, q))
      decreases |l| - q
    {
      var e := Peek(d, q);
      if e[0] == 0 {
        if good { NoneAfterEnd(l, L, i0, q); }
        SetSect(d, 0);
        return FrNoFile, q;
      }
      var stop;
      stop, ord, sum, o := ReadEntry(d, e, ord, sum, l, L, q, o, good);
      if stop {
        VisibleHere(l, L, i0, q);
        return FrOk, q;
      }
      NoneVisibleStep(l, L, i0, q);
      res := NextEntry(d, q);
      q := q + 1;
      if res != FrOk {
        SetSect(d, 0);
        return;
      }
    }
  }

  lemma ReadStart(l: seq<DirEntry>, L: map<nat, seq<nat>>, i: nat, sum: byte, blk: Option<nat>, buf: seq<nat>)
    requires Readable(l, L, i)
    ensures Reading(l, L, i, None, 0xFF, sum, blk, buf) && WellFormed(l, L) && PlainLabels(l)
  {
  }

  lemma NoneYet(l: seq<DirEntry>, L: map<nat, seq<nat>>, i: nat)
    ensures NoneVisible(l, L, i, i) && (i <= |l| ==> PassesOver(l, i, i))
  {
  }

  lemma NoneVisibleStep(l: seq<DirEntry>, L: map<nat, seq<nat>>, i: nat, q: nat)
    requires q < |l|
    ensures NoneVisible(l, L, i, q) && (q in L ==> l[q][0] == 0x2E) ==> NoneVisible(l, L, i, q + 1)
    ensures PassesOver(l, i, q) && !IsEnd(l[q]) && !IsShown(l[q]) ==> PassesOver(l, i, q + 1)
  {
  }

  lemma VisibleHere(l: seq<DirEntry>, L: map<nat, seq<nat>>, i: nat, q: nat)
    requires i <= q < |l|
    ensures NoneVisible(l, L, i, q) && q in L && l[q][0] != 0x2E ==> NextVisible(l, L, i, q)
  {
  }

  method SetSect(d: Dir, sect: nat)
    requires d.Valid()
    modifies d`sect
    ensures d.Valid() && d.sect == sect
  {
    hide FatFs.Valid, IsWalk, StartCluster;
    d.sect := sect;
  }
}
