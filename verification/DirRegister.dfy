/** dir_register (ff.c:3135-3288): a numbered short name if the name is lossy, room, and the new block. */
module DirRegister {
  import opened Bytes
  import opened Geometry
  import opened Volume
  import opened Chain
  import opened LongNames
  import opened ShortNames
  import opened FileInfo
  import opened NumberedNames
  import opened DirRep
  import opened DirScan
  import opened Directory
  import opened DirEdit
  import opened DirOps

  /** The length of the name in the buffer. */
  method NameLength(buf: seq<nat>, ghost lfn: seq<nat>) returns (len: nat)
    requires Buffered(buf, lfn)
    ensures len == |lfn|
  {
    len := 0;
    assert forall k :: 0 <= k < |lfn| ==> buf[k] == lfn[k];
    while buf[len] != 0
      invariant len <= |lfn|
      decreases |lfn| - len
    {
      len := len + 1;
    }
  }

  /** The search for a short name that no object has. */
  ghost function ShortKey(up: nat -> nat, buf: seq<nat>, fn: seq<byte>): Key {
    Key(up, buf, fn, false, true)
  }

  /** fn is a numbered form of sn. */
  ghost predicate Numbered(fn: seq<byte>, sn: seq<byte>, lfn: seq<nat>) {
    exists j: nat, num: nat :: 1 <= num < 100 && IsNumbered(fn, sn, j, Numeral(Suffix(num, lfn)))
  }

  /** Some object has the numbered form of sn with this number. */
  ghost predicate Taken(up: nat -> nat, buf: seq<nat>, sn: seq<byte>, lfn: seq<nat>, l: seq<DirEntry>, num: nat)
    requires |buf| == 256 && num < 0x1_0000
  {
    exists fn: seq<byte>, j: nat :: |fn| == 11 && IsNumbered(fn, sn, j, Numeral(Suffix(num, lfn)))
      && Find(ShortKey(up, buf, fn), l).Some?
  }

  ghost predicate AllTaken(up: nat -> nat, buf: seq<nat>, sn: seq<byte>, lfn: seq<nat>, l: seq<DirEntry>)
    requires |buf| == 256
  {
    forall num :: 1 <= num < 100 ==> Taken(up, buf, sn, lfn, l, num)
  }

  /** fn is the first numbered form of sn that no object has. */
  ghost predicate FirstFreeForm(up: nat -> nat, buf: seq<nat>, fn: seq<byte>, sn: seq<byte>, lfn: seq<nat>,
                                l: seq<DirEntry>)
    requires |buf| == 256
  {
    exists num: nat :: 1 <= num < 100 && IsForm(fn, sn, lfn, num) && !Taken(up, buf, sn, lfn, l, num)
                       && forall m :: 1 <= m < num ==> Taken(up, buf, sn, lfn, l, m)
  }

  ghost predicate IsForm(fn: seq<byte>, sn: seq<byte>, lfn: seq<nat>, num: nat)
    requires num < 0x1_0000
  {
    exists j: nat :: IsNumbered(fn, sn, j, Numeral(Suffix(num, lfn)))
  }

  lemma TakenIff(up: nat -> nat, buf: seq<nat>, sn: seq<byte>, lfn: seq<nat>, l: seq<DirEntry>, num: nat, fn: seq<byte>,
                 at: nat)
    requires |buf| == 256 && num < 0x1_0000 && |fn| == 11 && IsNumbered(fn, sn, at, Numeral(Suffix(num, lfn)))
    ensures Taken(up, buf, sn, lfn, l, num) <==> Find(ShortKey(up, buf, fn), l).Some?
  {
    hide Find, Numeral, Suffix;
    if Taken(up, buf, sn, lfn, l, num) {
      var fn', j :| |fn'| == 11 && IsNumbered(fn', sn, j, Numeral(Suffix(num, lfn)))
        && Find(ShortKey(up, buf, fn'), l).Some?;
      NumberedUnique(fn, fn', sn, at, j, Numeral(Suffix(num, lfn)));
    }
  }

  /** One numbered name: does some object have it? */
  method TryNumber(d: Dir, up: nat -> nat, sn: seq<byte>, len: nat, n: nat, ghost lfn: seq<nat>) returns (res: FResult)
    requires d.Whole() && Buffered(d.lfnbuf, lfn) && len == |lfn| && d.noLfn && !d.cf.loss && |sn| == 11 && 1 <= n < 100
    modifies d`dptr, d`clust, d`sect, d`blk, d`chain, d`fn
    modifies d.fs`disk, d.fs`winsect, d.fs`wflag, d.fs`view, d.fs`fat, d.fs`lastClst, d.fs`freeClst, d.fs`fsiFlag,
             d.fs.win
    ensures d.Whole() && |d.fs.disk| == |old(d.fs.disk)|
    ensures d.fs.view == old(d.fs.view) && d.fs.fat == old(d.fs.fat) && d.chain == old(d.chain)
    ensures d.fs.freeClst == old(d.fs.freeClst)
    ensures res == FrOk || res == FrNoFile
    ensures res == FrNoFile ==> Numbered(d.fn, sn, lfn) && Find(ShortKey(up, d.lfnbuf, d.fn), d.Listing()) == None
    ensures IsForm(d.fn, sn, lfn, n)
    ensures |d.lfnbuf| == 256 && (res == FrOk <==> Taken(up, d.lfnbuf, sn, lfn, d.Listing(), n))
  {
    hide FatFs.Valid, IsTable, IsWalk, Find, IsNumbered, Numeral, Suffix, StartCluster;
    assert d.lfnbuf[..len] == lfn;
    var fn, at;
    fn, at := GenNumname(sn, d.lfnbuf[..len], n);
    NumberedSize(fn, sn, at, Numeral(Suffix(n, lfn)));
    d.fn := fn;
    assert Numbered(d.fn, sn, lfn) && IsForm(d.fn, sn, lfn, n);
    TakenIff(up, d.lfnbuf, sn, lfn, d.Listing(), n, fn, at);
    res := DirFind(d, up);
  }

  /** New flags for the name being looked for. */
  method SetFlags(d: Dir, cf: Flags, noLfn: bool)
    requires d.Whole()
    modifies d`cf, d`noLfn
    ensures d.Whole() && d.cf == cf && d.noLfn == noLfn
  {
    hide FatFs.Valid, IsTable, IsWalk, StartCluster;
    d.cf, d.noLfn := cf, noLfn;
  }

  /** The loop over numbered names (ff.c:3224-3244). */
  method PickNumber(d: Dir, up: nat -> nat, len: nat, ghost lfn: seq<nat>) returns (res: FResult)
    requires d.Whole() && Buffered(d.lfnbuf, lfn) && len == |lfn| && !d.noLfn
    modifies d`dptr, d`clust, d`sect, d`blk, d`chain, d`fn, d`cf, d`noLfn
    modifies d.fs`disk, d.fs`winsect, d.fs`wflag, d.fs`view, d.fs`fat, d.fs`lastClst, d.fs`freeClst, d.fs`fsiFlag,
             d.fs.win
    ensures d.Whole() && |d.fs.disk| == |old(d.fs.disk)|
    ensures d.fs.view == old(d.fs.view) && d.fs.fat == old(d.fs.fat) && d.chain == old(d.chain)
    ensures d.fs.freeClst == old(d.fs.freeClst)
    ensures res == FrNoFile || res == FrDenied
    ensures |d.lfnbuf| == 256 && (res == FrDenied <==> AllTaken(up, d.lfnbuf, old(d.fn), lfn, old(d.Listing())))
    ensures res == FrNoFile ==>
              Numbered(d.fn, old(d.fn), lfn) && Find(ShortKey(up, d.lfnbuf, d.fn), d.Listing()) == None
    ensures res == FrNoFile ==> FirstFreeForm(up, d.lfnbuf, d.fn, old(d.fn), lfn, old(d.Listing()))
    ensures res == FrNoFile ==> d.cf == old(d.cf) && !d.noLfn
  {
    hide FatFs.Valid, Dir.Valid, Find, Numbered, Buffered, Taken, Entries, IsForm;
    d.ValidTable();
    var sn, scf := d.fn, d.cf;
    SetFlags(d, NO_FLAGS, true);
    var n := 1;
    while n < 100
      invariant 1 <= n <= 100 && d.Whole() && |d.fs.disk| == |old(d.fs.disk)| && d.noLfn && d.cf == NO_FLAGS
      invariant d.fs.view == old(d.fs.view) && d.fs.fat == old(d.fs.fat) && d.chain == old(d.chain)
      invariant d.fs.freeClst == old(d.fs.freeClst)
      invariant |d.lfnbuf| == 256 && forall m :: 1 <= m < n ==> Taken(up, d.lfnbuf, sn, lfn, old(d.Listing()), m)
    {
      res := TryNumber(d, up, sn, len, n, lfn);
      if res != FrOk {
        SetFlags(d, scf, false);
        return;
      }
      n := n + 1;
    }
    return FrDenied;
  }

  lemma NumberedSize(fn: seq<byte>, sn: seq<byte>, j: nat, d: seq<byte>)
    requires IsNumbered(fn, sn, j, d)
    ensures |fn| == 11
  {
  }

  /** The entries of a set from number k + 1 up are written, from p on. */
  ghost predicate Written(l0: seq<DirEntry>, l: seq<DirEntry>, p: nat, lfn: seq<nat>, sum: byte, k: nat) {
    var n := EntriesFor(|lfn|);
    && |l| == |l0| && k <= n && p + n <= |l|
    && (forall i :: 0 <= i < |l| && !(p <= i < p + n - k) ==> l[i] == l0[i])
    && forall i :: p <= i < p + n - k ==> WrittenAt(l, p, lfn, sum, i)
  }

  ghost predicate WrittenAt(l: seq<DirEntry>, p: nat, lfn: seq<nat>, sum: byte, i: nat) {
    p <= i < |l| && p + EntriesFor(|lfn|) > i && IsLfnEntry(l[i], lfn, EntriesFor(|lfn|) + p - i, sum)
  }

  lemma WriteOne(l0: seq<DirEntry>, l: seq<DirEntry>, p: nat, lfn: seq<nat>, sum: byte, k: nat, e: DirEntry)
    requires Written(l0, l, p, lfn, sum, k) && k > 0 && IsLfnEntry(e, lfn, k, sum)
    ensures p + EntriesFor(|lfn|) - k < |l| && Written(l0, l[p + EntriesFor(|lfn|) - k := e], p, lfn, sum, k - 1)
  {
    hide IsLfnEntry;
    var m := l[p + EntriesFor(|lfn|) - k := e];
    forall i | p <= i < p + EntriesFor(|lfn|) - (k - 1)
      ensures WrittenAt(m, p, lfn, sum, i)
    {
      if i < p + EntriesFor(|lfn|) - k { assert WrittenAt(l, p, lfn, sum, i); }
    }
  }

  /** Storing the LFN entries, highest number first (ff.c:3253-3268). */
  method WriteSet(d: Dir, ghost lfn: seq<nat>, n: nat, ghost p: nat, sum: byte)
    requires d.Whole() && Buffered(d.lfnbuf, lfn) && IsName(lfn) && n == EntriesFor(|lfn|)
    requires d.At(p) && p + n < |d.Listing()|
    modifies d`dptr, d`clust, d`sect, d`chain
    modifies d.fs`disk, d.fs`winsect, d.fs`wflag, d.fs`view, d.fs`fat, d.fs`lastClst, d.fs`freeClst, d.fs`fsiFlag,
             d.fs.win
    ensures d.Whole() && |d.fs.disk| == |old(d.fs.disk)| && d.At(p + n)
    ensures Kept(d.fs.g, old(d.fs.fat), d.fs.fat, old(d.chain), d.chain, old(d.fs.view), d.fs.view)
    ensures Written(old(d.Listing()), d.Listing(), p, lfn, sum, 0) && d.fs.fat == old(d.fs.fat)
  {
    hide FatFs.Valid, Dir.Valid, Good, IsWalk, IsTable, Count, Dir.At, Entries, Kept, Written, IsLfnEntry, EntriesFor;
    d.ValidTable();
    ghost var l0, f0, c0, v0 := d.Listing(), d.fs.fat, d.chain, d.fs.view;
    KeptSame(d.fs.g, f0, c0, v0);
    WriteNone(l0, p, lfn, sum);
    AtFacts(d, p);
    var k := n;
    while k > 0
      invariant 0 <= k <= n && d.Whole() && |d.fs.disk| == |old(d.fs.disk)| && d.At(p + n - k) && d.chain == c0
        && d.fs.fat == f0
      invariant Kept(d.fs.g, f0, f0, c0, c0, v0, d.fs.view) && Written(l0, d.Listing(), p, lfn, sum, k)
      invariant d.lfnbuf == old(d.lfnbuf)
    {
      ghost var i := p + n - k;
      AtFacts(d, i);
      var e := Peek(d, i);
      e := PutLfn(d.lfnbuf, lfn, e, k, sum);
      ghost var v := d.fs.view;
      WriteOne(l0, d.Listing(), p, lfn, sum, k, e);
      StoreEntry(d, i, e);
      KeptTrans(d.fs.g, f0, f0, f0, c0, c0, c0, v0, v, d.fs.view);
      var res := NextEntry(d, i);
      k := k - 1;
    }
  }

  lemma WriteNone(l: seq<DirEntry>, p: nat, lfn: seq<nat>, sum: byte)
    requires p + EntriesFor(|lfn|) <= |l|
    ensures Written(l, l, p, lfn, sum, EntriesFor(|lfn|))
  {
  }

  /** The written entries and the short name form the block. */
  lemma BlockWritten(l0: seq<DirEntry>, l1: seq<DirEntry>, p: nat, lfn: seq<nat>, fn: seq<byte>, nt: byte)
    requires |fn| == 11 && IsName(lfn) && Written(l0, l1, p, lfn, SumOf(fn), 0) && p + EntriesFor(|lfn|) < |l0|
    ensures var n := EntriesFor(|lfn|);
            var l2 := l1[p + n := SfnEntry(fn, nt)];
            var b := l2[p..p + n + 1];
            IsBlock(b, lfn, fn, nt) && l2 == Put(l0, p, b)
  {
    hide IsLfnEntry, SumOf, SfnEntry;
    EntryCount(|lfn|);
    var n := EntriesFor(|lfn|);
    var l2 := l1[p + n := SfnEntry(fn, nt)];
    var b := l2[p..p + n + 1];
    forall k | 1 <= k < |b|
      ensures IsBlockPart(b, lfn, fn, k)
    {
      assert WrittenAt(l1, p, lfn, SumOf(fn), p + n - k);
      assert b[n - k] == l1[p + n - k];
    }
    assert l2 == Put(l0, p, b);
  }

  lemma ShortBlock(l0: seq<DirEntry>, p: nat, fn: seq<byte>, nt: byte)
    requires |fn| == 11 && p < |l0|
    ensures IsBlock([SfnEntry(fn, nt)], [], fn, nt) && l0[p := SfnEntry(fn, nt)] == Put(l0, p, [SfnEntry(fn, nt)])
  {
  }

  /** Filling the reserved entries (ff.c:3250-3285). */
  method PlaceBlock(d: Dir, nEnt: nat, ghost lfn: seq<nat>, ghost p: nat) returns (ghost b: seq<DirEntry>)
    requires d.Whole() && Buffered(d.lfnbuf, lfn) && IsName(lfn)
      && nEnt == (if d.cf.lfn then EntriesFor(|lfn|) + 1 else 1)
    requires d.At(p + nEnt - 1)
    modifies d`dptr, d`clust, d`sect, d`chain
    modifies d.fs`disk, d.fs`winsect, d.fs`wflag, d.fs`view, d.fs`fat, d.fs`lastClst, d.fs`freeClst, d.fs`fsiFlag,
             d.fs.win
    ensures d.Whole() && |d.fs.disk| == |old(d.fs.disk)| && |b| == nEnt && d.At(p + nEnt - 1)
    ensures d.fs.fat == old(d.fs.fat)
    ensures Kept(d.fs.g, old(d.fs.fat), d.fs.fat, old(d.chain), d.chain, old(d.fs.view), d.fs.view)
    ensures p + nEnt <= |old(d.Listing())| && d.Listing() == Put(old(d.Listing()), p, b)
      && IsBlock(b, LongPart(lfn, d.cf), d.fn, NtRes(d.cf))
  {
    hide FatFs.Valid, Dir.Valid, Good, IsWalk, IsTable, Count, Dir.At, Entries, Kept, Written, IsLfnEntry, EntriesFor,
      IsBlock, Put, SfnEntry, NtRes, IsName;
    d.ValidTable();
    EntryCount(|lfn|) by { assert 1 <= |lfn| <= MAX_LFN by { NameSize(lfn); } }
    ghost var l0, f0, c0, v0 := d.Listing(), d.fs.fat, d.chain, d.fs.view;
    KeptSame(d.fs.g, f0, c0, v0);
    AtFacts(d, p + nEnt - 1);
    var n := nEnt - 1;
    if n > 0 {
      assert (d.dptr - n * 32) / 32 == p && (d.dptr - n * 32) % 32 == 0;
      var res := d.Sdi(d.dptr - n * 32);
      var sum := SumSfn(d.fn);
      assert d.fn[..11] == d.fn;
      WriteSet(d, lfn, n, p, sum);
    }
    ghost var l1, v1 := d.Listing(), d.fs.view;
    b := LastEntry(d, lfn, l0, p + n, n);
    KeptTrans(d.fs.g, f0, d.fs.fat, d.fs.fat, c0, d.chain, d.chain, v0, v1, d.fs.view);
  }

  /** The short-name entry completes the block. */
  method LastEntry(d: Dir, ghost lfn: seq<nat>, ghost l0: seq<DirEntry>, ghost q: nat,
    ghost n: nat) returns (ghost b: seq<DirEntry>)
    requires d.Whole() && d.At(q) && IsName(lfn) && n == (if d.cf.lfn then EntriesFor(|lfn|) else 0) && n <= q
    requires if d.cf.lfn then Written(l0, d.Listing(), q - n, lfn, SumOf(d.fn), 0) else d.Listing() == l0
    modifies d.fs`disk, d.fs`winsect, d.fs`wflag, d.fs`view, d.fs.win
    ensures d.Whole() && |d.fs.disk| == |old(d.fs.disk)| && |b| == n + 1 && d.At(q)
    ensures Kept(d.fs.g, d.fs.fat, d.fs.fat, d.chain, d.chain, old(d.fs.view), d.fs.view)
    ensures q < |l0| && d.Listing() == Put(l0, q - n, b) && IsBlock(b, LongPart(lfn, d.cf), d.fn, NtRes(d.cf))
  {
    hide FatFs.Valid, Dir.Valid, Good, IsWalk, IsTable, Count, Dir.At, Entries, Kept, Written, EntriesFor, IsBlock,
      SfnEntry, NtRes, IsName, Put, SumOf, LongPart;
    d.ValidTable();
    AtFacts(d, q);
    var e := Peek(d, q);
    b := Completed(l0, d.Listing(), q, n, lfn, d.fn, d.cf);
    StoreEntry(d, q, SfnEntry(d.fn, NtRes(d.cf)));
  }

  /** The block that the last entry completes. */
  lemma Completed(l0: seq<DirEntry>, l: seq<DirEntry>, q: nat, n: nat, lfn: seq<nat>, fn: seq<byte>, cf: Flags)
    returns (b: seq<DirEntry>)
    requires |fn| == 11 && q < |l| && IsName(lfn) && n == (if cf.lfn then EntriesFor(|lfn|) else 0) && n <= q
    requires if cf.lfn then Written(l0, l, q - n, lfn, SumOf(fn), 0) else l == l0
    ensures q < |l0| && |b| == n + 1 && l[q := SfnEntry(fn, NtRes(cf))] == Put(l0, q - n, b)
    ensures IsBlock(b, LongPart(lfn, cf), fn, NtRes(cf))
  {
    hide Written, EntriesFor, IsBlock, SfnEntry, NtRes, IsName, SumOf;
    var e := SfnEntry(fn, NtRes(cf));
    if cf.lfn {
      WrittenSize(l0, l, q - n, lfn, SumOf(fn), 0);
      NameSize(lfn);
      BlockWritten(l0, l, q - n, lfn, fn, NtRes(cf));
      b := l[q := e][q - n..q + 1];
    } else {
      ShortBlock(l0, q, fn, NtRes(cf));
      b := [e];
    }
  }

  lemma WrittenSize(l0: seq<DirEntry>, l: seq<DirEntry>, p: nat, lfn: seq<nat>, sum: byte, k: nat)
    requires Written(l0, l, p, lfn, sum, k)
    ensures |l| == |l0|
  {
  }

  /** What dir_register refuses: a lossy name all of whose numbered forms are taken, or a name whose entries fit nowhere
      in the table, however far it can grow. */
  ghost predicate Refused(up: nat -> nat, buf: seq<nat>, fn: seq<byte>, cf: Flags, lfn: seq<nat>, l: seq<DirEntry>,
                          room: nat)
    requires |buf| == 256
  {
    || (cf.loss && AllTaken(up, buf, fn, lfn, l))
    || !HasGap(Padded(l, room), EntryTotal(cf.lfn, |lfn|))
  }

  /** dir_register: on success the directory is the old one, with room at its end if needed, and the block of the
      new object in the lowest gap; otherwise no object was added. With a right free count it succeeds exactly if the
      name need not be refused. */
  method Register(d: Dir, up: nat -> nat, ghost lfn: seq<nat>)
    returns (res: FResult, ghost p: nat, ghost room: nat, ghost b: seq<DirEntry>)
    requires d.Whole() && Buffered(d.lfnbuf, lfn) && IsName(lfn) && !d.noLfn
    modifies d`dptr, d`clust, d`sect, d`blk, d`chain, d`fn, d`cf, d`noLfn
    modifies d.fs`disk, d.fs`winsect, d.fs`wflag, d.fs`view, d.fs`fat, d.fs`lastClst, d.fs`freeClst, d.fs`fsiFlag,
             d.fs.win
    ensures d.Whole() && |d.fs.disk| == |old(d.fs.disk)|
    ensures Kept(d.fs.g, old(d.fs.fat), d.fs.fat, old(d.chain), d.chain, old(d.fs.view), d.fs.view)
    ensures res == FrInvalidName <==> old(d.cf.dot)
    ensures res == FrOk ==>
              Registered(old(d.Listing()), d.Listing(), lfn, d.fn, old(d.cf), room, p, b) && d.At(p + |b| - 1)
    ensures res == FrOk ==> d.cf == old(d.cf)
    ensures res == FrOk && !old(d.cf.loss) ==> d.fn == old(d.fn)
    ensures res == FrOk && old(d.cf.loss) ==>
              Numbered(d.fn, old(d.fn), lfn) && Find(ShortKey(up, d.lfnbuf, d.fn), old(d.Listing())) == None
    ensures res == FrOk && old(d.cf.loss) ==>
              |d.lfnbuf| == 256 && FirstFreeForm(up, d.lfnbuf, d.fn, old(d.fn), lfn, old(d.Listing()))
    ensures res != FrOk ==> d.Listing() == Padded(old(d.Listing()), room)
    ensures res == FrOk || res == FrDenied || res == FrInvalidName || (res == FrIntErr && 1 in d.fs.fat)
    ensures old(!d.cf.dot && Accurate(d.fs.freeClst, d.fs.fat)) && 1 !in d.fs.fat ==>
              d.fs.g.csize > 0 && |d.lfnbuf| == 256
              && (res == FrDenied <==> Refused(up, d.lfnbuf, old(d.fn), old(d.cf), lfn, old(d.Listing()),
                                               MaxRoom(d.fs.g, old(d.fs.fat), old(d.chain))))
  {
    hide FatFs.Valid, Dir.Valid, Dir.Listing, Good, IsWalk, IsTable, Count, Dir.At, Kept, EntriesFor, IsBlock, SfnEntry,
      NtRes, IsName, Padded, Put, IsGap, Find, Numbered, Registered, MaxRoom, HasGap, AllTaken, Accurate, FirstFreeForm;
    p, room, b := 0, 0, [];
    ghost var l0, f0, c0, v0, cf := d.Listing(), d.fs.fat, d.chain, d.fs.view, d.cf;
    ListingIs(d);
    PadTwice(l0, 0, 0);
    KeptSame(d.fs.g, f0, c0, v0);
    d.ValidTable();
    if d.cf.dot {
      return FrInvalidName, p, room, b;
    }
    var len := NameLength(d.lfnbuf, lfn);
    if d.cf.loss {
      res := PickNumber(d, up, len, lfn);
      ListingIs(d);
      if res != FrNoFile {
        return;
      }
    }
    var nEnt := EntryTotal(d.cf.lfn, len);
    res, p, room := DirAlloc(d, nEnt);
    NotEmpty(d);
    ghost var l1, f1, c1, v1 := d.Listing(), d.fs.fat, d.chain, d.fs.view;
    if res == FrOk {
      b := PlaceBlock(d, nEnt, lfn, p);
      KeptTrans(d.fs.g, f0, f1, d.fs.fat, c0, c1, d.chain, v0, v1, d.fs.view);
      RegisteredBy(l0, d.Listing(), lfn, d.fn, cf, room, p, b);
    }
  }

  /** The number of entries to allocate (ff.c:3246-3248). */
  function EntryTotal(long: bool, len: nat): (n: nat)
    ensures n == (if long then EntriesFor(len) + 1 else 1)
  {
    if long then (len + 12) / 13 + 1 else 1
  }

  lemma ListingIs(d: Dir)
    ensures d.Listing() == Entries(d.fs.g, d.fs.view, d.chain)
  {
  }

  /** The new listing is the old one with the object's block in the lowest gap. */
  ghost predicate Registered(l0: seq<DirEntry>, l: seq<DirEntry>, lfn: seq<nat>, fn: seq<byte>, cf: Flags, room: nat,
    p: nat, b: seq<DirEntry>) {
    && IsGap(Padded(l0, room), p, |b|) && IsBlock(b, LongPart(lfn, cf), fn, NtRes(cf))
    && p + |b| <= |Padded(l0, room)| && l == Put(Padded(l0, room), p, b)
  }

  lemma RegisteredBy(l0: seq<DirEntry>, l: seq<DirEntry>, lfn: seq<nat>, fn: seq<byte>, cf: Flags, room: nat, p: nat,
    b: seq<DirEntry>)
    requires IsGap(Padded(l0, room), p, |b|) && IsBlock(b, LongPart(lfn, cf), fn, NtRes(cf))
    requires p + |b| <= |Padded(l0, room)| && l == Put(Padded(l0, room), p, b)
    ensures Registered(l0, l, lfn, fn, cf, room, p, b)
  {
  }

  lemma NameSize(lfn: seq<nat>)
    requires IsName(lfn)
    ensures 1 <= |lfn| <= MAX_LFN
  {
  }
}
