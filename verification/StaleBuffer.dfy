/** What a stale buffer does. f_truncate leaves the sector buffer alone when it gives the sector's cluster back
    (ff.c:6621-6671), and f_read and f_lseek trust a buffer by its sector number (ff.c:5302, ff.c:6211). Once another
    file has written that sector and the cluster comes back, a byte of the file has two values. */
module StaleBuffer {
  import opened Bytes
  import opened Geometry
  import opened Volume
  import opened Chain
  import opened ChainRuns
  import opened FileRep
  import opened FileState
  import opened File
  import opened FileRuns
  import opened OpenFiles

  // ----- the two reads

  /** The position of the buffered sector in the file, found along the chain. */
  method PositionOf(f: File) returns (p: nat)
    requires f.Ready() && Own(f.fs.g, f.chain, f.sect)
    modifies f.fs`disk, f.fs`winsect, f.fs`wflag, f.fs.win
    ensures f.Ready() && f.buf[..] == old(f.buf[..])
    ensures p % 512 == 0 && f.fs.g.csize > 0 && p + 512 <= Cap(f.fs.g, f.chain) * 512
    ensures Cl(f.fs.g, p / 512) < |f.chain| && Sec(f.fs.g, f.chain, p / 512) == f.sect
  {
    hide File.Steady, Cursor, Good, Cap, Clst2Sect;
    f.BufApart();
    f.SteadyFacts();
    ghost var i :| 0 <= i < |f.chain| && InCluster(f.fs.g, f.chain[i], f.sect);
    var clst, k := f.sclust, 0;
    while !(Clst2Sect(f.fs.g, clst) <= f.sect < Clst2Sect(f.fs.g, clst) + f.fs.g.csize)
      invariant 0 <= k <= i && clst == f.chain[k] && f.Ready() && f.buf[..] == old(f.buf[..])
      invariant HasChain(f.fs.g, f.fs.fat, f.chain)
      decreases i - k
    {
      LinkOf(f.fs.fat, f.chain, k);
      clst := f.GetLink(clst);
      k := k + 1;
    }
    p := (k * f.fs.g.csize + (f.sect - Clst2Sect(f.fs.g, clst))) * 512;
    SectorNumber(f.fs.g, f.chain, k, f.sect - Clst2Sect(f.fs.g, clst), p);
  }

  lemma SectorNumber(g: Geometry, chain: seq<nat>, k: nat, o: nat, p: nat)
    requires k < |chain| && o < g.csize && p == (k * g.csize + o) * 512
    ensures p % 512 == 0 && p / 512 == k * g.csize + o && p + 512 <= Cap(g, chain) * 512
    ensures Cl(g, p / 512) == k && Of(g, p / 512) == o
  {
    assert p / 512 == k * g.csize + o;
    Quotient(k, g.csize, o);
    MulMonotone(k + 1, |chain|, g.csize);
    assert (k + 1) * g.csize == k * g.csize + g.csize;
  }

  lemma Quotient(k: nat, c: nat, o: nat)
    requires o < c
    ensures (k * c + o) / c == k && (k * c + o) % c == o
  {
    var q, r := (k * c + o) / c, (k * c + o) % c;
    assert k * c + o == q * c + r;
    if q < k {
      MulMonotone(q + 1, k, c);
    } else if q > k {
      MulMonotone(k + 1, q, c);
    }
  }

  /** The file buffers its sector at p, cleanly; the disk holds there what direct says, the buffer what buffered
      says. */
  ghost predicate Poised(f: File, p: nat, direct: seq<byte>, buffered: seq<byte>)
    reads f, f.buf, f.fs, f.fs.win
  {
    && f.Ready() && f.err == FrOk && f.canRead && f.canWrite && !f.dirty && 1 !in f.fs.fat
    && p % 512 == 0 && f.fs.g.csize > 0 && p + 512 <= f.objsize && Cl(f.fs.g, p / 512) < |f.chain|
    && Sec(f.fs.g, f.chain, p / 512) == f.sect < |f.fs.view| && f.fs.g.database <= f.sect
    && f.fs.view[f.sect] == direct && f.buf.Length == 512 && f.buf[..] == buffered
  }

  /** What f_lseek leaves of the file's place on the disk. */
  lemma SeekKeeps(g: Geometry, n: nat, fat: seq<nat>, fat': seq<nat>, v: seq<Sector>, v': seq<Sector>, a: seq<nat>,
                  a': seq<nat>, p: nat, s: nat)
    requires Good(g, n) && g.csize > 0 && Cl(g, p / 512) < |a| && p % 512 == 0 && g.database <= s < |v|
    requires Untouched(g, [], v, v') && Grew(fat, fat', a, a')
    ensures Cl(g, p / 512) < |a'| && Sec(g, a', p / 512) == Sec(g, a, p / 512) && p < Cap(g, a') * 512
    ensures |v'| == |v| && v'[s] == v[s]
  {
    DataNotFat(g, n, s);
    CapIndex(g, a', p / 512);
  }

  method SeekThere(f: File, p: nat, ghost direct: seq<byte>, ghost buffered: seq<byte>)
    requires Poised(f, p, direct, buffered) && p < DWORD
    modifies f, f.buf, f.fs, f.fs.win
    ensures Poised(f, p, direct, buffered) && f.fptr == p && f.faith == old(f.faith)
  {
    hide File.Steady, Cursor, Cap, Sec, Cl, Untouched, Grew, Accurate, Free, Good, HasChain;
    f.SteadyFacts();
    ghost var v, fat, a := f.fs.view, f.fs.fat, f.chain;
    var res := f.Lseek(p);
    f.SteadyFacts();
    f.BufApart();
    NoOnes(f.fs.g, fat, f.fs.fat, v, f.fs.view, a, f.chain);
    SeekKeeps(f.fs.g, |f.fs.disk|, fat, f.fs.fat, v, f.fs.view, a, f.chain, p, f.sect);
  }

  /** A whole sector at once, then the same bytes in two parts: f_read takes the one from the disk, the other from the
      buffer. */
  method ReadTwice(f: File, p: nat, ghost direct: seq<byte>, ghost buffered: seq<byte>)
    returns (first: seq<byte>, second: seq<byte>)
    requires Poised(f, p, direct, buffered) && p < DWORD
    modifies f, f.buf, f.fs, f.fs.win
    ensures first == direct && second == buffered && Poised(f, p, direct, buffered)
  {
    hide File.Steady, Cursor, Cap, Sec, Cl, Untouched, Grew;
    SeekThere(f, p, direct, buffered);
    first := ReadSector(f, p, direct, buffered);
    SeekThere(f, p, direct, buffered);
    second := ReadParts(f, p, direct, buffered);
  }

  method ReadSector(f: File, p: nat, ghost direct: seq<byte>, ghost buffered: seq<byte>) returns (data: seq<byte>)
    requires Poised(f, p, direct, buffered) && f.fptr == p
    modifies f, f.buf, f.fs, f.fs.win
    ensures data == direct && Poised(f, p, direct, buffered)
  {
    hide File.Steady, Cursor, Sec, Cl, Untouched;
    f.BufApart();
    var res;
    res, data := f.Read(512);
  }

  method ReadParts(f: File, p: nat, ghost direct: seq<byte>, ghost buffered: seq<byte>) returns (data: seq<byte>)
    requires Poised(f, p, direct, buffered) && f.fptr == p
    modifies f, f.buf, f.fs, f.fs.win
    ensures data == buffered && Poised(f, p, direct, buffered)
  {
    hide File.Steady, Cursor, Sec, Cl, Untouched;
    f.BufApart();
    var res, a := f.Read(511);
    f.BufApart();
    LastByte(p);
    var last;
    res, last := f.Read(1);
    data := a + last;
  }

  lemma LastByte(p: nat)
    requires p % 512 == 0
    ensures (p + 511) % 512 == 511 && (p + 511) / 512 == p / 512
  {
  }

  // ----- every changed buffer can be told

  const FAR: nat := 0xFFFF_FE00  // the last sector boundary a file can reach

  /** The cluster of the buffered sector is free or the file's own, and all free clusters fit into a file. */
  ghost predicate Regainable(f: File, c: nat)
    reads f, f.fs
  {
    && InCluster(f.fs.g, c, f.sect) && c < |f.fs.fat| && (f.fs.fat[c] == 0 || c in f.chain)
    && (|f.chain| + |Free(f.fs.fat)|) * f.fs.g.csize * 512 < FAR
  }

  lemma CapBound(g: Geometry, chain: seq<nat>, n: nat)
    requires |chain| <= n
    ensures Cap(g, chain) * 512 <= n * g.csize * 512
  {
    MulMonotone(|chain|, n, g.csize);
  }

  /** A free cluster that is no longer free belongs to the file that grew. */
  lemma Regained(g: Geometry, fat: seq<nat>, fat': seq<nat>, a: seq<nat>, a': seq<nat>, c: nat, s: nat)
    requires Grew(fat, fat', a, a') && HasChain(g, fat', a') && Free(fat') == {} && InCluster(g, c, s) && c < |fat|
    requires fat[c] == 0 || c in a
    ensures Own(g, a', s)
  {
    assert c !in a' ==> c in Free(fat');
    var k :| 0 <= k < |a'| && a'[k] == c;
    assert InCluster(g, a'[k], s);
  }

  /** The file takes all free clusters, by a seek as far as a file can go. */
  method TakeAll(f: File, ghost c: nat)
    requires Usable(f) && f.sect != 0 && !f.dirty && Accurate(f.fs.freeClst, f.fs.fat) && 1 !in f.fs.fat
      && Regainable(f, c)
    modifies f, f.buf, f.fs, f.fs.win
    ensures f.Ready() && f.err == FrOk && f.canRead && f.canWrite && !f.dirty && 1 !in f.fs.fat
    ensures f.sect == old(f.sect) && f.buf[..] == old(f.buf[..]) && Own(f.fs.g, f.chain, f.sect)
    ensures f.fs.g.database <= f.sect < |f.fs.view| == |old(f.fs.view)| && f.fs.view[f.sect] == old(f.fs.view)[f.sect]
    ensures f.objsize >= Cap(f.fs.g, f.chain) * 512
  {
    hide File.Steady, Cursor, Cap, Untouched, Grew, Accurate, Free, Good, HasChain, Own;
    UsableNoError(f);
    f.SteadyFacts();
    BufferPlace(f);
    ghost var v, fat, a := f.fs.view, f.fs.fat, f.chain;
    var res := f.Lseek(FAR);
    f.SteadyFacts();
    NoOnes(f.fs.g, fat, f.fs.fat, v, f.fs.view, a, f.chain);
    GrownSize(f.fs.g, fat, f.fs.fat, a, f.chain);
    CapBound(f.fs.g, f.chain, |a| + |Free(fat)|);
    WholeCap(f.fs.g, f.chain);
    Regained(f.fs.g, fat, f.fs.fat, a, f.chain, c, f.sect);
    SectorKept(f.fs.g, |f.fs.disk|, v, f.fs.view, f.sect);
  }

  lemma WholeCap(g: Geometry, chain: seq<nat>)
    ensures Cap(g, chain) * 512 % 512 == 0
  {
  }

  lemma SectorKept(g: Geometry, n: nat, v: seq<Sector>, v': seq<Sector>, s: nat)
    requires Good(g, n) && Untouched(g, [], v, v') && g.database <= s < |v|
    ensures |v'| == |v| && v'[s] == v[s]
  {
    DataNotFat(g, n, s);
  }

  lemma BufferPlace(f: File)
    requires f.Steady()
    ensures f.sect < |f.fs.view| && (f.sect == 0 || f.fs.g.database <= f.sect) && f.buf.Length == 512
  {
  }

  /** A file whose clean buffer is no longer the same as its sector, while the cluster can come back: these calls on it
      alone read two different values for the same bytes. So nothing weaker than this comparison will do. */
  method Tear(f: File, ghost c: nat) returns (p: nat, first: seq<byte>, second: seq<byte>)
    requires Usable(f) && !Fresh(f) && Accurate(f.fs.freeClst, f.fs.fat) && 1 !in f.fs.fat && Regainable(f, c)
    modifies f, f.buf, f.fs, f.fs.win
    ensures old(f.sect) < |old(f.fs.view)| && first == old(f.fs.view)[old(f.sect)] && second == old(f.buf[..])
    ensures first != second && Poised(f, p, first, second)
  {
    hide File.Steady, Cursor, Cap, Accurate, Free, Good, HasChain, Own;
    UsableNoError(f);
    BufferPlace(f);
    ghost var direct, buffered := f.fs.view[f.sect], f.buf[..];
    TakeAll(f, c);
    f.BufApart();
    f.SteadyFacts();
    p := PositionOf(f);
    f.BufApart();
    f.SteadyFacts();
    first, second := ReadTwice(f, p, direct, buffered);
  }

  // ----- a run that gets there

  /** Two open files on one volume that has at most one cluster left; nobody counts on a buffer. */
  ghost predicate Pair(f: File, h: File)
    reads f, h, f.buf, h.buf, f.fs, h.fs, f.fs.win, h.fs.win
  {
    && f != h && f.fs == h.fs && f.buf != h.buf && Usable(f) && Usable(h) && h.chain == []
    && f.others == {} && h.others == {} && f.faith == Agreeing && h.faith == Agreeing
    && h.dirClst !in f.chain && Accurate(f.fs.freeClst, f.fs.fat) && 1 !in f.fs.fat
  }

  /** A call on f and the empty file beside it. */
  lemma PairKept(f: File, h: File, n: nat, fat: seq<nat>, view: seq<Sector>, win: nat, a: seq<nat>)
    requires f != h && f.fs == h.fs && f.buf != h.buf && h.chain == [] && h.others == {} && h.faith == Agreeing
    requires f.Valid() && |f.fs.disk| == n && h.buf != h.fs.win && h.canRead && h.canWrite && h.err == FrOk
    requires Fits(h, h.fs.g, n, fat, view, win) && Inner(h) && h.dirClst !in a
    requires Acted(f.fs.g, fat, f.fs.fat, view, f.fs.view, a, f.chain) && 1 !in fat
    ensures Usable(h) && 1 !in f.fs.fat && h.dirClst !in f.chain
  {
    hide File.Valid, Fits, Inner, Acted, HasChain, FatFs.Valid;
    ValidChain(f);
    NoOnes(f.fs.g, fat, f.fs.fat, view, f.fs.view, a, f.chain);
    StrangerValid(f, h, n, fat, view, win, a);
    UsableBy(h);
  }

  /** The file that grew took the one free cluster. */
  lemma OnlyOne(g: Geometry, fat: seq<nat>, fat': seq<nat>, a': seq<nat>, c: nat)
    requires Grew(fat, fat', [], a') && HasChain(g, fat', a') && Free(fat) == {c}
    ensures a' == [] ==> Free(fat') == {c}
    ensures a' != [] ==> a' == [c] && Free(fat') == {}
  {
    GrownSize(g, fat, fat', [], a');
    if a' != [] {
      assert a'[0] in a' && a'[0] in Free(fat);
      LinkOf(fat', a', 0);
      assert forall x :: x in Free(fat') ==> x in Free(fat);
    } else {
      assert forall x :: x in Free(fat') <==> x in Free(fat);
    }
  }

  /** The first write of an empty file takes the one free cluster. */
  method TakeOne(f: File, h: File, data: seq<byte>, ghost c: nat)
    requires Pair(f, h) && f.chain == [] && f.content == [] && f.fptr == 0 && Free(f.fs.fat) == {c} && 0 < |data| <= 512
    modifies f, f.buf, f.fs, f.fs.win
    ensures Pair(f, h) && f.chain == [c] && f.content == data && f.fptr == |data| && Free(f.fs.fat) == {}
  {
    hide File.Valid, Fits, Inner, FatFs.Valid, Accurate, Free, Cap, Splice, Untouched, Grew, HasChain;
    UsableNoError(f);
    UsableNoError(h);
    ValidParts(h);
    ghost var n, fat, v, w := |f.fs.disk|, f.fs.fat, f.fs.view, f.fs.winsect;
    var res, bw := f.Write(data);
    ValidChain(f);
    PairKept(f, h, n, fat, v, w, []);
    OnlyOne(f.fs.g, fat, f.fs.fat, f.chain, c);
    ShortOfOne(f, |data|, bw);
    FirstBytes(data, bw);
    HasCluster(f);
    UsableBy(f);
  }

  lemma ShortOfOne(f: File, n: nat, bw: nat)
    requires f.Valid() && n <= 512
    ensures bw < n && bw == Cap(f.fs.g, f.chain) * 512 ==> f.chain == []
  {
    if f.chain != [] { MulMonotone(1, |f.chain|, f.fs.g.csize); }
  }

  lemma FirstBytes(data: seq<byte>, bw: nat)
    ensures bw == |data| ==> Splice([], 0, data[..bw]) == data
  {
  }

  lemma HasCluster(f: File)
    requires f.Valid()
    ensures f.content != [] ==> f.chain != []
  {
  }

  /** The file is truncated to nothing; its buffer stays, and what it held is on the disk. */
  method GiveBack(f: File, h: File, ghost c: nat)
    requires Pair(f, h) && f.chain == [c] && f.content != [] && Free(f.fs.fat) == {}
    modifies f, f.buf, f.fs, f.fs.win
    ensures Pair(f, h) && f.chain == [] && f.content == [] && f.fptr == 0 && Free(f.fs.fat) == {c}
    ensures !f.dirty && f.sect == old(f.sect) && f.buf[..] == old(f.buf[..])
    ensures WrittenBack(f.fs.g, old(f.fs.view), f.fs.view, f.sect, f.buf[..], old(f.dirty))
  {
    hide File.Valid, Fits, Inner, FatFs.Valid, Accurate, Free, Cap, Untouched, Grew, HasChain, Pruned, WrittenBack,
      Seen;
    ghost var v0 := f.fs.view;
    BackToStart(f, h, c);
    ghost var n, fat, v, w := |f.fs.disk|, f.fs.fat, f.fs.view, f.fs.winsect;
    UsableNoError(f);
    UsableNoError(h);
    ValidParts(h);
    ValidParts(f);
    ValidChain(f);
    UsableCursor(f);
    OneCluster(f.fs.g, fat, c);
    var res := f.Truncate();
    ValidParts(f);
    PairKept(f, h, n, fat, v, w, [c]);
    UsableBy(f);
    AllBack(fat, f.fs.fat, c);
    WrittenTrans(f.fs.g, v0, v, f.fs.view, f.sect, f.buf[..], old(f.dirty));
  }

  lemma WrittenTrans(g: Geometry, v0: seq<Sector>, v1: seq<Sector>, v2: seq<Sector>, sect: nat, buf: seq<byte>,
                     dirty: bool)
    requires Untouched(g, [], v0, v1) && WrittenBack(g, v1, v2, sect, buf, dirty)
    ensures WrittenBack(g, v0, v2, sect, buf, dirty)
  {
  }

  method BackToStart(f: File, h: File, ghost c: nat)
    requires Pair(f, h) && f.chain == [c] && f.content != [] && Free(f.fs.fat) == {}
    modifies f, f.buf, f.fs, f.fs.win
    ensures Pair(f, h) && f.chain == [c] && f.content == old(f.content) && f.fptr == 0 && Free(f.fs.fat) == {}
    ensures f.dirty == old(f.dirty) && f.sect == old(f.sect) && f.buf[..] == old(f.buf[..])
    ensures Untouched(f.fs.g, [], old(f.fs.view), f.fs.view)
  {
    hide File.Valid, Fits, Inner, FatFs.Valid, Accurate, Free, Cap, Untouched, Grew, HasChain;
    UsableNoError(f);
    UsableNoError(h);
    ValidParts(h);
    ghost var n, fat, v, w := |f.fs.disk|, f.fs.fat, f.fs.view, f.fs.winsect;
    UsableCursor(f);
    var res := f.Lseek(0);
    ValidChain(f);
    PairKept(f, h, n, fat, v, w, [c]);
    StillOne(f.fs.g, fat, f.fs.fat, f.chain, c);
    UsableBy(f);
    UsableCursor(f);
  }

  lemma OneCluster(g: Geometry, fat: seq<nat>, c: nat)
    requires HasChain(g, fat, [c])
    ensures 2 <= c < |fat|
  {
    LinkOf(fat, [c], 0);
  }

  lemma StillOne(g: Geometry, fat: seq<nat>, fat': seq<nat>, a': seq<nat>, c: nat)
    requires Grew(fat, fat', [c], a') && HasChain(g, fat', a') && Free(fat) == {}
    ensures a' == [c] && Free(fat') == {}
  {
    GrownSize(g, fat, fat', [c], a');
    assert a'[0] == c;
    LinkOf(fat', a', 0);
    forall x | x in Free(fat')
      ensures x in Free(fat)
    {
    }
  }

  lemma AllBack(fat: seq<nat>, fat': seq<nat>, c: nat)
    requires Pruned(fat, fat', [c], 0) && Free(fat) == {} && 2 <= c
    ensures Free(fat') == {c}
  {
    assert [c][0..] == [c] && c in [c][0..];
    forall x | x in Free(fat')
      ensures x == c
    {
      assert x != c ==> x in Free(fat);
    }
  }

  /** A file of one sector on a disk. */
  lemma OneSectorHolds(g: Geometry, n: nat, fat: seq<nat>, d: seq<Sector>, c: nat, content: seq<byte>)
    requires Good(g, n) && HasChain(g, fat, [c]) && Holds(g, d, [c], content) && 0 < |content| <= 512 && |d| == n
    ensures var s := Clst2Sect(g, c); 0 < g.database <= s < n && InCluster(g, c, s) && d[s][..|content|] == content
    ensures g.csize > 0 && Cl(g, 0) == 0 && Sec(g, [c], 0) == Clst2Sect(g, c)
  {
    Quotient(0, g.csize, 0);
    SecPlace(g, n, fat, [c], 0);
    var s := Clst2Sect(g, c);
    forall p | 0 <= p < |content|
      ensures d[s][p] == content[p]
    {
      assert p / 512 == 0 && p % 512 == p;
      assert content[p] == ByteAt(g, d, [c], p);
    }
  }

  /** Its sector, seen by direct transfers and through the buffer. */
  lemma OneSectorFile(f: File, c: nat)
    requires f.Valid() && f.chain == [c] && 0 < |f.content| <= 512
    ensures var s := Clst2Sect(f.fs.g, c);
            && f.sect < |f.fs.view| && f.buf.Length == 512 && f.fs.g.database <= s < |f.fs.view|
            && InCluster(f.fs.g, c, s)
            && Seen(f.fs.view, f.sect, f.buf[..], f.dirty)[s][..|f.content|] == f.content
            && (f.err == FrOk && f.fptr == |f.content| < 512 ==> f.sect == s && f.buf[..|f.content|] == f.content)
  {
    hide File.Steady, Good, HasChain, Holds, Clst2Sect, InCluster, Cap, Cl, Sec;
    f.SteadyFacts();
    f.SteadySeen();
    f.SteadyCached();
    var g, n := f.fs.g, |f.fs.disk|;
    var d, e := Seen(f.fs.view, f.sect, f.buf[..], f.dirty), Cached(f.fs.view, f.sect, f.buf[..]);
    OneSectorHolds(g, n, f.fs.fat, d, c, f.content);
    OneSectorHolds(g, n, f.fs.fat, e, c, f.content);
  }

  /** A file writes into the one free cluster, seeks back and is truncated: what it wrote is on the disk, and in its
      buffer if it was less than a sector. */
  method Cycle(f: File, h: File, data: seq<byte>, ghost c: nat)
    requires Pair(f, h) && f.chain == [] && f.content == [] && f.fptr == 0 && Free(f.fs.fat) == {c} && 0 < |data| <= 512
    modifies f, f.buf, f.fs, f.fs.win
    ensures Pair(f, h) && f.chain == [] && f.content == [] && f.fptr == 0 && Free(f.fs.fat) == {c} && !f.dirty
    ensures Clst2Sect(f.fs.g, c) < |f.fs.view| && f.fs.view[Clst2Sect(f.fs.g, c)][..|data|] == data
    ensures |data| < 512 ==> f.sect == Clst2Sect(f.fs.g, c) && f.buf.Length == 512 && f.buf[..|data|] == data
  {
    hide File.Valid, FatFs.Valid, Accurate, Free, Clst2Sect, Seen, WrittenBack, InCluster;
    TakeOne(f, h, data, c);
    UsableNoError(f);
    OneSectorFile(f, c);
    ghost var v, wasDirty := f.fs.view, f.dirty;
    GiveBack(f, h, c);
    UsableNoError(f);
    BackOnDisk(f, v, Clst2Sect(f.fs.g, c), wasDirty);
  }

  lemma BackOnDisk(f: File, v: seq<Sector>, s: nat, dirty: bool)
    requires f.Valid() && WrittenBack(f.fs.g, v, f.fs.view, f.sect, f.buf[..], dirty) && f.fs.g.database <= s < |v|
    ensures s < |f.fs.view| && f.fs.view[s] == Seen(v, f.sect, f.buf[..], dirty)[s]
  {
    hide File.Steady, Seen, Good;
    f.SteadyFacts();
    DataNotFat(f.fs.g, |f.fs.disk|, s);
  }

  /** The failing run. On a volume with one free cluster, a file writes a byte, seeks back and is truncated; another one
      writes a sector of other bytes into the same cluster and gives it back too. The first file seeks as far as it can,
      gets the cluster back, and reads it twice: as a whole it is what the other file wrote, in parts it begins with the
      byte that was truncated. */
  method StaleRun(f: File, h: File, ghost c: nat) returns (first: seq<byte>, second: seq<byte>)
    requires f != h && f.fs == h.fs && f.buf != h.buf && Usable(f) && Usable(h) && f.others == {} && h.others == {}
    requires f.chain == [] && f.content == [] && f.fptr == 0 && h.chain == [] && h.content == [] && h.fptr == 0
    requires Accurate(f.fs.freeClst, f.fs.fat) && 1 !in f.fs.fat && Free(f.fs.fat) == {c}
    modifies f, h, f.buf, h.buf, f.fs, f.fs.win
    ensures first == seq(512, _ => 0x62) && |second| == 512 && second[0] == 0x61
  {
    hide File.Valid, FatFs.Valid, Accurate, Free, Clst2Sect, Fresh, Poised;
    StartPair(f, h);
    Cycle(f, h, [0x61], c);
    BufApartOf(f);
    ghost var kept := f.buf[..];
    assert kept[..1] == [0x61];
    var others := seq(512, _ => 0x62);
    Cycle(h, f, others, c);
    assert f.buf[..] == kept;
    NowStale(f, c, others);
    var p;
    p, first, second := Tear(f, c);
  }

  lemma BufApartOf(f: File)
    requires Usable(f)
    ensures f.buf != f.fs.win
  {
    f.BufApart();
  }

  ghost method StartPair(f: File, h: File)
    requires f != h && f.fs == h.fs && f.buf != h.buf && Usable(f) && Usable(h) && f.others == {} && h.others == {}
    requires f.chain == [] && h.chain == [] && Accurate(f.fs.freeClst, f.fs.fat) && 1 !in f.fs.fat
    modifies f`faith, h`faith
    ensures Pair(f, h)
  {
    hide File.Valid, Accurate;
    UsableNoError(f);
    UsableNoError(h);
    Doubt(f);
    Doubt(h);
    UsableBy(f);
    UsableBy(h);
  }

  lemma NowStale(f: File, c: nat, others: seq<byte>)
    requires f.Valid() && f.chain == [] && !f.dirty && f.sect == Clst2Sect(f.fs.g, c) && Free(f.fs.fat) == {c}
    requires f.buf.Length == 512 && f.sect < |f.fs.view| && |others| == 512 && f.fs.view[f.sect][..512] == others
    requires f.buf[0] != others[0]
    ensures Regainable(f, c) && f.fs.view[f.sect] == others && !Fresh(f)
  {
    hide File.Steady, Cap, HasChain;
    f.SteadyFacts();
    assert c in Free(f.fs.fat);
    ClusterInData(f.fs.g, |f.fs.disk|, c);
    assert f.fs.view[f.sect] == f.fs.view[f.sect][..512];
    assert f.fs.view[f.sect][0] == others[0];
  }
}
