/** The directory operations: dir_find, dir_alloc, dir_register, dir_remove and dir_read (ff.c:2363-3343). */
module DirOps {
  import opened Bytes
  import opened Geometry
  import opened Volume
  import opened Chain
  import opened ChainRuns
  import opened FileRep
  import opened FileState
  import opened LongNames
  import opened DirRep
  import opened DirScan
  import opened Directory
  import opened DirEdit

  // ----- one entry

  /** Where the cursor is on the disk. */
  lemma CursorPlace(d: Dir, i: nat)
    requires d.Valid() && d.At(i)
    ensures d.fs.Valid() && d.sect < |d.fs.disk| == |d.fs.view| && !InFat1(d.fs.g, d.sect) && !InFat2(d.fs.g, d.sect)
      && Mine(d.fs.g, d.chain, d.sect)
    ensures d.dptr % 512 == i % 16 * 32 && d.fs.win.Length == 512
    ensures i < |d.Listing()| && d.Listing()[i] == d.fs.view[d.sect][d.dptr % 512..d.dptr % 512 + 32]
  {
    hide Good, IsWalk, IsTable, FatFs.Valid, Dir.Valid, Count, SecOf, ClusterOf, Mine;
    d.ValidTable();
    EntrySector(d.fs.g, d.chain, i);
    TablePlace(d.fs.g, |d.fs.disk|, d.fs.fat, d.chain, i / 16);
    SlotOf(i);
  }

  lemma StillValid(d: Dir, n: nat)
    requires d.fs.Valid() && IsWalk(d.fs.g, n, d.fs.fat, d.chain) && |d.fs.disk| == n
    requires StartCluster(d.fs.g, d.sclust) == (if d.chain == [] then 0 else d.chain[0]) && |d.fn| == 11
      && |d.lfnbuf| == 256
    ensures d.Valid()
  {
  }

  /** The entry under the cursor, brought into the window. */
  method Peek(d: Dir, ghost i: nat) returns (e: DirEntry)
    requires d.Valid() && d.At(i)
    modifies d.fs`disk, d.fs`winsect, d.fs`wflag, d.fs.win
    ensures d.Valid() && |d.fs.disk| == |old(d.fs.disk)| && d.At(i) && d.fs.winsect == d.sect
    ensures e == d.Listing()[i]
  {
    hide Good, IsWalk, IsTable, FatFs.Valid, Dir.Valid, Dir.At, Entries, StartCluster, Mine;
    d.ValidTable();
    CursorPlace(d, i);
    d.fs.MoveWindow(d.sect);
    StillValid(d, |d.fs.disk|);
    e := d.fs.win[..][d.dptr % 512..d.dptr % 512 + 32];
  }

  /** New contents for the entry under the cursor, whose sector is in the window. */
  method StoreEntry(d: Dir, ghost i: nat, e: DirEntry)
    requires d.Valid() && d.Intact() && d.At(i) && d.fs.winsect == d.sect
    modifies d.fs`wflag, d.fs`view, d.fs.win
    ensures d.Valid() && d.At(i) && d.Listing() == old(d.Listing())[i := e]
    ensures Kept(d.fs.g, d.fs.fat, d.fs.fat, d.chain, d.chain, old(d.fs.view), d.fs.view)
  {
    hide Good, IsWalk, IsTable, FatFs.Valid, Dir.Valid, Dir.At, Entries, StartCluster, SetSlot, Mine, Kept;
    d.ValidTable();
    CursorPlace(d, i);
    ShownSector(d.fs);
    StoredListing(d, i, e);
    ghost var v := d.fs.view;
    d.fs.StoreWindow(SetSlot(d.fs.win[..], d.dptr % 512 / 32, e));
    StillValid(d, |d.fs.disk|);
    KeptStore(d.fs.g, d.fs.fat, d.chain, v, d.sect, d.fs.view);
  }

  lemma SlotOf(i: nat)
    ensures 32 * i % 512 / 32 == i % 16 && 32 * i % 512 == i % 16 * 32
  {
  }

  /** The listing once the sector under the cursor has the new entry. */
  lemma StoredListing(d: Dir, i: nat, e: DirEntry)
    requires d.Valid() && d.Intact() && d.At(i) && d.sect < |d.fs.view|
    ensures d.dptr % 512 / 32 < 16 && i < |d.Listing()|
    ensures Entries(d.fs.g, d.fs.view[d.sect := SetSlot(d.fs.view[d.sect], d.dptr % 512 / 32, e)], d.chain) ==
              d.Listing()[i := e]
  {
    hide Good, IsWalk, IsTable, FatFs.Valid, Dir.Valid, Count, SecOf, ClusterOf, SetSlot, Entries;
    d.ValidTable();
    SlotOf(i);
    EntriesStore(d.fs.g, |d.fs.disk|, d.fs.fat, d.chain, d.fs.view, i, e);
  }

  lemma KeptStore(g: Geometry, f: seq<nat>, a: seq<nat>, v: seq<Sector>, s: nat, w: seq<Sector>)
    requires Mine(g, a, s) && |w| == |v| && forall t :: 0 <= t < |v| && t != s ==> w[t] == v[t]
    ensures Kept(g, f, f, a, a, v, w)
  {
  }

  lemma ShownSector(fs: FatFs)
    requires fs.Valid()
    ensures fs.winsect < |fs.disk| ==> fs.win[..] == fs.view[fs.winsect]
  {
  }

  /** A dynamic table is never empty, and an intact one is neither empty nor broken. */
  lemma NotEmpty(d: Dir)
    requires d.Valid()
    ensures |d.Listing()| == Count(d.fs.g, d.chain) && (d.chain != [] ==> |d.Listing()| > 0)
    ensures d.Intact() ==> Count(d.fs.g, d.chain) > 0 && !Broken(d.fs.g, d.fs.fat, d.chain)
  {
    d.ValidTable();
    if d.chain != [] {
      MulMonotone(1, |d.chain|, d.fs.g.csize);
    }
  }

  lemma AtFacts(d: Dir, i: nat)
    requires d.At(i)
    ensures i < |d.Listing()| == Count(d.fs.g, d.chain) && d.dptr == 32 * i
  {
  }

  /** dir_next without stretching: the next entry, or the end. */
  method NextEntry(d: Dir, ghost i: nat) returns (res: FResult)
    requires d.Valid() && d.At(i)
    modifies d`dptr, d`clust, d`sect, d`chain
    modifies d.fs`disk, d.fs`winsect, d.fs`wflag, d.fs`view, d.fs`fat, d.fs`lastClst, d.fs`freeClst, d.fs`fsiFlag,
             d.fs.win
    ensures d.Valid() && |d.fs.disk| == |old(d.fs.disk)|
    ensures d.fs.view == old(d.fs.view) && d.fs.fat == old(d.fs.fat) && d.chain == old(d.chain)
    ensures d.fs.freeClst == old(d.fs.freeClst) && d.fs.lastClst == old(d.fs.lastClst)
      && d.fs.fsiFlag == old(d.fs.fsiFlag)
    ensures i + 1 < |d.Listing()| ==> res == FrOk && d.At(i + 1) && d.dptr == 32 * (i + 1)
    ensures i + 1 == |d.Listing()| ==> res == if Broken(d.fs.g, d.fs.fat, d.chain) then FrIntErr else FrNoFile
    ensures res == FrNoFile ==> d.sect == 0
    ensures d.Intact() ==> res != FrIntErr
  {
    NotEmpty(d);
    hide FatFs.Valid, Dir.Valid, Good, IsWalk, IsTable, Broken, Count, Dir.At, Entries;
    AtFacts(d, i);
    res := d.Next(false, i);
    if res == FrOk { AtFacts(d, i + 1); }
  }

  // ----- dir_find

  /** What dir_find looks for. */
  ghost function KeyOf(d: Dir, up: nat -> nat): Key
    reads d`lfnbuf, d`fn, d`cf, d`noLfn
  {
    Key(up, d.lfnbuf, d.fn, d.cf.loss, d.noLfn)
  }

  function Offset(b: Option<nat>): Option<nat> {
    match b
    case None => None
    case Some(i) => Some(32 * i)
  }

  /** Order number 0 never matches a part of a name. */
  lemma NoPartZero(up: nat -> nat, buf: seq<nat>, e: DirEntry)
    requires |buf| == 256 && e[0] % 0x40 == 0
    ensures !Cmp(up, buf, e)
  {
  }

  /** The body of dir_find's loop for an entry in use (ff.c:3067-3121). */
  method ScanEntry(d: Dir, up: nat -> nat, ghost i: nat, e: DirEntry, ord: byte, sum: byte, ghost b: Option<nat>)
    returns (stop: bool, ord': byte, sum': byte)
    requires d.Valid() && d.dptr == 32 * i && d.blk == Offset(b) && !IsEnd(e)
    modifies d`blk
    ensures d.Valid()
    ensures stop <==> Stops(KeyOf(d, up), Scan(ord, sum, b), e)
    ensures stop ==> d.blk == old(d.blk)
    ensures !stop ==> var st := Step(KeyOf(d, up), Scan(ord, sum, b), e, i);
                      ord' == st.ord && sum' == st.sum && d.blk == Offset(st.blk)
  {
    hide Cmp, SumOf, FatFs.Valid, IsWalk, StartCluster;
    ord', sum', stop := ord, sum, false;
    var attr := e[11] as int % 0x40;
    if e[0] == 0xE5 || (attr / 8 % 2 == 1 && attr != 0x0F) {
      ord' := 0xFF;
      d.blk := None;
    } else if attr == 0x0F {
      if !d.noLfn {
        var et := e[0];
        if HasLlef(et) {
          et := et - LLEF;
          ord' := et;
          d.blk := Some(d.dptr);
          sum' := e[13];
        }
        var same := et == ord' && sum' == e[13];
        if same {
          same := CmpLfn(up, d.lfnbuf, e);
          if ord' == 0 { NoPartZero(up, d.lfnbuf, e); }
        }
        ord' := if same then ord' - 1 else 0xFF;
      }
    } else {
      var cs := SumSfn(e);
      if ord == 0 && sum == cs {
        stop := true;
      } else if !d.cf.loss && e[..11] == d.fn {
        stop := true;
      } else {
        ord' := 0xFF;
        d.blk := None;
      }
    }
  }

  lemma FindStart(key: Key, s: seq<DirEntry>)
    requires |key.buf| == 256
    ensures FindFrom(key, s, 0, Scan(0xFF, 0xFF, None)) == Find(key, s)
  {
  }

  /** One round of the search. */
  lemma FindRound(key: Key, s: seq<DirEntry>, i: nat, st: Scan)
    requires |key.buf| == 256 && i < |s|
    ensures FindFrom(key, s, i, st) == if IsEnd(s[i]) then None
                                       else if Stops(key, st, s[i]) then Some((i, st.blk))
                                       else FindFrom(key, s, i + 1, Step(key, st, s[i], i))
    ensures i + 1 == |s| ==> FindFrom(key, s, i + 1, Step(key, st, s[i], i)) == None
  {
  }

  /** The cursor goes to the first entry and no LFN sequence is pending (ff.c:3026-3059). */
  method Rewind(d: Dir) returns (res: FResult)
    requires d.Valid() || d.Rootless()
    modifies d`dptr, d`clust, d`sect, d`blk, d.fs`disk, d.fs`winsect, d.fs`wflag, d.fs.win
    ensures |d.fs.disk| == |old(d.fs.disk)| && (old(d.Valid()) ==> d.Valid()) && (old(d.Rootless()) ==> d.Rootless())
    ensures res == if d.Valid() && |d.Listing()| > 0 then FrOk else FrIntErr
    ensures res == FrOk ==> d.At(0) && d.blk == None && d.dptr == 0
  {
    hide FatFs.Valid, Good, IsWalk, Count;
    res := d.Sdi(0);
    if res != FrOk {
      return;
    }
    d.blk := None;
  }

  /** No entry ends the table early. */
  ghost predicate NoEnd(l: seq<DirEntry>, n: nat) {
    forall i :: 0 <= i < n && i < |l| ==> !IsEnd(l[i])
  }

  /** What dir_find answers: where the automaton stops; if it does not stop, absence, unless the walk over all entries
      runs into a broken link; an error when there is no table. */
  ghost predicate Answers(d: Dir, key: Key, res: FResult)
    requires |key.buf| == 256
    reads d`chain, d`dptr, d`clust, d`sect, d`blk, d.fs`view, d.fs`fat
  {
    match Find(key, d.Listing())
    case None =>
      res == if Broken(d.fs.g, d.fs.fat, d.chain) && NoEnd(d.Listing(), |d.Listing()|) then FrIntErr else FrNoFile
    case Some((q, b)) => res == FrOk && d.At(q) && d.blk == Offset(b)
  }

  /** dir_find on any links: it ends, stops exactly where the specification says, and leaves the directory as it is. */
  method DirFind(d: Dir, up: nat -> nat) returns (res: FResult)
    requires d.Valid() || d.Rootless()
    modifies d`dptr, d`clust, d`sect, d`blk, d`chain
    modifies d.fs`disk, d.fs`winsect, d.fs`wflag, d.fs`view, d.fs`fat, d.fs`lastClst, d.fs`freeClst, d.fs`fsiFlag,
             d.fs.win
    ensures |d.fs.disk| == |old(d.fs.disk)| && (old(d.Valid()) ==> d.Valid()) && (old(d.Rootless()) ==> d.Rootless())
    ensures d.fs.view == old(d.fs.view) && d.fs.fat == old(d.fs.fat) && d.chain == old(d.chain)
    ensures d.fs.freeClst == old(d.fs.freeClst) && d.fs.lastClst == old(d.fs.lastClst)
      && d.fs.fsiFlag == old(d.fs.fsiFlag)
    ensures |d.lfnbuf| == 256
      && if d.Valid() && |d.Listing()| > 0 then Answers(d, KeyOf(d, up), res) else res == FrIntErr
    ensures d.Valid() && d.Intact() ==> match Find(KeyOf(d, up), d.Listing())
                                        case None => res == FrNoFile
                                        case Some((q, b)) => res == FrOk && d.At(q) && d.blk == Offset(b)
  {
    hide FatFs.Valid, Dir.Valid, Dir.Rootless, Good, IsWalk, IsTable, Count, Broken, Dir.At, Find, Entries, Answers;
    BufferSize(d);
    if d.Valid() { d.HasRoot(); }
    res := Rewind(d);
    if d.Valid() {
      NotEmpty(d);
      d.HasRoot();
    }
    if res != FrOk {
      return;
    }
    res := FindFromTop(d, up);
    NotEmpty(d);
    if d.Intact() { AnswersIntact(d, KeyOf(d, up), res); }
  }

  lemma BufferSize(d: Dir)
    requires d.Valid() || d.Rootless()
    ensures |d.lfnbuf| == 256 && |d.fn| == 11
  {
  }

  lemma AnswersIntact(d: Dir, key: Key, res: FResult)
    requires |key.buf| == 256 && Answers(d, key, res) && !Broken(d.fs.g, d.fs.fat, d.chain)
    ensures match Find(key, d.Listing())
            case None => res == FrNoFile
            case Some((q, b)) => res == FrOk && d.At(q) && d.blk == Offset(b)
  {
  }

  lemma NoEndStart(l: seq<DirEntry>)
    ensures NoEnd(l, 0)
  {
  }

  lemma NoEndNext(l: seq<DirEntry>, i: nat)
    requires i < |l| && NoEnd(l, i)
    ensures NoEnd(l, i + 1) <==> l[i][0] != 0
    ensures l[i][0] == 0 ==> !NoEnd(l, |l|)
  {
  }

  /** The loop of dir_find, from the first entry (ff.c:3060-3125). */
  method FindFromTop(d: Dir, up: nat -> nat) returns (res: FResult)
    requires d.Valid() && d.At(0) && d.blk == None
    modifies d`dptr, d`clust, d`sect, d`blk, d`chain
    modifies d.fs`disk, d.fs`winsect, d.fs`wflag, d.fs`view, d.fs`fat, d.fs`lastClst, d.fs`freeClst, d.fs`fsiFlag,
             d.fs.win
    ensures d.Valid() && |d.fs.disk| == |old(d.fs.disk)|
    ensures d.fs.view == old(d.fs.view) && d.fs.fat == old(d.fs.fat) && d.chain == old(d.chain)
    ensures d.fs.freeClst == old(d.fs.freeClst) && d.fs.lastClst == old(d.fs.lastClst)
      && d.fs.fsiFlag == old(d.fs.fsiFlag)
    ensures |d.lfnbuf| == 256 && Answers(d, KeyOf(d, up), res)
  {
    hide FatFs.Valid, Dir.Valid, Good, IsWalk, IsTable, Count, Broken, Dir.At, Stops, Step, FindFrom, Find, Entries,
      NoEnd;
    d.ValidTable();
    AtFacts(d, 0);
    NoEndStart(d.Listing());
    ghost var key, listing := KeyOf(d, up), d.Listing();
    ghost var i := 0;
    ghost var b: Option<nat> := None;
    var ord, sum := 0xFF, 0xFF;
    FindStart(key, listing);
    while true
      invariant d.Valid() && |d.fs.disk| == |old(d.fs.disk)| && d.At(i) && i < |listing| && d.dptr == 32 * i
        && NoEnd(listing, i)
      invariant d.fs.view == old(d.fs.view) && d.fs.fat == old(d.fs.fat) && d.chain == old(d.chain)
        && d.blk == Offset(b)
      invariant d.fs.freeClst == old(d.fs.freeClst) && d.fs.lastClst == old(d.fs.lastClst)
        && d.fs.fsiFlag == old(d.fs.fsiFlag)
      invariant FindFrom(key, listing, i, Scan(ord, sum, b)) == Find(key, listing)
      decreases |listing| - i
    {
      var e := Peek(d, i);
      FindRound(key, listing, i, Scan(ord, sum, b));
      NoEndNext(listing, i);
      if e[0] == 0 {
        return FrNoFile;
      }
      ghost var st := Scan(ord, sum, b);
      var stop;
      stop, ord, sum := ScanEntry(d, up, i, e, ord, sum, b);
      if stop {
        return FrOk;
      }
      b := Step(key, st, e, i).blk;
      res := NextEntry(d, i);
      if res != FrOk {
        return;
      }
      i := i + 1;
    }
  }

  // ----- dir_alloc

  /** Some entry of the n entries from s on is in use. */
  ghost predicate HasUsed(l: seq<DirEntry>, s: nat, n: nat) {
    exists j :: s <= j < s + n && j < |l| && !IsFree(l[j])
  }

  /** The last n entries before i are free, and no run of m entries starts before them. */
  ghost predicate Counting(l: seq<DirEntry>, i: nat, n: nat, m: nat) {
    && n <= i <= |l| && n < m
    && (forall j :: i - n <= j < i ==> IsFree(l[j])) && (i > n ==> !IsFree(l[i - n - 1]))
    && forall s :: 0 <= s < i - n ==> HasUsed(l, s, m)
  }

  lemma CountFree(l: seq<DirEntry>, i: nat, n: nat, m: nat)
    requires Counting(l, i, n, m) && i < |l| && IsFree(l[i])
    ensures n <= i
    ensures if n + 1 == m then IsGap(l, i + 1 - m, m) else Counting(l, i + 1, n + 1, m)
  {
    if n + 1 == m {
      forall s | 0 <= s < i + 1 - m
        ensures !AllFree(l, s, m)
      {
        assert HasUsed(l, s, m);
      }
    }
  }

  lemma CountUsed(l: seq<DirEntry>, i: nat, n: nat, m: nat)
    requires Counting(l, i, n, m) && i < |l| && !IsFree(l[i])
    ensures Counting(l, i + 1, 0, m)
  {
  }

  lemma CountPadded(l: seq<DirEntry>, i: nat, n: nat, m: nat, room: nat)
    requires Counting(l, i, n, m)
    ensures Counting(Padded(l, room), i, n, m)
  {
    var k := Padded(l, room);
    forall s | 0 <= s < i - n
      ensures HasUsed(k, s, m)
    {
      assert HasUsed(l, s, m);
      var j :| s <= j < s + m && j < |l| && !IsFree(l[j]);
      assert k[j] == l[j];
    }
  }

  /** At the end of the table no run was found. */
  lemma CountEnd(l: seq<DirEntry>, n: nat, m: nat)
    requires Counting(l, |l|, n, m)
    ensures forall s: nat :: !AllFree(l, s, m)
  {
    forall s: nat
      ensures !AllFree(l, s, m)
    {
      if s < |l| - n { assert HasUsed(l, s, m); }
    }
  }

  lemma PadTwice(l: seq<DirEntry>, a: nat, b: nat)
    ensures Padded(Padded(l, a), b) == Padded(l, a + b) && Padded(l, 0) == l
    ensures |Padded(l, a)| == |l| + a && |Padded(l, a + b)| == |l| + a + b
  {
  }

  /** One entry of the search for a block: a free one is counted, another one restarts the count (ff.c:2378-2396). */
  method CountEntry(d: Dir, ghost i: nat, n: nat, ghost m: nat) returns (n': nat)
    requires d.Valid() && d.At(i) && Counting(d.Listing(), i, n, m)
    modifies d.fs`disk, d.fs`winsect, d.fs`wflag, d.fs.win
    ensures d.Valid() && |d.fs.disk| == |old(d.fs.disk)| && d.At(i)
    ensures if n' == m then m <= i + 1 && IsGap(d.Listing(), i + 1 - m, m) else Counting(d.Listing(), i + 1, n', m)
  {
    hide FatFs.Valid, Dir.Valid, Dir.At, Entries, IsGap;
    AtFacts(d, i);
    var e := Peek(d, i);
    if e[0] == 0xE5 || e[0] == 0 {
      CountFree(d.Listing(), i, n, m);
      n' := n + 1;
    } else {
      CountUsed(d.Listing(), i, n, m);
      n' := 0;
    }
  }

  // ----- how far a table can grow

  /** The number of clusters a table can still get: all free ones, as far as they lie below MAX_DIR. */
  ghost function Growth(g: Geometry, fat: seq<nat>, chain: seq<nat>): nat
    requires g.csize > 0
  {
    if chain == [] || Cap(g, chain) >= MAX_SECTORS then 0
    else Least(|Free(fat)|, ClustersIn(g, MAX_SECTORS - Cap(g, chain)))
  }

  function Least(a: nat, b: nat): nat { if a < b then a else b }

  function ClustersIn(g: Geometry, sectors: nat): nat
    requires g.csize > 0
  {
    DivNat(sectors, g.csize);
    sectors / g.csize
  }

  /** The entries that makes. */
  ghost function MaxRoom(g: Geometry, fat: seq<nat>, chain: seq<nat>): nat
    requires g.csize > 0
  {
    16 * (g.csize * Growth(g, fat, chain))
  }

  ghost predicate HasGap(l: seq<DirEntry>, n: nat) {
    exists s: nat :: AllFree(l, s, n)
  }

  /** A table reaches MAX_DIR with a whole number of clusters. */
  lemma WholeLimit(g: Geometry, n: nat, k: nat)
    requires Good(g, n) && g.csize * k < MAX_SECTORS
    ensures var left := ClustersIn(g, MAX_SECTORS - g.csize * k);
            left > 0 && g.csize * (k + left) == MAX_SECTORS
  {
    var c := g.csize;
    var lim := 4096 / c;
    assert c * lim == 4096 by {
      if c == 1 {} else if c == 2 {} else if c == 4 {} else if c == 8 {} else if c == 16 {}
      else if c == 32 {} else if c == 64 {} else {}
    }
    if k >= lim { MulMonotone(lim, k, c); }
    assert c * (lim - k) == c * lim - c * k;
    QuotientOf(c, lim - k);
  }

  lemma QuotientOf(c: nat, q: nat)
    requires c > 0
    ensures c * q / c == q
  {
    var r := c * q / c;
    assert c * q == c * r + c * q % c;
    MulOrder(c, r, q);
    Distribute(c, q, 1);
    MulOrder(c, q + 1, r);
    Distribute(c, r, 1);
    MulOrder(c, r + 1, q);
  }

  /** The same in numbers: a table of k clusters of c sectors got m of the free ones. */
  lemma RoomSum(c: nat, k: nat, m: nat, left: nat, free: nat, room: nat)
    requires c > 0 && c * (k + left) == MAX_SECTORS && m <= free
    requires room == 16 * Least(c * (k + m), MAX_SECTORS) - 16 * (c * k)
    ensures room <= 16 * (c * Least(free, left))
    ensures m == free || c * (k + m) >= MAX_SECTORS ==> room == 16 * (c * Least(free, left))
  {
    Distribute(c, k, m);
    Distribute(c, k, left);
    MulOrder(c, m, left);
    MulOrder(c, m, free);
    MulOrder(c, left, free);
  }

  lemma Distribute(c: nat, k: nat, m: nat)
    ensures c * (k + m) == c * k + c * m
  {
  }

  lemma MulOrder(c: nat, x: nat, y: nat)
    requires c > 0
    ensures x < y ==> c * x < c * y
    ensures x > y ==> c * x > c * y
  {
    if x < y { assert c * y == c * x + c * (y - x); }
    if x > y { assert c * x == c * y + c * (x - y); }
  }

  /** Where no cluster is free any more, the table took them all. */
  lemma AllTakenUp(g: Geometry, fat: seq<nat>, fat': seq<nat>, a: seq<nat>, a': seq<nat>)
    requires Grew(fat, fat', a, a') && HasChain(g, fat, a) && HasChain(g, fat', a') && Free(fat') == {}
    ensures |Free(fat)| == |a'| - |a|
  {
    var rest := a'[|a|..];
    GrownSize(g, fat, fat', a, a');
    if a' != [] { ChainAcyclic(fat', a'); }
    assert a' == a + rest;
    DistinctSize(rest);
    forall x | x in Free(fat)
      ensures x in Members(rest)
    {
      if a != [] { FreeNotOnChain(fat, a, x); }
      assert x !in a' ==> x in Free(fat');
    }
    SubsetSize(Free(fat), Members(rest));
  }

  lemma GrewPrefix(fat: seq<nat>, fat': seq<nat>, a: seq<nat>, a': seq<nat>)
    requires Grew(fat, fat', a, a')
    ensures a <= a'
  {
  }

  /** A table that grew did so by no more than that, and if nothing is left to grow into, by exactly that. */
  lemma RoomOf(g: Geometry, n: nat, fat: seq<nat>, fat': seq<nat>, a: seq<nat>, a': seq<nat>, room: nat)
    requires Good(g, n) && g.csize > 0 && HasChain(g, fat, a) && HasChain(g, fat', a') && Grew(fat, fat', a, a')
    requires (a == [] ==> a' == []) && Count(g, a') == Count(g, a) + room
    ensures room <= MaxRoom(g, fat, a)
    ensures Free(fat') == {} || a' == [] || Size(g, a') >= MAX_SECTORS ==> room == MaxRoom(g, fat, a)
  {
    hide Grew, HasChain, Free, Good;
    GrownSize(g, fat, fat', a, a');
    GrewPrefix(fat, fat', a, a');
    if Free(fat') == {} { AllTakenUp(g, fat, fat', a, a'); }
    if a != [] && Cap(g, a) < MAX_SECTORS {
      WholeLimit(g, n, |a|);
      RoomSum(g.csize, |a|, |a'| - |a|, ClustersIn(g, MAX_SECTORS - g.csize * |a|), |Free(fat)|, room);
    } else if a != [] {
      MulMonotone(|a|, |a'|, g.csize);
    }
  }

  /** dir_alloc on any links: it ends with the lowest run of free entries, in the table or behind its stretched end,
      or because there is no such run; it takes free clusters only, only behind an intact chain, and for a run that is
      found no more than it needs. */
  method DirAlloc(d: Dir, nEnt: nat) returns (res: FResult, ghost p: nat, ghost room: nat)
    requires (d.Valid() || d.Rootless()) && nEnt >= 1
    modifies d`dptr, d`clust, d`sect, d`chain
    modifies d.fs`disk, d.fs`winsect, d.fs`wflag, d.fs`view, d.fs`fat, d.fs`lastClst, d.fs`freeClst, d.fs`fsiFlag,
             d.fs.win
    ensures |d.fs.disk| == |old(d.fs.disk)| && (old(d.Valid()) ==> d.Valid()) && (old(d.Rootless()) ==> d.Rootless())
    ensures old(d.Intact()) || room > 0 ==> d.Intact()
    ensures Kept(d.fs.g, old(d.fs.fat), d.fs.fat, old(d.chain), d.chain, old(d.fs.view), d.fs.view)
    ensures d.Listing() == Padded(old(d.Listing()), room)
    ensures res == FrOk ==> d.Valid() && d.At(p + nEnt - 1) && IsGap(d.Listing(), p, nEnt)
    ensures res == FrOk && room > 0 ==> p + nEnt + 16 * d.fs.g.csize > |d.Listing()|
    ensures d.Valid() && res != FrOk ==> forall s: nat :: !AllFree(d.Listing(), s, nEnt)
    ensures res == FrOk || res == FrDenied || res == FrIntErr
    ensures res == FrIntErr ==> 1 in d.fs.fat || Broken(d.fs.g, d.fs.fat, d.chain) || !d.Valid() || |d.Listing()| == 0
    ensures res == FrDenied && Accurate(d.fs.freeClst, d.fs.fat) ==> Free(d.fs.fat) == {} || d.chain == []
                                                                     || Size(d.fs.g, d.chain) >= MAX_SECTORS
    ensures old(Accurate(d.fs.freeClst, d.fs.fat)) ==> Accurate(d.fs.freeClst, d.fs.fat)
    ensures old(d.Valid() && d.Intact() && Accurate(d.fs.freeClst, d.fs.fat)) && 1 !in d.fs.fat ==>
              d.fs.g.csize > 0 && (res == FrOk || res == FrDenied)
              && (res == FrOk <==> HasGap(Padded(old(d.Listing()), MaxRoom(d.fs.g, old(d.fs.fat), old(d.chain))), nEnt))
  {
    hide FatFs.Valid, Dir.Valid, Dir.Rootless, Dir.Listing, Good, IsWalk, IsTable, Count, Size, Dir.At, IsGap, Padded,
      Kept, Accurate, Free;
    p, room := 0, 0;
    PadTwice(d.Listing(), 0, 0);
    KeptSame(d.fs.g, d.fs.fat, d.chain, d.fs.view);
    if d.Valid() { d.HasRoot(); }
    res := d.Sdi(0);
    if d.Valid() {
      CountZero(d, nEnt);
      d.HasRoot();
      if d.Intact() { TableNotEmpty(d.fs.g, |d.fs.disk|, d.fs.fat, d.chain); }
    }
    if res != FrOk {
      return;
    }
    ghost var l, fat, chain, view := d.Listing(), d.fs.fat, d.chain, d.fs.view;
    res, p, room := AllocFromTop(d, nEnt);
    if old(d.Valid() && d.Intact() && Accurate(d.fs.freeClst, d.fs.fat)) && 1 !in d.fs.fat {
      NotEmpty(d);
      AllocDecides(d, l, fat, chain, view, nEnt, res, p, room);
    }
  }

  /** The outcome in terms of the table before. */
  lemma AllocDecides(d: Dir, l: seq<DirEntry>, fat: seq<nat>, chain: seq<nat>, view: seq<Sector>, m: nat, res: FResult,
    p: nat, room: nat)
    requires d.Valid() && d.Intact() && IsTable(d.fs.g, |d.fs.disk|, fat, chain) && |l| == Count(d.fs.g, chain)
    requires Kept(d.fs.g, fat, d.fs.fat, chain, d.chain, view, d.fs.view) && d.Listing() == Padded(l, room)
    requires res == FrOk ==> IsGap(d.Listing(), p, m)
    requires res != FrOk ==> forall s: nat :: !AllFree(d.Listing(), s, m)
    requires res != FrOk ==> Free(d.fs.fat) == {} || d.chain == [] || Size(d.fs.g, d.chain) >= MAX_SECTORS
    ensures d.fs.g.csize > 0
    ensures res == FrOk <==> HasGap(Padded(l, MaxRoom(d.fs.g, fat, chain)), m)
  {
    var g, most := d.fs.g, MaxRoom(d.fs.g, fat, chain);
    d.ValidTable();
    NotEmpty(d);
    RoomOf(g, |d.fs.disk|, fat, d.fs.fat, chain, d.chain, room);
    if res == FrOk {
      PaddedMore(l, room, most, p, m);
    }
  }

  lemma PaddedMore(l: seq<DirEntry>, room: nat, most: nat, p: nat, m: nat)
    requires room <= most && AllFree(Padded(l, room), p, m)
    ensures HasGap(Padded(l, most), m)
  {
    assert forall i :: 0 <= i < |Padded(l, room)| ==> Padded(l, most)[i] == Padded(l, room)[i];
    assert AllFree(Padded(l, most), p, m);
  }

  lemma TableNotEmpty(g: Geometry, n: nat, fat: seq<nat>, chain: seq<nat>)
    requires IsTable(g, n, fat, chain)
    ensures g.csize > 0 && Count(g, chain) > 0
  {
    if chain != [] { MulMonotone(1, |chain|, g.csize); }
  }

  lemma CountZero(d: Dir, m: nat)
    requires d.Valid() && m >= 1
    ensures |d.Listing()| == Count(d.fs.g, d.chain)
    ensures |d.Listing()| == 0 ==> forall s: nat :: !AllFree(d.Listing(), s, m)
  {
  }

  /** The loop of dir_alloc, from the first entry (ff.c:2375-2401). */
  method AllocFromTop(d: Dir, nEnt: nat) returns (res: FResult, ghost p: nat, ghost room: nat)
    requires d.Valid() && d.At(0) && nEnt >= 1
    modifies d`dptr, d`clust, d`sect, d`chain
    modifies d.fs`disk, d.fs`winsect, d.fs`wflag, d.fs`view, d.fs`fat, d.fs`lastClst, d.fs`freeClst, d.fs`fsiFlag,
             d.fs.win
    ensures d.Valid() && |d.fs.disk| == |old(d.fs.disk)| && (old(d.Intact()) || room > 0 ==> d.Intact())
    ensures Kept(d.fs.g, old(d.fs.fat), d.fs.fat, old(d.chain), d.chain, old(d.fs.view), d.fs.view)
    ensures d.Listing() == Padded(old(d.Listing()), room)
    ensures res == FrOk ==> d.At(p + nEnt - 1) && IsGap(d.Listing(), p, nEnt)
    ensures res == FrOk && room > 0 ==> p + nEnt + 16 * d.fs.g.csize > |d.Listing()|
    ensures res != FrOk ==> forall s: nat :: !AllFree(d.Listing(), s, nEnt)
    ensures res == FrOk || res == FrDenied || (res == FrIntErr && (1 in d.fs.fat || Broken(d.fs.g, d.fs.fat, d.chain)))
    ensures res == FrDenied && Accurate(d.fs.freeClst, d.fs.fat) ==> Free(d.fs.fat) == {} || d.chain == []
                                                                     || Size(d.fs.g, d.chain) >= MAX_SECTORS
    ensures old(Accurate(d.fs.freeClst, d.fs.fat)) ==> Accurate(d.fs.freeClst, d.fs.fat)
  {
    hide FatFs.Valid, Dir.Valid, Dir.Listing, Good, IsWalk, IsTable, Count, Size, Broken, Dir.At, Counting, IsGap,
      Padded, Kept, Accurate, Free, AllFree;
    AtFacts(d, 0);
    CountLimit(d, 0);
    ghost var i := 0;
    ghost var l0, f0, c0, v0 := d.Listing(), d.fs.fat, d.chain, d.fs.view;
    var n := 0;
    p, room := 0, 0;
    PadTwice(l0, 0, 0);
    KeptSame(d.fs.g, f0, c0, v0);
    CountStart(l0, nEnt);
    while true
      invariant d.Valid() && |d.fs.disk| == |old(d.fs.disk)| && d.At(i) && Counting(d.Listing(), i, n, nEnt)
      invariant i < |d.Listing()| && i < 65536 && d.Listing() == Padded(l0, room)
        && (old(d.Intact()) || room > 0 ==> d.Intact())
      invariant Kept(d.fs.g, f0, d.fs.fat, c0, d.chain, v0, d.fs.view)
      invariant old(Accurate(d.fs.freeClst, d.fs.fat)) ==> Accurate(d.fs.freeClst, d.fs.fat)
      invariant room > 0 ==> |d.Listing()| <= i + 16 * d.fs.g.csize
      decreases 65536 - i
    {
      ghost var l, f, c, v := d.Listing(), d.fs.fat, d.chain, d.fs.view;
      n := CountEntry(d, i, n, nEnt);
      if n == nEnt {
        p := i + 1 - nEnt;
        return FrOk, p, room;
      }
      ghost var more;
      res, more := NextWithRoom(d, i);
      KeptTrans(d.fs.g, f0, f, d.fs.fat, c0, c, d.chain, v0, v, d.fs.view);
      PadTwice(l0, room, more);
      room := room + more;
      if res != FrOk {
        CountEnd(l, n, nEnt);
        return if res == FrNoFile then FrDenied else res, p, room;
      }
      CountPadded(l, i + 1, n, nEnt, more);
      i := i + 1;
    }
  }

  /** Only the table grew and changed. */
  ghost predicate Kept(g: Geometry, f: seq<nat>, f': seq<nat>, a: seq<nat>, b: seq<nat>, v: seq<Sector>,
    w: seq<Sector>) {
    Grew(f, f', a, b) && Undisturbed(g, b, v, w) && (a == [] ==> b == [])
  }

  lemma KeptSame(g: Geometry, f: seq<nat>, a: seq<nat>, v: seq<Sector>)
    ensures Kept(g, f, f, a, a, v, v)
  {
  }

  lemma KeptTrans(g: Geometry, f0: seq<nat>, f1: seq<nat>, f2: seq<nat>, a: seq<nat>, b: seq<nat>, c: seq<nat>,
                  v0: seq<Sector>, v1: seq<Sector>, v2: seq<Sector>)
    requires Kept(g, f0, f1, a, b, v0, v1) && Kept(g, f1, f2, b, c, v1, v2)
    ensures Kept(g, f0, f2, a, c, v0, v2)
  {
    hide Grew, Undisturbed;
    GrewTrans(f0, f1, f2, a, b, c);
    UndisturbedTrans(g, f1, f2, b, c, v0, v1, v2);
  }

  /** dir_next with stretching: the table is padded by `more` blank entries when its end was reached. */
  method NextWithRoom(d: Dir, ghost i: nat) returns (res: FResult, ghost more: nat)
    requires d.Valid() && d.At(i)
    modifies d`dptr, d`clust, d`sect, d`chain
    modifies d.fs`disk, d.fs`winsect, d.fs`wflag, d.fs`view, d.fs`fat, d.fs`lastClst, d.fs`freeClst, d.fs`fsiFlag,
             d.fs.win
    ensures d.Valid() && |d.fs.disk| == |old(d.fs.disk)| && (old(d.Intact()) || more > 0 ==> d.Intact())
    ensures d.Listing() == Padded(old(d.Listing()), more)
    ensures Kept(d.fs.g, old(d.fs.fat), d.fs.fat, old(d.chain), d.chain, old(d.fs.view), d.fs.view)
    ensures if res == FrOk then d.At(i + 1) && i + 1 < |d.Listing()| && i + 1 < 65536
              else more == 0 && i + 1 == |d.Listing()|
    ensures more == 0 || (i + 1 == |old(d.Listing())| && more == 16 * d.fs.g.csize)
    ensures res == FrOk || res == FrDenied || res == FrNoFile || res == FrIntErr
    ensures res == FrIntErr ==> 1 in d.fs.fat || Broken(d.fs.g, d.fs.fat, d.chain)
    ensures res == FrDenied && Accurate(d.fs.freeClst, d.fs.fat) ==> Free(d.fs.fat) == {}
    ensures res == FrNoFile ==> d.chain == [] || Size(d.fs.g, d.chain) >= MAX_SECTORS
    ensures old(Accurate(d.fs.freeClst, d.fs.fat)) ==> Accurate(d.fs.freeClst, d.fs.fat)
  {
    hide FatFs.Valid, Dir.Valid, Good, IsWalk, IsTable, Count, Size, Broken, Dir.At, Padded, Grew, Undisturbed,
      Accurate, Free;
    AtFacts(d, i);
    PadTwice(d.Listing(), 0, 0);
    res := d.Next(true, i);
    more := if res == FrOk && i + 1 == old(|d.Listing()|) then 16 * d.fs.g.csize else 0;
    if res == FrOk {
      AtFacts(d, i + 1);
      CountLimit(d, i + 1);
    }
  }

  lemma CountStart(l: seq<DirEntry>, m: nat)
    requires m >= 1
    ensures Counting(l, 0, 0, m)
  {
  }

  /** Changes within a table that grows. */
  lemma UndisturbedTrans(g: Geometry, f: seq<nat>, f': seq<nat>, a: seq<nat>, b: seq<nat>, v: seq<Sector>,
    w: seq<Sector>, x: seq<Sector>)
    requires Grew(f, f', a, b) && (a == [] ==> b == []) && Undisturbed(g, a, v, w) && Undisturbed(g, b, w, x)
    ensures Undisturbed(g, b, v, x)
  {
    forall s | 0 <= s < |v| && !InFat1(g, s) && !Mine(g, b, s)
      ensures x[s] == v[s]
    {
      if Mine(g, a, s) && a != [] {
        OwnGrows(g, a, b, s);
      }
    }
  }

  lemma CountLimit(d: Dir, i: nat)
    requires i < Count(d.fs.g, d.chain)
    ensures i < 65536
  {
  }
}
