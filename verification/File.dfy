/** An open file (FIL) as a byte array with a cursor: f_read, f_write, f_lseek, f_truncate and f_sync
    (ff.c:5197-5666, ff.c:5995-6237, ff.c:6621-6671). */
module File {
  import opened Bytes
  import opened Geometry
  import opened FatTable
  import opened Volume
  import opened Chain
  import opened ChainRuns
  import opened FileRep
  import opened FileState

  /** For fptr > 0 the current cluster is the one that holds byte fptr - 1, and inside a sector the buffer
      shows that sector. */
  ghost predicate Cursor(g: Geometry, chain: seq<nat>, size: nat, fptr: nat, clust: nat, sect: nat) {
    && g.csize > 0
    && fptr <= size
    && (fptr > 0 ==> Cl(g, (fptr - 1) / 512) < |chain| && clust == chain[Cl(g, (fptr - 1) / 512)])
    && (fptr % 512 != 0 ==> Cl(g, fptr / 512) < |chain| && sect == Sec(g, chain, fptr / 512))
  }

  /** clust is the cluster that holds byte fptr. */
  ghost predicate At(g: Geometry, chain: seq<nat>, fptr: nat, clust: nat) {
    g.csize > 0 && Cl(g, fptr / 512) < |chain| && clust == chain[Cl(g, fptr / 512)]
  }

  /** Where byte fptr is found from the cursor: the origin, the link of the current cluster, or the current cluster. */
  lemma LocateStep(g: Geometry, fat: seq<nat>, chain: seq<nat>, size: nat, fptr: nat, clust: nat, sect: nat)
    requires HasChain(g, fat, chain) && Cursor(g, chain, size, fptr, clust, sect)
    requires fptr % 512 == 0 && fptr / 512 < Cap(g, chain)
    ensures chain != []
    ensures fptr == 0 ==> At(g, chain, fptr, chain[0])
    ensures fptr > 0 && Of(g, fptr / 512) == 0 ==> IsCluster(g, clust) && At(g, chain, fptr, fat[clust])
    ensures fptr > 0 && Of(g, fptr / 512) != 0 ==> At(g, chain, fptr, clust)
  {
    CapIndex(g, chain, fptr / 512);
    if fptr > 0 {
      var k := Cl(g, fptr / 512);
      assert (fptr - 1) / 512 == fptr / 512 - 1;
      PreviousSector(g, fptr / 512);
      assert k > 0 ==> fat[chain[k - 1]] == chain[k - 1 + 1];
    }
  }

  /** Where f_write finds byte fptr, which may be the end of the chain. */
  lemma LocateWriteStep(g: Geometry, fat: seq<nat>, chain: seq<nat>, size: nat, fptr: nat, clust: nat, sect: nat)
    requires HasChain(g, fat, chain) && Cursor(g, chain, size, fptr, clust, sect)
    requires fptr % 512 == 0 && size <= Cap(g, chain) * 512
    ensures fptr == 0 && chain != [] ==> At(g, chain, fptr, chain[0])
    ensures fptr > 0 && Of(g, fptr / 512) != 0 ==> At(g, chain, fptr, clust)
    ensures fptr > 0 && Of(g, fptr / 512) == 0 ==>
              && chain != [] && IsCluster(g, clust) && fat[clust] >= 2
              && (fat[clust] < |fat| ==> At(g, chain, fptr, fat[clust]))
              && (fat[clust] >= |fat| ==> clust == Last(chain))
    ensures (fptr == 0 && chain == []) || (fptr > 0 && Of(g, fptr / 512) == 0 && fat[clust] >= |fat|) ==>
              forall ncl :: At(g, chain + [ncl], fptr, ncl)
  {
    if fptr > 0 {
      var j := fptr / 512;
      var k := Cl(g, j);
      assert (fptr - 1) / 512 == j - 1;
      PreviousSector(g, j);
      assert k > 0 ==> k - 1 < |chain| - 1 ==> fat[chain[k - 1]] == chain[k - 1 + 1];
    }
  }

  /** Inside a sector the cursor is in the cluster of byte fptr. */
  lemma InsideSector(g: Geometry, chain: seq<nat>, size: nat, fptr: nat, clust: nat, sect: nat)
    requires Cursor(g, chain, size, fptr, clust, sect) && fptr % 512 != 0
    ensures At(g, chain, fptr, clust) && sect == Sec(g, chain, fptr / 512)
  {
    assert (fptr - 1) / 512 == fptr / 512;
  }

  /** After a run of sectors inside the cluster the cursor is on its last byte. */
  lemma AdvanceRun(g: Geometry, chain: seq<nat>, size: nat, fptr: nat, cc: nat, clust: nat, sect: nat)
    requires At(g, chain, fptr, clust) && fptr % 512 == 0 && cc > 0 && Of(g, fptr / 512) + cc <= g.csize
    requires fptr + cc * 512 <= size
    ensures Cursor(g, chain, size, fptr + cc * 512, clust, sect)
  {
    SameCluster(g, fptr / 512, cc - 1);
    assert (fptr + cc * 512 - 1) / 512 == fptr / 512 + cc - 1;
    assert (fptr + cc * 512) % 512 == 0;
  }

  /** After a transfer inside one sector, which the buffer shows. */
  lemma AdvanceIn(g: Geometry, chain: seq<nat>, size: nat, fptr: nat, k: nat, clust: nat, sect: nat)
    requires At(g, chain, fptr, clust) && 0 < k && fptr % 512 + k <= 512 && fptr + k <= size
    requires sect == Sec(g, chain, fptr / 512)
    ensures Cursor(g, chain, size, fptr + k, clust, sect)
  {
    assert (fptr + k - 1) / 512 == fptr / 512;
    assert (fptr + k) % 512 != 0 ==> (fptr + k) / 512 == fptr / 512;
  }

  /** The number of clusters that hold the first fptr bytes. */
  ghost function Clusters(g: Geometry, fptr: nat): nat
    requires g.csize > 0
  {
    if fptr == 0 then 0 else Cl(g, (fptr - 1) / 512) + 1
  }

  lemma ClustersHold(g: Geometry, fptr: nat)
    requires g.csize > 0
    ensures fptr <= Clusters(g, fptr) * g.csize * 512
  {
    if fptr > 0 {
      var j, c := (fptr - 1) / 512, g.csize;
      assert j == c * (j / c) + j % c;
      assert (j / c + 1) * c == c * (j / c) + c;
    }
  }

  /** The cluster of byte fptr - 1 is where f_truncate cuts. */
  lemma CutPoint(g: Geometry, fat: seq<nat>, chain: seq<nat>, size: nat, fptr: nat, clust: nat, sect: nat)
    requires HasChain(g, fat, chain) && Cursor(g, chain, size, fptr, clust, sect) && 0 < fptr
    ensures var k := Clusters(g, fptr);
              && 1 <= k <= |chain| && clust == chain[k - 1] && IsCluster(g, clust)
              && (if k < |chain| then fat[clust] == chain[k] else fat[clust] >= |fat|)
              && Cursor(g, chain[..k], fptr, fptr, clust, sect)
  {
    var k := Clusters(g, fptr);
    assert k < |chain| ==> fat[chain[k - 1]] == chain[k - 1 + 1];
    if fptr % 512 != 0 {
      assert (fptr - 1) / 512 == fptr / 512;
    }
  }

  // ----- seeking

  function ClusterBytes(g: Geometry): (r: nat)
    ensures g.csize > 0 ==> r > 0
  {
    g.csize * 512
  }

  /** The index of the cluster that holds byte x, and the first byte of that cluster. */
  function ClusterNo(g: Geometry, x: nat): nat
    requires g.csize > 0
  {
    DivNat(x, ClusterBytes(g));
    x / ClusterBytes(g)
  }

  function ClusterStart(g: Geometry, x: nat): nat
    requires g.csize > 0
  {
    ClusterBytes(g) * ClusterNo(g, x)
  }

  /** The seek has followed the chain to cluster k, whose first byte is base. */
  ghost predicate Following(g: Geometry, chain: seq<nat>, base: nat, k: nat, clst: nat) {
    g.csize > 0 && k < |chain| && clst == chain[k] && base == ClusterBytes(g) * k
  }

  lemma ByteCluster(g: Geometry, x: nat, k: nat, r: nat)
    requires g.csize > 0 && x == ClusterBytes(g) * k + r && r < ClusterBytes(g)
    ensures Cl(g, x / 512) == k && Of(g, x / 512) == r / 512 && x % 512 == r % 512 && x / ClusterBytes(g) == k
  {
    var c := g.csize;
    assert ClusterBytes(g) * k == 512 * (c * k) by { assert c * 512 * k == 512 * (c * k); }
    DivModOf(x, 512, c * k + r / 512, r % 512);
    DivModOf(c * k + r / 512, c, k, r / 512);
    DivModOf(x, ClusterBytes(g), k, r);
  }

  /** The cursor's cluster, with its first byte, is where a forward seek starts. */
  lemma SeekStart(g: Geometry, chain: seq<nat>, size: nat, fptr: nat, clust: nat, sect: nat)
    requires Cursor(g, chain, size, fptr, clust, sect) && fptr > 0 && g.csize > 0
    ensures Following(g, chain, ClusterStart(g, fptr - 1), ClusterNo(g, fptr - 1), clust)
  {
    hide ClusterBytes;
    ByteCluster(g, fptr - 1, (fptr - 1) / ClusterBytes(g), (fptr - 1) % ClusterBytes(g));
  }

  lemma SeekNext(g: Geometry, chain: seq<nat>, base: nat, k: nat, clst: nat)
    requires Following(g, chain, base, k, clst)
    ensures k + 1 < |chain| ==> Following(g, chain, base + ClusterBytes(g), k + 1, chain[k + 1])
    ensures Cursor(g, chain, base + ClusterBytes(g), base + ClusterBytes(g), clst, 0)
  {
    hide Cl, Of, ClusterBytes;
    WholeSectors(g);
    OneMore(ClusterBytes(g), k);
    ByteCluster(g, base + ClusterBytes(g) - 1, k, ClusterBytes(g) - 1);
    assert base % 512 == 0 by { ByteCluster(g, base, k, 0); }
    SumOfSectors(base, ClusterBytes(g));
  }

  lemma OneMore(b: nat, k: nat)
    ensures b * (k + 1) == b * k + b
  {
  }

  lemma SumOfSectors(x: nat, y: nat)
    requires x % 512 == 0 && y % 512 == 0
    ensures (x + y) % 512 == 0
  {
  }

  lemma WholeSectors(g: Geometry)
    requires g.csize > 0
    ensures ClusterBytes(g) > 0 && ClusterBytes(g) % 512 == 0
  {
  }

  /** ofs bytes into the cluster reached. */
  lemma SeekEnd(g: Geometry, chain: seq<nat>, base: nat, k: nat, clst: nat, ofs: nat, nsect: nat)
    requires Following(g, chain, base, k, clst) && 0 < ofs <= ClusterBytes(g)
    requires ofs % 512 != 0 ==> nsect == Clst2Sect(g, clst) + ofs / 512
    ensures Cursor(g, chain, base + ofs, base + ofs, clst, nsect)
  {
    hide Cl, Of, ClusterBytes;
    WholeSectors(g);
    ByteCluster(g, base + ofs - 1, k, ofs - 1);
    if ofs < ClusterBytes(g) {
      ByteCluster(g, base + ofs, k, ofs);
    } else {
      SeekNext(g, chain, base, k, clst);
    }
  }

  /** Links along the chain, as a seek meets them. */
  /** A byte below the chain's capacity lies in one of its clusters. */
  lemma BelowCap(g: Geometry, chain: seq<nat>, base: nat, k: nat, x: nat)
    requires g.csize > 0 && base == ClusterBytes(g) * k && base + ClusterBytes(g) < x <= Cap(g, chain) * 512
    ensures k + 1 < |chain|
  {
    assert ClusterBytes(g) * |chain| == Cap(g, chain) * 512;
    assert ClusterBytes(g) * (k + 1) == base + ClusterBytes(g);
    if k + 1 >= |chain| {
      MulMonotone(|chain|, k + 1, ClusterBytes(g));
    }
  }

  /** A cursor at the end of its clusters stays inside the chain's capacity. */
  lemma CursorCap(g: Geometry, chain: seq<nat>, fptr: nat, clust: nat, sect: nat)
    requires Cursor(g, chain, fptr, fptr, clust, sect)
    ensures fptr <= Cap(g, chain) * 512
  {
    if fptr > 0 {
      CapIndex(g, chain, (fptr - 1) / 512);
    }
  }

  /** ld_clust: the start cluster in a directory entry at offset o of a sector. */
  function LdClust(g: Geometry, s: seq<byte>, o: nat): nat
    requires o + 32 <= |s|
  {
    Ld16(s, o + 26) + if g.fsType.Fat32? then 0x1_0000 * Ld16(s, o + 20) else 0
  }

  /** The largest size and offset of a file, one byte short of 4 GiB. */
  const MAX_SIZE: nat := 0xFFFF_FFFF

  /** GET_FATTIME without a clock: 1 January 2025 (ff.c:272-275, ffconf.h:229-232). */
  const FATTIME: nat := 0x5A21_0000

  /** dir[DIR_Attr] |= AM_ARC */
  function SetArchive(a: byte): byte {
    if a / 0x20 % 2 == 0 then a + 0x20 else a
  }

  /** st_clust at offset o. */
  function StClust(g: Geometry, s: Sector, o: nat, cl: nat): Sector
    requires o + 32 <= 512
  {
    var t := St16(s, o + 26, cl);
    if g.fsType.Fat32? then St16(t, o + 20, cl / 0x1_0000) else t
  }

  /** The directory entry as f_sync rewrites it (ff.c:5627-5656). */
  function SyncEntry(g: Geometry, s: Sector, o: nat, sclust: nat, size: nat): Sector
    requires o + 32 <= 512
  {
    var t := StClust(g, s[o + 11 := SetArchive(s[o + 11])], o, sclust);
    St16(St32(St32(t, o + 28, size), o + 22, FATTIME), o + 18, 0)
  }

  /** The start cluster survives st_clust and ld_clust. */
  lemma ClustRoundTrip(g: Geometry, s: Sector, o: nat, cl: nat)
    requires o + 32 <= 512 && cl < (if g.fsType.Fat32? then DWORD else 0x1_0000)
    ensures LdClust(g, StClust(g, s, o, cl), o) == cl
  {
    hide St16, Ld16;
    StoreLoad(s, o + 26, cl);
    var t := St16(s, o + 26, cl);
    StoreLoad(t, o + 20, cl / 0x1_0000);
    SameHalf(t, St16(t, o + 20, cl / 0x1_0000), o + 26);
    if !g.fsType.Fat32? {
      assert cl % 0x1_0000 == cl;
    }
  }

  lemma SameClust(g: Geometry, s: Sector, t: Sector, o: nat)
    requires o + 32 <= 512
    requires forall k :: 0 <= k < 512 && (o + 20 <= k < o + 22 || o + 26 <= k < o + 28) ==> s[k] == t[k]
    ensures LdClust(g, s, o) == LdClust(g, t, o)
  {
  }

  /** The rewritten entry describes the file, and no byte outside the entry changed. */
  lemma SyncEntryReads(g: Geometry, s: Sector, o: nat, cl: nat, size: nat)
    requires o + 32 <= 512 && cl < (if g.fsType.Fat32? then DWORD else 0x1_0000) && size < DWORD
    ensures LdClust(g, SyncEntry(g, s, o, cl, size), o) == cl
    ensures Ld32(SyncEntry(g, s, o, cl, size), o + 28) == size
    ensures forall k :: 0 <= k < 512 && !(o <= k < o + 32) ==> SyncEntry(g, s, o, cl, size)[k] == s[k]
    ensures forall k :: o <= k < o + 11 ==> SyncEntry(g, s, o, cl, size)[k] == s[k]
    ensures SyncEntry(g, s, o, cl, size)[o + 11] == SetArchive(s[o + 11])
  {
    var a: Sector := s[o + 11 := SetArchive(s[o + 11])];
    var t := StClust(g, a, o, cl);
    var u, v := St32(t, o + 28, size), St32(St32(t, o + 28, size), o + 22, FATTIME);
    var w := SyncEntry(g, s, o, cl, size);
    assert w == St16(v, o + 18, 0);
    ClustRoundTrip(g, a, o, cl);
    StoreLoad(a, o + 26, cl);
    StoreLoad(St16(a, o + 26, cl), o + 20, cl / 0x1_0000);
    StoreLoad(t, o + 28, size);
    StoreLoad(u, o + 22, FATTIME);
    StoreLoad(v, o + 18, 0);
    hide St16, St32, Ld32, LdClust, SetArchive;
    SameWord(u, v, o + 28);
    SameWord(v, w, o + 28);
    SameClust(g, t, w, o);
  }

  /** The directory entry at (dirSect, dirOfs) of the flat disk d describes a file with this chain and content. */
  ghost predicate Stored(g: Geometry, d: seq<Sector>, fat: seq<nat>, dirSect: nat, dirOfs: nat,
                         chain: seq<nat>, content: seq<byte>) {
    && dirSect < |d| && dirOfs + 32 <= 512
    && HasChain(g, fat, chain)
    && Holds(g, d, chain, content)
    && LdClust(g, d[dirSect], dirOfs) == (if chain == [] then 0 else chain[0])
    && Ld32(d[dirSect], dirOfs + 28) == |content|
  }

  class File {
    const fs: FatFs
    const buf: array<byte>
    const canRead: bool
    const canWrite: bool
    var sclust: nat
    var objsize: nat
    var fptr: nat
    var clust: nat
    var sect: nat
    var dirty: bool      // FA_DIRTY
    var modified: bool   // FA_MODIFIED
    var err: FResult     // abort flag
    const dirSect: nat   // sector of the directory entry
    const dirOfs: nat    // its offset in that sector
    ghost const dirClst: nat  // the directory's cluster that holds it, 0 in the static root table
    ghost var chain: seq<nat>
    ghost var content: seq<byte>
    ghost var faith: Faith      // what a clean buffer has in common with its sector
    ghost var others: set<nat>  // clusters of other open files, which the window does not show

    /** The end of f_open (ff.c:5107-5126), once the window shows the directory entry that was found. */
    constructor (fs: FatFs, dirOfs: nat, canRead: bool, canWrite: bool,
                 ghost dirClst: nat, ghost chain: seq<nat>, ghost content: seq<byte>)
      requires fs.Valid() && fs.winsect < |fs.disk|
      requires Stored(fs.g, fs.view, fs.fat, fs.winsect, dirOfs, chain, content)
      requires Home(fs.g, |fs.disk|, fs.fat, chain, dirClst, fs.winsect, dirOfs)
      ensures Valid() && Ready() && fresh(buf)
      ensures this.fs == fs && this.chain == chain && this.content == content
      ensures fptr == 0 && objsize == |content| && !dirty && !modified && err == FrOk && faith == Same && others == {}
      ensures dirSect == fs.winsect && this.dirOfs == dirOfs && this.canRead == canRead && this.canWrite == canWrite
    {
      this.fs := fs;
      this.canRead, this.canWrite := canRead, canWrite;
      this.dirSect, this.dirOfs := fs.winsect, dirOfs;
      this.sclust := LdClust(fs.g, fs.win[..], dirOfs);
      this.objsize := Ld32(fs.win[..], dirOfs + 28);
      this.dirty, this.modified, this.err := false, false, FrOk;
      this.sect, this.fptr, this.clust := 0, 0, 0;
      this.buf := new byte[512](_ => 0);
      this.chain, this.content, this.dirClst := chain, content, dirClst;
      this.faith, this.others := Same, {};
      new;
      HomeAway(fs.g, |fs.disk|, fs.fat, chain, dirClst, dirSect, dirOfs);
    }

    /** Everything but the cursor, which is broken inside a transfer step. */
    ghost predicate Steady()
      reads `sclust, `objsize, `sect, `dirty, `chain, `content, `faith, `others, buf, fs, fs.win
    {
      && fs.Valid()
      && buf != fs.win && buf.Length == 512
      && Core(fs.g, fs.fat, fs.view, fs.winsect, chain, content, sect, buf[..], dirty, faith)
      && sclust == (if chain == [] then 0 else chain[0])
      && |content| == objsize < DWORD
      && Home(fs.g, |fs.disk|, fs.fat, chain, dirClst, dirSect, dirOfs)
      && sect != dirSect
      && Off(fs.g, others, fs.winsect) && dirClst !in others
    }

    /** The cursor is in order, so that a transfer can start. */
    ghost predicate Ready()
      reads this, buf, fs, fs.win
    {
      Steady() && Cursor(fs.g, chain, objsize, fptr, clust, sect)
    }

    /** A file between two calls: ready for a transfer unless a call was aborted, and every byte has one value. */
    ghost predicate Valid()
      reads this, buf, fs, fs.win
    {
      Steady() && !faith.Torn? && (err == FrOk ==> Cursor(fs.g, chain, objsize, fptr, clust, sect))
    }

    /** get_fat on behalf of the file. */
    method GetLink(c: nat) returns (v: nat)
      requires Steady()
      modifies fs`disk, fs`winsect, fs`wflag, fs.win
      ensures Steady() && |fs.disk| == |old(fs.disk)|
      ensures v == if IsCluster(fs.g, c) then fs.fat[c] else 1
    {
      hide FatFs.Valid, Core, Good, Off, Home, HasChain, Own, Cap;
      SteadyFacts();
      v := fs.GetFat(c);
      CoreMove(fs.g, fs.fat, fs.view, old(fs.winsect), chain, content, sect, buf[..], dirty, faith, fs.view,
          fs.winsect);
      OffMove(fs.g, |fs.disk|, others, old(fs.winsect), fs.winsect);
    }

    /** Write-back of a dirty sector buffer. */
    method FlushBuf()
      requires Steady()
      modifies `dirty, fs`disk, fs`view
      ensures Steady() && !dirty && |fs.disk| == |old(fs.disk)|
      ensures Untouched(fs.g, chain, old(fs.view), fs.view)
    {
      hide FatFs.Valid, Core;
      if dirty {
        ValidSizes(fs);
        CoreFlush(fs.g, fs.fat, fs.view, fs.winsect, chain, content, sect, buf[..], faith);
        fs.WriteData(sect, [buf[..]]);
        dirty := false;
      }
    }

    /** A sector of the file: on disk as in the flat view, and never the sector of its directory entry. */
    lemma OwnOnDisk(s: nat)
      requires Steady() && Own(fs.g, chain, s)
      ensures |fs.view| == |fs.disk| && s < |fs.disk| && fs.disk[s] == fs.view[s] && s != dirSect
    {
      OwnInData(fs.g, |fs.disk|, chain, s);
      HomeAway(fs.g, |fs.disk|, fs.fat, chain, dirClst, dirSect, dirOfs);
    }

    /** disk_read of one sector of the file into a clean buffer. */
    method LoadBuf(s: nat)
      requires Steady() && !dirty && !faith.Torn? && Own(fs.g, chain, s)
      modifies `sect, buf
      ensures Steady() && sect == s
    {
      hide FatFs.Valid, Core, Own, Home;
      OwnOnDisk(s);
      CoreLoad(fs.g, fs.fat, fs.view, fs.winsect, chain, content, sect, buf[..], faith, s);
      Fill(buf, fs.disk[s]);
      sect := s;
    }

    lemma SteadyFacts()
      requires Steady()
      ensures HasChain(fs.g, fs.fat, chain) && fs.g.csize > 0 && Good(fs.g, |fs.disk|) && |fs.view| == |fs.disk|
      ensures |content| == objsize <= Cap(fs.g, chain) * 512 && objsize < DWORD && sect < |fs.view|
      ensures sclust == (if chain == [] then 0 else chain[0]) && (chain != [] ==> sclust >= 2)
    {
    }

    /** On a sector boundary f_read finds the cluster of byte fptr (ff.c:5222-5262). */
    method LocateRead()
      requires Ready() && fptr % 512 == 0 && fptr < objsize
      modifies `clust, fs`disk, fs`winsect, fs`wflag, fs.win
      ensures Steady() && |fs.disk| == |old(fs.disk)|
      ensures At(fs.g, chain, fptr, clust)
    {
      hide Steady, Good, HasChain, Cap, At, Cursor;
      SteadyFacts();
      LocateStep(fs.g, fs.fat, chain, objsize, fptr, clust, sect);
      if Of(fs.g, fptr / 512) == 0 {
        if fptr == 0 {
          clust := sclust;
        } else {
          clust := GetLink(clust);
        }
      }
    }

    /** Whole sectors read directly, with the dirty buffered sector put in its place (ff.c:5266-5293). */
    method ReadRun(cc: nat) returns (data: seq<byte>)
      requires Steady() && fptr % 512 == 0 && cc > 0 && fptr + cc * 512 <= objsize
      requires At(fs.g, chain, fptr, clust) && Of(fs.g, fptr / 512) + cc <= fs.g.csize
      ensures |content| == objsize && |data| == cc * 512 && (!faith.Torn? ==> data == content[fptr..fptr + cc * 512])
      ensures cc == 1 && !dirty ==> OneRead(fs.g, chain, fptr, 512, buf[..], fs.view, data)
    {
      hide Steady, Good, HasChain, At, OneRead, Seen, Sec, Cl, Of, Clst2Sect, Own, InFat2, Cap;
      RunInDisk(cc);
      var s := Clst2Sect(fs.g, clust) + Of(fs.g, fptr / 512);
      var secs := fs.disk[s..s + cc];
      if dirty && s <= sect < s + cc {
        secs := secs[sect - s := buf[..]];
      }
      RunOnDisk(s, cc);
      if !faith.Torn? { RunIsContent(s, cc, secs); }
      data := Flat(secs);
      if cc == 1 && !dirty {
        FlatOne(secs);
        OneShown(fs.g, chain, fptr, buf[..], fs.view, data);
      }
    }

    /** The sectors of a transfer inside the current cluster. */
    lemma RunInDisk(cc: nat)
      requires Steady() && cc > 0 && At(fs.g, chain, fptr, clust) && Of(fs.g, fptr / 512) + cc <= fs.g.csize
      ensures buf.Length == 512 && |content| == objsize && fs.g.csize > 0 && |fs.view| == |fs.disk|
        && IsCluster(fs.g, clust)
      ensures Cl(fs.g, fptr / 512) < |chain| && fptr / 512 < Cap(fs.g, chain)
      ensures var s := Clst2Sect(fs.g, clust) + Of(fs.g, fptr / 512);
                && s == Sec(fs.g, chain, fptr / 512)
                && fs.g.database <= s && s + cc <= |fs.disk| && !(s <= fs.winsect < s + cc)
                && forall t :: s <= t < s + cc ==> Own(fs.g, chain, t) && !InFat2(fs.g, t)
    {
      hide Cl, Of;
      RunInFile(fs.g, fs.fat, fs.view, fs.winsect, chain, content, sect, buf[..], dirty, faith, fptr / 512, cc);
      CapIndex(fs.g, chain, fptr / 512);
    }

    lemma SteadySeen()
      requires Steady() && !faith.Torn?
      ensures buf.Length == 512 && sect < |fs.view| && Holds(fs.g, Seen(fs.view, sect, buf[..], dirty), chain, content)
    {
    }

    lemma SteadyCached()
      requires Steady()
      ensures buf.Length == 512 && sect < |fs.view| && Holds(fs.g, Cached(fs.view, sect, buf[..]), chain, content)
    {
    }

    lemma RunIsContent(s: nat, cc: nat, secs: seq<Sector>)
      requires Steady() && !faith.Torn? && cc > 0 && At(fs.g, chain, fptr, clust)
        && Of(fs.g, fptr / 512) + cc <= fs.g.csize
      requires fptr % 512 == 0 && fptr + cc * 512 <= objsize && s == Clst2Sect(fs.g, clust) + Of(fs.g, fptr / 512)
      requires s + cc <= |fs.disk| && |secs| == cc
      requires forall i :: 0 <= i < cc ==> secs[i] == if dirty && s + i == sect then buf[..] else fs.disk[s + i]
      ensures |content| == objsize && Flat(secs) == content[fptr..fptr + cc * 512]
    {
      hide Steady, Own, InFat2, Holds, Good, Seen, Core, Sec, Cl, Of, Cap;
      RunInDisk(cc);
      RunOnDisk(s, cc);
      SteadySeen();
      RunHolds(fs.g, Seen(fs.view, sect, buf[..], dirty), chain, content, fptr / 512, secs);
    }

    /** The disk under the file, patched with a dirty buffer, is what direct transfers see. */
    lemma RunOnDisk(s: nat, cc: nat)
      requires Steady() && s + cc <= |fs.disk|
      requires forall t :: s <= t < s + cc ==> Own(fs.g, chain, t) && !InFat2(fs.g, t)
      ensures |fs.view| == |fs.disk| && sect < |fs.view| && buf.Length == 512
      ensures forall t :: s <= t < s + cc ==> fs.disk[t] == fs.view[t]
      ensures forall t :: s <= t < s + cc ==>
                Seen(fs.view, sect, buf[..], dirty)[t] == if dirty && t == sect then buf[..] else fs.disk[t]
    {
      forall t | s <= t < s + cc
        ensures Seen(fs.view, sect, buf[..], dirty)[t] == (if dirty && t == sect then buf[..] else fs.disk[t])
                && fs.disk[t] == fs.view[t]
      {
        OwnInData(fs.g, |fs.disk|, chain, t);
      }
    }

    /** The buffered sector holds the bytes around the cursor. */
    lemma BufIsContent(k: nat)
      requires Steady() && At(fs.g, chain, fptr, clust) && sect == Sec(fs.g, chain, fptr / 512)
      requires fptr % 512 + k <= 512 && fptr + k <= objsize
      ensures buf.Length == 512 && |content| == objsize
      ensures buf[fptr % 512..fptr % 512 + k] == content[fptr..fptr + k]
    {
      CoreHolds(fs.g, fs.fat, fs.view, fs.winsect, chain, content, sect, buf[..], dirty, faith);
      CapIndex(fs.g, chain, fptr / 512);
      SecPlace(fs.g, |fs.view|, fs.fat, chain, fptr / 512);
      SectorHolds(fs.g, Cached(fs.view, sect, buf[..]), chain, content, fptr, k);
    }

    /** Brings the sector of byte fptr into the buffer (ff.c:5297-5316). */
    method BufferSector()
      requires Steady() && At(fs.g, chain, fptr, clust) && (!faith.Torn? || sect == Sec(fs.g, chain, fptr / 512))
      modifies `sect, `dirty, buf, fs`disk, fs`view
      ensures Steady() && |fs.disk| == |old(fs.disk)| && At(fs.g, chain, fptr, clust)
        && sect == Sec(fs.g, chain, fptr / 512)
      ensures Untouched(fs.g, chain, old(fs.view), fs.view)
      ensures old(sect) == Sec(fs.g, chain, fptr / 512) ==>
                fs.view == old(fs.view) && dirty == old(dirty) && buf[..] == old(buf[..])
    {
      hide Steady;
      RunInDisk(1);
      var s := Clst2Sect(fs.g, clust) + Of(fs.g, fptr / 512);
      if sect != s {
        FlushBuf();
        LoadBuf(s);
      }
    }

    /** A read of n bytes that needs no other sector in the buffer: one whole sector, or bytes of the buffered one. */
    ghost predicate OneSector(n: nat)
      reads `chain, `fptr, `sect, `dirty
    {
      && !dirty && fs.g.csize > 0 && Cl(fs.g, fptr / 512) < |chain|
      && ((fptr % 512 == 0 && n == 512)
          || (0 < n < 512 && fptr % 512 + n <= 512 && sect == Sec(fs.g, chain, fptr / 512)))
    }

    /** One round of f_read: a direct run of sectors, or bytes of the buffered sector. When the values differ, the one
        shows the flat disk and the other the buffer. */
    method ReadStep(btr: nat) returns (data: seq<byte>)
      requires Ready() && 0 < btr && fptr + btr <= objsize && (!faith.Torn? || OneSector(btr))
      modifies `fptr, `clust, `sect, `dirty, buf, fs`disk, fs`view, fs`winsect, fs`wflag, fs.win
      ensures Ready() && |content| == objsize && |fs.disk| == |old(fs.disk)|
      ensures Untouched(fs.g, chain, old(fs.view), fs.view)
      ensures 0 < |data| <= btr && fptr == old(fptr) + |data|
      ensures !faith.Torn? ==> data == content[old(fptr)..fptr]
      ensures old(OneSector(btr)) ==>
                fptr == old(fptr) + btr && sect == old(sect) && !dirty && buf[..] == old(buf[..])
                  && fs.view == old(fs.view)
      ensures old(OneSector(btr)) ==> OneRead(fs.g, chain, old(fptr), btr, buf[..], fs.view, data)
    {
      hide Steady, At, Cursor, OneSector, OneRead, Untouched;
      BufApart();
      OneNeeds(btr);
      UntouchedSame(fs.g, chain, fs.view);
      if fptr % 512 == 0 {
        ghost var one := OneSector(btr);
        LocateRead();
        if btr >= 512 {
          data := ReadSectors(btr);
          return;
        }
        BufferHere(one, btr);
        BufferSector();
      } else {
        InsideSector(fs.g, chain, objsize, fptr, clust, sect);
      }
      data := ReadBuffered(btr);
    }

    lemma BufferHere(one: bool, n: nat)
      requires (one ==> OneSector(n)) && n != 512
      ensures one ==> sect == Sec(fs.g, chain, fptr / 512)
    {
    }

    /** The direct part of a read step. */
    method ReadSectors(btr: nat) returns (data: seq<byte>)
      requires Steady() && fptr % 512 == 0 && 512 <= btr && fptr + btr <= objsize && At(fs.g, chain, fptr, clust)
      modifies `fptr
      ensures Ready() && |content| == objsize
      ensures 0 < |data| <= btr && fptr == old(fptr) + |data|
      ensures !faith.Torn? ==> data == content[old(fptr)..fptr]
      ensures btr == 512 ==> fptr == old(fptr) + 512
      ensures btr == 512 && !dirty ==> OneRead(fs.g, chain, old(fptr), 512, buf[..], fs.view, data)
    {
      hide Steady, At, OneRead, Cursor, Of;
      AtSize(fs.g, chain, fptr, clust);
      var cc := btr / 512;
      var csect := Of(fs.g, fptr / 512);
      OfBelow(fs.g, fptr / 512);
      if csect + cc > fs.g.csize {
        cc := fs.g.csize - csect;
      }
      data := ReadRun(cc);
      SizeOfContent();
      AdvanceRun(fs.g, chain, objsize, fptr, cc, clust, sect);
      fptr := fptr + cc * 512;
    }

    /** The part of a read step that copies from the buffer. */
    method ReadBuffered(btr: nat) returns (data: seq<byte>)
      requires Steady() && 0 < btr && fptr + btr <= objsize && At(fs.g, chain, fptr, clust)
      requires sect == Sec(fs.g, chain, fptr / 512)
      modifies `fptr
      ensures Ready() && |content| == objsize
      ensures 0 < |data| <= btr && fptr == old(fptr) + |data| && data == content[old(fptr)..fptr]
      ensures old(fptr) % 512 + btr <= 512 ==> fptr == old(fptr) + btr
      ensures old(fptr) % 512 + btr <= 512 && btr < 512 ==> OneRead(fs.g, chain, old(fptr), btr, buf[..], fs.view, data)
    {
      hide Steady, At, Cursor, Sec;
      var rcnt := 512 - fptr % 512;
      if rcnt > btr {
        rcnt := btr;
      }
      BufIsContent(rcnt);
      data := buf[fptr % 512..fptr % 512 + rcnt];
      AdvanceIn(fs.g, chain, objsize, fptr, rcnt, clust, sect);
      fptr := fptr + rcnt;
    }

    /** f_read: the bytes from the cursor on, up to the size; the content is unchanged. If bytes have two values, a
        whole sector is read from the disk and a part of the buffered one from the buffer. */
    method Read(n: nat) returns (res: FResult, data: seq<byte>)
      requires Valid() || (Ready() && err == FrOk && canRead && OneSector(n) && fptr + n <= objsize)
      modifies `fptr, `clust, `sect, `dirty, buf, fs`disk, fs`view, fs`winsect, fs`wflag, fs.win
      ensures (old(Valid()) ==> Valid()) && (old(Ready()) ==> Ready()) && |content| == objsize
                && |fs.disk| == |old(fs.disk)|
      ensures Untouched(fs.g, chain, old(fs.view), fs.view)
      ensures err != FrOk ==> res == err && data == [] && fptr == old(fptr)
      ensures err == FrOk && !canRead ==> res == FrDenied && data == [] && fptr == old(fptr)
      ensures err == FrOk && canRead ==>
                res == FrOk && fptr == (if old(fptr) + n < objsize then old(fptr) + n else objsize)
      ensures err == FrOk && canRead && !faith.Torn? ==> old(fptr) <= fptr && data == content[old(fptr)..fptr]
      ensures err == FrOk && canRead && old(OneSector(n) && fptr + n <= objsize) ==>
                && sect == old(sect) && !dirty && buf[..] == old(buf[..]) && fs.view == old(fs.view)
                && OneRead(fs.g, chain, old(fptr), n, buf[..], fs.view, data)
    {
      hide Steady, Cursor, Untouched, OneSector, OneRead;
      SizeOfContent();
      UntouchedSame(fs.g, chain, fs.view);
      data := [];
      if err != FrOk {
        return err, data;
      }
      if !canRead {
        return FrDenied, data;
      }
      CursorBound();
      var btr: nat := if n > objsize - fptr then objsize - fptr else n;
      ghost var end := fptr + btr;
      ghost var len := |fs.disk|;
      ghost var one := OneSector(n) && fptr + n <= objsize;
      OneNeeds(n);
      while btr > 0
        invariant Ready() && |fs.disk| == len && old(fptr) <= fptr && fptr + btr == end <= objsize == |content|
        invariant !faith.Torn? ==> data == content[old(fptr)..fptr]
        invariant Untouched(fs.g, chain, old(fs.view), fs.view)
        invariant one ==> fs.view == old(fs.view) && sect == old(sect) && buf[..] == old(buf[..])
        invariant one && btr > 0 ==> btr == n && fptr == old(fptr) && OneSector(n) && data == []
        invariant one && btr == 0 ==> !dirty && OneRead(fs.g, chain, old(fptr), n, buf[..], fs.view, data)
      {
        ghost var v, p := fs.view, fptr;
        var chunk := ReadStep(btr);
        if !faith.Torn? { SliceJoin(content, old(fptr), p, fptr); }
        UntouchedTrans(fs.g, chain, chain, old(fs.view), v, fs.view);
        btr := btr - |chunk|;
        data := data + chunk;
        assert one ==> data == chunk;
      }
      res := FrOk;
    }

    lemma BufApart()
      requires Steady()
      ensures buf != fs.win && buf.Length == 512
    {
    }

    lemma OneNeeds(n: nat)
      ensures OneSector(n) ==> 0 < n <= 512 && !dirty && (if n < 512 then fptr % 512 + n <= 512 else fptr % 512 == 0)
    {
    }

    /** create_chain on behalf of the file: an existing link, a new cluster at its end, 0 (full) or 1 (bad link). */
    method NextCluster(clst: nat) returns (r: nat)
      requires Steady()
      requires if chain == [] then clst == 0 else IsCluster(fs.g, clst) && fs.fat[clst] >= 2
      requires chain != [] && fs.fat[clst] >= |fs.fat| ==> clst == Last(chain)
      modifies `sclust, `chain, fs`disk, fs`winsect, fs`wflag, fs`view, fs`fat, fs`lastClst, fs`freeClst, fs`fsiFlag,
               fs.win
      ensures Steady() && |fs.disk| == |old(fs.disk)|
      ensures r < fs.g.nFatent
      ensures r <= 1 ==> chain == old(chain) && fs.fat == old(fs.fat)
      ensures r == 1 ==> 1 in fs.fat
      ensures r == 0 && Accurate(fs.freeClst, fs.fat) ==> Free(fs.fat) == {}
      ensures r == 0 ==> chain == [] || clst == Last(chain)
      ensures r >= 2 && clst != 0 && old(fs.fat)[clst] < |old(fs.fat)| ==> r == old(fs.fat)[clst] && chain == old(chain)
      ensures r >= 2 && (clst == 0 || old(fs.fat)[clst] >= |old(fs.fat)|) ==> chain == old(chain) + [r]
      ensures Untouched(fs.g, [], old(fs.view), fs.view) && Grew(old(fs.fat), fs.fat, old(chain), chain)
      ensures old(Accurate(fs.freeClst, fs.fat)) ==> Accurate(fs.freeClst, fs.fat)
      ensures Noted(fs.g.nFatent, old(fs.fsiFlag), old(fs.freeClst), fs.fsiFlag, fs.freeClst)
    {
      hide FatFs.Valid, Core, Accurate, Free, Off;
      ValidSizes(fs);
      SteadyFacts();
      r := CreateChain(fs, clst);
      ValidSizes(fs);
      ghost var f0, v0, w0 := old(fs.fat), old(fs.view), old(fs.winsect);
      OffMove(fs.g, |fs.disk|, others, w0, fs.winsect);
      if r >= 2 && (clst == 0 || f0[clst] >= |f0|) {
        CoreExtend(fs.g, f0, v0, w0, chain, content, sect, buf[..], dirty, faith, r, fs.view, fs.winsect);
        chain := chain + [r];
      } else {
        CoreMove(fs.g, f0, v0, w0, chain, content, sect, buf[..], dirty, faith, fs.view, fs.winsect);
      }
      if sclust == 0 && r >= 2 {
        sclust := r;
      }
    }

    /** On a sector boundary f_write follows or stretches the chain to byte fptr (ff.c:5374-5420). */
    method LocateWrite() returns (r: nat)
      requires Ready() && fptr % 512 == 0
      modifies `sclust, `clust, `chain, fs`disk, fs`winsect, fs`wflag, fs`view, fs`fat, fs`lastClst, fs`freeClst,
               fs`fsiFlag, fs.win
      ensures Steady() && |fs.disk| == |old(fs.disk)|
      ensures r <= 1 ==> chain == old(chain) && clust == old(clust)
      ensures r == 1 ==> 1 in fs.fat
      ensures r == 0 && Accurate(fs.freeClst, fs.fat) ==> Free(fs.fat) == {}
      ensures r == 0 ==> fptr == Cap(fs.g, chain) * 512
      ensures r >= 2 ==> At(fs.g, chain, fptr, clust)
      ensures Untouched(fs.g, [], old(fs.view), fs.view) && Grew(old(fs.fat), fs.fat, old(chain), chain)
      ensures old(Accurate(fs.freeClst, fs.fat)) ==> Accurate(fs.freeClst, fs.fat)
      ensures Noted(fs.g.nFatent, old(fs.fsiFlag), old(fs.freeClst), fs.fsiFlag, fs.freeClst)
    {
      hide Steady, At, Cursor, Good, HasChain, Untouched, Grew, Accurate, Free;
      SteadyFacts();
      LocateWriteStep(fs.g, fs.fat, chain, objsize, fptr, clust, sect);
      Unmoved(fs.g, chain, fs.view, fs.fat);
      UntouchedSame(fs.g, [], fs.view);
      r := 2;
      if Of(fs.g, fptr / 512) == 0 {
        if fptr == 0 {
          r := sclust;
          if r == 0 {
            r := NextCluster(0);
            NoCapacity(fs.g);
          }
        } else {
          CursorEnd(fs.g, fs.fat, chain, objsize, fptr, clust, sect);
          r := NextCluster(clust);
        }
        if r >= 2 {
          clust := r;
        }
      }
    }

    /** Whole sectors written directly; a buffered sector among them is refilled (ff.c:5432-5470). */
    method WriteRunHere(data: seq<byte>, cc: nat)
      requires Steady() && !dirty && !faith.Torn? && At(fs.g, chain, fptr, clust) && fptr % 512 == 0 && fptr <= objsize
      requires cc > 0 && |data| == cc * 512 && Of(fs.g, fptr / 512) + cc <= fs.g.csize && fptr + |data| < DWORD
      modifies `objsize, `content, buf, fs`disk, fs`view
      ensures Steady() && !dirty && |fs.disk| == |old(fs.disk)|
      ensures |old(content)| == old(objsize) && content == Splice(old(content), fptr, data)
      ensures Untouched(fs.g, chain, old(fs.view), fs.view)
    {
      hide FatFs.Valid, Core, Good, HasChain, Home, Cl, Of, Splice, Sectors, Off, Own, Untouched, Refilled, At,
        Clst2Sect, Sec, Cap, InFat2, IsCluster, Overlay;
      RunInDisk(cc);
      SplicedSize(content, fptr, data);
      var s := Clst2Sect(fs.g, clust) + Of(fs.g, fptr / 512);
      ghost var b := Refilled(s, data, cc, sect, buf[..]);
      CoreRun(fs.g, fs.fat, fs.view, fs.winsect, chain, content, sect, buf[..], faith, fptr, data, cc, b);
      RunUntouched(fs.g, chain, fs.view, s, Sectors(data, cc));
      RefilledIs(s, data, cc, sect, buf[..]);
      fs.WriteData(s, Sectors(data, cc));
      if s <= sect < s + cc {
        Fill(buf, data[(sect - s) * 512..(sect - s) * 512 + 512]);
      }
      content := Splice(content, fptr, data);
      objsize := if fptr + |data| > objsize then fptr + |data| else objsize;
    }

    /** Bytes stored into the sector buffer at the cursor (ff.c:5488-5515). */
    method StoreBytes(data: seq<byte>)
      requires Steady() && At(fs.g, chain, fptr, clust) && fptr <= objsize
      requires 0 < |data| && fptr % 512 + |data| <= 512 && fptr + |data| < DWORD
      requires sect == Sec(fs.g, chain, fptr / 512) || (!dirty && !faith.Torn? && fptr == objsize && fptr % 512 == 0)
      modifies `objsize, `content, `sect, `dirty, buf
      ensures Steady() && sect == Sec(fs.g, chain, fptr / 512)
      ensures |old(content)| == old(objsize) && content == Splice(old(content), fptr, data)
    {
      hide FatFs.Valid, Core, Good, HasChain, Own, Home, Cl, Of, Off, Splice, Clst2Sect, Cap, InFat2, IsCluster;
      RunInDisk(1);
      SplicedSize(content, fptr, data);
      OwnOnDisk(Clst2Sect(fs.g, clust) + Of(fs.g, fptr / 512));
      sect := Clst2Sect(fs.g, clust) + Of(fs.g, fptr / 512);
      ghost var t := Patched(buf[..], fptr % 512, data);
      CorePoke(fs.g, fs.fat, fs.view, fs.winsect, chain, content, old(sect), buf[..], dirty, faith, fptr, data, t);
      var o := fptr % 512;
      forall i | 0 <= i < |data| {
        buf[o + i] := data[i];
      }
      assert buf[..] == t;
      dirty := true;
      content := Splice(content, fptr, data);
      objsize := if fptr + |data| > objsize then fptr + |data| else objsize;
    }

    /** One round of f_write: a direct run of sectors, or bytes into the sector buffer. n == 0 means the volume is
        full, res != FrOk a bad link in the FAT. */
    method WriteStep(data: seq<byte>) returns (res: FResult, n: nat)
      requires Ready() && !faith.Torn? && 0 < |data| && fptr + |data| < DWORD
      modifies `fptr, `clust, `sect, `dirty, `sclust, `objsize, `chain, `content, buf,
               fs`disk, fs`view, fs`winsect, fs`wflag, fs`fat, fs`lastClst, fs`freeClst, fs`fsiFlag, fs.win
      ensures Ready() && |fs.disk| == |old(fs.disk)| && n <= |data|
      ensures old(fptr) <= |old(content)| && content == Splice(old(content), old(fptr), data[..n])
        && fptr == old(fptr) + n
      ensures res != FrOk ==> res == FrIntErr && n == 0 && 1 in fs.fat
      ensures res == FrOk && n == 0 && Accurate(fs.freeClst, fs.fat) ==> Free(fs.fat) == {}
      ensures res == FrOk && n == 0 ==> fptr == Cap(fs.g, chain) * 512
      ensures Untouched(fs.g, chain, old(fs.view), fs.view) && Grew(old(fs.fat), fs.fat, old(chain), chain)
      ensures old(Accurate(fs.freeClst, fs.fat)) ==> Accurate(fs.freeClst, fs.fat)
      ensures Noted(fs.g.nFatent, old(fs.fsiFlag), old(fs.freeClst), fs.fsiFlag, fs.freeClst)
    {
      hide Steady, At, Untouched, Grew, Accurate, Free;
      SizeOfContent();
      CursorBound();
      ghost var v0 := fs.view;
      if fptr % 512 == 0 {
        var r := LocateWrite();
        UntouchedMore(fs.g, chain, v0, fs.view);
        if r <= 1 {
          SpliceNothing(content, fptr, data);
          return if r == 0 then FrOk else FrIntErr, 0;
        }
        ghost var v1 := fs.view;
        FlushBuf();
        UntouchedTrans(fs.g, chain, chain, v0, v1, fs.view);
        n := WriteAligned(data, v0);
      } else {
        InsideSector(fs.g, chain, objsize, fptr, clust, sect);
        Unmoved(fs.g, chain, fs.view, fs.fat);
        n := WriteBuffered(data);
      }
      res := FrOk;
    }

    /** The buffered part of a write step: up to the end of the sector. */
    method WriteBuffered(data: seq<byte>) returns (n: nat)
      requires Steady() && At(fs.g, chain, fptr, clust) && 0 < |data| && fptr + |data| < DWORD && fptr <= objsize
      requires sect == Sec(fs.g, chain, fptr / 512) || (!dirty && !faith.Torn? && fptr == objsize && fptr % 512 == 0)
      modifies `fptr, `sect, `dirty, `objsize, `content, buf
      ensures Ready() && 0 < n <= |data| && |old(content)| == old(objsize)
      ensures content == Splice(old(content), old(fptr), data[..n]) && fptr == old(fptr) + n
    {
      hide Steady, At;
      n := 512 - fptr % 512;
      if n > |data| {
        n := |data|;
      }
      StoreBytes(data[..n]);
      SteadyFacts();
      AdvanceIn(fs.g, chain, objsize, fptr, n, clust, sect);
      fptr := fptr + n;
    }

    /** The aligned part of a write step, with a clean buffer. */
    method WriteAligned(data: seq<byte>, ghost v0: seq<Sector>) returns (n: nat)
      requires Steady() && !dirty && !faith.Torn? && At(fs.g, chain, fptr, clust)
      requires 0 < |data| && fptr + |data| < DWORD && fptr <= objsize && fptr % 512 == 0
      requires Untouched(fs.g, chain, v0, fs.view)
      modifies `fptr, `sect, `dirty, `objsize, `content, buf, fs`disk, fs`view
      ensures Ready() && |fs.disk| == |old(fs.disk)| && 0 < n <= |data| && |old(content)| == old(objsize)
      ensures content == Splice(old(content), old(fptr), data[..n]) && fptr == old(fptr) + n
      ensures Untouched(fs.g, chain, v0, fs.view)
    {
      hide Steady, At, Untouched;
      AtSize(fs.g, chain, fptr, clust);
      RunInDisk(1);
      var cc := |data| / 512;
      var csect := Of(fs.g, fptr / 512);
      if cc > 0 {
        if csect + cc > fs.g.csize {
          cc := fs.g.csize - csect;
        }
        n := cc * 512;
        ghost var v1 := fs.view;
        WriteRunHere(data[..n], cc);
        UntouchedTrans(fs.g, chain, chain, v0, v1, fs.view);
        SteadyFacts();
        AdvanceRun(fs.g, chain, objsize, fptr, cc, clust, sect);
        fptr := fptr + n;
        return;
      }
      var s := Clst2Sect(fs.g, clust) + csect;
      if sect != s && fptr < objsize {
        LoadBuf(s);
      }
      n := WriteBuffered(data);
    }

    /** f_write: the content is overwritten from the cursor on and grows at the end. A write is short only when
        the 4 GiB limit clips it or no cluster is free. */
    method Write(buff: seq<byte>) returns (res: FResult, bw: nat)
      requires Valid() && |buff| < DWORD
      modifies `fptr, `clust, `sect, `dirty, `modified, `err, `sclust, `objsize, `chain, `content, buf,
               fs`disk, fs`view, fs`winsect, fs`wflag, fs`fat, fs`lastClst, fs`freeClst, fs`fsiFlag, fs.win
      ensures Valid() && |fs.disk| == |old(fs.disk)| && bw <= |buff|
      ensures old(err) != FrOk ==> res == old(err) && bw == 0 && content == old(content) && fptr == old(fptr)
      ensures old(err) == FrOk && !canWrite ==> res == FrDenied && bw == 0
      ensures old(err) == FrOk ==>
                && old(fptr) <= |old(content)|
                && content == Splice(old(content), old(fptr), buff[..bw])
                && fptr == old(fptr) + bw
      ensures old(err) == FrOk && canWrite && 1 !in fs.fat ==> res == FrOk
      ensures res == FrOk ==> modified && err == FrOk
      ensures old(err) == FrOk && canWrite && res != FrOk ==> err == res
      ensures res == FrOk && bw < |buff| && fptr != MAX_SIZE && Accurate(fs.freeClst, fs.fat) ==> Free(fs.fat) == {}
      ensures res == FrOk && bw < |buff| && fptr != MAX_SIZE ==> fptr == Cap(fs.g, chain) * 512
      ensures Untouched(fs.g, chain, old(fs.view), fs.view) && Grew(old(fs.fat), fs.fat, old(chain), chain)
      ensures old(Accurate(fs.freeClst, fs.fat)) ==> Accurate(fs.freeClst, fs.fat)
      ensures Noted(fs.g.nFatent, old(fs.fsiFlag), old(fs.freeClst), fs.fsiFlag, fs.freeClst)
    {
      hide Steady, Cursor, Untouched, Grew, Accurate, Free, Splice, Cap;
      bw := 0;
      SizeOfContent();
      Unmoved(fs.g, chain, fs.view, fs.fat);
      if err != FrOk {
        return err, bw;
      }
      CursorBound();
      SpliceNothing(content, fptr, buff);
      if !canWrite {
        return FrDenied, bw;
      }
      var btw := |buff|;
      if (fptr + btw) % DWORD < fptr {
        btw := MAX_SIZE - fptr;
      }
      ghost var len := |fs.disk|;
      while bw < btw
        invariant Ready() && |fs.disk| == len && bw <= btw && fptr == old(fptr) + bw && err == FrOk
        invariant content == Splice(old(content), old(fptr), buff[..bw])
        invariant Untouched(fs.g, chain, old(fs.view), fs.view) && Grew(old(fs.fat), fs.fat, old(chain), chain)
        invariant old(Accurate(fs.freeClst, fs.fat)) ==> Accurate(fs.freeClst, fs.fat)
        invariant Noted(fs.g.nFatent, old(fs.fsiFlag), old(fs.freeClst), fs.fsiFlag, fs.freeClst)
      {
        ghost var v, f, c, t := fs.view, fs.fat, chain, content;
        var r, n := WriteStep(buff[bw..btw]);
        Trans(fs.g, old(chain), c, chain, old(fs.view), v, fs.view, old(fs.fat), f, fs.fat);
        SpliceTwice(old(content), old(fptr), buff, bw, btw, n);
        if r != FrOk {
          err := r;
          return r, bw;
        }
        if n == 0 {
          break;
        }
        bw := bw + n;
      }
      modified := true;
      res := FrOk;
    }

    /** The cluster following loop of f_lseek (ff.c:6121-6170). In write mode it stretches the chain; ofs == 0 at the
        end means that the volume is full. */
    method Follow(ofs0: nat, ghost k0: nat) returns (res: FResult, ofs: nat, ghost k: nat)
      requires Steady() && Following(fs.g, chain, fptr, k0, clust) && ofs0 > 0
      requires !canWrite ==> fptr + ofs0 <= objsize
      modifies `fptr, `clust, `sclust, `chain,
               fs`disk, fs`winsect, fs`wflag, fs`view, fs`fat, fs`lastClst, fs`freeClst, fs`fsiFlag, fs.win
      ensures Steady() && |fs.disk| == |old(fs.disk)|
      ensures res == FrOk || (res == FrIntErr && 1 in fs.fat)
      ensures res == FrOk && ofs > 0 ==>
                Following(fs.g, chain, fptr, k, clust) && ofs <= ClusterBytes(fs.g) && fptr + ofs == old(fptr) + ofs0
      ensures res == FrOk && ofs == 0 ==>
                && canWrite && Cursor(fs.g, chain, fptr, fptr, clust, 0) && fptr < old(fptr) + ofs0
                && fptr == Cap(fs.g, chain) * 512
                && (Accurate(fs.freeClst, fs.fat) ==> Free(fs.fat) == {})
      ensures Untouched(fs.g, [], old(fs.view), fs.view) && Grew(old(fs.fat), fs.fat, old(chain), chain)
      ensures old(Accurate(fs.freeClst, fs.fat)) ==> Accurate(fs.freeClst, fs.fat)
      ensures Noted(fs.g.nFatent, old(fs.fsiFlag), old(fs.freeClst), fs.fsiFlag, fs.freeClst)
    {
      hide Steady, Following, Cursor, Untouched, Grew, Accurate, Free, ClusterBytes, Good, HasChain, Cap;
      ofs, k := ofs0, k0;
      ghost var n := |fs.disk|;
      ghost var end := fptr + ofs0;
      Unmoved(fs.g, chain, fs.view, fs.fat);
      UntouchedSame(fs.g, [], fs.view);
      while ofs > ClusterBytes(fs.g)
        invariant Steady() && |fs.disk| == n && Following(fs.g, chain, fptr, k, clust)
        invariant 0 < ofs && fptr + ofs == end && (!canWrite ==> end <= objsize)
        invariant Untouched(fs.g, [], old(fs.view), fs.view) && Grew(old(fs.fat), fs.fat, old(chain), chain)
        invariant old(Accurate(fs.freeClst, fs.fat)) ==> Accurate(fs.freeClst, fs.fat)
        invariant Noted(fs.g.nFatent, old(fs.fsiFlag), old(fs.freeClst), fs.fsiFlag, fs.freeClst)
        decreases ofs
      {
        FollowFacts(k);
        ofs := ofs - ClusterBytes(fs.g);
        ghost var base := fptr;
        ghost var v, f, c := fs.view, fs.fat, chain;
        fptr := fptr + ClusterBytes(fs.g);
        var clst;
        if canWrite {
          clst := NextCluster(clust);
          GrewTrans(old(fs.fat), f, fs.fat, old(chain), c, chain);
          UntouchedTrans(fs.g, [], [], old(fs.view), v, fs.view);
          FollowGrown(fs.g, c, chain, base, k, clust);
          if clst == 0 {
            SeekNext(fs.g, chain, base, k, clust);
            SteadyFacts();
            SeekFull(fs.g, fs.fat, chain, base, k, clust);
            ofs := 0;
            res := FrOk;
            return;
          }
          if clst == 1 {
            return FrIntErr, ofs, k;
          }
        } else {
          SteadyFacts();
          BelowCapOf(fs.g, chain, base, k, clust, end);
          clst := GetLink(clust);
        }
        SeekNext(fs.g, chain, base, k, clust);
        clust := clst;
        k := k + 1;
      }
      res := FrOk;
    }

    lemma FollowFacts(k: nat)
      requires Steady() && Following(fs.g, chain, fptr, k, clust)
      ensures fs.g.csize > 0 && k < |chain| && clust == chain[k] && IsCluster(fs.g, clust) && fs.fat[clust] >= 2
      ensures ClusterBytes(fs.g) > 0 && |fs.fat| == fs.g.nFatent
      ensures if k + 1 < |chain| then fs.fat[clust] == chain[k + 1] < |fs.fat|
                else fs.fat[clust] >= |fs.fat| && clust == Last(chain)
    {
      SteadyFacts();
      LinkOf(fs.fat, chain, k);
    }

    /** The start of a seek (ff.c:6090-6119): from the current cluster forwards, or from the first cluster,
        which is allocated if there is none. It leaves fptr on the first byte of the start cluster. */
    method SeekOrigin(ofs0: nat) returns (res: FResult, ofs: nat, ghost k: nat)
      requires Ready() && ofs0 > 0 && (!canWrite ==> ofs0 <= objsize)
      modifies `fptr, `clust, `sclust, `chain,
               fs`disk, fs`winsect, fs`wflag, fs`view, fs`fat, fs`lastClst, fs`freeClst, fs`fsiFlag, fs.win
      ensures Steady() && |fs.disk| == |old(fs.disk)|
      ensures res == FrOk || (res == FrIntErr && 1 in fs.fat)
      ensures res == FrOk && ofs > 0 ==> Following(fs.g, chain, fptr, k, clust) && fptr + ofs == ofs0
      ensures res == FrOk && ofs == 0 ==> chain == []
      ensures res == FrOk && ofs == 0 ==>
                fptr == 0 && canWrite && (Accurate(fs.freeClst, fs.fat) ==> Free(fs.fat) == {})
      ensures Untouched(fs.g, [], old(fs.view), fs.view) && Grew(old(fs.fat), fs.fat, old(chain), chain)
      ensures old(Accurate(fs.freeClst, fs.fat)) ==> Accurate(fs.freeClst, fs.fat)
      ensures Noted(fs.g.nFatent, old(fs.fsiFlag), old(fs.freeClst), fs.fsiFlag, fs.freeClst)
    {
      hide Steady, Following, Untouched, Grew, Accurate, Free, Good, HasChain, Cap;
      SteadyFacts();
      Unmoved(fs.g, chain, fs.view, fs.fat);
      UntouchedSame(fs.g, [], fs.view);
      hide ClusterBytes, Cursor, ClusterNo, ClusterStart;
      ofs, k := ofs0, 0;
      res := FrOk;
      if fptr > 0 && ClusterNo(fs.g, ofs - 1) >= ClusterNo(fs.g, fptr - 1) {
        k := ClusterNo(fs.g, fptr - 1);
        SeekStart(fs.g, chain, objsize, fptr, clust, sect);
        ForwardSeek(fs.g, ofs, fptr);
        fptr := ClusterStart(fs.g, fptr - 1);
        ofs := ofs - fptr;
      } else {
        fptr := 0;
        var clst := sclust;
        if clst == 0 {
          EmptyFile();
          clst := NextCluster(0);
          if clst == 1 {
            res := FrIntErr;
            return;
          }
          if clst == 0 {
            ofs := 0;
            return;
          }
          SteadyFacts();
        }
        clust := clst;
        FollowFirst(fs.g, chain);
      }
    }

    lemma EmptyFile()
      requires Steady() && sclust == 0
      ensures chain == [] && objsize == 0
    {
    }

    /** f_lseek: the cursor moves to ofs. Past the end a writable file grows, its old bytes kept; it stops earlier
        only when no cluster is free. A read-only file stops at its end. */
    method Lseek(ofs0: nat) returns (res: FResult)
      requires Valid() || (Ready() && err == FrOk && ofs0 % 512 == 0 && ofs0 <= objsize)
      requires ofs0 < DWORD
      modifies `fptr, `clust, `sect, `dirty, `modified, `err, `sclust, `objsize, `chain, `content, `faith, buf,
               fs`disk, fs`view, fs`winsect, fs`wflag, fs`fat, fs`lastClst, fs`freeClst, fs`fsiFlag, fs.win
      ensures Steady() && (err == FrOk ==> Ready()) && (!faith.Torn? ==> Valid()) && |fs.disk| == |old(fs.disk)|
      ensures faith == (if objsize > old(objsize) && !old(faith).Same? then Torn else old(faith))
      ensures res != FrOk ==> objsize == old(objsize)
      ensures old(err) != FrOk ==> res == old(err) && content == old(content) && fptr == old(fptr)
      ensures old(err) == FrOk && 1 !in fs.fat ==> res == FrOk
      ensures err == res
      ensures old(content) <= content && |content| == objsize
      ensures res == FrOk ==> err == FrOk && objsize == (if fptr > old(objsize) then fptr else old(objsize))
      ensures res == FrOk && !canWrite ==> fptr == (if ofs0 > old(objsize) then old(objsize) else ofs0)
      ensures res == FrOk && canWrite ==>
                fptr == ofs0 || (fptr < ofs0 && (Accurate(fs.freeClst, fs.fat) ==> Free(fs.fat) == {}))
      ensures res == FrOk && canWrite && fptr < ofs0 ==> fptr == Cap(fs.g, chain) * 512
      ensures res == FrOk && fptr > old(objsize) ==> modified
      ensures res == FrOk && fptr % 512 == 0 ==> sect == old(sect) && dirty == old(dirty) && buf[..] == old(buf[..])
      ensures res == FrOk && fptr % 512 == 0 ==> Untouched(fs.g, [], old(fs.view), fs.view)
      ensures Untouched(fs.g, chain, old(fs.view), fs.view) && Grew(old(fs.fat), fs.fat, old(chain), chain)
      ensures old(Accurate(fs.freeClst, fs.fat)) ==> Accurate(fs.freeClst, fs.fat)
      ensures Noted(fs.g.nFatent, old(fs.fsiFlag), old(fs.freeClst), fs.fsiFlag, fs.freeClst)
    {
      hide Steady, Untouched, Grew, Accurate, Free, Cursor, Cap;
      SizeOfContent();
      BufApart();
      Unmoved(fs.g, chain, fs.view, fs.fat);
      if err != FrOk {
        return err;
      }
      var ofs := if ofs0 > objsize && !canWrite then objsize else ofs0;
      var nsect;
      res, nsect := SeekTo(ofs);
      UntouchedMore(fs.g, chain, old(fs.view), fs.view);
      if res != FrOk {
        err := res;
        return;
      }
      ghost var v := fs.view;
      SettleAt(nsect);
      UntouchedTrans(fs.g, chain, chain, old(fs.view), v, fs.view);
    }

    /** The cluster walk of f_lseek, with the sector of a cursor inside a sector. */
    method SeekTo(ofs0: nat) returns (res: FResult, nsect: nat)
      requires Ready() && (!canWrite ==> ofs0 <= objsize) && ofs0 < DWORD
      modifies `fptr, `clust, `sclust, `chain,
               fs`disk, fs`winsect, fs`wflag, fs`view, fs`fat, fs`lastClst, fs`freeClst, fs`fsiFlag, fs.win
      ensures Steady() && |fs.disk| == |old(fs.disk)|
      ensures res == FrOk || (res == FrIntErr && 1 in fs.fat)
      ensures res == FrOk ==> Cursor(fs.g, chain, fptr, fptr, clust, nsect) && fptr <= ofs0
      ensures res == FrOk && !canWrite ==> fptr == ofs0
      ensures res == FrOk && fptr < ofs0 ==> (Accurate(fs.freeClst, fs.fat) ==> Free(fs.fat) == {})
      ensures res == FrOk && fptr < ofs0 ==> fptr == Cap(fs.g, chain) * 512
      ensures Untouched(fs.g, [], old(fs.view), fs.view) && Grew(old(fs.fat), fs.fat, old(chain), chain)
      ensures old(Accurate(fs.freeClst, fs.fat)) ==> Accurate(fs.freeClst, fs.fat)
      ensures Noted(fs.g.nFatent, old(fs.fsiFlag), old(fs.freeClst), fs.fsiFlag, fs.freeClst)
    {
      hide Steady, Following, Untouched, Grew, Accurate, Free, ClusterBytes;
      SteadyFacts();
      Unmoved(fs.g, chain, fs.view, fs.fat);
      UntouchedSame(fs.g, [], fs.view);
      nsect := 0;
      res := FrOk;
      if ofs0 == 0 {
        fptr := 0;
        return;
      }
      var ofs;
      ghost var k;
      res, ofs, k := SeekOrigin(ofs0);
      NoCapacity(fs.g);
      if res != FrOk || ofs == 0 {
        return;
      }
      ghost var v, f, c := fs.view, fs.fat, chain;
      res, ofs, k := Follow(ofs, k);
      GrewTrans(old(fs.fat), f, fs.fat, old(chain), c, chain);
      UntouchedTrans(fs.g, [], [], old(fs.view), v, fs.view);
      if res != FrOk || ofs == 0 {
        return;
      }
      if ofs % 512 != 0 {
        nsect := Clst2Sect(fs.g, clust) + ofs / 512;
      }
      SeekEnd(fs.g, chain, fptr, k, clust, ofs, nsect);
      fptr := fptr + ofs;
    }

    /** The end of f_lseek (ff.c:6200-6231): inside a sector the buffer follows the cursor, and the size does. The
        source raises the size first; neither step looks at what the other changes. */
    method SettleAt(nsect: nat)
      requires Steady() && Cursor(fs.g, chain, fptr, fptr, clust, nsect) && fptr < DWORD
        && (!faith.Torn? || fptr % 512 == 0)
      modifies `sect, `dirty, `modified, `objsize, `content, `faith, buf, fs`disk, fs`view
      ensures Ready() && |fs.disk| == |old(fs.disk)|
      ensures old(content) <= content && |content| == objsize == (if fptr > old(objsize) then fptr else old(objsize))
      ensures fptr > old(objsize) ==> modified
      ensures faith == if objsize > old(objsize) && !old(faith).Same? then Torn else old(faith)
      ensures Untouched(fs.g, chain, old(fs.view), fs.view)
      ensures fptr % 512 == 0 ==>
                sect == old(sect) && dirty == old(dirty) && buf[..] == old(buf[..]) && fs.view == old(fs.view)
    {
      hide Steady, Cursor, Untouched;
      SizeOfContent();
      UntouchedSame(fs.g, chain, fs.view);
      if fptr % 512 != 0 && nsect != sect {
        CursorOwns(nsect);
        FlushBuf();
        LoadBuf(nsect);
      }
      if fptr > objsize {
        Enlarge(nsect);
      }
      CursorSector(fs.g, chain, fptr, objsize, clust, nsect, sect);
    }

    /** The size raised to the cursor; the new bytes are whatever the clusters hold, seen through the buffer. */
    method Enlarge(ghost nsect: nat)
      requires Steady() && Cursor(fs.g, chain, fptr, fptr, clust, nsect) && objsize < fptr < DWORD
      modifies `objsize, `content, `modified, `faith
      ensures Steady() && old(content) <= content && |content| == objsize == fptr && modified
      ensures faith == if old(faith).Same? then Same else Torn
    {
      hide FatFs.Valid, Core;
      CursorCap(fs.g, chain, fptr, clust, nsect);
      CoreHolds(fs.g, fs.fat, fs.view, fs.winsect, chain, content, sect, buf[..], dirty, faith);
      CoreStretch(fs.g, fs.fat, fs.view, fs.winsect, chain, content, sect, buf[..], dirty, faith, fptr);
      content := Stretched(fs.g, Cached(fs.view, sect, buf[..]), chain, content, fptr);
      faith := if faith.Same? then Same else Torn;
      objsize := fptr;
      modified := true;
    }

    lemma CursorOwns(nsect: nat)
      requires Steady() && Cursor(fs.g, chain, fptr, fptr, clust, nsect) && fptr % 512 != 0
      ensures Own(fs.g, chain, nsect)
    {
      CapIndex(fs.g, chain, fptr / 512);
      SecPlace(fs.g, |fs.disk|, fs.fat, chain, fptr / 512);
    }

    /** The whole chain removed (ff.c:6637-6641). */
    method RemoveAll()
      requires Steady() && chain != []
      modifies `sclust, fs`disk, fs`winsect, fs`wflag, fs`view, fs`fat, fs`freeClst, fs`fsiFlag, fs.win
      ensures fs.Valid() && |fs.disk| == |old(fs.disk)| && |fs.view| == |old(fs.view)| && sclust == 0
      ensures IsChain(old(fs.fat), chain) && fs.fat == Behind(fs.g, old(fs.fat), chain, 0)
      ensures forall s :: 0 <= s < |fs.view| && !InFat1(fs.g, s) ==> fs.view[s] == old(fs.view)[s]
      ensures InFat1(fs.g, fs.winsect) || fs.winsect == old(fs.winsect)
      ensures old(Accurate(fs.freeClst, fs.fat)) ==> Accurate(fs.freeClst, fs.fat)
      ensures Noted(fs.g.nFatent, old(fs.fsiFlag), old(fs.freeClst), fs.fsiFlag, fs.freeClst)
    {
      SteadyFacts();
      hide Steady, FatFs.Valid, Good, IsChain, Accurate;
      ValidSizes(fs);
      assert chain[0..] == chain;
      var res := RemoveChain(fs, sclust, 0, chain);
      ValidSizes(fs);
      sclust := 0;
    }

    /** The clusters behind the current one removed (ff.c:6642-6653). */
    method RemoveBehind(ghost k: nat)
      requires Steady() && 0 < k <= |chain| && clust == chain[k - 1] && IsCluster(fs.g, clust)
      requires if k < |chain| then fs.fat[clust] == chain[k] else fs.fat[clust] >= |fs.fat|
      modifies fs`disk, fs`winsect, fs`wflag, fs`view, fs`fat, fs`freeClst, fs`fsiFlag, fs.win
      ensures fs.Valid() && |fs.disk| == |old(fs.disk)| && |fs.view| == |old(fs.view)|
      ensures IsChain(old(fs.fat), chain) && fs.fat == Behind(fs.g, old(fs.fat), chain, k)
      ensures forall s :: 0 <= s < |fs.view| && !InFat1(fs.g, s) ==> fs.view[s] == old(fs.view)[s]
      ensures InFat1(fs.g, fs.winsect) || fs.winsect == old(fs.winsect)
      ensures old(Accurate(fs.freeClst, fs.fat)) ==> Accurate(fs.freeClst, fs.fat)
      ensures Noted(fs.g.nFatent, old(fs.fsiFlag), old(fs.freeClst), fs.fsiFlag, fs.freeClst)
    {
      SteadyFacts();
      ghost var f0 := fs.fat;
      assert k < |chain| ==> chain[k] < |fs.fat|;
      hide Steady, FatFs.Valid, Good, IsChain, Accurate;
      ValidSizes(fs);
      if k < |chain| {
        RestIsChain(f0, chain, k);
      }
      var ncl := fs.GetFat(clust);
      if ncl < fs.g.nFatent {
        var res := RemoveChain(fs, ncl, clust, chain[k..]);
      }
      ValidSizes(fs);
    }

    /** f_truncate: the content is cut at the cursor; the clusters behind it become free. */
    method Truncate() returns (res: FResult)
      requires Valid()
      modifies `sclust, `objsize, `dirty, `modified, `chain, `content,
               fs`disk, fs`winsect, fs`wflag, fs`view, fs`fat, fs`freeClst, fs`fsiFlag, fs.win
      ensures Valid() && |fs.disk| == |old(fs.disk)|
      ensures err != FrOk ==> res == err && content == old(content)
      ensures err == FrOk && !canWrite ==> res == FrDenied && content == old(content)
      ensures err == FrOk && canWrite ==> res == FrOk && fptr <= |old(content)| && content == old(content)[..fptr]
      ensures content != old(content) ==> modified
      ensures chain <= old(chain) && Pruned(old(fs.fat), fs.fat, old(chain), |chain|)
      ensures Untouched(fs.g, old(chain), old(fs.view), fs.view)
      ensures err == FrOk && canWrite && old(fptr < objsize) ==> !dirty && |chain| == Clusters(fs.g, fptr)
      ensures err == FrOk && canWrite && old(fptr < objsize) ==>
                WrittenBack(fs.g, old(fs.view), fs.view, sect, buf[..], old(dirty))
      ensures old(Accurate(fs.freeClst, fs.fat)) ==> Accurate(fs.freeClst, fs.fat)
      ensures Noted(fs.g.nFatent, old(fs.fsiFlag), old(fs.freeClst), fs.fsiFlag, fs.freeClst)
    {
      hide Steady, Cursor, Pruned, Untouched, WrittenBack, Clusters, Accurate;
      SizeOfContent();
      NothingPruned(fs.fat, chain);
      UntouchedSame(fs.g, chain, fs.view);
      if err != FrOk {
        return err;
      }
      if !canWrite {
        return FrDenied;
      }
      CursorBound();
      res := FrOk;
      if fptr < objsize {
        TruncateHere();
      } else {
        assert content[..fptr] == content;
      }
    }

    /** The chain cut behind the cursor; the buffer, the size and the content are not adjusted yet. */
    method CutLinks(ghost k: nat)
      requires Ready() && fptr < objsize && k == Clusters(fs.g, fptr)
      modifies `sclust, fs`disk, fs`winsect, fs`wflag, fs`view, fs`fat, fs`freeClst, fs`fsiFlag, fs.win
      ensures fs.Valid() && |fs.disk| == |old(fs.disk)| && |fs.view| == |old(fs.view)|
      ensures IsChain(old(fs.fat), chain) && k <= |chain| && fs.fat == Behind(fs.g, old(fs.fat), chain, k)
      ensures sclust == (if k == 0 then 0 else chain[0]) && fptr <= k * fs.g.csize * 512
      ensures Cursor(fs.g, chain[..k], fptr, fptr, clust, sect)
      ensures forall s :: 0 <= s < |fs.view| && !InFat1(fs.g, s) ==> fs.view[s] == old(fs.view)[s]
      ensures InFat1(fs.g, fs.winsect) || fs.winsect == old(fs.winsect)
      ensures old(Accurate(fs.freeClst, fs.fat)) ==> Accurate(fs.freeClst, fs.fat)
      ensures Noted(fs.g.nFatent, old(fs.fsiFlag), old(fs.freeClst), fs.fsiFlag, fs.freeClst)
    {
      hide Steady, Good, HasChain, Accurate, Cursor, IsChain, Cap, Behind;
      SteadyFacts();
      ChainNotEmpty(fs.g, chain, objsize);
      ClustersHold(fs.g, fptr);
      if fptr == 0 {
        CursorAtStart(fs.g, clust, sect);
        RemoveAll();
      } else {
        CutPoint(fs.g, fs.fat, chain, objsize, fptr, clust, sect);
        RemoveBehind(k);
      }
    }

    /** Write-back of the buffer whatever cluster its sector belongs to now (ff.c:6658-6666). */
    method WriteBack()
      requires fs.Valid() && buf.Length == 512 && buf != fs.win
      requires dirty ==> fs.g.database <= sect < |fs.disk| && sect != fs.winsect
      modifies `dirty, fs`disk, fs`view
      ensures fs.Valid() && !dirty && |fs.disk| == |old(fs.disk)| && |old(fs.view)| == |fs.disk|
      ensures fs.view == if old(dirty) && sect < |old(fs.view)| then old(fs.view)[sect := buf[..]] else old(fs.view)
    {
      hide FatFs.Valid;
      ValidSizes(fs);
      if dirty {
        fs.WriteData(sect, [buf[..]]);
        dirty := false;
      }
    }

    /** The chain is cut and the buffer written back; the object still has its old chain, size and content. */
    method CutAndFlush(ghost k: nat)
      requires Ready() && fptr < objsize && k == Clusters(fs.g, fptr)
      modifies `sclust, `dirty, fs`disk, fs`winsect, fs`wflag, fs`view, fs`fat, fs`freeClst, fs`fsiFlag, fs.win
      ensures fs.Valid() && |fs.disk| == |old(fs.disk)| && !dirty && k <= |chain|
        && fptr <= |content| == objsize < DWORD
      ensures Core(fs.g, fs.fat, fs.view, fs.winsect, chain[..k], content[..fptr], sect, buf[..], false, faith)
      ensures Home(fs.g, |fs.disk|, fs.fat, chain[..k], dirClst, dirSect, dirOfs) && sect != dirSect && buf != fs.win
        && buf.Length == 512
      ensures sclust == (if k == 0 then 0 else chain[0]) && Cursor(fs.g, chain[..k], fptr, fptr, clust, sect)
      ensures Pruned(old(fs.fat), fs.fat, chain, k) && Untouched(fs.g, chain, old(fs.view), fs.view)
      ensures WrittenBack(fs.g, old(fs.view), fs.view, sect, buf[..], old(dirty))
      ensures Off(fs.g, others, fs.winsect) && dirClst !in others
      ensures old(Accurate(fs.freeClst, fs.fat)) ==> Accurate(fs.freeClst, fs.fat)
      ensures Noted(fs.g.nFatent, old(fs.fsiFlag), old(fs.freeClst), fs.fsiFlag, fs.freeClst)
    {
      hide FatFs.Valid, Core, Good, HasChain, Accurate, Cursor, IsChain, Cap, Behind, Clusters, Pruned, Untouched, Own,
        Cached, Home, Off;
      SteadyFacts();
      ghost var g, n, f0, v0, w0 := fs.g, |fs.disk|, fs.fat, fs.view, fs.winsect;
      BufPlace(g, f0, v0, w0, chain, content, sect, buf[..], dirty, faith);
      CutLinks(k);
      ghost var v1 := fs.view;
      WriteBack();
      Truncated(g, n, f0, v0, v1, w0, chain, content, sect, buf[..], old(dirty), faith, k, fptr, fs.view, fs.winsect);
      HomePruned(g, n, f0, fs.fat, chain, k, dirClst, dirSect, dirOfs);
      OffMove(g, n, others, w0, fs.winsect);
    }

    method TruncateHere()
      requires Ready() && fptr < objsize
      modifies `sclust, `objsize, `dirty, `modified, `chain, `content,
               fs`disk, fs`winsect, fs`wflag, fs`view, fs`fat, fs`freeClst, fs`fsiFlag, fs.win
      ensures Ready() && |fs.disk| == |old(fs.disk)| && modified
      ensures fptr <= |old(content)| && content == old(content)[..fptr]
      ensures chain <= old(chain) && Pruned(old(fs.fat), fs.fat, old(chain), |chain|)
      ensures Untouched(fs.g, old(chain), old(fs.view), fs.view)
      ensures !dirty && |chain| == Clusters(fs.g, fptr)
      ensures WrittenBack(fs.g, old(fs.view), fs.view, sect, buf[..], old(dirty))
      ensures old(Accurate(fs.freeClst, fs.fat)) ==> Accurate(fs.freeClst, fs.fat)
      ensures Noted(fs.g.nFatent, old(fs.fsiFlag), old(fs.freeClst), fs.fsiFlag, fs.freeClst)
    {
      hide FatFs.Valid, Core, Accurate, Cursor, Clusters, Pruned, Untouched, Home;
      ClusterSize();
      ghost var k := Clusters(fs.g, fptr);
      CutAndFlush(k);
      chain := chain[..k];
      content := content[..fptr];
      objsize := fptr;
      modified := true;
    }

    lemma ClusterSize()
      requires Steady()
      ensures fs.g.csize > 0
    {
      SteadyFacts();
    }

    /** f_sync: a modified file is written out; afterwards the disk alone holds its content, its chain and a directory
        entry that leads to them. The result reports the failing disk_ioctl. */
    method Sync() returns (res: FResult)
      requires Valid()
      modifies `dirty, `modified, fs`disk, fs`view, fs`winsect, fs`wflag, fs`fsiFlag, fs.win
      ensures Valid() && |fs.disk| == |old(fs.disk)| && !modified
      ensures res == if old(modified) then FrDiskErr else FrOk
      ensures old(modified) ==>
                && !dirty && !fs.wflag
                && Good(fs.g, |fs.disk|) && Stored(fs.g, fs.disk, Table(fs.g, fs.disk), dirSect, dirOfs, chain, content)
                && Home(fs.g, |fs.disk|, Table(fs.g, fs.disk), chain, dirClst, dirSect, dirOfs)
      ensures old(modified) ==>
                Table(fs.g, fs.disk) == fs.fat
                && SyncedAs(fs.g, old(fs.view), fs.disk, chain, dirSect, dirOfs, sclust, objsize)
    {
      hide Steady, Cursor, Good, Stored, Home, SyncedAs, Untouched, SyncEntry, Table;
      res := FrOk;
      if modified {
        ghost var v0 := fs.view;
        FlushBuf();
        EntryPlaceOk();
        ghost var v1 := fs.view;
        StampEntry();
        ghost var v2 := fs.view;
        res := WriteOut();
        SyncedBy(fs.g, v0, v1, v2, fs.disk, chain, dirSect, dirOfs, sclust, objsize);
        modified := false;
      }
    }

    lemma WindowElsewhere()
      requires Steady()
      ensures !Own(fs.g, chain, fs.winsect)
    {
    }

    lemma FsInfoIsOff()
      requires Good(fs.g, |fs.disk|) && fs.winsect == fs.g.volbase + 1
      ensures Off(fs.g, others, fs.winsect)
    {
      FatInsideDisk(fs.g, |fs.disk|);
      FatNotEmpty(fs.g, |fs.disk|);
      FatIsOff(fs.g, |fs.disk|, others, fs.winsect);
    }

    /** sync_fs on behalf of the file. */
    method WriteOut() returns (res: FResult)
      requires Steady() && !dirty && Stored(fs.g, fs.view, fs.fat, dirSect, dirOfs, chain, content)
      modifies fs`disk, fs`view, fs`winsect, fs`wflag, fs`fsiFlag, fs.win
      ensures Steady() && |fs.disk| == |old(fs.disk)| && !fs.wflag && res == FrDiskErr
      ensures Good(fs.g, |fs.disk|) && Stored(fs.g, fs.disk, Table(fs.g, fs.disk), dirSect, dirOfs, chain, content)
      ensures Home(fs.g, |fs.disk|, Table(fs.g, fs.disk), chain, dirClst, dirSect, dirOfs)
      ensures Table(fs.g, fs.disk) == fs.fat && |old(fs.view)| == |fs.disk|
      ensures forall s :: 0 <= s < |fs.disk| && !InFat2(fs.g, s) && s != fs.g.volbase + 1 ==>
                fs.disk[s] == old(fs.view)[s]
    {
      hide FatFs.Valid, Core, Home, Good, HasChain, Own, Stored, FsInfo, Off, InFat1, InFat2, Cap, Links;
      EntryPlaceOk();
      SteadyFacts();
      WindowElsewhere();
      ghost var v0, w0 := fs.view, fs.winsect;
      res := fs.SyncFs();
      ValidSizes(fs);
      LinksOf(fs);
      if fs.winsect != w0 { FsInfoIsOff(); }
      CoreFrame(fs.g, fs.fat, v0, w0, chain, content, sect, buf[..], dirty, faith, fs.view, fs.winsect);
      StoredOnDisk(fs.g, fs.disk, v0, fs.view, fs.fat, dirClst, dirSect, dirOfs, chain, content);
    }

    /** The directory entry rewritten in the window (ff.c:5622-5657). */
    method StampEntry()
      requires Steady() && !dirty && !faith.Torn?
      modifies fs`disk, fs`view, fs`winsect, fs`wflag, fs.win
      ensures Steady() && |fs.disk| == |old(fs.disk)|
      ensures Stored(fs.g, fs.view, fs.fat, dirSect, dirOfs, chain, content)
      ensures dirSect < |old(fs.view)| && dirOfs + 32 <= 512
      ensures fs.view == old(fs.view)[dirSect := SyncEntry(fs.g, old(fs.view)[dirSect], dirOfs, sclust, objsize)]
    {
      hide FatFs.Valid, Core, Home, Good, HasChain, Own, Off, InFat1, InFat2, Stored, LdClust, SyncEntry;
      EntryPlaceOk();
      SteadyFacts();
      ValidSizes(fs);
      ghost var v0, w0 := fs.view, fs.winsect;
      fs.MoveWindow(dirSect);
      fs.StoreWindow(SyncEntry(fs.g, fs.win[..], dirOfs, sclust, objsize));
      HomeIsOff(fs.g, |fs.disk|, fs.fat, chain, dirClst, dirSect, dirOfs, others);
      CoreFrame(fs.g, fs.fat, v0, w0, chain, content, sect, buf[..], dirty, faith, fs.view, fs.winsect);
      CoreOnDisk(fs.g, fs.fat, fs.view, fs.winsect, chain, content, sect, buf[..], faith);
      StampedEntry(fs.g, fs.fat, v0, fs.view, fs.winsect, chain, content, sclust, objsize, sect, buf[..], dirOfs);
    }

    lemma EntryPlaceOk()
      requires Steady()
      ensures dirSect < |fs.disk| && dirOfs + 32 <= 512 && !InFat1(fs.g, dirSect) && !InFat2(fs.g, dirSect)
      ensures dirSect > fs.g.volbase + 1 && !Own(fs.g, chain, dirSect)
      ensures sclust < (if fs.g.fsType.Fat32? then DWORD else 0x1_0000) && objsize < DWORD
      ensures !Own(fs.g, chain, fs.g.volbase + 1) && (sect != 0 ==> sect != fs.g.volbase + 1)
    {
      HomeAway(fs.g, |fs.disk|, fs.fat, chain, dirClst, dirSect, dirOfs);
      FatInsideDisk(fs.g, |fs.disk|);
      FatNotEmpty(fs.g, |fs.disk|);
      if Own(fs.g, chain, fs.g.volbase + 1) {
        OwnInData(fs.g, |fs.disk|, chain, fs.g.volbase + 1);
      }
    }

    lemma CursorBound()
      requires Ready()
      ensures fptr <= objsize
    {
    }

    lemma SizeOfContent()
      requires Steady()
      ensures |content| == objsize < DWORD
    {
    }
  }

  /** The disk after f_sync: outside the FAT, the file and the FSInfo sector only the directory entry is rewritten. */
  ghost predicate SyncedAs(g: Geometry, v: seq<Sector>, w: seq<Sector>, chain: seq<nat>, dirSect: nat, dirOfs: nat,
                           sclust: nat, size: nat) {
    && |w| == |v| && dirSect < |v| && dirOfs + 32 <= 512
    && forall s :: 0 <= s < |v| && !InFat1(g, s) && !InFat2(g, s) && !Own(g, chain, s) && s != g.volbase + 1 ==>
         w[s] == if s == dirSect then SyncEntry(g, v[dirSect], dirOfs, sclust, size) else v[s]
  }

  lemma SyncedBy(g: Geometry, v0: seq<Sector>, v1: seq<Sector>, v2: seq<Sector>, w: seq<Sector>, chain: seq<nat>,
                 dirSect: nat, dirOfs: nat, sclust: nat, size: nat)
    requires Untouched(g, chain, v0, v1) && |w| == |v1| && dirSect < |v1| && dirOfs + 32 <= 512
    requires !InFat1(g, dirSect) && !Own(g, chain, dirSect)
    requires v2 == v1[dirSect := SyncEntry(g, v1[dirSect], dirOfs, sclust, size)]
    requires forall s :: 0 <= s < |w| && !InFat2(g, s) && s != g.volbase + 1 ==> w[s] == v2[s]
    ensures SyncedAs(g, v0, w, chain, dirSect, dirOfs, sclust, size)
  {
    hide SyncEntry, Own;
  }

  lemma BootNoFat(g: Geometry, n: nat, chain: seq<nat>)
    requires Good(g, n)
    ensures g.volbase < n && !InFat1(g, g.volbase) && !InFat2(g, g.volbase) && !Own(g, chain, g.volbase)
  {
    FatInsideDisk(g, n);
    if Own(g, chain, g.volbase) {
      OwnInData(g, n, chain, g.volbase);
    }
  }

  /** data over s at offset o. */
  ghost function Patched(s: seq<byte>, o: nat, data: seq<byte>): (r: seq<byte>)
    requires o + |data| <= |s|
    ensures |r| == |s|
    ensures forall i :: 0 <= i < |s| ==> r[i] == if o <= i < o + |data| then data[i - o] else s[i]
  {
    s[..o] + data + s[o + |data|..]
  }

  lemma SpliceNothing(content: seq<byte>, pos: nat, data: seq<byte>)
    requires pos <= |content|
    ensures Splice(content, pos, data[..0]) == content
  {
  }

  /** Writing a buffer in two parts. */
  lemma SplicedSize(content: seq<byte>, pos: nat, data: seq<byte>)
    requires pos <= |content|
    ensures |Splice(content, pos, data)| == if pos + |data| > |content| then pos + |data| else |content|
  {
  }

  /** A run of sectors of the file leaves all others alone. */
  lemma RunUntouched(g: Geometry, chain: seq<nat>, v: seq<Sector>, s: nat, data: seq<Sector>)
    requires s + |data| <= |v| && forall t :: s <= t < s + |data| ==> Own(g, chain, t)
    ensures Untouched(g, chain, v, Overlay(v, s, data))
  {
    hide Own;
  }

  lemma RefilledIs(s: nat, data: seq<byte>, cc: nat, sect: nat, buf: seq<byte>)
    requires |data| == cc * 512
    ensures s <= sect < s + cc ==>
              0 <= (sect - s) * 512 && (sect - s) * 512 + 512 <= |data|
              && Refilled(s, data, cc, sect, buf) == data[(sect - s) * 512..(sect - s) * 512 + 512]
    ensures !(s <= sect < s + cc) ==> Refilled(s, data, cc, sect, buf) == buf
  {
  }

  /** What such a read gives: a whole sector is one of the flat disk, a part is one of the buffer. */
  ghost predicate OneRead(g: Geometry, chain: seq<nat>, p: nat, n: nat, buf: seq<byte>, view: seq<Sector>,
                          data: seq<byte>) {
    if n == 512 then g.csize > 0 && Cl(g, p / 512) < |chain| && Sec(g, chain, p / 512) < |view|
                     && data == view[Sec(g, chain, p / 512)]
    else p % 512 + n <= |buf| && data == buf[p % 512..p % 512 + n]
  }

  lemma OneShown(g: Geometry, chain: seq<nat>, p: nat, buf: seq<byte>, view: seq<Sector>, data: seq<byte>)
    requires g.csize > 0 && Cl(g, p / 512) < |chain| && Sec(g, chain, p / 512) < |view|
    requires data == view[Sec(g, chain, p / 512)]
    ensures OneRead(g, chain, p, 512, buf, view, data)
  {
  }

  lemma OfBelow(g: Geometry, j: nat)
    requires g.csize > 0
    ensures Of(g, j) < g.csize
  {
  }

  lemma SeekFull(g: Geometry, fat: seq<nat>, chain: seq<nat>, base: nat, k: nat, clst: nat)
    requires HasChain(g, fat, chain) && Following(g, chain, base, k, clst) && clst == Last(chain)
    ensures base + ClusterBytes(g) == Cap(g, chain) * 512
  {
    ChainAcyclic(fat, chain);
    assert k == |chain| - 1;
    Rearrange(g.csize, k);
  }

  lemma Rearrange(c: nat, k: nat)
    ensures c * 512 * k + c * 512 == (k + 1) * c * 512
  {
  }

  lemma NoCapacity(g: Geometry)
    ensures Cap(g, []) == 0
  {
  }

  /** At a cluster boundary behind the last cluster the whole capacity lies before the cursor. */
  lemma CursorEnd(g: Geometry, fat: seq<nat>, chain: seq<nat>, size: nat, fptr: nat, clust: nat, sect: nat)
    requires HasChain(g, fat, chain) && Cursor(g, chain, size, fptr, clust, sect) && 0 < fptr
    requires fptr % 512 == 0 && Of(g, fptr / 512) == 0 && chain != []
    ensures clust == Last(chain) ==> fptr == Cap(g, chain) * 512
  {
    var j := fptr / 512;
    PreviousSector(g, j);
    assert (fptr - 1) / 512 == j - 1;
    if clust == Last(chain) {
      ChainAcyclic(fat, chain);
      assert Cl(g, j - 1) == |chain| - 1;
      DivRemOf(j, g.csize);
    }
  }

  lemma DivRemOf(j: nat, c: nat)
    requires c > 0
    ensures j == c * (j / c) + j % c
  {
  }

  lemma FlatOne(secs: seq<Sector>)
    requires |secs| == 1
    ensures Flat(secs) == secs[0]
  {
  }

  lemma SliceJoin(s: seq<byte>, a: nat, b: nat, c: nat)
    requires a <= b <= c <= |s|
    ensures s[a..b] + s[b..c] == s[a..c]
  {
  }

  lemma SpliceTwice(content: seq<byte>, pos: nat, buff: seq<byte>, bw: nat, btw: nat, n: nat)
    requires pos <= |content| && bw <= btw <= |buff| && n <= btw - bw
    ensures Splice(Splice(content, pos, buff[..bw]), pos + bw, buff[bw..btw][..n]) ==
              Splice(content, pos, buff[..bw + n])
  {
  }

  lemma Trans(g: Geometry, a: seq<nat>, b: seq<nat>, c: seq<nat>, v: seq<Sector>, v': seq<Sector>, v'': seq<Sector>,
              f: seq<nat>, f': seq<nat>, f'': seq<nat>)
    requires Untouched(g, b, v, v') && Untouched(g, c, v', v'') && Grew(f, f', a, b) && Grew(f', f'', b, c)
    ensures Untouched(g, c, v, v'') && Grew(f, f'', a, c)
  {
    UntouchedTrans(g, b, c, v, v', v'');
    GrewTrans(f, f', f'', a, b, c);
  }

  /** The links after f_truncate kept k clusters of the chain. */
  ghost function Behind(g: Geometry, fat: seq<nat>, chain: seq<nat>, k: nat): (r: seq<nat>)
    requires IsChain(fat, chain) && k <= |chain|
    ensures |r| == |fat|
  {
    if k == 0 then Freed(fat, chain) else if k < |chain| then Shortened(g, fat, chain, k) else fat
  }

  lemma BehindFacts(g: Geometry, n: nat, fat: seq<nat>, chain: seq<nat>, k: nat)
    requires Good(g, n) && HasChain(g, fat, chain) && IsChain(fat, chain) && k <= |chain|
    ensures HasChain(g, Behind(g, fat, chain, k), chain[..k])
    ensures Pruned(fat, Behind(g, fat, chain, k), chain, k)
  {
    SliceIn(chain, k);
    if 0 < k < |chain| {
      CutChain(g, n, fat, chain, k);
    } else if k == |chain| {
      assert chain[..k] == chain;
    }
  }

  /** Outside the FAT the flat disk is the one before with a dirty buffer written back. */
  ghost predicate WrittenBack(g: Geometry, v: seq<Sector>, v': seq<Sector>, sect: nat, buf: seq<byte>, dirty: bool) {
    && |v'| == |v| && sect < |v| && |buf| == 512
    && forall s :: 0 <= s < |v| && !InFat1(g, s) ==> v'[s] == Seen(v, sect, buf, dirty)[s]
  }

  /** Where a dirty buffer is written back. */
  lemma BufPlace(g: Geometry, fat: seq<nat>, view: seq<Sector>, winsect: nat, chain: seq<nat>, content: seq<byte>,
                 sect: nat, buf: seq<byte>, dirty: bool, faith: Faith)
    requires Core(g, fat, view, winsect, chain, content, sect, buf, dirty, faith)
    ensures |buf| == 512 && sect < |view|
    ensures dirty ==> g.database <= sect && sect != winsect && !InFat1(g, sect) && Own(g, chain, sect)
                      && Seen(view, sect, buf, dirty) == view[sect := buf]
  {
    if dirty {
      OwnInData(g, |view|, chain, sect);
    }
  }

  /** The view after the links were cut and the buffer written back. */
  lemma CutView(g: Geometry, chain: seq<nat>, v0: seq<Sector>, v1: seq<Sector>, v2: seq<Sector>,
                sect: nat, buf: seq<byte>, dirty: bool)
    requires |v1| == |v0| == |v2| && sect < |v0| && |buf| == 512
    requires forall s :: 0 <= s < |v0| && !InFat1(g, s) ==> v1[s] == v0[s]
    requires v2 == if dirty then v1[sect := buf] else v1
    requires dirty ==> Own(g, chain, sect) && Seen(v0, sect, buf, dirty) == v0[sect := buf]
    ensures forall s :: 0 <= s < |v0| && !InFat1(g, s) ==> v2[s] == Seen(v0, sect, buf, dirty)[s]
    ensures Untouched(g, chain, v0, v2)
  {
  }

  /** The file behind the cut, once the buffer is written back. */
  lemma Truncated(g: Geometry, n: nat, f0: seq<nat>, v0: seq<Sector>, v1: seq<Sector>, w0: nat, chain: seq<nat>,
                  content: seq<byte>, sect: nat, buf: seq<byte>, dirty: bool, faith: Faith, k: nat, m: nat,
                  v2: seq<Sector>, w2: nat)
    requires Core(g, f0, v0, w0, chain, content, sect, buf, dirty, faith) && Good(g, n) && IsChain(f0, chain)
      && HasChain(g, f0, chain)
    requires k <= |chain| && m <= |content| && m <= k * g.csize * 512 && |v1| == |v0| == |v2| == n && sect < n
    requires forall s :: 0 <= s < |v0| && !InFat1(g, s) ==> v1[s] == v0[s]
    requires v2 == if dirty then v1[sect := buf] else v1
    requires InFat1(g, w2) || w2 == w0
    ensures Core(g, Behind(g, f0, chain, k), v2, w2, chain[..k], content[..m], sect, buf, false, faith)
    ensures Pruned(f0, Behind(g, f0, chain, k), chain, k) && Untouched(g, chain, v0, v2)
    ensures WrittenBack(g, v0, v2, sect, buf, dirty)
  {
    hide Core, Good, HasChain, IsChain, Behind, Pruned, Untouched, Own, Cached, Seen;
    BufPlace(g, f0, v0, w0, chain, content, sect, buf, dirty, faith);
    BehindFacts(g, n, f0, chain, k);
    CutView(g, chain, v0, v1, v2, sect, buf, dirty);
    CoreCut(g, f0, v0, w0, chain, content, sect, buf, dirty, faith, k, m, Behind(g, f0, chain, k), v2, w2);
  }

  lemma NothingPruned(fat: seq<nat>, chain: seq<nat>)
    ensures Pruned(fat, fat, chain, |chain|)
  {
  }

  lemma HomePruned(g: Geometry, n: nat, fat: seq<nat>, fat': seq<nat>, chain: seq<nat>, k: nat,
                   dirClst: nat, dirSect: nat, dirOfs: nat)
    requires Home(g, n, fat, chain, dirClst, dirSect, dirOfs) && Pruned(fat, fat', chain, k)
    ensures Home(g, n, fat', chain[..k], dirClst, dirSect, dirOfs)
  {
  }

  lemma LinksOf(fs: FatFs)
    requires fs.Valid()
    ensures Links(fs.g, fs.view, fs.fat)
  {
  }

  /** The window's new entry describes the file whose clean content the flat disk holds. */
  lemma StampedEntry(g: Geometry, fat: seq<nat>, v0: seq<Sector>, v: seq<Sector>, dirSect: nat, chain: seq<nat>,
                     content: seq<byte>, sclust: nat, size: nat, sect: nat, buf: seq<byte>, dirOfs: nat)
    requires |v0| == |v| && dirSect < |v| && dirOfs + 32 <= 512
    requires v[dirSect] == SyncEntry(g, v0[dirSect], dirOfs, sclust, size)
    requires sclust < (if g.fsType.Fat32? then DWORD else 0x1_0000) && size == |content| < DWORD
    requires sclust == if chain == [] then 0 else chain[0]
    requires Holds(g, v, chain, content) && HasChain(g, fat, chain)
    ensures Stored(g, v, fat, dirSect, dirOfs, chain, content)
  {
    SyncEntryReads(g, v0[dirSect], dirOfs, sclust, size);
  }

  /** What the flat disk stores is on the disk once the window is clean; only the FSInfo sector was rewritten. */
  lemma StoredOnDisk(g: Geometry, d: seq<Sector>, v0: seq<Sector>, v: seq<Sector>, fat: seq<nat>,
                     dirClst: nat, dirSect: nat, dirOfs: nat, chain: seq<nat>, content: seq<byte>)
    requires Good(g, |d|) && |v0| == |v| == |d| && Links(g, v, fat)
    requires forall s :: 0 <= s < |d| && !InFat2(g, s) ==> d[s] == v[s]
    requires forall s :: 0 <= s < |d| && s != g.volbase + 1 ==> v[s] == v0[s]
    requires Stored(g, v0, fat, dirSect, dirOfs, chain, content) && Home(g, |d|, fat, chain, dirClst, dirSect, dirOfs)
    ensures Stored(g, d, Table(g, d), dirSect, dirOfs, chain, content)
    ensures Home(g, |d|, Table(g, d), chain, dirClst, dirSect, dirOfs) && Table(g, d) == fat
  {
    FatsApart(g);
    HomeAway(g, |d|, fat, chain, dirClst, dirSect, dirOfs);
    LinksFrame(g, v, d, fat);
    assert Table(g, d) == fat;
    forall j | 0 <= j < Cap(g, chain) && Cl(g, j) < |chain|
      ensures d[Sec(g, chain, j)] == v0[Sec(g, chain, j)]
    {
      SecPlace(g, |d|, fat, chain, j);
      FatNotEmpty(g, |d|);
    }
    HoldsFrame(g, v0, d, chain, content);
  }

  lemma CursorAtStart(g: Geometry, clust: nat, sect: nat)
    requires g.csize > 0
    ensures Cursor(g, [], 0, 0, clust, sect)
  {
  }

  lemma FollowGrown(g: Geometry, chain: seq<nat>, chain': seq<nat>, base: nat, k: nat, clst: nat)
    requires Following(g, chain, base, k, clst) && chain <= chain'
    ensures Following(g, chain', base, k, clst)
  {
  }

  lemma BelowCapOf(g: Geometry, chain: seq<nat>, base: nat, k: nat, clst: nat, x: nat)
    requires Following(g, chain, base, k, clst) && base + ClusterBytes(g) < x <= Cap(g, chain) * 512
    ensures k + 1 < |chain|
  {
    BelowCap(g, chain, base, k, x);
  }

  lemma ForwardSeek(g: Geometry, ofs: nat, fptr: nat)
    requires g.csize > 0 && ofs > 0 && fptr > 0 && ClusterNo(g, ofs - 1) >= ClusterNo(g, fptr - 1)
    ensures ClusterStart(g, fptr - 1) < ofs
  {
    hide ClusterBytes;
    var b, k, l := ClusterBytes(g), ClusterNo(g, fptr - 1), ClusterNo(g, ofs - 1);
    assert ofs - 1 == b * l + (ofs - 1) % b;
    MulLe(b, k, l);
  }

  lemma MulLe(b: nat, k: nat, l: nat)
    requires k <= l
    ensures b * k <= b * l
  {
  }

  lemma FollowFirst(g: Geometry, chain: seq<nat>)
    requires chain != [] && g.csize > 0
    ensures Following(g, chain, 0, 0, chain[0])
  {
  }

  /** A cursor whose sector is buffered, for any size it does not exceed. */
  lemma CursorSector(g: Geometry, chain: seq<nat>, fptr: nat, size: nat, clust: nat, nsect: nat, sect: nat)
    requires Cursor(g, chain, fptr, fptr, clust, nsect) && fptr <= size
    ensures Cursor(g, chain, size, fptr, clust, nsect)
    ensures fptr % 512 == 0 ==> Cursor(g, chain, size, fptr, clust, sect)
  {
  }

  lemma ChainNotEmpty(g: Geometry, chain: seq<nat>, size: nat)
    requires 0 < size <= Cap(g, chain) * 512
    ensures chain != []
  {
  }

  lemma Unmoved(g: Geometry, chain: seq<nat>, v: seq<Sector>, fat: seq<nat>)
    ensures Untouched(g, chain, v, v) && Grew(fat, fat, chain, chain)
  {
  }

  /** What touches only the FAT touches no more than the FAT and a chain. */
  lemma UntouchedMore(g: Geometry, chain: seq<nat>, v: seq<Sector>, v': seq<Sector>)
    requires Untouched(g, [], v, v')
    ensures Untouched(g, chain, v, v')
  {
  }

  lemma UntouchedSame(g: Geometry, chain: seq<nat>, v: seq<Sector>)
    ensures Untouched(g, chain, v, v)
  {
  }

  lemma AtSize(g: Geometry, chain: seq<nat>, fptr: nat, clust: nat)
    requires At(g, chain, fptr, clust)
    ensures g.csize > 0
  {
  }
}
