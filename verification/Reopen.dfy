/** Durability: what f_sync leaves on the disk is found again, by name, after a fresh mount. */
module Reopen {
  import opened Bytes
  import opened Geometry
  import opened FatTable
  import opened Volume
  import opened Chain
  import opened ChainRuns
  import opened FileRep
  import opened FileState
  import opened File
  import opened FileRuns
  import opened LongNames
  import opened DirRep
  import opened DirScan
  import opened Directory
  import opened DirEdit
  import opened DirOps

  // ----- the directory after f_sync

  /** The entry describes another object of the same name. */
  predicate SameName11(e: DirEntry, e': DirEntry) {
    IsSfn(e) && IsSfn(e') && e'[..11] == e[..11]
  }

  /** The search does not look at anything else of a short-name entry. */
  lemma {:induction false} FindStable(key: Key, l: seq<DirEntry>, q: nat, e: DirEntry, i: nat, st: Scan)
    requires |key.buf| == 256 && q < |l| && i <= |l| && SameName11(l[q], e)
    ensures FindFrom(key, l[q := e], i, st) == FindFrom(key, l, i, st)
    decreases |l| - i
  {
    hide Step, SumOf;
    if i < |l| {
      if i == q {
        assert e[..11][0] == l[q][..11][0];
        StepsAlike(key, st, l[q], e, i);
      }
      if !IsEnd(l[i]) && !Stops(key, st, l[i]) {
        FindStable(key, l, q, e, i + 1, Step(key, st, l[i], i));
      }
    }
  }

  lemma StepsAlike(key: Key, st: Scan, e: DirEntry, e': DirEntry, i: nat)
    requires |key.buf| == 256 && SameName11(e, e')
    ensures Step(key, st, e', i) == Step(key, st, e, i) && (Stops(key, st, e') <==> Stops(key, st, e))
  {
  }

  /** A sector that differs in one slot only. */
  lemma SlotOnly(s: Sector, t: Sector, k: nat)
    requires k < 16 && forall i :: 0 <= i < 512 && !(k * 32 <= i < k * 32 + 32) ==> t[i] == s[i]
    ensures t == SetSlot(s, k, t[k * 32..k * 32 + 32])
  {
  }

  lemma SlotKeepsName(s: Sector, t: Sector, o: nat)
    requires o + 32 <= 512 && (forall i :: o <= i < o + 11 ==> t[i] == s[i]) && t[o + 11] == SetArchive(s[o + 11])
    ensures IsSfn(s[o..o + 32]) ==> SameName11(s[o..o + 32], t[o..o + 32])
  {
    hide SetArchive;
    ArchiveKind(s[o + 11]);
    var e, e' := s[o..o + 32], t[o..o + 32];
    assert e'[..11] == e[..11];
    assert e'[11] == SetArchive(e[11]) && e'[0] == e[0];
  }

  /** f_sync rewrites the entry in its slot and keeps its name. */
  lemma SyncedSlot(g: Geometry, s: Sector, k: nat, cl: nat, size: nat)
    requires k < 16 && cl < (if g.fsType.Fat32? then DWORD else 0x1_0000) && size < DWORD
    ensures var t := SyncEntry(g, s, k * 32, cl, size);
            t == SetSlot(s, k, t[k * 32..k * 32 + 32])
            && (IsSfn(s[k * 32..k * 32 + 32]) ==> SameName11(s[k * 32..k * 32 + 32], t[k * 32..k * 32 + 32]))
  {
    hide SyncEntry, LdClust, Ld32, SameName11, SetArchive, SetSlot;
    SyncEntryReads(g, s, k * 32, cl, size);
    var t := SyncEntry(g, s, k * 32, cl, size);
    SlotOnly(s, t, k);
    SlotKeepsName(s, t, k * 32);
  }

  lemma ArchiveKind(a: byte)
    ensures SetArchive(a) % 0x40 / 8 % 2 == a % 0x40 / 8 % 2
  {
    var x: nat, r: nat := a as int, a as int % 0x40;
    if x / 0x20 % 2 == 0 {
      assert r < 0x20;
      assert (x + 0x20) % 0x40 == r + 0x20;
      assert (r + 0x20) / 8 == r / 8 + 4;
    }
  }

  /** The file's directory entry is number q of the directory. */
  ghost predicate EntryOf(f: File, d: Dir, q: nat)
    reads f, f.fs, f.fs.win, d, d.fs, d.fs.win
  {
    && d.fs == f.fs && d.Whole() && q < Count(f.fs.g, d.chain) && SecOf(f.fs.g, d.chain, q / 16) == f.dirSect
    && q % 16 * 32 == f.dirOfs && Apart(f.chain, d.chain)
  }

  /** The directory's sectors after f_sync. */
  lemma SyncedSectors(g: Geometry, n: nat, fat: seq<nat>, v: seq<Sector>, w: seq<Sector>, a: seq<nat>, chain: seq<nat>,
                      dirSect: nat, dirOfs: nat, cl: nat, size: nat)
    requires IsTable(g, n, fat, chain) && |v| == n && SyncedAs(g, v, w, a, dirSect, dirOfs, cl, size)
    requires Apart(a, chain) && HasChain(g, fat, a)
    ensures |w| == n && dirSect < n && dirOfs + 32 <= 512
    ensures forall s :: 0 <= s < n && Mine(g, chain, s) && !InFat1(g, s) ==>
                          w[s] == v[dirSect := SyncEntry(g, v[dirSect], dirOfs, cl, size)][s]
  {
    hide Mine, IsTable, HasChain, Apart, SyncEntry, InFat1, InFat2, Own;
    forall s | 0 <= s < n && Mine(g, chain, s) && !InFat1(g, s)
      ensures w[s] == v[dirSect := SyncEntry(g, v[dirSect], dirOfs, cl, size)][s]
    {
      TableSector(g, n, fat, a, chain, s);
    }
  }

  /** The directory on the disk after f_sync: the old one with the file's entry rewritten. */
  lemma SyncedListing(g: Geometry, n: nat, fat: seq<nat>, v: seq<Sector>, w: seq<Sector>, a: seq<nat>, chain: seq<nat>,
                      q: nat, dirSect: nat, dirOfs: nat, cl: nat, size: nat)
    requires IsTable(g, n, fat, chain) && |v| == n && SyncedAs(g, v, w, a, dirSect, dirOfs, cl, size) && Apart(a, chain)
    requires q < Count(g, chain) && SecOf(g, chain, q / 16) == dirSect && q % 16 * 32 == dirOfs
    requires cl < (if g.fsType.Fat32? then DWORD else 0x1_0000) && size < DWORD && HasChain(g, fat, a)
    ensures var e := SyncEntry(g, v[dirSect], dirOfs, cl, size)[dirOfs..dirOfs + 32];
            Entries(g, w, chain) == Entries(g, v, chain)[q := e]
            && (IsSfn(Entries(g, v, chain)[q]) ==> SameName11(Entries(g, v, chain)[q], e))
  {
    hide SyncEntry, IsTable, SetSlot, IsWalk, SyncedAs, Mine, Count, SecOf, HasChain, Apart, InFat1;
    SyncedSectors(g, n, fat, v, w, a, chain, dirSect, dirOfs, cl, size);
    var t := SyncEntry(g, v[dirSect], dirOfs, cl, size);
    var e, u := t[dirOfs..dirOfs + 32], v[dirSect := t];
    TableIsWalk(g, n, fat, chain);
    SyncedSlot(g, v[dirSect], q % 16, cl, size);
    EntriesStore(g, n, fat, chain, v, q, e);
    EntriesFrame(g, n, fat, chain, u, w);
    assert Entries(g, v, chain)[q] == v[dirSect][dirOfs..dirOfs + 32];
  }

  /** A sector of the directory is neither the file's, nor in a FAT, nor the FSInfo sector. */
  lemma TableSector(g: Geometry, n: nat, fat: seq<nat>, a: seq<nat>, chain: seq<nat>, s: nat)
    requires IsTable(g, n, fat, chain) && HasChain(g, fat, a) && Apart(a, chain) && Mine(g, chain, s)
    ensures s < n && !InFat1(g, s) && !InFat2(g, s) && !Own(g, a, s) && s != g.volbase + 1
  {
    FatInsideDisk(g, n);
    FatNotEmpty(g, n);
    if chain == [] {
      RootPlace(g, n, s - g.dirbase);
      if Own(g, a, s) { OwnInData(g, n, a, s); }
    } else {
      OwnInData(g, n, chain, s);
      SectorsApart(g, a, chain, s);
    }
  }

  // ----- sync, mount, find, read

  /** The volume was mounted from its boot sector. */
  ghost predicate Booted(fs: FatFs)
    reads fs
  {
    && fs.g.volbase < |fs.view| && Mountable(fs.view, fs.g.volbase)
    && ParseBpb(fs.view[fs.g.volbase], fs.g.volbase) == Some(fs.g)
  }

  /** f_sync of a modified file and a fresh mount of the same disk, from its boot sector. */
  method SyncAndMount(f: File) returns (fs: FatFs)
    requires f.Valid() && f.modified && Booted(f.fs)
    modifies f, f.fs, f.fs.win
    ensures f.Valid() && f.content == old(f.content) && f.chain == old(f.chain) && f.sclust == old(f.sclust)
    ensures f.objsize == old(f.objsize)
    ensures fresh(fs) && fresh(fs.win) && fs.Valid() && fs.g == f.fs.g && fs.view == fs.disk && fs.fat == old(f.fs.fat)
    ensures |fs.view| == old(|f.fs.view|) == old(|f.fs.disk|)
    ensures Stored(fs.g, fs.view, fs.fat, f.dirSect, f.dirOfs, f.chain, f.content)
    ensures Home(fs.g, |fs.disk|, fs.fat, f.chain, f.dirClst, f.dirSect, f.dirOfs)
    ensures SyncedAs(fs.g, old(f.fs.view), fs.view, f.chain, f.dirSect, f.dirOfs, f.sclust, f.objsize)
  {
    hide File.Steady, Stored, Home, Good, FatFs.Valid, ParseBpb, HasFsInfo, RsvdSecCnt, SyncEntry, Own, InFat1, InFat2,
      Cursor;
    f.SteadyFacts();
    f.EntryPlaceOk();
    BootNoFat(f.fs.g, |f.fs.disk|, f.chain);
    var res := f.Sync();
    var again;
    res, again := MountVolume(f.fs.disk, f.fs.g.volbase);
    fs := again;
    TableIs(fs);
  }

  lemma TableIs(fs: FatFs)
    requires fs.Valid() && fs.view == fs.disk
    ensures Good(fs.g, |fs.disk|) && fs.fat == Table(fs.g, fs.disk)
  {
  }

  /** The same search on another volume. */
  method FindAgain(fs: FatFs, d: Dir, up: nat -> nat, ghost chain: seq<nat>, ghost q: nat)
    returns (res: FResult, again: Dir)
    requires fs.Valid() && fs.g == d.fs.g && IsTable(fs.g, |fs.disk|, fs.fat, chain) && |d.lfnbuf| == 256
      && |d.fn| == 11
    requires StartCluster(fs.g, d.sclust) == (if chain == [] then 0 else chain[0])
    requires Find(KeyOf(d, up), Entries(fs.g, fs.view, chain)).Some?
    requires Find(KeyOf(d, up), Entries(fs.g, fs.view, chain)).value.0 == q
    modifies fs, fs.win
    ensures res == FrOk && fresh(again) && again.fs == fs && fs.Valid() && |fs.disk| == old(|fs.disk|)
    ensures fs.view == old(fs.view) && fs.fat == old(fs.fat)
    ensures again.sect == SecOf(fs.g, chain, q / 16) && again.dptr == 32 * q
  {
    hide FatFs.Valid, Find, Entries, IsTable, IsWalk, Dir.Valid, Count, SecOf, Answers;
    TableStart(fs.g, |fs.disk|, fs.fat, chain);
    again := new Dir(fs, d.sclust, chain);
    again.fn, again.cf, again.noLfn, again.lfnbuf := d.fn, d.cf, d.noLfn, d.lfnbuf;
    StillValid(again);
    res := DirFind(again, up);
    again.ValidTable();
  }

  lemma TableStart(g: Geometry, n: nat, fat: seq<nat>, chain: seq<nat>)
    requires IsTable(g, n, fat, chain)
    ensures IsWalk(g, n, fat, chain) && WalksFrom(g, n, fat, chain, if chain == [] then 0 else chain[0])
  {
    TableIsWalk(g, n, fat, chain);
  }

  lemma StillValid(d: Dir)
    requires d.fs.Valid() && IsWalk(d.fs.g, |d.fs.disk|, d.fs.fat, d.chain) && |d.fn| == 11 && |d.lfnbuf| == 256
    requires StartCluster(d.fs.g, d.sclust) == (if d.chain == [] then 0 else d.chain[0])
    ensures d.Valid()
  {
  }

  /** Durability: f_sync of a modified file, a fresh mount of the disk from its boot sector, the search for the file's
      name in its directory, f_open of what is found and f_read return exactly the bytes the file held. */
  method SyncThenReopen(f: File, d: Dir, up: nat -> nat, ghost q: nat) returns (res: FResult, data: seq<byte>)
    requires f.Valid() && f.modified && Booted(f.fs) && EntryOf(f, d, q) && |d.lfnbuf| == 256
    requires Find(KeyOf(d, up), d.Listing()).Some? && Find(KeyOf(d, up), d.Listing()).value.0 == q
    modifies f, f.fs, f.fs.win
    ensures f.Valid() && f.content == old(f.content) && res == FrOk && data == f.content
  {
    hide File.Valid, FatFs.Valid, Find, Entries, IsTable, IsWalk, Count, SecOf, SyncedAs, Stored, Home, Booted,
      StartCluster, SyncEntry, HasChain, Apart;
    EntryFits(f);
    d.ValidTable();
    ghost var v, fat, chain := f.fs.view, f.fs.fat, d.chain;
    var fs := SyncAndMount(f);
    FoundAgain(fs.g, |fs.disk|, fat, v, fs.view, f, chain, q, KeyOf(d, up));
    var again;
    res, again := FindAgain(fs, d, up, chain, q);
    EntrySlot(q);
    res, data := OpenAndRead(fs, again.sect, again.dptr % 512, f.dirClst, f.chain, f.content);
  }

  lemma EntryFits(f: File)
    requires f.Valid()
    ensures f.sclust < (if f.fs.g.fsType.Fat32? then DWORD else 0x1_0000) && f.objsize < DWORD
    ensures HasChain(f.fs.g, f.fs.fat, f.chain) && |f.fs.view| == |f.fs.disk|
  {
    f.EntryPlaceOk();
    f.SteadyFacts();
  }

  /** f_open of the entry at a place of the disk, and f_read of all it has. */
  method OpenAndRead(fs: FatFs, sect: nat, ofs: nat, ghost dirClst: nat, ghost chain: seq<nat>,
                     ghost content: seq<byte>)
    returns (res: FResult, data: seq<byte>)
    requires fs.Valid() && sect < |fs.disk| && !InFat2(fs.g, sect)
    requires Stored(fs.g, fs.view, fs.fat, sect, ofs, chain, content)
    requires Home(fs.g, |fs.disk|, fs.fat, chain, dirClst, sect, ofs)
    modifies fs, fs.win
    ensures res == FrOk && data == content
  {
    hide File.Steady, FatFs.Valid, Stored, Home, Cursor;
    fs.MoveWindow(sect);
    ValidSizes(fs);
    var f := new File(fs, ofs, true, false, dirClst, chain, content);
    f.SizeOfContent();
    res, data := f.Read(f.objsize);
  }

  lemma EntrySlot(q: nat)
    ensures 32 * q % 512 == q % 16 * 32
  {
  }

  lemma FoundAgain(g: Geometry, n: nat, fat: seq<nat>, v: seq<Sector>, w: seq<Sector>, f: File, chain: seq<nat>, q: nat,
                   key: Key)
    requires IsTable(g, n, fat, chain) && |v| == n && HasChain(g, fat, f.chain) && Apart(f.chain, chain)
      && |key.buf| == 256
    requires SyncedAs(g, v, w, f.chain, f.dirSect, f.dirOfs, f.sclust, f.objsize)
    requires q < Count(g, chain) && SecOf(g, chain, q / 16) == f.dirSect && q % 16 * 32 == f.dirOfs
    requires f.sclust < (if g.fsType.Fat32? then DWORD else 0x1_0000) && f.objsize < DWORD
    requires Find(key, Entries(g, v, chain)).Some? && Find(key, Entries(g, v, chain)).value.0 == q
    ensures Find(key, Entries(g, w, chain)) == Find(key, Entries(g, v, chain))
    ensures f.dirSect < n && !InFat2(g, f.dirSect)
  {
    hide SyncedAs, HasChain, Apart, IsTable, Entries, SyncEntry, SecOf, Count;
    TableIsWalk(g, n, fat, chain);
    EntryPlaced(g, n, fat, chain, q);
    var l := Entries(g, v, chain);
    StopsAtSfn(key, l, 0, NO_SCAN);
    SyncedListing(g, n, fat, v, w, f.chain, chain, q, f.dirSect, f.dirOfs, f.sclust, f.objsize);
    FindStable(key, l, q, SyncEntry(g, v[f.dirSect], f.dirOfs, f.sclust, f.objsize)[f.dirOfs..f.dirOfs + 32], 0,
        NO_SCAN);
  }

  lemma EntryPlaced(g: Geometry, n: nat, fat: seq<nat>, chain: seq<nat>, q: nat)
    requires IsWalk(g, n, fat, chain) && q < Count(g, chain)
    ensures SecOf(g, chain, q / 16) < n && !InFat2(g, SecOf(g, chain, q / 16))
  {
    DirRep.EntrySector(g, chain, q);
    TablePlace(g, n, fat, chain, q / 16);
  }

  /** The search stops at a short name. */
  lemma {:induction false} StopsAtSfn(key: Key, l: seq<DirEntry>, i: nat, st: Scan)
    requires |key.buf| == 256 && i <= |l|
    ensures FindFrom(key, l, i, st).Some? ==>
              FindFrom(key, l, i, st).value.0 < |l| && IsSfn(l[FindFrom(key, l, i, st).value.0])
    decreases |l| - i
  {
    if i < |l| && !IsEnd(l[i]) && !Stops(key, st, l[i]) {
      StopsAtSfn(key, l, i + 1, Step(key, st, l[i], i));
    }
  }
}
