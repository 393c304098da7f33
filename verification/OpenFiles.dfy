/** Several open files on one volume: each of them behaves like a byte array of its own. */
module OpenFiles {
  import opened Bytes
  import opened Geometry
  import opened Volume
  import opened Chain
  import opened ChainRuns
  import opened FileRep
  import opened FileState
  import opened File
  import opened FileRuns

  /** What a file's invariant says about the volume, for any links, flat disk and window. */
  ghost predicate Fits(h: File, g: Geometry, n: nat, fat: seq<nat>, view: seq<Sector>, win: nat)
    reads h, h.buf
  {
    && h.buf.Length == 512
    && Core(g, fat, view, win, h.chain, h.content, h.sect, h.buf[..], h.dirty, h.faith)
    && Home(g, n, fat, h.chain, h.dirClst, h.dirSect, h.dirOfs)
  }

  /** What it says beside. */
  ghost predicate Inner(h: File)
    reads h
  {
    && h.sclust == (if h.chain == [] then 0 else h.chain[0]) && |h.content| == h.objsize < DWORD && h.sect != h.dirSect
    && !h.faith.Torn?
    && (h.err == FrOk ==> Cursor(h.fs.g, h.chain, h.objsize, h.fptr, h.clust, h.sect))
  }

  lemma ValidParts(h: File)
    requires h.Valid()
    ensures Fits(h, h.fs.g, |h.fs.disk|, h.fs.fat, h.fs.view, h.fs.winsect) && Inner(h) && h.fs.Valid()
      && h.buf != h.fs.win
    ensures Off(h.fs.g, h.others, h.fs.winsect)
  {
  }

  lemma ValidBy(h: File)
    requires Fits(h, h.fs.g, |h.fs.disk|, h.fs.fat, h.fs.view, h.fs.winsect) && Inner(h) && h.fs.Valid()
      && h.buf != h.fs.win
    requires Off(h.fs.g, h.others, h.fs.winsect) && h.dirClst !in h.others
    ensures h.Valid()
  {
  }

  /** Two files on one volume share no cluster, no buffer, and neither lies in the directory of the other. */
  ghost predicate Strangers(f: File, h: File)
    reads f, h
  {
    && f != h && f.fs == h.fs && f.buf != h.buf && Apart(f.chain, h.chain)
    && f.dirClst !in h.chain && h.dirClst !in f.chain
  }

  /** A call on f leaves the stranger h valid, whatever it writes, once h does not count on its buffer being the same as
      its sector. */
  lemma StrangerValid(f: File, h: File, n: nat, fat: seq<nat>, view: seq<Sector>, win: nat, a: seq<nat>)
    requires f != h && f.fs == h.fs && f.fs.Valid() && h.buf != h.fs.win && |f.fs.disk| == n && h.others == {}
    requires h.faith == Agreeing
    requires Fits(h, h.fs.g, n, fat, view, win) && Inner(h)
    requires Apart(a, h.chain) && h.dirClst !in a && f.dirClst !in h.chain && f.buf != h.buf
    requires Acted(f.fs.g, fat, f.fs.fat, view, f.fs.view, a, f.chain) && !Own(f.fs.g, h.chain, f.fs.winsect)
    requires HasChain(f.fs.g, f.fs.fat, f.chain)
    ensures h.Valid() && Strangers(f, h)
  {
    hide Core, Acted, Own, FatFs.Valid, Home, Apart, HasChain;
    NoZero(f.fs.g, f.fs.fat, f.chain);
    var g := h.fs.g;
    OtherFileKept(g, fat, f.fs.fat, view, f.fs.view, a, f.chain, win, f.fs.winsect, h.chain, h.content, h.sect,
        h.buf[..],
      h.dirty, h.faith);
    OtherHome(g, n, fat, f.fs.fat, view, f.fs.view, a, f.chain, h.chain, h.dirClst, h.dirSect, h.dirOfs);
    ValidBy(h);
  }

  lemma NoZero(g: Geometry, fat: seq<nat>, chain: seq<nat>)
    requires HasChain(g, fat, chain)
    ensures 0 !in chain
  {
  }

  // ----- all open files

  ghost predicate AllOpen(fs: FatFs, files: seq<File>)
    reads fs, fs.win, files, set i | 0 <= i < |files| :: files[i].buf
  {
    forall i :: 0 <= i < |files| ==> files[i].fs == fs && files[i].Valid() && files[i].others == {}
  }

  ghost predicate AllStrangers(files: seq<File>)
    reads files
  {
    forall i, j :: 0 <= i < |files| && 0 <= j < |files| && i != j ==> Strangers(files[i], files[j])
  }

  /** The clusters of all files but number i. */
  ghost function Rivals(files: seq<File>, i: nat): set<nat>
    reads set j | 0 <= j < |files| && j != i :: files[j]
  {
    set j, k | 0 <= j < |files| && j != i && 0 <= k < |files[j].chain| :: files[j].chain[k]
  }

  /** The window shows no file, so file i can be told to keep it off the others. */
  lemma RivalsOff(fs: FatFs, files: seq<File>, i: nat)
    requires AllOpen(fs, files) && AllStrangers(files) && i < |files|
    ensures Off(fs.g, Rivals(files, i), fs.winsect) && files[i].dirClst !in Rivals(files, i)
  {
    hide Home, Holds, FatFs.Valid, HasChain, Apart;
    forall j, k | 0 <= j < |files| && j != i && 0 <= k < |files[j].chain|
      ensures !InCluster(fs.g, files[j].chain[k], fs.winsect) && files[j].chain[k] != files[i].dirClst
    {
      ValidParts(files[j]);
      assert Strangers(files[i], files[j]);
    }
  }

  lemma OffMeansNotOwn(fs: FatFs, files: seq<File>, i: nat, others: set<nat>, j: nat)
    requires Off(fs.g, others, fs.winsect) && others == Rivals(files, i) && j < |files| && j != i
    ensures !Own(fs.g, files[j].chain, fs.winsect)
  {
    var ch := files[j].chain;
    forall k | 0 <= k < |ch|
      ensures !InCluster(fs.g, ch[k], fs.winsect)
    {
      assert files[j].chain[k] in others;
    }
  }

  /** All files but number i, before a call on that one. */
  ghost predicate Waiting(files: seq<File>, i: nat, fs: FatFs, n: nat, fat: seq<nat>, view: seq<Sector>, win: nat,
    a: seq<nat>)
    requires i < |files|
    reads set k | 0 <= k < |files| && k != i :: files[k]
    reads set k | 0 <= k < |files| && k != i :: files[k].buf
  {
    && (forall j :: 0 <= j < |files| && j != i ==>
          Fits(files[j], fs.g, n, fat, view, win) && Inner(files[j]) && files[j].others == {}
            && files[j].faith == Agreeing)
    && (forall j :: 0 <= j < |files| && j != i ==>
          && files[i] != files[j] && files[i].buf != files[j].buf && files[j].fs == fs && files[j].buf != fs.win
          && Apart(a, files[j].chain) && files[j].dirClst !in a && files[i].dirClst !in files[j].chain)
    && forall j, k :: 0 <= j < |files| && 0 <= k < |files| && j != k && j != i && k != i ==>
        Strangers(files[j], files[k])
  }

  lemma StartWaiting(fs: FatFs, files: seq<File>, i: nat)
    requires AllOpen(fs, files) && AllStrangers(files) && i < |files|
    requires forall j :: 0 <= j < |files| && j != i ==> files[j].faith == Agreeing
    ensures Waiting(files, i, fs, |fs.disk|, fs.fat, fs.view, fs.winsect, files[i].chain)
  {
    hide File.Valid, Fits, Inner, Apart;
    forall j | 0 <= j < |files| && j != i
      ensures Fits(files[j], fs.g, |fs.disk|, fs.fat, fs.view, fs.winsect) && Inner(files[j])
      ensures Strangers(files[i], files[j]) && files[j].buf != fs.win
    {
      ValidParts(files[j]);
    }
  }

  /** After the call all files are in order again. */
  lemma EndWaiting(fs: FatFs, files: seq<File>, i: nat, n: nat, fat: seq<nat>, view: seq<Sector>, win: nat, a: seq<nat>)
    requires i < |files| && Waiting(files, i, fs, n, fat, view, win, a) && |fs.disk| == n
    requires files[i].fs == fs && files[i].Valid() && files[i].others == {}
    requires Acted(fs.g, fat, fs.fat, view, fs.view, a, files[i].chain) && Off(fs.g, Rivals(files, i), fs.winsect)
    ensures AllOpen(fs, files) && AllStrangers(files)
  {
    hide File.Valid, Fits, Inner, Apart, Acted, Off, Own, FatFs.Valid, HasChain, Rivals, Strangers;
    ValidChain(files[i]);
    forall j | 0 <= j < |files| && j != i
      ensures files[j].Valid() && Strangers(files[i], files[j]) && Strangers(files[j], files[i])
    {
      OffMeansNotOwn(fs, files, i, Rivals(files, i), j);
      StrangerValid(files[i], files[j], n, fat, view, win, a);
      Symmetric(files[i], files[j]);
    }
  }

  lemma Different(f: File, h: File)
    requires Strangers(f, h) && h.Valid()
    ensures f != h && f.buf != h.buf && h.buf != h.fs.win
  {
  }

  lemma Symmetric(f: File, h: File)
    requires Strangers(f, h)
    ensures Strangers(h, f)
  {
  }

  lemma ValidChain(f: File)
    requires f.Valid()
    ensures HasChain(f.fs.g, f.fs.fat, f.chain) && f.fs.Valid()
  {
  }

  lemma ToldOff(f: File, others: set<nat>)
    requires f.Valid() && f.others == {} && Off(f.fs.g, others, f.fs.winsect) && f.dirClst !in others
    ensures Fits(f, f.fs.g, |f.fs.disk|, f.fs.fat, f.fs.view, f.fs.winsect) && Inner(f) && f.fs.Valid()
      && f.buf != f.fs.win
  {
    ValidParts(f);
  }

  /** A call on one file that keeps the window off the clusters of others. */
  method Guarded(f: File, op: Op, ghost others: set<nat>) returns (ok: bool, out: Out)
    requires Usable(f) && Accurate(f.fs.freeClst, f.fs.fat) && Feasible(op) && !Risks(f, op)
    requires f.others == {} && Off(f.fs.g, others, f.fs.winsect) && f.dirClst !in others
    modifies f, f.buf, f.fs, f.fs.win
    ensures f.Valid() && Accurate(f.fs.freeClst, f.fs.fat) && f.others == {} && |f.fs.disk| == old(|f.fs.disk|)
    ensures Off(f.fs.g, others, f.fs.winsect)
    ensures ok ==> Usable(f) && AbsStep(old(Abs(f)), op, out, Abs(f), old(Room(f)))
    ensures |f.chain| + |Free(f.fs.fat)| == old(|f.chain| + |Free(f.fs.fat)|)
    ensures !ok ==> 1 in f.fs.fat
    ensures Noted(f.fs.g.nFatent, old(f.fs.fsiFlag), old(f.fs.freeClst), f.fs.fsiFlag, f.fs.freeClst)
    ensures Acted(f.fs.g, old(f.fs.fat), f.fs.fat, old(f.fs.view), f.fs.view, old(f.chain), f.chain)
  {
    hide Accurate, Free, AbsStep, File.Valid, FatFs.Valid, Off, Own, Acted, Noted;
    UsableIsValid(f);
    Settle(f);
    Tell(f, others);
    ok, out := Do(f, op);
    Untell(f);
  }

  /** The clean buffer is the same as its sector on the flat disk. */
  ghost predicate Fresh(f: File)
    reads f, f.buf, f.fs
  {
    f.dirty || f.sect == 0 || (f.sect < |f.fs.view| && f.fs.view[f.sect] == f.buf[..])
  }

  /** The call raises the size of a file whose buffer is no longer the same as its sector. */
  ghost predicate Risks(f: File, op: Op)
    reads f, f.buf, f.fs
  {
    op.OpSeek? && op.ofs > f.objsize && !Fresh(f)
  }

  /** The comparison a caller can make. */
  method IsFresh(f: File) returns (b: bool)
    requires f.Valid()
    ensures b <==> Fresh(f)
  {
    hide Good, Holds, HasChain, Home, Own;
    ValidSizes(f.fs);
    DataNotFat(f.fs.g, |f.fs.disk|, f.sect);
    if f.dirty || f.sect == 0 {
      return true;
    }
    var shown := if f.fs.winsect == f.sect then f.fs.win[..] else f.fs.disk[f.sect];
    b := shown == f.buf[..];
  }

  /** Only ghost fields change. */
  ghost method Settle(f: File)
    requires f.Valid()
    modifies f`faith
    ensures f.Valid() && (f.faith == Same <==> Fresh(f)) && !f.faith.Torn?
  {
    hide FatFs.Valid, Home, Cursor, Off, Own, Good, Holds;
    f.faith := if Fresh(f) then Same else Agreeing;
  }

  ghost method Doubt(f: File)
    requires f.Valid()
    modifies f`faith
    ensures f.Valid() && f.faith == Agreeing
  {
    hide FatFs.Valid, Home, Cursor, Off, Own, Good, Holds;
    f.faith := Agreeing;
  }

  ghost method Tell(f: File, others: set<nat>)
    requires f.Valid() && f.others == {} && Off(f.fs.g, others, f.fs.winsect) && f.dirClst !in others
    modifies f`others
    ensures f.Valid() && f.others == others
  {
    hide File.Valid, Core, Home, Cursor, FatFs.Valid, Off, Own;
    ToldOff(f, others);
    f.others := others;
    ValidBy(f);
  }

  ghost method Untell(f: File)
    requires f.Valid()
    modifies f`others
    ensures f.Valid() && f.others == {} && Off(f.fs.g, old(f.others), f.fs.winsect)
  {
    hide File.Valid, Core, Home, Cursor, FatFs.Valid, Off, Own;
    ValidParts(f);
    f.others := {};
    OffNone(f.fs.g, f.fs.winsect);
    ValidBy(f);
  }

  /** All files but number i stop counting on their buffers. */
  ghost method DoubtOthers(fs: FatFs, files: seq<File>, i: nat)
    requires AllOpen(fs, files) && AllStrangers(files) && i < |files|
    modifies files`faith
    ensures AllOpen(fs, files) && AllStrangers(files) && files[i].faith == old(files[i].faith)
    ensures forall j :: 0 <= j < |files| && j != i ==> files[j].faith == Agreeing
  {
    hide File.Valid, Apart;
    var k := 0;
    while k < |files|
      invariant 0 <= k <= |files| && AllOpen(fs, files) && AllStrangers(files) && files[i].faith == old(files[i].faith)
      invariant forall j :: 0 <= j < k && j != i ==> files[j].faith == Agreeing
    {
      if k != i { Doubt(files[k]); }
      k := k + 1;
    }
  }

  lemma OffNone(g: Geometry, s: nat)
    ensures Off(g, {}, s)
  {
  }

  /** One call on file number i: it does what it does on a file alone, and every other file stays as it is. */
  method DoAt(fs: FatFs, files: seq<File>, i: nat, op: Op) returns (ok: bool, out: Out)
    requires AllOpen(fs, files) && AllStrangers(files) && i < |files| && Usable(files[i]) && Feasible(op)
    requires Accurate(fs.freeClst, fs.fat) && !Risks(files[i], op)
    modifies files[i], files[i].buf, fs, fs.win, files`faith
    ensures AllOpen(fs, files) && AllStrangers(files) && Accurate(fs.freeClst, fs.fat)
    ensures ok ==> Usable(files[i]) && AbsStep(old(Abs(files[i])), op, out, Abs(files[i]), old(Room(files[i])))
    ensures |files[i].chain| + |Free(fs.fat)| == old(|files[i].chain| + |Free(fs.fat)|)
    ensures Noted(fs.g.nFatent, old(fs.fsiFlag), old(fs.freeClst), fs.fsiFlag, fs.freeClst)
    ensures FrontKept(fs.g, old(fs.view), fs.view)
    ensures !ok ==> 1 in fs.fat
    ensures forall j :: 0 <= j < |files| && j != i ==> files[j] != files[i]
  {
    hide Accurate, Free, AbsStep, File.Valid, Fits, Inner, FatFs.Valid, Off, Acted, Strangers, Rivals, Waiting,
      Feasible, Fresh, Noted, Good, HasChain;
    UsableNoError(files[i]);
    ValidChain(files[i]);
    DoubtOthers(fs, files, i);
    UsableBy(files[i]);
    ghost var n, fat, view, win, a := |fs.disk|, fs.fat, fs.view, fs.winsect, files[i].chain;
    StartWaiting(fs, files, i);
    RivalsOff(fs, files, i);
    ghost var others := Rivals(files, i);
    forall j | 0 <= j < |files| && j != i
      ensures files[j] != files[i] && files[j].buf != files[i].buf && files[j].buf != fs.win
    {
      Different(files[i], files[j]);
    }
    ok, out := Guarded(files[i], op, others);
    FrontOf(files[i], fat, view, a);
    EndWaiting(fs, files, i, n, fat, view, win, a);
  }

  lemma FrontOf(f: File, fat: seq<nat>, v: seq<Sector>, a: seq<nat>)
    requires f.Valid() && HasChain(f.fs.g, fat, a) && Acted(f.fs.g, fat, f.fs.fat, v, f.fs.view, a, f.chain)
    ensures FrontKept(f.fs.g, v, f.fs.view)
  {
    hide Acted, Good, HasChain;
    f.SteadyFacts();
    ActedSize(f.fs.g, fat, f.fs.fat, v, f.fs.view, a, f.chain);
    ActedFront(f.fs.g, fat, f.fs.fat, v, f.fs.view, a, f.chain);
  }

  lemma ActedSize(g: Geometry, fat: seq<nat>, fat': seq<nat>, v: seq<Sector>, v': seq<Sector>, a: seq<nat>,
                  a': seq<nat>)
    requires Acted(g, fat, fat', v, v', a, a')
    ensures |v'| == |v|
  {
  }

  // ----- runs

  /** A call on one of the files. */
  datatype Turn = Turn(file: nat, op: Op)

  /** The files of a volume: their contents and cursors, the number of clusters each one has, and how many are free. */
  datatype AbsVolume = AbsVolume(files: seq<AbsFile>, held: seq<nat>, free: nat)

  ghost function AbsAll(fs: FatFs, files: seq<File>): (s: AbsVolume)
    reads fs, files
    ensures |s.files| == |s.held| == |files| && s.free == |Free(fs.fat)|
    ensures forall j :: 0 <= j < |files| ==> s.files[j] == Abs(files[j]) && s.held[j] == |files[j].chain|
  {
    AbsVolume(seq(|files|, j requires 0 <= j < |files| reads files => Abs(files[j])),
              seq(|files|, j requires 0 <= j < |files| reads files => |files[j].chain|), |Free(fs.fat)|)
  }

  /** The file whose turn it is takes an abstract step, in the room of its own and the free clusters, and moves clusters
      between these two only; all other files stay. */
  ghost predicate TurnStep(g: Geometry, s: AbsVolume, turn: Turn, out: Out, t: AbsVolume) {
    var i := turn.file;
    && |t.files| == |t.held| == |s.held| == |s.files| && i < |s.files|
    && AbsStep(s.files[i], turn.op, out, t.files[i], RoomFor(g, s.held[i] + s.free))
    && t.held[i] + t.free == s.held[i] + s.free
    && forall j :: 0 <= j < |s.files| && j != i ==> t.files[j] == s.files[j] && t.held[j] == s.held[j]
  }

  ghost predicate AllUsable(fs: FatFs, files: seq<File>)
    reads fs, fs.win, files, set i | 0 <= i < |files| :: files[i].buf
  {
    AllOpen(fs, files) && AllStrangers(files) && forall i :: 0 <= i < |files| ==> Usable(files[i])
  }

  lemma UsableIsOpen(fs: FatFs, files: seq<File>)
    requires AllUsable(fs, files)
    ensures AllOpen(fs, files) && AllStrangers(files)
  {
  }

  lemma UsableBy(f: File)
    requires f.Valid() && f.canRead && f.canWrite && f.err == FrOk
    ensures Usable(f)
  {
  }

  lemma UsableNoError(f: File)
    requires Usable(f)
    ensures f.Valid() && f.canRead && f.canWrite && f.err == FrOk
  {
  }

  /** One turn, on all files at once. */
  method TakeTurn(fs: FatFs, files: seq<File>, turn: Turn) returns (ok: bool, out: Out)
    requires AllUsable(fs, files) && Accurate(fs.freeClst, fs.fat) && turn.file < |files| && Feasible(turn.op)
    requires !Risks(files[turn.file], turn.op)
    modifies files[turn.file], files[turn.file].buf, fs, fs.win, files`faith
    ensures AllOpen(fs, files) && AllStrangers(files) && Accurate(fs.freeClst, fs.fat)
    ensures Noted(fs.g.nFatent, old(fs.fsiFlag), old(fs.freeClst), fs.fsiFlag, fs.freeClst)
    ensures FrontKept(fs.g, old(fs.view), fs.view)
    ensures ok ==> AllUsable(fs, files) && TurnStep(fs.g, old(AbsAll(fs, files)), turn, out, AbsAll(fs, files))
    ensures !ok ==> 1 in fs.fat
  {
    hide Accurate, AbsStep, File.Valid, Strangers, Feasible, Usable, Free, Fresh, Noted, FrontKept;
    var i := turn.file;
    forall j | 0 <= j < |files|
      ensures files[j].canRead && files[j].canWrite && files[j].err == FrOk
    {
      UsableNoError(files[j]);
    }
    ok, out := DoAt(fs, files, i, turn.op);
    if ok {
      forall j | 0 <= j < |files|
        ensures Usable(files[j])
      {
        if j != i { UsableBy(files[j]); }
      }
    }
  }

  /** Every sequence of calls on several open files behaves like the same sequence on as many byte arrays, one for each
      file. It stops short when the FAT holds the reserved link 1, or before a seek past the end of a file whose clean
      buffer is no longer the same as its sector, because another file has written there since it was given back. */
  method Run(fs: FatFs, files: seq<File>, script: seq<Turn>)
    returns (outs: seq<Out>, ghost trace: seq<AbsVolume>)
    requires AllUsable(fs, files) && Accurate(fs.freeClst, fs.fat)
    requires forall k :: 0 <= k < |script| ==> script[k].file < |files| && Feasible(script[k].op)
    modifies fs, fs.win, files, set j | 0 <= j < |files| :: files[j].buf
    ensures AllOpen(fs, files) && AllStrangers(files)
    ensures |outs| <= |script| && |trace| == |outs| + 1
    ensures trace[0] == old(AbsAll(fs, files)) && (|outs| == |script| ==> trace[|outs|] == AbsAll(fs, files))
    ensures forall k :: 0 <= k < |outs| ==> TurnStep(fs.g, trace[k], script[k], outs[k], trace[k + 1])
    ensures Accurate(fs.freeClst, fs.fat) && FrontKept(fs.g, old(fs.view), fs.view) && (old(fs.Valid()) ==> fs.Valid())
    ensures Noted(fs.g.nFatent, old(fs.fsiFlag), old(fs.freeClst), fs.fsiFlag, fs.freeClst)
    ensures |outs| < |script| ==> 1 in fs.fat || Risks(files[script[|outs|].file], script[|outs|].op)
  {
    hide Accurate, Feasible, TurnStep, AllUsable, AllOpen, AllStrangers, Fresh, Risks, Noted, FatFs.Valid;
    NotedSame(fs.g.nFatent, fs.fsiFlag, fs.freeClst);
    UsableIsOpen(fs, files);
    outs, trace := [], [AbsAll(fs, files)];
    while |outs| < |script|
      invariant AllUsable(fs, files) && AllOpen(fs, files) && AllStrangers(files) && Accurate(fs.freeClst, fs.fat)
      invariant |outs| <= |script| && |trace| == |outs| + 1
      invariant trace[0] == old(AbsAll(fs, files)) && trace[|outs|] == AbsAll(fs, files)
      invariant forall k :: 0 <= k < |outs| ==> TurnStep(fs.g, trace[k], script[k], outs[k], trace[k + 1])
      invariant FrontKept(fs.g, old(fs.view), fs.view) && (old(fs.Valid()) ==> fs.Valid())
      invariant Noted(fs.g.nFatent, old(fs.fsiFlag), old(fs.freeClst), fs.fsiFlag, fs.freeClst)
      decreases |script| - |outs|
    {
      ghost var flag, free := fs.fsiFlag, fs.freeClst;
      var turn := script[|outs|];
      var risky := IsRisky(fs, files, turn);
      if risky {
        return;
      }
      var ok, out;
      ok, out := TakeTurn(fs, files, turn);
      VolumeOf(fs, files, turn.file);
      NotedTrans(fs.g.nFatent, old(fs.fsiFlag), old(fs.freeClst), flag, free, fs.fsiFlag, fs.freeClst);
      if !ok {
        return;
      }
      outs, trace := outs + [out], trace + [AbsAll(fs, files)];
    }
  }

  lemma VolumeOf(fs: FatFs, files: seq<File>, i: nat)
    requires AllOpen(fs, files) && i < |files|
    ensures fs.Valid()
  {
    ValidChain(files[i]);
  }

  method IsRisky(fs: FatFs, files: seq<File>, turn: Turn) returns (risky: bool)
    requires AllOpen(fs, files) && turn.file < |files|
    ensures risky <==> Risks(files[turn.file], turn.op)
  {
    hide AllOpen, Fresh;
    OpenOne(fs, files, turn.file);
    risky := false;
    if turn.op.OpSeek? && turn.op.ofs > files[turn.file].objsize {
      var same := IsFresh(files[turn.file]);
      risky := !same;
    }
  }

  lemma OpenOne(fs: FatFs, files: seq<File>, i: nat)
    requires AllOpen(fs, files) && i < |files|
    ensures files[i].fs == fs && files[i].Valid()
  {
  }
}
