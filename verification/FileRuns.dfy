/** Whole runs over an open file. */
module FileRuns {
  import opened Bytes
  import opened Geometry
  import opened FatTable
  import opened Volume
  import opened Chain
  import opened ChainRuns
  import opened FileRep
  import opened FileState
  import opened File

  /** The abstract file: a byte array with a cursor. */
  datatype AbsFile = AbsFile(content: seq<byte>, pos: nat)

  datatype Op = OpRead(n: nat) | OpWrite(data: seq<byte>) | OpSeek(ofs: nat) | OpTruncate

  /** What a call reports: the bytes read, or the number of bytes written. */
  datatype Out = OutData(data: seq<byte>) | OutCount(n: nat) | OutDone

  function Min(a: nat, b: nat): nat { if a < b then a else b }

  /** One call on the abstract file, when the file and the free clusters together hold room bytes. A write and a seek
      get as far as the room and the size limit let them, and no less far. */
  ghost predicate AbsStep(a: AbsFile, op: Op, out: Out, b: AbsFile, room: nat) {
    && a.pos <= |a.content| && b.pos <= |b.content| && |b.content| <= room
    && match op
       case OpRead(n) =>
         && b.content == a.content && b.pos == Min(a.pos + n, |a.content|)
         && out == OutData(a.content[a.pos..b.pos])
       case OpWrite(data) =>
         && b.pos == Min(a.pos + |data|, Min(MAX_SIZE, room)) && a.pos <= b.pos <= a.pos + |data|
         && out == OutCount(b.pos - a.pos)
         && b.content == Splice(a.content, a.pos, data[..b.pos - a.pos])
       case OpSeek(ofs) =>
         && out == OutDone && b.pos == Min(ofs, room) && a.content <= b.content
         && |b.content| == (if b.pos > |a.content| then b.pos else |a.content|)
       case OpTruncate =>
         out == OutDone && b == AbsFile(a.content[..a.pos], a.pos)
  }

  /** What the file and the free clusters together hold, in bytes. */
  ghost function Room(f: File): nat
    reads f, f.fs
  {
    RoomFor(f.fs.g, |f.chain| + |Free(f.fs.fat)|)
  }

  ghost function RoomFor(g: Geometry, clusters: nat): nat { clusters * g.csize * 512 }

  ghost function Abs(f: File): AbsFile
    reads f
  {
    AbsFile(f.content, f.fptr)
  }

  /** A readable and writable file whose last call was not aborted. */
  ghost predicate Usable(f: File)
    reads f, f.buf, f.fs, f.fs.win
  {
    f.Valid() && f.canRead && f.canWrite && f.err == FrOk
  }

  lemma UsableCursor(f: File)
    requires Usable(f)
    ensures f.fptr <= |f.content| == f.objsize < DWORD && !f.faith.Torn? && HasChain(f.fs.g, f.fs.fat, f.chain)
  {
  }

  /** What the calls themselves say; atEnd tells that the cursor is at the end of the last cluster and no cluster is
      free. */
  ghost predicate Told(a: AbsFile, op: Op, out: Out, b: AbsFile, atEnd: bool) {
    && a.pos <= |a.content| && b.pos <= |b.content|
    && match op
       case OpRead(n) =>
         && b.content == a.content && b.pos == (if a.pos + n < |a.content| then a.pos + n else |a.content|)
         && out == OutData(a.content[a.pos..b.pos])
       case OpWrite(data) =>
         && out.OutCount? && out.n <= |data| && b.pos == a.pos + out.n
         && (out.n < |data| ==> b.pos == MAX_SIZE || atEnd)
         && b.content == Splice(a.content, a.pos, data[..out.n])
       case OpSeek(ofs) =>
         && out == OutDone && a.content <= b.content && (b.pos == ofs || (b.pos < ofs && atEnd))
         && |b.content| == (if b.pos > |a.content| then b.pos else |a.content|)
       case OpTruncate => out == OutDone && b == AbsFile(a.content[..a.pos], a.pos)
  }

  /** That is as far as the room allows. */
  lemma ToldIsStep(a: AbsFile, op: Op, out: Out, b: AbsFile, atEnd: bool, room: nat)
    requires Told(a, op, out, b, atEnd) && |b.content| <= room && |b.content| <= MAX_SIZE && (atEnd ==> b.pos == room)
    ensures AbsStep(a, op, out, b, room)
  {
  }

  ghost predicate AtEnd(f: File)
    reads f, f.fs
  {
    Free(f.fs.fat) == {} && f.fptr == Cap(f.fs.g, f.chain) * 512
  }

  /** One call of the public interface, as its contract tells. */
  method Perform(f: File, op: Op) returns (ok: bool, out: Out)
    requires Usable(f) && Accurate(f.fs.freeClst, f.fs.fat)
    requires op.OpWrite? ==> |op.data| < DWORD
    requires op.OpSeek? ==> op.ofs < DWORD && (op.ofs > f.objsize ==> f.faith == Same)
    modifies f, f.buf, f.fs, f.fs.win
    ensures f.Valid() && Accurate(f.fs.freeClst, f.fs.fat)
    ensures ok ==> Usable(f) && Told(old(Abs(f)), op, out, Abs(f), AtEnd(f))
    ensures !ok ==> 1 in f.fs.fat
    ensures |f.fs.disk| == old(|f.fs.disk|) && f.others == old(f.others) && f.faith == old(f.faith)
    ensures Noted(f.fs.g.nFatent, old(f.fs.fsiFlag), old(f.fs.freeClst), f.fs.fsiFlag, f.fs.freeClst)
    ensures Acted(f.fs.g, old(f.fs.fat), f.fs.fat, old(f.fs.view), f.fs.view, old(f.chain), f.chain)
  {
    hide File.Valid, File.Ready, File.Steady, Cap, WrittenBack, Clusters, Accurate, Free, Splice, Untouched, Grew, Own,
      Pruned, File.OneSector, OneRead, HasChain, Noted, Acted;
    UsableCursor(f);
    NotedSame(f.fs.g.nFatent, f.fs.fsiFlag, f.fs.freeClst);
    Unmoved(f.fs.g, f.chain, f.fs.view, f.fs.fat);
    ghost var fat, v, chain := f.fs.fat, f.fs.view, f.chain;
    out := OutDone;
    match op {
      case OpRead(n) =>
        var res, data := f.Read(n);
        ok, out := true, OutData(data);
        IsGrowth(f.fs.g, fat, f.fs.fat, v, f.fs.view, chain, f.chain);
      case OpWrite(data) =>
        var res, bw := f.Write(data);
        ok, out := res == FrOk, OutCount(bw);
        IsGrowth(f.fs.g, fat, f.fs.fat, v, f.fs.view, chain, f.chain);
      case OpSeek(ofs) =>
        var res := f.Lseek(ofs);
        ok := res == FrOk;
        IsGrowth(f.fs.g, fat, f.fs.fat, v, f.fs.view, chain, f.chain);
      case OpTruncate =>
        var res := f.Truncate();
        ok := true;
        IsCut(f.fs.g, fat, f.fs.fat, v, f.fs.view, chain, f.chain);
    }
    if ok { StillUsable(f); }
  }

  /** One call of the public interface, on a byte array of limited room. */
  method Do(f: File, op: Op) returns (ok: bool, out: Out)
    requires Usable(f) && Accurate(f.fs.freeClst, f.fs.fat)
    requires op.OpWrite? ==> |op.data| < DWORD
    requires op.OpSeek? ==> op.ofs < DWORD && (op.ofs > f.objsize ==> f.faith == Same)
    modifies f, f.buf, f.fs, f.fs.win
    ensures f.Valid() && Accurate(f.fs.freeClst, f.fs.fat)
    ensures ok ==> Usable(f) && AbsStep(old(Abs(f)), op, out, Abs(f), old(Room(f)))
    ensures |f.chain| + |Free(f.fs.fat)| == old(|f.chain| + |Free(f.fs.fat)|)
    ensures !ok ==> 1 in f.fs.fat
    ensures |f.fs.disk| == old(|f.fs.disk|) && f.others == old(f.others) && f.faith == old(f.faith)
    ensures Noted(f.fs.g.nFatent, old(f.fs.fsiFlag), old(f.fs.freeClst), f.fs.fsiFlag, f.fs.freeClst)
    ensures Acted(f.fs.g, old(f.fs.fat), f.fs.fat, old(f.fs.view), f.fs.view, old(f.chain), f.chain)
  {
    hide File.Valid, Accurate, Free, AbsStep, Told, RoomFor, HasChain, Noted, Acted, Cap;
    UsableCursor(f);
    ghost var a, fat, v, chain, room := Abs(f), f.fs.fat, f.fs.view, f.chain, Room(f);
    ok, out := Perform(f, op);
    SameRoom(f, fat, v, chain);
    if ok {
      UsableCursor(f);
      ToldIsStep(a, op, out, Abs(f), AtEnd(f), room);
    }
  }

  lemma IsGrowth(g: Geometry, fat: seq<nat>, fat': seq<nat>, v: seq<Sector>, v': seq<Sector>, a: seq<nat>, a': seq<nat>)
    requires Untouched(g, a', v, v') && Grew(fat, fat', a, a')
    ensures Acted(g, fat, fat', v, v', a, a')
  {
  }

  lemma IsCut(g: Geometry, fat: seq<nat>, fat': seq<nat>, v: seq<Sector>, v': seq<Sector>, a: seq<nat>, a': seq<nat>)
    requires Untouched(g, a, v, v') && a' <= a && Pruned(fat, fat', a, |a'|)
    ensures Acted(g, fat, fat', v, v', a, a')
  {
  }

  /** A call takes nothing from the file and the free clusters together; the content fits into them, and when no cluster
      is free, the file alone is the room. */
  lemma SameRoom(f: File, fat: seq<nat>, v: seq<Sector>, chain: seq<nat>)
    requires f.Valid() && Acted(f.fs.g, fat, f.fs.fat, v, f.fs.view, chain, f.chain) && HasChain(f.fs.g, fat, chain)
    ensures |f.chain| + |Free(f.fs.fat)| == |chain| + |Free(fat)|
    ensures |f.content| <= Room(f) && (Free(f.fs.fat) == {} ==> Room(f) == Cap(f.fs.g, f.chain) * 512)
  {
    hide Acted, Pool, Free, HasChain, File.Steady, Good, RoomFor, Cap;
    f.SteadyFacts();
    PoolKept(f.fs.g, fat, f.fs.fat, v, f.fs.view, chain, f.chain);
    RoomGrows(f.fs.g, f.chain, |Free(f.fs.fat)|);
  }

  lemma RoomGrows(g: Geometry, chain: seq<nat>, free: nat)
    ensures RoomFor(g, |chain|) == Cap(g, chain) * 512 <= RoomFor(g, |chain| + free)
  {
    MulMonotone(|chain|, |chain| + free, g.csize);
  }

  lemma StillUsable(f: File)
    requires f.Valid() && f.canRead && f.canWrite && f.err == FrOk
    ensures Usable(f) && f.fptr <= |f.content| == f.objsize < DWORD
  {
  }

  ghost predicate Feasible(op: Op) {
    (op.OpWrite? ==> |op.data| < DWORD) && (op.OpSeek? ==> op.ofs < DWORD)
  }

  /** Every sequence of f_read, f_write, f_lseek and f_truncate behaves like the same sequence on a byte array with a
      cursor, in a room that stays the same, unless the FAT holds the reserved link 1. */
  method Run(f: File, ops: seq<Op>) returns (outs: seq<Out>, ghost trace: seq<AbsFile>)
    requires Usable(f) && f.faith == Same && Accurate(f.fs.freeClst, f.fs.fat)
    requires forall i :: 0 <= i < |ops| ==> Feasible(ops[i])
    modifies f, f.buf, f.fs, f.fs.win
    ensures f.Valid() && |outs| <= |ops| && |trace| == |outs| + 1 && Accurate(f.fs.freeClst, f.fs.fat)
    ensures |outs| < |ops| ==> 1 in f.fs.fat
    ensures trace[0] == old(Abs(f)) && (|outs| == |ops| ==> trace[|outs|] == Abs(f))
    ensures forall i :: 0 <= i < |outs| ==> AbsStep(trace[i], ops[i], outs[i], trace[i + 1], old(Room(f)))
    ensures Room(f) == old(Room(f))
  {
    hide Usable, Accurate, AbsStep, File.Valid, RoomFor, Free;
    outs, trace := [], [Abs(f)];
    UsableIsValid(f);
    while |outs| < |ops|
      invariant Usable(f) && f.faith == Same && Accurate(f.fs.freeClst, f.fs.fat) && f.Valid()
      invariant |outs| <= |ops| && |trace| == |outs| + 1 && Room(f) == old(Room(f))
      invariant trace[0] == old(Abs(f)) && trace[|outs|] == Abs(f)
      invariant forall i :: 0 <= i < |outs| ==> AbsStep(trace[i], ops[i], outs[i], trace[i + 1], old(Room(f)))
      decreases |ops| - |outs|
    {
      assert Feasible(ops[|outs|]);
      var ok, out;
      ok, out := Do(f, ops[|outs|]);
      if !ok {
        return;
      }
      outs, trace := outs + [out], trace + [Abs(f)];
    }
  }

  lemma UsableIsValid(f: File)
    requires Usable(f)
    ensures f.Valid()
  {
  }

  /** On the abstract file, what was written at a position is what a read from it returns. */
  lemma ReadBack(a: AbsFile, data: seq<byte>, b: AbsFile, c: AbsFile, d: AbsFile, n: nat, out: Out, room: nat)
    requires AbsStep(a, OpWrite(data), OutCount(n), b, room)
    requires AbsStep(b, OpSeek(a.pos), OutDone, c, room)
    requires AbsStep(c, OpRead(n), out, d, room)
    ensures out == OutData(data[..n])
    ensures a.pos + |data| <= Min(MAX_SIZE, room) ==> out == OutData(data)
  {
    var s := Splice(a.content, a.pos, data[..n]);
    assert c.content == s;
    assert s[a.pos..a.pos + n] == data[..n];
  }
}
