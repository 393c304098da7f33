/** Registering and removing objects in a well-formed directory (ff.c:2363-2406, ff.c:3135-3343). */
module DirEdit {
  import opened Bytes
  import opened Geometry
  import opened LongNames
  import opened DirScan

  /** The directory stretched by blank entries. */
  function Padded(d: seq<DirEntry>, n: nat): seq<DirEntry> {
    d + seq(n, _ => BlankEntry())
  }

  function BlankEntry(): DirEntry { seq(32, _ => 0) }

  ghost predicate AllFree(d: seq<DirEntry>, p: nat, n: nat) {
    p + n <= |d| && forall i :: p <= i < p + n ==> IsFree(d[i])
  }

  /** The block dir_alloc reserves: the lowest run of n free entries; it starts right behind an entry in use. */
  ghost predicate IsGap(d: seq<DirEntry>, p: nat, n: nat) {
    n >= 1 && AllFree(d, p, n) && (p == 0 || !IsFree(d[p - 1])) && forall s :: 0 <= s < p ==> !AllFree(d, s, n)
  }

  /** The short-name entry that dir_register writes. */
  function SfnEntry(fn: seq<byte>, nt: byte): DirEntry
    requires |fn| == 11
  {
    fn + [0, nt] + seq(19, _ => 0)
  }

  /** The block of an object: the LFN set, if it has one, in descending order, and the short name. */
  ghost predicate IsBlock(b: seq<DirEntry>, lfn: seq<nat>, fn: seq<byte>, nt: byte) {
    && |fn| == 11 && |b| == (if lfn == [] then 0 else EntriesFor(|lfn|)) + 1 && (lfn == [] || IsName(lfn))
    && b[|b| - 1] == SfnEntry(fn, nt)
    && forall k :: 1 <= k < |b| ==> IsBlockPart(b, lfn, fn, k)
  }

  ghost predicate IsBlockPart(b: seq<DirEntry>, lfn: seq<nat>, fn: seq<byte>, k: nat) {
    k < |b| && IsLfnEntry(b[|b| - 1 - k], lfn, k, SumOf(fn))
  }

  /** The directory with block b at p. */
  function Put(d: seq<DirEntry>, p: nat, b: seq<DirEntry>): (r: seq<DirEntry>)
    requires p + |b| <= |d|
    ensures |r| == |d| && forall i :: 0 <= i < |d| ==> r[i] == if p <= i < p + |b| then b[i - p] else d[i]
  {
    d[..p] + b + d[p + |b|..]
  }

  function Deleted(e: DirEntry): DirEntry { e[0 := 0xE5] }

  /** The directory with entries s..t marked as deleted. */
  function Mark(d: seq<DirEntry>, s: nat, t: nat): (r: seq<DirEntry>)
    ensures |r| == |d| && forall i :: 0 <= i < |d| ==> r[i] == if s <= i <= t then Deleted(d[i]) else d[i]
  {
    seq(|d|, i requires 0 <= i < |d| => if s <= i <= t then Deleted(d[i]) else d[i])
  }

  /** All live short names differ. */
  ghost predicate Distinct(d: seq<DirEntry>, L: map<nat, seq<nat>>) {
    forall p, q :: p in L && q in L && p != q && p < |d| && q < |d| ==> d[p][..11] != d[q][..11]
  }

  // ----- stretching

  /** A set depends on its own entries only. */
  lemma SetFrame(d: seq<DirEntry>, e: seq<DirEntry>, q: nat, lfn: seq<nat>)
    requires HasSet(d, q, lfn) && q < |e|
    requires forall i :: Start(q, lfn) <= i <= q && i < |e| && i >= 0 ==> e[i] == d[i]
    ensures HasSet(e, q, lfn)
  {
    hide IsLfnEntry, SumOf;
    forall k | 1 <= k <= EntriesFor(|lfn|)
      ensures IsPart(e, q, lfn, k)
    {
      assert IsPart(d, q, lfn, k);
    }
  }

  lemma StretchWellFormed(d: seq<DirEntry>, L: map<nat, seq<nat>>, n: nat)
    requires WellFormed(d, L)
    ensures WellFormed(Padded(d, n), L) && (Distinct(d, L) ==> Distinct(Padded(d, n), L))
  {
    var e := Padded(d, n);
    assert forall i :: |d| <= i < |e| ==> IsEnd(e[i]);
    hide HasSet, HasLlef;
    forall q: nat | q in L && L[q] != []
      ensures HasSet(e, q, L[q])
    {
      assert HasSet(d, q, L[q]);
      SetFrame(d, e, q, L[q]);
    }
    forall i | 0 <= i < |e| && IsLong(e[i])
      ensures Follows(e, L, i)
    {
      assert Follows(d, L, i);
    }
  }

  // ----- registering

  /** The entries of a block, seen in the directory. */
  lemma BlockEntry(b: seq<DirEntry>, lfn: seq<nat>, fn: seq<byte>, nt: byte, j: nat)
    requires IsBlock(b, lfn, fn, nt) && j < |b| && fn[0] != 0 && fn[0] != 0xE5
    ensures !IsFree(b[j]) && (j == |b| - 1 ==> IsSfn(b[j]) && !IsLong(b[j]) && b[j][..11] == fn)
    ensures j < |b| - 1 ==> IsLong(b[j]) && !IsSfn(b[j]) && (j > 0 ==> !HasLlef(b[j][0]))
  {
    if j < |b| - 1 {
      assert IsBlockPart(b, lfn, fn, |b| - 1 - j);
      LongIsLong(b[j], lfn, |b| - 1 - j, SumOf(fn));
    }
  }

  /** Only the first entry of a block starts an LFN sequence, and only the last is a short name. */
  ghost predicate Proper(b: seq<DirEntry>) {
    && |b| >= 1 && IsSfn(b[|b| - 1])
    && forall j :: 0 <= j < |b| - 1 ==> IsLong(b[j]) && (j > 0 ==> !HasLlef(b[j][0]))
  }

  lemma BlockProper(b: seq<DirEntry>, lfn: seq<nat>, fn: seq<byte>, nt: byte)
    requires IsBlock(b, lfn, fn, nt) && fn[0] != 0 && fn[0] != 0xE5
    ensures Proper(b) && (lfn == [] ==> |b| == 1)
  {
    hide IsBlock, IsLong, IsSfn, HasLlef;
    assert |b| >= 1 && (lfn == [] ==> |b| == 1) by { BlockSize(b, lfn, fn, nt); }
    BlockEntry(b, lfn, fn, nt, |b| - 1);
    forall j | 0 <= j < |b| - 1
      ensures IsLong(b[j]) && (j > 0 ==> !HasLlef(b[j][0]))
    {
      BlockEntry(b, lfn, fn, nt, j);
    }
  }

  lemma BlockSize(b: seq<DirEntry>, lfn: seq<nat>, fn: seq<byte>, nt: byte)
    requires IsBlock(b, lfn, fn, nt)
    ensures |b| >= 1 && (lfn == [] ==> |b| == 1)
  {
  }

  /** Entries before a run are in use, as far as no terminator precedes one. */
  lemma {:induction false} NoEndBefore(d: seq<DirEntry>, L: map<nat, seq<nat>>, p: nat, i: nat)
    requires WellFormed(d, L) && i < p <= |d| && !IsFree(d[p - 1])
    ensures !IsEnd(d[i])
  {
    if IsEnd(d[i]) {
      NothingAfter(d, L, i, p - 1);
    }
  }

  lemma BlockIsSet(d: seq<DirEntry>, p: nat, b: seq<DirEntry>, lfn: seq<nat>, fn: seq<byte>, nt: byte)
    requires IsBlock(b, lfn, fn, nt) && p + |b| <= |d| && lfn != []
    ensures HasSet(Put(d, p, b), p + |b| - 1, lfn)
  {
    hide IsLfnEntry, SumOf;
    var e, q := Put(d, p, b), p + |b| - 1;
    assert e[q][..11] == fn;
    forall k | 1 <= k <= EntriesFor(|lfn|)
      ensures IsPart(e, q, lfn, k)
    {
      assert IsBlockPart(b, lfn, fn, k);
    }
  }

  /** Registering keeps the directory well-formed and adds exactly the new object. */
  lemma PutWellFormed(d: seq<DirEntry>, L: map<nat, seq<nat>>, p: nat, b: seq<DirEntry>, lfn: seq<nat>, fn: seq<byte>,
    nt: byte)
    requires WellFormed(d, L) && IsBlock(b, lfn, fn, nt) && IsGap(d, p, |b|) && fn[0] != 0 && fn[0] != 0xE5
    ensures WellFormed(Put(d, p, b), L[p + |b| - 1 := lfn])
  {
    hide IsBlock, IsGap, Proper, Ends, Lives, Sets, Chained;
    BlockProper(b, lfn, fn, nt);
    GapInside(d, p, |b|);
    PutEnds(d, L, p, b);
    PutSets(d, L, p, b, lfn, fn, nt);
    PutFollows(d, L, p, b, lfn);
    PutLive(d, L, p, b, lfn);
  }

  lemma GapInside(d: seq<DirEntry>, p: nat, n: nat)
    requires IsGap(d, p, n)
    ensures p + n <= |d| && n >= 1
  {
  }

  lemma PutEnds(d: seq<DirEntry>, L: map<nat, seq<nat>>, p: nat, b: seq<DirEntry>)
    requires WellFormed(d, L) && IsGap(d, p, |b|) && Proper(b)
    ensures Ends(Put(d, p, b))
  {
    var e := Put(d, p, b);
    hide Lives, Sets, Chained;
    forall i | 0 < i < |d| && IsEnd(e[i - 1])
      ensures IsEnd(e[i])
    {
      if i - 1 < p {
        NoEndBefore(d, L, p, i - 1);
      } else {
        assert IsEnd(d[i - 1]);
      }
    }
  }

  lemma PutSets(d: seq<DirEntry>, L: map<nat, seq<nat>>, p: nat, b: seq<DirEntry>, lfn: seq<nat>, fn: seq<byte>,
    nt: byte)
    requires WellFormed(d, L) && IsGap(d, p, |b|) && IsBlock(b, lfn, fn, nt)
    ensures Sets(Put(d, p, b), L[p + |b| - 1 := lfn])
  {
    hide HasSet, Chained, IsBlock, Ends;
    var e := Put(d, p, b);
    if lfn != [] { BlockIsSet(d, p, b, lfn, fn, nt); }
    forall q: nat | q in L && L[q] != []
      ensures q != p + |b| - 1 ==> HasSet(e, q, L[q])
    {
      assert HasSet(d, q, L[q]);
      SetNames(d, q, L[q]);
      forall i | Start(q, L[q]) <= i <= q
        ensures e[i] == d[i]
      {
        if i < q { SetEntry(d, q, L[q], q - i); }
      }
      SetFrame(d, e, q, L[q]);
    }
  }

  lemma PutFollows(d: seq<DirEntry>, L: map<nat, seq<nat>>, p: nat, b: seq<DirEntry>, lfn: seq<nat>)
    requires WellFormed(d, L) && IsGap(d, p, |b|) && (lfn == [] ==> |b| == 1) && Proper(b)
    ensures Chained(Put(d, p, b), L[p + |b| - 1 := lfn])
  {
    hide WellFormed, IsGap, HasLlef, Follows, IsLong, Proper;
    GapInside(d, p, |b|);
    var e, q := Put(d, p, b), p + |b| - 1;
    forall i | 0 <= i < |d| && IsLong(e[i])
      ensures Follows(e, L[q := lfn], i)
    {
      if p <= i < p + |b| {
        FollowsInBlock(d, L, p, b, lfn, i);
      } else {
        FollowsOutside(d, L, p, b, lfn, i);
      }
    }
  }

  lemma FollowsInBlock(d: seq<DirEntry>, L: map<nat, seq<nat>>, p: nat, b: seq<DirEntry>, lfn: seq<nat>, i: nat)
    requires p <= i < p + |b| <= |d| && (lfn == [] ==> |b| == 1) && Proper(b) && IsLong(Put(d, p, b)[i])
    ensures Follows(Put(d, p, b), L[p + |b| - 1 := lfn], i)
  {
    hide HasLlef;
    var e := Put(d, p, b);
    assert e[i] == b[i - p];
    assert i < p + |b| - 1;
    assert e[i + 1] == b[i + 1 - p];
  }

  lemma FollowsOutside(d: seq<DirEntry>, L: map<nat, seq<nat>>, p: nat, b: seq<DirEntry>, lfn: seq<nat>, i: nat)
    requires WellFormed(d, L) && IsGap(d, p, |b|) && i < |d| && !(p <= i < p + |b|) && IsLong(d[i])
    ensures Follows(Put(d, p, b), L[p + |b| - 1 := lfn], i)
  {
    hide HasLlef, HasSet, Ends;
    assert Follows(d, L, i);
    assert !IsFree(d[i + 1]);
    assert Put(d, p, b)[i + 1] == d[i + 1];
  }

  lemma PutLive(d: seq<DirEntry>, L: map<nat, seq<nat>>, p: nat, b: seq<DirEntry>, lfn: seq<nat>)
    requires WellFormed(d, L) && IsGap(d, p, |b|) && Proper(b)
    ensures Lives(Put(d, p, b), L[p + |b| - 1 := lfn])
  {
    hide Sets, Chained, Ends;
    var e := Put(d, p, b);
    forall q: nat
      ensures q in L[p + |b| - 1 := lfn] <==> q < |d| && IsSfn(e[q])
    {
      if p <= q < p + |b| {
        assert e[q] == b[q - p] && IsFree(d[q]);
      }
    }
  }

  // ----- removing

  /** Removing keeps the directory well-formed and takes away exactly that object. */
  lemma MarkWellFormed(d: seq<DirEntry>, L: map<nat, seq<nat>>, q: nat, s: nat)
    requires WellFormed(d, L) && q in L && s == (if L[q] == [] then q else Start(q, L[q]))
    ensures WellFormed(Mark(d, s, q), L - {q})
  {
    hide Ends, Lives, Sets, Chained;
    MarkEnds(d, L, q, s);
    MarkLive(d, L, q, s);
    MarkSets(d, L, q, s);
    MarkFollows(d, L, q, s);
  }

  /** What lies between the first and the last entry of an object. */
  lemma ObjectEntry(d: seq<DirEntry>, L: map<nat, seq<nat>>, q: nat, s: nat, i: nat)
    requires WellFormed(d, L) && q in L && s == (if L[q] == [] then q else Start(q, L[q])) && s <= i <= q
    ensures q < |d| && !IsFree(d[i]) && (i < q ==> IsLong(d[i])) && (i == q ==> IsSfn(d[i]))
      && (i == s && s < q ==> HasLlef(d[i][0]))
  {
    hide HasSet, Chained, Ends, HasLlef;
    if L[q] != [] && i < q {
      assert HasSet(d, q, L[q]);
      SetNames(d, q, L[q]);
      SetEntry(d, q, L[q], q - i);
    }
  }

  lemma MarkEnds(d: seq<DirEntry>, L: map<nat, seq<nat>>, q: nat, s: nat)
    requires WellFormed(d, L) && q in L && s == (if L[q] == [] then q else Start(q, L[q]))
    ensures Ends(Mark(d, s, q))
  {
    hide Lives, Sets, Chained, IsLong, IsSfn;
    var e := Mark(d, s, q);
    forall i | 0 < i < |d| && IsEnd(e[i - 1])
      ensures IsEnd(e[i])
    {
      assert IsEnd(d[i - 1]) && IsEnd(d[i]);
      if s <= i <= q { ObjectEntry(d, L, q, s, i); }
    }
  }

  lemma MarkLive(d: seq<DirEntry>, L: map<nat, seq<nat>>, q: nat, s: nat)
    requires WellFormed(d, L) && q in L && s == (if L[q] == [] then q else Start(q, L[q]))
    ensures Lives(Mark(d, s, q), L - {q})
  {
    hide Sets, Chained, Ends;
    var e := Mark(d, s, q);
    forall i: nat
      ensures i in L - {q} <==> i < |d| && IsSfn(e[i])
    {
      if s <= i <= q { ObjectEntry(d, L, q, s, i); }
    }
  }

  /** Objects do not overlap. */
  lemma ObjectsApart(d: seq<DirEntry>, L: map<nat, seq<nat>>, q: nat, s: nat, r: nat, i: nat)
    requires WellFormed(d, L) && q in L && s == (if L[q] == [] then q else Start(q, L[q]))
    requires r in L && r != q && Start(r, L[r]) <= i <= r && L[r] != []
    ensures !(s <= i <= q)
  {
    hide HasSet, Chained, Ends, Lives;
    assert HasSet(d, r, L[r]);
    SetNames(d, r, L[r]);
    if s <= i <= q {
      if q < r {
        ObjectEntry(d, L, r, Start(r, L[r]), q);
        ObjectEntry(d, L, q, s, q);
      } else {
        ObjectEntry(d, L, q, s, r);
        ObjectEntry(d, L, r, Start(r, L[r]), r);
      }
    }
  }

  lemma MarkSets(d: seq<DirEntry>, L: map<nat, seq<nat>>, q: nat, s: nat)
    requires WellFormed(d, L) && q in L && s == (if L[q] == [] then q else Start(q, L[q]))
    ensures Sets(Mark(d, s, q), L - {q})
  {
    hide HasSet, Chained, Ends, Lives;
    var e := Mark(d, s, q);
    forall r: nat | r in L - {q} && L[r] != []
      ensures HasSet(e, r, L[r])
    {
      assert HasSet(d, r, L[r]);
      SetNames(d, r, L[r]);
      forall i | Start(r, L[r]) <= i <= r
        ensures e[i] == d[i]
      {
        ObjectsApart(d, L, q, s, r, i);
      }
      SetFrame(d, e, r, L[r]);
    }
  }

  lemma MarkFollows(d: seq<DirEntry>, L: map<nat, seq<nat>>, q: nat, s: nat)
    requires WellFormed(d, L) && q in L && s == (if L[q] == [] then q else Start(q, L[q]))
    ensures Chained(Mark(d, s, q), L - {q})
  {
    var e := Mark(d, s, q);
    forall i | 0 <= i < |d| && IsLong(e[i])
      ensures Follows(e, L - {q}, i)
    {
      assert e[i] == d[i] && !(s <= i <= q);
      FollowsAfterMark(d, L, q, s, i);
    }
  }

  lemma FollowsAfterMark(d: seq<DirEntry>, L: map<nat, seq<nat>>, q: nat, s: nat, i: nat)
    requires WellFormed(d, L) && q in L && s == (if L[q] == [] then q else Start(q, L[q]))
    requires i < |d| && !(s <= i <= q) && IsLong(d[i])
    ensures Follows(Mark(d, s, q), L - {q}, i)
  {
    FollowsAt(d, L, i);
    hide WellFormed, HasLlef, IsLong, IsSfn, Mark, Start;
    if i + 1 == s {
      ObjectEntry(d, L, q, s, s);
    }
    MarkedElsewhere(d, s, q, i);
  }

  lemma FollowsAt(d: seq<DirEntry>, L: map<nat, seq<nat>>, i: nat)
    requires WellFormed(d, L) && i < |d| && IsLong(d[i])
    ensures Follows(d, L, i) && (i + 1 in L ==> !IsLong(d[i + 1]))
  {
    hide Sets, Ends;
  }

  lemma MarkedElsewhere(d: seq<DirEntry>, s: nat, t: nat, i: nat)
    requires i + 1 < |d| && !(s <= i <= t) && i + 1 != s
    ensures |Mark(d, s, t)| == |d| && Mark(d, s, t)[i + 1] == d[i + 1]
  {
  }
}
