/** Directories over whole runs: a directory is a set of names. */
module DirRuns {
  import opened Bytes
  import opened Geometry
  import opened LongNames
  import opened ShortNames
  import opened FileInfo
  import opened DirScan
  import opened DirEdit

  /** What create_name makes of a path segment. */
  datatype Name = Name(lfn: seq<nat>, fn: seq<byte>, cf: Flags)

  /** Folding keeps ASCII apart from the rest and identifies ASCII characters only up to case. */
  ghost predicate FoldsAscii(up: nat -> nat) {
    forall a: nat, b: nat :: a < 0x80 && up(a) == up(b) ==> b < 0x80 && Up(a) == Up(b)
  }

  // ----- names equal up to case have equal short forms

  lemma UpPlain(a: nat, b: nat)
    requires a < 0x80 && b < 0x80 && Up(a) == Up(b)
    ensures (IsPlain(a) <==> IsPlain(b)) && (a == 0x2E <==> b == 0x2E)
  {
  }

  lemma FitsIsAscii(a: seq<nat>, k: nat)
    requires Fits(a) && k < |a|
    ensures a[k] < 0x80
  {
    if LastDot(a) == 0 || k < LastDot(a) - 1 {
      assert BodyOf(a)[k] == a[k];
    } else if k >= LastDot(a) {
      assert ExtOf(a)[k - LastDot(a)] == a[k];
    }
  }

  lemma SameAscii(up: nat -> nat, a: seq<nat>, b: seq<nat>, k: nat)
    requires FoldsAscii(up) && SameName(up, a, b) && Fits(a) && k < |a|
    ensures Up(a[k]) == Up(b[k]) && (IsPlain(a[k]) <==> IsPlain(b[k])) && (a[k] == 0x2E <==> b[k] == 0x2E)
  {
    FitsIsAscii(a, k);
    hide Fits;
    assert up(a[k]) == up(b[k]);
    UpPlain(a[k], b[k]);
  }

  lemma SameDot(up: nat -> nat, a: seq<nat>, b: seq<nat>)
    requires FoldsAscii(up) && SameName(up, a, b) && Fits(a)
    ensures LastDot(a) == LastDot(b)
  {
    forall k | 0 <= k < |a|
      ensures a[k] == 0x2E <==> b[k] == 0x2E
    {
      SameAscii(up, a, b, k);
    }
    hide Fits, SameName;
    var da, db := LastDot(a), LastDot(b);
    assert da > 0 ==> a[da - 1] == 0x2E;
    assert db > 0 ==> b[db - 1] == 0x2E;
  }

  /** If one of two names equal up to case fits 8.3, so does the other, with the same short form. */
  lemma SameShort(up: nat -> nat, a: seq<nat>, b: seq<nat>, fa: seq<byte>, fb: seq<byte>)
    requires FoldsAscii(up) && SameName(up, a, b) && Fits(a)
    ensures Fits(b) && (FieldsOf(a, fa) && FieldsOf(b, fb) ==> fa == fb)
  {
    forall k | 0 <= k < |a|
      ensures Up(a[k]) == Up(b[k]) && (IsPlain(a[k]) <==> IsPlain(b[k]))
    {
      SameAscii(up, a, b, k);
    }
    SameDot(up, a, b);
    hide IsPlain, Up, LastDot;
    SameFields(BodyOf(a), BodyOf(b));
    SameFields(ExtOf(a), ExtOf(b));
    if FieldsOf(a, fa) && FieldsOf(b, fb) {
      FieldUnique(fa[..8], fb[..8], BodyOf(a), BodyOf(b));
      FieldUnique(fa[8..], fb[8..], ExtOf(a), ExtOf(b));
      assert fa == fa[..8] + fa[8..] && fb == fb[..8] + fb[8..];
    }
  }

  lemma SameFields(s: seq<nat>, t: seq<nat>)
    requires |s| == |t| && (forall k :: 0 <= k < |s| ==> (IsPlain(s[k]) <==> IsPlain(t[k]))) && AllPlain(s)
    ensures AllPlain(t)
  {
    forall k | 0 <= k < |t|
      ensures IsPlain(t[k])
    {
      assert IsPlain(s[k]);
    }
  }

  lemma FieldUnique(f: seq<byte>, h: seq<byte>, s: seq<nat>, t: seq<nat>)
    requires IsField(f, s) && IsField(h, t) && |f| == |h| && |s| == |t|
      && forall k :: 0 <= k < |s| ==> Up(s[k]) == Up(t[k])
    ensures f == h
  {
  }

  // ----- runs

  /** A directory, its objects, and the names that were registered in it, by the position of their short name. */
  datatype State = State(d: seq<DirEntry>, objects: map<nat, seq<nat>>, names: map<nat, Name>)

  /** The name finds an object with this long and short name. */
  ghost predicate Names(up: nat -> nat, nm: Name, stored: seq<nat>, fn: seq<byte>) {
    (stored != [] && SameName(up, nm.lfn, stored)) || (!nm.cf.loss && fn == nm.fn)
  }

  /** The LFN set that dir_register writes for the name. */
  function LongOf(nm: Name): seq<nat> { LongPart(nm.lfn, nm.cf) }

  /** The object at q is the one registered under the name. */
  ghost predicate Stands(s: State, q: nat, nm: Name) {
    && q in s.objects && q < |s.d| && NameFor(nm.lfn, nm.fn, nm.cf) && s.objects[q] == LongOf(nm)
    && (!nm.cf.loss ==> s.d[q][..11] == nm.fn)
  }

  /** No registered name finds an object other than its own. */
  ghost predicate Apart(up: nat -> nat, s: State) {
    forall q, r :: q in s.names && r in s.objects && q != r && r < |s.d| ==>
        !Names(up, s.names[q], s.objects[r], s.d[r][..11])
  }

  ghost predicate Sound(up: nat -> nat, s: State) {
    && WellFormed(s.d, s.objects) && Distinct(s.d, s.objects)
    && (forall q :: q in s.names ==> Stands(s, q, s.names[q]))
    && Apart(up, s)
  }

  datatype Event =
    | Register(nm: Name, fn: seq<byte>, room: nat, p: nat, b: seq<DirEntry>)
    | Remove(q: nat)

  /** No live object is found under the name. */
  ghost predicate Absent(up: nat -> nat, s: State, nm: Name) {
    forall q :: q in s.objects && q < |s.d| ==> !Names(up, nm, s.objects[q], s.d[q][..11])
  }

  /** No live object has this short name. */
  ghost predicate Unused(s: State, fn: seq<byte>) {
    forall q :: q in s.objects && q < |s.d| ==> s.d[q][..11] != fn
  }

  /** What dir_register and dir_remove do: a name that was searched for and not found gets the lowest run of
      free entries, under its own short form or, if that is lossy, a numbered one that was not found either. */
  ghost predicate Enabled(up: nat -> nat, s: State, ev: Event) {
    match ev
    case Register(nm, fn, room, p, b) =>
      && NameFor(nm.lfn, nm.fn, nm.cf) && Absent(up, s, nm) && Unused(s, fn)
      && |fn| == 11 && fn[0] != 0 && fn[0] != 0xE5 && fn[0] != 0x2E && (!nm.cf.loss ==> fn == nm.fn)
      && IsBlock(b, LongOf(nm), fn, NtRes(nm.cf)) && IsGap(Padded(s.d, room), p, |b|)
    case Remove(q) => q in s.objects && (s.objects[q] != [] ==> 0 <= Start(q, s.objects[q]))
  }

  /** The first entry of the object at q. */
  ghost function First(s: State, q: nat): nat
    requires q in s.objects && (s.objects[q] != [] ==> 0 <= Start(q, s.objects[q]))
  {
    if s.objects[q] == [] then q else Start(q, s.objects[q])
  }

  ghost function Apply(up: nat -> nat, s: State, ev: Event): State
    requires Enabled(up, s, ev)
  {
    match ev
    case Register(nm, fn, room, p, b) =>
      var q := p + |b| - 1;
      State(Put(Padded(s.d, room), p, b), s.objects[q := LongOf(nm)], s.names[q := nm])
    case Remove(q) => State(Mark(s.d, First(s, q), q), s.objects - {q}, s.names - {q})
  }

  /** Room at the end changes nothing. */
  lemma StretchSound(up: nat -> nat, s: State, room: nat)
    requires Sound(up, s)
    ensures Sound(up, s.(d := Padded(s.d, room)))
  {
    StretchWellFormed(s.d, s.objects, room);
    var w := s.(d := Padded(s.d, room));
    assert forall q :: q in s.objects ==> q < |s.d|;
    hide WellFormed, Distinct, NameFor, Names;
    assert forall q :: q in s.names ==> Stands(s, q, s.names[q]) ==> Stands(w, q, w.names[q]);
  }

  /** The old objects are where they were, and the new short name is a new one. */
  lemma PutFrame(d: seq<DirEntry>, L: map<nat, seq<nat>>, p: nat, b: seq<DirEntry>, lfn: seq<nat>, fn: seq<byte>,
    nt: byte)
    requires WellFormed(d, L) && IsBlock(b, lfn, fn, nt) && IsGap(d, p, |b|)
    ensures p + |b| <= |d| && p + |b| - 1 >= 0 && Put(d, p, b)[p + |b| - 1][..11] == fn && p + |b| - 1 !in L
    ensures forall q :: q in L ==> q < |d| && Put(d, p, b)[q] == d[q]
  {
    hide Sets, Ends, Chained;
    assert SfnEntry(fn, nt)[..11] == fn;
  }

  /** The state with the new object, once there is room. */
  ghost function Placed(s: State, nm: Name, p: nat, b: seq<DirEntry>): State
    requires p + |b| <= |s.d| && |b| >= 1
  {
    State(Put(s.d, p, b), s.objects[p + |b| - 1 := LongOf(nm)], s.names[p + |b| - 1 := nm])
  }

  ghost predicate CanPlace(up: nat -> nat, s: State, nm: Name, fn: seq<byte>, p: nat, b: seq<DirEntry>) {
    && Sound(up, s) && NameFor(nm.lfn, nm.fn, nm.cf) && Absent(up, s, nm) && Unused(s, fn)
    && |fn| == 11 && fn[0] != 0 && fn[0] != 0xE5 && (!nm.cf.loss ==> fn == nm.fn)
    && IsBlock(b, LongOf(nm), fn, NtRes(nm.cf)) && IsGap(s.d, p, |b|)
  }

  /** Two names, one of them registered before: the later one does not answer to the earlier one. */
  lemma NotTaken(up: nat -> nat, s: State, q: nat, nm: Name, fn: seq<byte>)
    requires FoldsAscii(up) && Sound(up, s) && q in s.names && NameFor(nm.lfn, nm.fn, nm.cf) && Absent(up, s, nm)
      && Unused(s, fn)
    ensures !Names(up, s.names[q], LongOf(nm), fn)
  {
    var old_ := s.names[q];
    assert Stands(s, q, old_);
    hide WellFormed, Distinct, Apart, FieldsOf, Fits, OneCase, IsTrimmed, BodyOf, ExtOf;
    assert !Names(up, nm, s.objects[q], s.d[q][..11]);
    if nm.cf.lfn && SameName(up, old_.lfn, nm.lfn) {
      if !old_.cf.lfn {
        SameShort(up, old_.lfn, nm.lfn, old_.fn, nm.fn);
      }
    }
  }

  lemma PlaceSound(up: nat -> nat, s: State, nm: Name, fn: seq<byte>, p: nat, b: seq<DirEntry>)
    requires FoldsAscii(up) && CanPlace(up, s, nm, fn, p, b) && p + |b| <= |s.d| && |b| >= 1
    ensures Sound(up, Placed(s, nm, p, b))
  {
    var t, n := Placed(s, nm, p, b), p + |b| - 1;
    hide WellFormed, NameFor, IsBlock, IsGap, Names;
    PutWellFormed(s.d, s.objects, p, b, LongOf(nm), fn, NtRes(nm.cf));
    PutFrame(s.d, s.objects, p, b, LongOf(nm), fn, NtRes(nm.cf));
    hide NtRes, Put, Sound;
    assert Distinct(t.d, t.objects) by { PlaceDistinct(up, s, nm, fn, p, b); }
    PlaceStands(up, s, nm, fn, p, b);
    PlaceApart(up, s, nm, fn, p, b);
    SoundBy(up, t);
  }

  lemma SoundBy(up: nat -> nat, s: State)
    requires WellFormed(s.d, s.objects) && Distinct(s.d, s.objects) && (forall q :: q in s.names
                                                                         ==> Stands(s, q, s.names[q])) && Apart(up, s)
    ensures Sound(up, s)
  {
  }

  lemma PlaceDistinct(up: nat -> nat, s: State, nm: Name, fn: seq<byte>, p: nat, b: seq<DirEntry>)
    requires CanPlace(up, s, nm, fn, p, b) && p + |b| <= |s.d| && |b| >= 1
    ensures Distinct(Placed(s, nm, p, b).d, Placed(s, nm, p, b).objects)
  {
    hide WellFormed, NameFor, IsBlock, IsGap, Names, Apart, Stands;
    PutFrame(s.d, s.objects, p, b, LongOf(nm), fn, NtRes(nm.cf));
  }

  lemma PlaceStands(up: nat -> nat, s: State, nm: Name, fn: seq<byte>, p: nat, b: seq<DirEntry>)
    requires CanPlace(up, s, nm, fn, p, b) && p + |b| <= |s.d| && |b| >= 1
    ensures forall q :: q in Placed(s, nm, p, b).names ==> Stands(Placed(s, nm, p, b), q, Placed(s, nm, p, b).names[q])
  {
    hide WellFormed, NameFor, IsBlock, IsGap, Names, Apart, Distinct;
    var t, n := Placed(s, nm, p, b), p + |b| - 1;
    PutFrame(s.d, s.objects, p, b, LongOf(nm), fn, NtRes(nm.cf));
    forall q | q in t.names
      ensures Stands(t, q, t.names[q])
    {
      if q != n { assert Stands(s, q, s.names[q]); }
    }
  }

  /** The new state, place by place. */
  lemma PlacedFacts(up: nat -> nat, s: State, nm: Name, fn: seq<byte>, p: nat, b: seq<DirEntry>, r: nat)
    requires CanPlace(up, s, nm, fn, p, b) && p + |b| <= |s.d| && |b| >= 1
    ensures var t, n := Placed(s, nm, p, b), p + |b| - 1;
            && n !in s.objects && n < |t.d| == |s.d| && t.d[n][..11] == fn
            && t.objects == s.objects[n := LongOf(nm)] && t.names == s.names[n := nm]
            && (r in s.objects ==> r < |s.d| && t.d[r] == s.d[r])
  {
    assert WellFormed(s.d, s.objects);
    hide Sound, NameFor, IsBlock, IsGap, WellFormed, NtRes;
    PutFrame(s.d, s.objects, p, b, LongOf(nm), fn, NtRes(nm.cf));
  }

  /** Two different names of the new state. */
  lemma PlaceApartPair(up: nat -> nat, s: State, nm: Name, fn: seq<byte>, p: nat, b: seq<DirEntry>, q: nat, r: nat)
    requires FoldsAscii(up) && CanPlace(up, s, nm, fn, p, b) && p + |b| <= |s.d| && |b| >= 1
    requires var t := Placed(s, nm, p, b); q in t.names && r in t.objects && q != r && r < |t.d|
    ensures var t := Placed(s, nm, p, b); !Names(up, t.names[q], t.objects[r], t.d[r][..11])
  {
    hide Sound, NameFor, IsBlock, IsGap, Names, NtRes, FoldsAscii, Placed;
    PlacedFacts(up, s, nm, fn, p, b, r);
    if r == p + |b| - 1 {
      NotTaken(up, s, q, nm, fn);
    } else if q != p + |b| - 1 {
      OldApart(up, s, q, r);
    }
  }

  lemma OldApart(up: nat -> nat, s: State, q: nat, r: nat)
    requires Sound(up, s) && q in s.names && r in s.objects && q != r && r < |s.d|
    ensures !Names(up, s.names[q], s.objects[r], s.d[r][..11])
  {
    hide WellFormed, Distinct, Names, Stands;
  }

  lemma PlaceApart(up: nat -> nat, s: State, nm: Name, fn: seq<byte>, p: nat, b: seq<DirEntry>)
    requires FoldsAscii(up) && CanPlace(up, s, nm, fn, p, b) && p + |b| <= |s.d| && |b| >= 1
    ensures Apart(up, Placed(s, nm, p, b))
  {
    hide CanPlace, Names, Placed, FoldsAscii;
    var t := Placed(s, nm, p, b);
    forall q, r | q in t.names && r in t.objects && q != r && r < |t.d|
      ensures !Names(up, t.names[q], t.objects[r], t.d[r][..11])
    {
      PlaceApartPair(up, s, nm, fn, p, b, q, r);
    }
  }

  /** Registering an absent name keeps everything sound. */
  lemma RegisterSound(up: nat -> nat, s: State, ev: Event)
    requires FoldsAscii(up) && Sound(up, s) && ev.Register? && Enabled(up, s, ev)
    ensures Sound(up, Apply(up, s, ev))
  {
    hide NameFor, IsBlock, IsGap, Sound, Absent, Unused, Padded;
    var Register(nm, fn, room, p, b) := ev;
    var w := s.(d := Padded(s.d, room));
    StretchSound(up, s, room);
    StretchAbsent(up, s, nm, fn, room);
    GapInside(w.d, p, |b|);
    PlaceSound(up, w, nm, fn, p, b);
  }

  /** Room at the end brings no objects. */
  lemma StretchAbsent(up: nat -> nat, s: State, nm: Name, fn: seq<byte>, room: nat)
    requires Sound(up, s) && Absent(up, s, nm) && Unused(s, fn)
    ensures Absent(up, s.(d := Padded(s.d, room)), nm) && Unused(s.(d := Padded(s.d, room)), fn)
  {
    assert forall q :: q in s.objects ==> q < |s.d|;
    hide WellFormed, Distinct, NameFor, Names;
  }

  /** What a removal leaves of the state. */
  ghost predicate Reduced(s: State, t: State, q: nat) {
    && t.objects == s.objects - {q} && t.names == s.names - {q} && |t.d| == |s.d|
    && forall r :: r in t.objects && r < |s.d| ==> t.d[r] == s.d[r]
  }

  lemma RemoveReduces(up: nat -> nat, s: State, q: nat)
    requires WellFormed(s.d, s.objects) && Enabled(up, s, Remove(q))
    ensures Reduced(s, Apply(up, s, Remove(q)), q)
  {
    hide WellFormed, Mark;
    forall r | r in s.objects && r != q
      ensures r < |s.d| && Mark(s.d, First(s, q), q)[r] == s.d[r]
    {
      MarkFrame(s, q, r);
    }
    MarkSize(s.d, First(s, q), q);
  }

  lemma MarkSize(d: seq<DirEntry>, s: nat, t: nat)
    ensures |Mark(d, s, t)| == |d|
  {
  }

  lemma ReducedApart(up: nat -> nat, s: State, t: State, q: nat)
    requires Apart(up, s) && Reduced(s, t, q)
    ensures Apart(up, t)
  {
    hide Names;
    forall x, r | x in t.names && r in t.objects && x != r && r < |t.d|
      ensures !Names(up, t.names[x], t.objects[r], t.d[r][..11])
    {
      assert !Names(up, s.names[x], s.objects[r], s.d[r][..11]);
    }
  }

  lemma ReducedStands(s: State, t: State, q: nat, r: nat)
    requires Reduced(s, t, q) && r in t.names && Stands(s, r, s.names[r])
    ensures Stands(t, r, t.names[r])
  {
    hide NameFor;
  }

  lemma ReducedDistinct(s: State, t: State, q: nat)
    requires Reduced(s, t, q) && Distinct(s.d, s.objects)
    ensures Distinct(t.d, t.objects)
  {
  }

  lemma ReducedSound(up: nat -> nat, s: State, t: State, q: nat)
    requires Sound(up, s) && Reduced(s, t, q) && WellFormed(t.d, t.objects)
    ensures Sound(up, t)
  {
    assert forall r :: r in s.names ==> Stands(s, r, s.names[r]);
    assert Apart(up, s) && Distinct(s.d, s.objects);
    hide WellFormed, Stands, Apart, Distinct, Reduced, Sound;
    ReducedApart(up, s, t, q);
    ReducedDistinct(s, t, q);
    assert t.names == s.names - {q} by { ReducedNames(s, t, q); }
    forall r | r in t.names
      ensures Stands(t, r, t.names[r])
    {
      ReducedStands(s, t, q, r);
    }
    SoundBy(up, t);
  }

  lemma ReducedNames(s: State, t: State, q: nat)
    requires Reduced(s, t, q)
    ensures t.names == s.names - {q}
  {
  }

  /** Removing an object keeps everything sound. */
  lemma RemoveSound(up: nat -> nat, s: State, ev: Event)
    requires Sound(up, s) && ev.Remove? && Enabled(up, s, ev)
    ensures Sound(up, Apply(up, s, ev))
  {
    var q := ev.q;
    assert WellFormed(s.d, s.objects);
    hide Sound, WellFormed, Reduced, Mark;
    RemoveReduces(up, s, q);
    MarkWellFormed(s.d, s.objects, q, First(s, q));
    ReducedSound(up, s, Apply(up, s, ev), q);
  }

  /** Other short names are not touched by a removal. */
  lemma MarkFrame(s: State, q: nat, r: nat)
    requires WellFormed(s.d, s.objects) && q in s.objects && r in s.objects && r != q && (s.objects[q] != []
      ==> 0 <= Start(q, s.objects[q]))
    ensures r < |s.d| && Mark(s.d, First(s, q), q)[r] == s.d[r]
  {
    hide Sets, Chained, Ends;
    if First(s, q) <= r <= q {
      ObjectEntry(s.d, s.objects, q, First(s, q), r);
    }
  }

  /** The events of a run, each enabled when it happens. */
  ghost predicate IsRunOf(up: nat -> nat, s: State, evs: seq<Event>)
    decreases |evs|
  {
    evs == [] || (Enabled(up, s, evs[0]) && IsRunOf(up, Apply(up, s, evs[0]), evs[1..]))
  }

  ghost function After(up: nat -> nat, s: State, evs: seq<Event>): State
    requires IsRunOf(up, s, evs)
    decreases |evs|
  {
    if evs == [] then s else After(up, Apply(up, s, evs[0]), evs[1..])
  }

  /** Over every run, live short names stay distinct and no registered name finds another object. */
  lemma {:induction false} RunKeepsNames(up: nat -> nat, s: State, evs: seq<Event>)
    requires FoldsAscii(up) && Sound(up, s) && IsRunOf(up, s, evs)
    ensures Sound(up, After(up, s, evs))
    decreases |evs|
  {
    if evs != [] {
      if evs[0].Register? {
        RegisterSound(up, s, evs[0]);
      } else {
        RemoveSound(up, s, evs[0]);
      }
      RunKeepsNames(up, Apply(up, s, evs[0]), evs[1..]);
    }
  }

  /** The key that create_name leaves for a name; the rest of the buffer is arbitrary. */
  ghost predicate IsKeyOf(key: Key, up: nat -> nat, nm: Name) {
    key.up == up && Buffered(key.buf, nm.lfn) && key.fn == nm.fn && key.loss == nm.cf.loss && !key.noLfn
  }

  /** A registered name matches its own object and no other. */
  lemma OwnMatch(up: nat -> nat, s: State, q: nat, key: Key, r: nat)
    requires Sound(up, s) && q in s.names && IsKeyOf(key, up, s.names[q]) && r in s.objects && r < |s.d|
    ensures q in s.objects && q < |s.d| && |s.names[q].fn| == 11
    ensures Matches(key, s.names[q].lfn, s.objects[r], s.d[r][..11]) <==> r == q
  {
    var nm := s.names[q];
    assert Stands(s, q, nm);
    hide WellFormed, Distinct;
    assert SameName(up, nm.lfn, nm.lfn);
    assert r != q ==> !Names(up, nm, s.objects[r], s.d[r][..11]);
  }

  /** dir_find stops at exactly the block of every registered name. */
  lemma RegisteredIsFound(up: nat -> nat, s: State, q: nat, key: Key)
    requires Folds(up) && Sound(up, s) && q in s.names && IsKeyOf(key, up, s.names[q])
    ensures Find(key, s.d) == Some((q, BlockOf(key, q, s.objects[q])))
  {
    var nm := s.names[q];
    assert WellFormed(s.d, s.objects) && Stands(s, q, nm);
    hide Sound, WellFormed, FindFrom, BlockOf, Matches, NameFor;
    forall r | r in s.objects && r < |s.d|
      ensures Matches(key, nm.lfn, s.objects[r], s.d[r][..11]) <==> r == q
    {
      OwnMatch(up, s, q, key, r);
    }
    OwnMatch(up, s, q, key, q);
    FindFirst(key, nm.lfn, s.d, s.objects, 0, NO_SCAN);
  }

  /** A name is not found exactly when no live object answers to it. */
  lemma FindDecides(up: nat -> nat, s: State, nm: Name, key: Key)
    requires Folds(up) && WellFormed(s.d, s.objects) && IsKeyOf(key, up, nm) && |nm.fn| == 11
    ensures Find(key, s.d) == None <==> Absent(up, s, nm)
  {
    FindFirst(key, nm.lfn, s.d, s.objects, 0, NO_SCAN);
    hide WellFormed, FindFrom, BlockOf;
  }

  /** The search for a short name alone, which picks a numbered name. */
  lemma CollisionDecides(s: State, lfn: seq<nat>, key: Key)
    requires KeyFor(key, lfn) && WellFormed(s.d, s.objects) && key.noLfn && !key.loss
    ensures Find(key, s.d) == None <==> Unused(s, key.fn)
  {
    FindFirst(key, lfn, s.d, s.objects, 0, NO_SCAN);
    hide WellFormed, FindFrom, BlockOf;
  }

  /** The first live object that answers to the name. */
  ghost predicate FirstNamed(up: nat -> nat, s: State, nm: Name, q: nat) {
    && q in s.objects && q < |s.d| && Names(up, nm, s.objects[q], s.d[q][..11])
    && forall r :: r in s.objects && r < q && r < |s.d| ==> !Names(up, nm, s.objects[r], s.d[r][..11])
  }

  /** dir_find stops at the first object that answers to the name, whatever put it there. */
  lemma FindGives(up: nat -> nat, s: State, nm: Name, key: Key)
    requires Folds(up) && WellFormed(s.d, s.objects) && IsKeyOf(key, up, nm) && |nm.fn| == 11
    ensures Find(key, s.d) == None <==> Absent(up, s, nm)
    ensures Find(key, s.d).Some? ==>
              var (q, b) := Find(key, s.d).value; FirstNamed(up, s, nm, q) && b == BlockOf(key, q, s.objects[q])
  {
    FindFirst(key, nm.lfn, s.d, s.objects, 0, NO_SCAN);
    hide WellFormed, FindFrom, BlockOf;
  }

  /** No object but the one at q answers to the name. */
  ghost predicate OnlyNamed(up: nat -> nat, s: State, nm: Name, q: nat) {
    forall r :: r in s.objects && r != q && r < |s.d| ==> !Names(up, nm, s.objects[r], s.d[r][..11])
  }

  /** Once an object is removed, a name is absent exactly if no other object answers to it. */
  lemma RemovedIsAbsent(up: nat -> nat, s: State, q: nat, nm: Name, key: Key)
    requires Folds(up) && Sound(up, s) && IsKeyOf(key, up, nm) && |nm.fn| == 11 && Enabled(up, s, Remove(q))
    ensures Find(key, Apply(up, s, Remove(q)).d) == None <==> OnlyNamed(up, s, nm, q)
  {
    var t := Apply(up, s, Remove(q));
    RemoveSound(up, s, Remove(q));
    FindDecides(up, t, nm, key);
    hide WellFormed, Find, Names, Distinct, Apart, Stands;
    forall r | r in s.objects && r != q
      ensures r in t.objects && r < |s.d| && r < |t.d| && t.objects[r] == s.objects[r] && t.d[r] == s.d[r]
    {
      MarkFrame(s, q, r);
    }
  }

  /** So a registered name is absent once its object is removed. */
  lemma RegisteredIsOnly(up: nat -> nat, s: State, q: nat)
    requires Sound(up, s) && q in s.names
    ensures OnlyNamed(up, s, s.names[q], q)
  {
  }

  lemma PutThenMark(d: seq<DirEntry>, p: nat, b: seq<DirEntry>)
    requires p + |b| <= |d| && |b| >= 1
    ensures var t := Mark(Put(d, p, b), p, p + |b| - 1);
            |t| == |d| && forall i :: 0 <= i < |d| ==> if p <= i <= p + |b| - 1 then IsFree(t[i]) else t[i] == d[i]
  {
  }

  /** The position of a new object is in neither map. */
  lemma NewPosition(up: nat -> nat, s: State, ev: Event, q: nat)
    requires Sound(up, s) && ev.Register? && Enabled(up, s, ev) && q == ev.p + |ev.b| - 1
    ensures q !in s.objects && q !in s.names && ev.p + |ev.b| <= |s.d| + ev.room && |ev.b| >= 1
    ensures |ev.b| == (if LongOf(ev.nm) == [] then 1 else EntriesFor(|LongOf(ev.nm)|) + 1)
  {
    var Register(nm, fn, room, p, b) := ev;
    var w := Padded(s.d, room);
    StretchWellFormed(s.d, s.objects, room);
    assert forall r :: r in s.names ==> Stands(s, r, s.names[r]);
    hide WellFormed, NameFor, IsGap, Names, Distinct, IsBlock;
    GapInside(w, p, |b|);
    PutFrame(w, s.objects, p, b, LongOf(nm), fn, NtRes(nm.cf));
    BlockLength(b, LongOf(nm), fn, NtRes(nm.cf));
  }

  /** Registering a name and removing it again restores the objects and every entry outside the reused run. */
  lemma RegisterThenRemove(up: nat -> nat, s: State, ev: Event, q: nat)
    requires Sound(up, s) && ev.Register? && Enabled(up, s, ev) && q == ev.p + |ev.b| - 1
    ensures Enabled(up, Apply(up, s, ev), Remove(q))
      && Restored(s, Apply(up, Apply(up, s, ev), Remove(q)), ev.room, ev.p, q)
  {
    hide Sound, NameFor, IsGap, Absent, Unused, IsBlock, Put, Mark, Restored;
    NewPosition(up, s, ev, q);
    var Register(nm, fn, room, p, b) := ev;
    RestoredAfter(s, nm, room, p, b);
    var t := Apply(up, s, ev);
    assert First(t, q) == p;
  }

  lemma RestoredAfter(s: State, nm: Name, room: nat, p: nat, b: seq<DirEntry>)
    requires p + |b| <= |s.d| + room && |b| >= 1 && p + |b| - 1 !in s.objects && p + |b| - 1 !in s.names
    ensures var q, t := p + |b| - 1, Placed(s.(d := Padded(s.d, room)), nm, p, b);
            Restored(s, State(Mark(t.d, p, q), t.objects - {q}, t.names - {q}), room, p, q)
  {
    var q, t := p + |b| - 1, Placed(s.(d := Padded(s.d, room)), nm, p, b);
    PutThenMark(Padded(s.d, room), p, b);
    hide Put, Mark, IsFree;
    assert t.objects - {q} == s.objects;
    assert t.names - {q} == s.names;
  }

  /** t is s again: the same objects, and entries differ only within p..q, where they are free. */
  ghost predicate Restored(s: State, t: State, room: nat, p: nat, q: nat) {
    && t.objects == s.objects && t.names == s.names && |t.d| == |s.d| + room
    && forall i :: 0 <= i < |t.d| ==> if p <= i <= q then IsFree(t.d[i]) else t.d[i] == Padded(s.d, room)[i]
  }

  lemma BlockLength(b: seq<DirEntry>, lfn: seq<nat>, fn: seq<byte>, nt: byte)
    requires IsBlock(b, lfn, fn, nt)
    ensures |b| == (if lfn == [] then 1 else EntriesFor(|lfn|) + 1)
  {
  }
}
