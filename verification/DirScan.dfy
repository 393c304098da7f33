/** Directories as sequences of entries: what dir_find (ff.c:3054-3126) decides, and what a well-formed
    directory (section 7 of the FAT specification) makes of it. */
module DirScan {
  import opened Bytes
  import opened Geometry
  import opened LongNames

  // ----- kinds of entries (ff.c:3061-3123)

  /** The six attribute bits of an entry. */
  function Attr(e: DirEntry): nat { e[11] % 0x40 }

  predicate IsEnd(e: DirEntry) { e[0] == 0 }
  predicate IsFree(e: DirEntry) { e[0] == 0 || e[0] == 0xE5 }
  predicate IsLong(e: DirEntry) { !IsFree(e) && Attr(e) == 0x0F }
  predicate IsLabel(e: DirEntry) { !IsFree(e) && Attr(e) / 8 % 2 == 1 && Attr(e) != 0x0F }
  predicate IsSfn(e: DirEntry) { !IsFree(e) && Attr(e) / 8 % 2 == 0 }

  // ----- the automaton of dir_find

  /** What is searched for: the name in the buffer, its short form, and the flags NS_LOSS and NS_NOLFN. */
  datatype Key = Key(up: nat -> nat, buf: seq<nat>, fn: seq<byte>, loss: bool, noLfn: bool)

  /** The state of the scan: next order number (0xFF: none), checksum, start of the LFN sequence. */
  datatype Scan = Scan(ord: byte, sum: byte, blk: Option<nat>)

  const NO_SCAN: Scan := Scan(0xFF, 0xFF, None)

  /** Does the search stop at a short-name entry? */
  predicate Stops(key: Key, st: Scan, e: DirEntry) {
    IsSfn(e) && ((st.ord == 0 && st.sum == SumOf(e[..11])) || (!key.loss && e[..11] == key.fn))
  }

  /** The state after an entry at which the search does not stop. */
  ghost function Step(key: Key, st: Scan, e: DirEntry, i: nat): Scan
    requires |key.buf| == 256
  {
    if !IsLong(e) then Scan(0xFF, st.sum, None)
    else if key.noLfn then st
    else StepLong(key, if HasLlef(e[0]) then Scan(Order(e[0]), e[13], Some(i)) else st, e)
  }

  /** An LFN entry must continue the sequence and match its part of the name. */
  ghost function StepLong(key: Key, st: Scan, e: DirEntry): Scan
    requires |key.buf| == 256
  {
    if Order(e[0]) == st.ord && st.ord > 0 && st.sum == e[13] && Cmp(key.up, key.buf, e)
    then st.(ord := st.ord - 1) else st.(ord := 0xFF)
  }

  /** dir_find from entry i on: where it stops, and the start of the LFN sequence it saw before. */
  ghost function FindFrom(key: Key, d: seq<DirEntry>, i: nat, st: Scan): Option<(nat, Option<nat>)>
    requires |key.buf| == 256 && i <= |d|
    decreases |d| - i
  {
    if i == |d| || IsEnd(d[i]) then None
    else if Stops(key, st, d[i]) then Some((i, st.blk))
    else FindFrom(key, d, i + 1, Step(key, st, d[i], i))
  }

  ghost function Find(key: Key, d: seq<DirEntry>): Option<(nat, Option<nat>)>
    requires |key.buf| == 256
  {
    FindFrom(key, d, 0, NO_SCAN)
  }

  // ----- well-formed directories

  /** Entry number k of the set, counted back from the short name at q. */
  ghost predicate IsPart(d: seq<DirEntry>, q: nat, lfn: seq<nat>, k: nat) {
    k <= q < |d| && IsLfnEntry(d[q - k], lfn, k, SumOf(d[q][..11]))
  }

  /** The entries before q are the complete LFN set of a name, tied to the short name at q. */
  ghost predicate HasSet(d: seq<DirEntry>, q: nat, lfn: seq<nat>) {
    && IsName(lfn) && EntriesFor(|lfn|) <= q < |d|
    && forall k :: 1 <= k <= EntriesFor(|lfn|) ==> IsPart(d, q, lfn, k)
  }

  /** An LFN entry is followed by the next of its set or by the short name of the set. */
  ghost predicate Follows(d: seq<DirEntry>, L: map<nat, seq<nat>>, i: nat)
    requires i < |d|
  {
    i + 1 < |d| && ((IsLong(d[i + 1]) && !HasLlef(d[i + 1][0])) || (i + 1 in L && L[i + 1] != []))
  }

  /** Nothing but blank entries follows a blank entry. */
  ghost predicate Ends(d: seq<DirEntry>) {
    forall i :: 0 < i < |d| && IsEnd(d[i - 1]) ==> IsEnd(d[i])
  }

  ghost predicate Lives(d: seq<DirEntry>, L: map<nat, seq<nat>>) {
    forall q: nat :: q in L <==> q < |d| && IsSfn(d[q])
  }

  ghost predicate Sets(d: seq<DirEntry>, L: map<nat, seq<nat>>) {
    forall q: nat :: q in L && L[q] != [] ==> HasSet(d, q, L[q])
  }

  ghost predicate Chained(d: seq<DirEntry>, L: map<nat, seq<nat>>) {
    forall i :: 0 <= i < |d| && IsLong(d[i]) ==> Follows(d, L, i)
  }

  /** L gives every live object, by the position of its short name, and its long name; [] when it has none. */
  ghost predicate WellFormed(d: seq<DirEntry>, L: map<nat, seq<nat>>) {
    Ends(d) && Lives(d, L) && Sets(d, L) && Chained(d, L)
  }

  /** The object's first entry. */
  function Start(q: nat, lfn: seq<nat>): int {
    q - EntriesFor(|lfn|)
  }

  /** The key names the object: by its long name up to case, or by its short name unless that form is lossy. */
  ghost predicate Matches(key: Key, lfn: seq<nat>, stored: seq<nat>, fn: seq<byte>) {
    (!key.noLfn && stored != [] && SameName(key.up, lfn, stored)) || (!key.loss && fn == key.fn)
  }

  /** A key for a name. */
  ghost predicate KeyFor(key: Key, lfn: seq<nat>) {
    Folds(key.up) && Buffered(key.buf, lfn) && |key.fn| == 11
  }

  lemma LongIsLong(e: DirEntry, lfn: seq<nat>, ord: nat, sum: byte)
    requires IsName(lfn) && IsLfnEntry(e, lfn, ord, sum)
    ensures IsLong(e) && Order(e[0]) == ord <= 20 && e[13] == sum && (HasLlef(e[0]) <==> ord == EntriesFor(|lfn|))
      && !IsEnd(e)
  {
    OrderOf(e, lfn, ord, sum);
  }

  /** The entries of a set, and the name's own. */
  lemma SetEntry(d: seq<DirEntry>, q: nat, lfn: seq<nat>, k: nat)
    requires HasSet(d, q, lfn) && 1 <= k <= EntriesFor(|lfn|)
    ensures IsPart(d, q, lfn, k) && IsLong(d[q - k]) && Order(d[q - k][0]) == k <= 20
      && d[q - k][13] == SumOf(d[q][..11])
    ensures HasLlef(d[q - k][0]) <==> k == EntriesFor(|lfn|)
  {
    hide IsLfnEntry, IsLong, HasLlef, Order, SumOf;
    assert IsPart(d, q, lfn, k);
    LongIsLong(d[q - k], lfn, k, SumOf(d[q][..11]));
  }

  lemma SetSize(d: seq<DirEntry>, q: nat, lfn: seq<nat>)
    requires HasSet(d, q, lfn)
    ensures 1 <= EntriesFor(|lfn|) <= 20
  {
    EntryCount(|lfn|);
  }

  /** Past a terminator there is nothing. */
  lemma {:induction false} NothingAfter(d: seq<DirEntry>, L: map<nat, seq<nat>>, i: nat, q: nat)
    requires WellFormed(d, L) && i <= q < |d| && IsEnd(d[i])
    ensures IsEnd(d[q]) && q !in L
  {
    if i < q {
      NothingAfter(d, L, i, q - 1);
      assert IsEnd(d[q]);
    }
  }

  /** The short name that closes the set an LFN entry belongs to; the set contains the entry. */
  lemma {:induction false} OwnerOf(d: seq<DirEntry>, L: map<nat, seq<nat>>, i: nat) returns (q: nat)
    requires WellFormed(d, L) && i < |d| && IsLong(d[i])
    ensures i < q && q in L && L[q] != [] && HasSet(d, q, L[q]) && Start(q, L[q]) <= i
    decreases |d| - i
  {
    assert Follows(d, L, i);
    hide HasLlef, IsLong, HasSet;
    if i + 1 in L && L[i + 1] != [] {
      q := i + 1;
      assert HasSet(d, q, L[q]);
      SetSize(d, q, L[q]);
    } else {
      q := OwnerOf(d, L, i + 1);
      hide WellFormed, Follows;
      SetSize(d, q, L[q]);
      if Start(q, L[q]) == i + 1 {
        SetEntry(d, q, L[q], EntriesFor(|L[q]|));
      }
    }
  }

  // ----- the search in a well-formed directory

  /** Entries above number k of the stored name's set match the buffer. */
  ghost predicate MatchAbove(key: Key, stored: seq<nat>, k: nat)
    requires |key.buf| == 256 && |stored| <= 255
  {
    forall j :: k < j <= EntriesFor(|stored|) ==> PartMatches(key.up, key.buf, stored, j)
  }

  /** The scan inside a set, with entries k..1 still to come. */
  ghost function MidSet(key: Key, stored: seq<nat>, q: nat, sum: byte, k: byte): Scan
    requires |key.buf| == 256 && |stored| <= 255 && EntriesFor(|stored|) <= q
  {
    Scan(if MatchAbove(key, stored, k) then k else 0xFF, sum, Some(q - EntriesFor(|stored|)))
  }

  lemma MatchAboveStep(key: Key, stored: seq<nat>, k: nat)
    requires |key.buf| == 256 && |stored| <= 255 && 1 <= k <= EntriesFor(|stored|)
    ensures MatchAbove(key, stored, k - 1) <==> MatchAbove(key, stored, k) && PartMatches(key.up, key.buf, stored, k)
  {
    hide PartMatches;
  }

  /** One entry of a set. */
  lemma SetStep(key: Key, lfn: seq<nat>, d: seq<DirEntry>, q: nat, stored: seq<nat>, k: nat, st: Scan)
    requires KeyFor(key, lfn) && !key.noLfn && HasSet(d, q, stored) && 1 <= k <= EntriesFor(|stored|)
    requires k == EntriesFor(|stored|) || (k < 0xFF && st == MidSet(key, stored, q, SumOf(d[q][..11]), k))
    ensures k <= 20 && Step(key, st, d[q - k], q - k) == MidSet(key, stored, q, SumOf(d[q][..11]), k - 1)
  {
    hide HasSet, IsLong, Order, HasLlef, SumOf, Cmp, PartMatches, IsLfnEntry, MatchAbove;
    SetEntry(d, q, stored, k);
    SetNames(d, q, stored);
    CmpIsPart(key.up, key.buf, d[q - k], stored, k, SumOf(d[q][..11]));
    MatchAboveStep(key, stored, k);
    if k == EntriesFor(|stored|) {
      assert MatchAbove(key, stored, k) by { MatchAboveTop(key, stored); }
    }
  }

  lemma MatchAboveTop(key: Key, stored: seq<nat>)
    requires |key.buf| == 256 && |stored| <= 255
    ensures MatchAbove(key, stored, EntriesFor(|stored|))
  {
  }

  lemma SetNames(d: seq<DirEntry>, q: nat, lfn: seq<nat>)
    requires HasSet(d, q, lfn)
    ensures IsName(lfn) && EntriesFor(|lfn|) <= q < |d|
  {
  }

  /** The scan of a whole set: at the short name the order is 0 exactly when the names agree. */
  lemma {:induction false} SetScan(key: Key, lfn: seq<nat>, d: seq<DirEntry>, q: nat, stored: seq<nat>, k: nat,
    st: Scan)
    requires KeyFor(key, lfn) && !key.noLfn && HasSet(d, q, stored) && k <= EntriesFor(|stored|) <= q < |d|
    requires k == EntriesFor(|stored|) || (k < 0xFF && st == MidSet(key, stored, q, SumOf(d[q][..11]), k))
    ensures FindFrom(key, d, q - k, st) == FindFrom(key, d, q, MidSet(key, stored, q, SumOf(d[q][..11]), 0))
    decreases k
  {
    hide HasSet, SumOf, Cmp, MatchAbove, StepLong, MidSet, Step;
    SetNames(d, q, stored);
    SetSize(d, q, stored);
    if k > 0 {
      SetStep(key, lfn, d, q, stored, k, st);
      SetEntry(d, q, stored, k);
      SetScan(key, lfn, d, q, stored, k - 1, MidSet(key, stored, q, SumOf(d[q][..11]), k - 1));
    }
  }

  lemma WholeMatch(key: Key, lfn: seq<nat>, stored: seq<nat>)
    requires KeyFor(key, lfn) && IsName(stored)
    ensures MatchAbove(key, stored, 0) <==> SameName(key.up, lfn, stored)
  {
    AllPartsMatch(key.up, key.buf, lfn, stored);
  }

  /** With NS_NOLFN the long entries are passed over. */
  lemma {:induction false} SetSkip(key: Key, d: seq<DirEntry>, q: nat, stored: seq<nat>, k: nat, st: Scan)
    requires |key.buf| == 256 && key.noLfn && HasSet(d, q, stored) && k <= EntriesFor(|stored|) <= q < |d|
    ensures FindFrom(key, d, q - k, st) == FindFrom(key, d, q, st)
    decreases k
  {
    hide HasSet, SumOf;
    if k > 0 {
      SetEntry(d, q, stored, k);
      SetSkip(key, d, q, stored, k - 1, st);
    }
  }

  /** Where a search that stops at q says the object starts. */
  function BlockOf(key: Key, q: nat, stored: seq<nat>): Option<nat> {
    if stored == [] || key.noLfn || q < EntriesFor(|stored|) then None else Some(q - EntriesFor(|stored|))
  }

  /** r is the first object at or after i that the key matches. */
  ghost predicate FirstMatch(key: Key, lfn: seq<nat>, d: seq<DirEntry>, L: map<nat, seq<nat>>, i: nat,
    r: Option<(nat, Option<nat>)>) {
    match r
    case None => forall q :: q in L && i <= q < |d| ==> !Matches(key, lfn, L[q], d[q][..11])
    case Some((p, blk)) =>
      && p in L && i <= p < |d| && Matches(key, lfn, L[p], d[p][..11]) && blk == BlockOf(key, p, L[p])
      && forall q :: q in L && i <= q < p && q < |d| ==> !Matches(key, lfn, L[q], d[q][..11])
  }

  /** An object that does not match can be left out, and so can entries before it that belong to no other object. */
  lemma SkipTo(key: Key, lfn: seq<nat>, d: seq<DirEntry>, L: map<nat, seq<nat>>, i: nat, j: nat,
    r: Option<(nat, Option<nat>)>)
    requires i <= j && FirstMatch(key, lfn, d, L, j, r)
    requires forall q :: q in L && i <= q < j && q < |d| ==> !Matches(key, lfn, L[q], d[q][..11])
    ensures FirstMatch(key, lfn, d, L, i, r)
  {
    hide Matches;
  }

  /** The decision at a short name, for each way of reaching it. */
  lemma Decision(key: Key, lfn: seq<nat>, d: seq<DirEntry>, L: map<nat, seq<nat>>, q: nat, st: Scan)
    requires KeyFor(key, lfn) && WellFormed(d, L) && q in L && q < |d|
    requires if L[q] == [] || key.noLfn then st.ord == 0xFF && st.blk == None
             else EntriesFor(|L[q]|) <= q && IsName(L[q]) && st == MidSet(key, L[q], q, SumOf(d[q][..11]), 0)
    ensures IsSfn(d[q]) && !IsEnd(d[q]) && !IsLong(d[q])
    ensures Stops(key, st, d[q]) <==> Matches(key, lfn, L[q], d[q][..11])
    ensures st.blk == BlockOf(key, q, L[q])
  {
    hide SameName, MatchAbove, SumOf, HasSet, Follows;
    if L[q] != [] && !key.noLfn {
      WholeMatch(key, lfn, L[q]);
    }
  }

  /** The entries of a set are no short names. */
  lemma InsideSet(d: seq<DirEntry>, L: map<nat, seq<nat>>, q: nat, j: nat)
    requires WellFormed(d, L) && q in L && L[q] != [] && Start(q, L[q]) <= j < q
    ensures j >= 0 ==> j !in L
  {
    hide WellFormed, HasSet, IsLong;
    SetOf(d, L, q);
    SetNames(d, q, L[q]);
    SetEntry(d, q, L[q], q - j);
    LongNotLive(d, L, j);
  }

  lemma SetOf(d: seq<DirEntry>, L: map<nat, seq<nat>>, q: nat)
    requires WellFormed(d, L) && q in L && L[q] != []
    ensures HasSet(d, q, L[q])
  {
  }

  lemma LongNotLive(d: seq<DirEntry>, L: map<nat, seq<nat>>, j: nat)
    requires WellFormed(d, L) && j < |d| && IsLong(d[j])
    ensures j !in L
  {
    hide Sets, Chained, Ends;
  }

  lemma FindStep(key: Key, d: seq<DirEntry>, i: nat, st: Scan)
    requires |key.buf| == 256 && i < |d| && !IsEnd(d[i]) && !Stops(key, st, d[i])
    ensures FindFrom(key, d, i, st) == FindFrom(key, d, i + 1, Step(key, st, d[i], i))
  {
  }

  lemma FindStop(key: Key, d: seq<DirEntry>, i: nat, st: Scan)
    requires |key.buf| == 256 && i < |d| && !IsEnd(d[i]) && Stops(key, st, d[i])
    ensures FindFrom(key, d, i, st) == Some((i, st.blk))
  {
  }

  lemma StepResets(key: Key, d: seq<DirEntry>, i: nat, st: Scan)
    requires |key.buf| == 256 && i < |d| && !IsLong(d[i])
    ensures Step(key, st, d[i], i).ord == 0xFF && Step(key, st, d[i], i).blk == None
  {
  }

  /** dir_find in a well-formed directory finds the first object that the name matches, whole. */
  lemma {:induction false} FindFirst(key: Key, lfn: seq<nat>, d: seq<DirEntry>, L: map<nat, seq<nat>>, i: nat, st: Scan)
    requires KeyFor(key, lfn) && WellFormed(d, L) && i <= |d| && (i == 0 || !IsLong(d[i - 1])) && st.ord == 0xFF
      && st.blk == None
    ensures FirstMatch(key, lfn, d, L, i, FindFrom(key, d, i, st))
    decreases |d| - i, 2
  {
    hide Step, Matches, Follows, HasSet, SumOf;
    if i < |d| && IsLong(d[i]) {
      FindAtSet(key, lfn, d, L, i, st);
    } else if i < |d| && IsSfn(d[i]) {
      PlainShort(d, L, i);
      FindAtShort(key, lfn, d, L, i, i, st);
    } else if i < |d| && !IsEnd(d[i]) {
      StepResets(key, d, i, st);
      FindFirst(key, lfn, d, L, i + 1, Step(key, st, d[i], i));
      FindStep(key, d, i, st);
      hide FindFrom;
      SkipTo(key, lfn, d, L, i, i + 1, FindFrom(key, d, i, st));
    } else if i < |d| {
      forall q: nat | i <= q < |d|
        ensures q !in L
      {
        NothingAfter(d, L, i, q);
      }
    }
  }

  lemma PlainShort(d: seq<DirEntry>, L: map<nat, seq<nat>>, i: nat)
    requires WellFormed(d, L) && i < |d| && IsSfn(d[i]) && (i == 0 || !IsLong(d[i - 1]))
    ensures i in L && L[i] == []
  {
    hide HasSet, IsLong;
    if L[i] != [] {
      assert HasSet(d, i, L[i]);
      SetSize(d, i, L[i]);
      SetNames(d, i, L[i]);
      SetEntry(d, i, L[i], 1);
    }
  }

  /** From a short name on. */
  lemma {:induction false} FindAtShort(key: Key, lfn: seq<nat>, d: seq<DirEntry>, L: map<nat, seq<nat>>, i: nat, q: nat,
    st: Scan)
    requires KeyFor(key, lfn) && WellFormed(d, L) && i <= q < |d| && q in L && forall j :: i <= j < q ==> j !in L
    requires if L[q] == [] || key.noLfn then st.ord == 0xFF && st.blk == None
             else EntriesFor(|L[q]|) <= q && IsName(L[q]) && st == MidSet(key, L[q], q, SumOf(d[q][..11]), 0)
    ensures FirstMatch(key, lfn, d, L, i, FindFrom(key, d, q, st))
    decreases |d| - q, 0
  {
    hide Step, Matches, WellFormed, SumOf, MidSet, BlockOf, FindFrom, Stops, IsSfn, IsLong;
    Decision(key, lfn, d, L, q, st);
    if Stops(key, st, d[q]) {
      FindStop(key, d, q, st);
    } else {
      StepResets(key, d, q, st);
      FindFirst(key, lfn, d, L, q + 1, Step(key, st, d[q], q));
      FindStep(key, d, q, st);
      SkipTo(key, lfn, d, L, i, q + 1, FindFrom(key, d, q, st));
    }
  }

  /** From the first entry of a set on. */
  lemma {:induction false} FindAtSet(key: Key, lfn: seq<nat>, d: seq<DirEntry>, L: map<nat, seq<nat>>, i: nat, st: Scan)
    requires KeyFor(key, lfn) && WellFormed(d, L) && i < |d| && IsLong(d[i]) && (i == 0 || !IsLong(d[i - 1]))
    requires st.ord == 0xFF && st.blk == None
    ensures FirstMatch(key, lfn, d, L, i, FindFrom(key, d, i, st))
    decreases |d| - i, 1
  {
    hide WellFormed, SumOf, MidSet, FindFrom, FirstMatch, IsLong, HasSet;
    var q := OwnerOf(d, L, i);
    SetNames(d, q, L[q]);
    assert Start(q, L[q]) == i by {
      if Start(q, L[q]) < i { SetEntry(d, q, L[q], q - i + 1); }
    }
    forall j | i <= j < q
      ensures j !in L
    {
      InsideSet(d, L, q, j);
    }
    if key.noLfn {
      SetSkip(key, d, q, L[q], q - i, st);
      FindAtShort(key, lfn, d, L, i, q, st);
    } else {
      SetScan(key, lfn, d, q, L[q], q - i, st);
      FindAtShort(key, lfn, d, L, i, q, MidSet(key, L[q], q, SumOf(d[q][..11]), 0));
    }
  }
}
