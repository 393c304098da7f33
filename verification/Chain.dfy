/** Cluster chains over the link array: create_chain and remove_chain (ff.c:1854-2119), and the free count. */
module Chain {
  import opened Bytes
  import opened Geometry
  import opened FatTable
  import opened Volume

  // ----- chains as sequences

  /** ch is the chain that starts at ch[0]: every link but the last leads to the next cluster. */
  ghost predicate IsChain(fat: seq<nat>, ch: seq<nat>) {
    && |ch| >= 1
    && (forall i :: 0 <= i < |ch| ==> 2 <= ch[i] < |fat|)
    && (forall i :: 0 <= i < |ch| - 1 ==> fat[ch[i]] == ch[i + 1])
    && fat[ch[|ch| - 1]] >= |fat|
  }

  /** From equal clusters a chain continues equally. */
  lemma {:induction false} SameSuffix(fat: seq<nat>, ch: seq<nat>, i: nat, j: nat, k: nat)
    requires IsChain(fat, ch) && i < j && j + k < |ch| && ch[i] == ch[j]
    ensures ch[i + k] == ch[j + k]
  {
    if k > 0 {
      SameSuffix(fat, ch, i, j, k - 1);
    }
  }

  /** A chain that ends is acyclic. */
  lemma ChainAcyclic(fat: seq<nat>, ch: seq<nat>)
    requires IsChain(fat, ch)
    ensures forall i, j :: 0 <= i < j < |ch| ==> ch[i] != ch[j]
  {
    forall i, j | 0 <= i < j < |ch|
      ensures ch[i] != ch[j]
    {
      var k := |ch| - 1 - j;
      assert fat[ch[i + k]] == ch[i + k + 1];
      if ch[i] == ch[j] {
        SameSuffix(fat, ch, i, j, k);
      }
    }
  }

  /** A link array decides the chain of a cluster. */
  lemma {:induction false} ChainUnique(fat: seq<nat>, a: seq<nat>, b: seq<nat>)
    requires IsChain(fat, a) && IsChain(fat, b) && a[0] == b[0]
    ensures a == b
    decreases |a|
  {
    assert |a| > 1 ==> fat[a[0]] == a[0 + 1];
    assert |b| > 1 ==> fat[b[0]] == b[0 + 1];
    if |a| > 1 && |b| > 1 {
      ChainUnique(fat, a[1..], b[1..]);
      assert a == [a[0]] + a[1..] && b == [b[0]] + b[1..];
    }
  }

  // ----- free clusters

  ghost function Free(fat: seq<nat>): set<nat> {
    set c | 2 <= c < |fat| && fat[c] == 0
  }

  ghost function Used(fat: seq<nat>): set<nat> {
    set c | 2 <= c < |fat| && fat[c] != 0
  }

  /** The cached free count, when it is in range, is the number of zero links. */
  ghost predicate Accurate(free: nat, fat: seq<nat>) {
    free + 2 <= |fat| ==> free == |Free(fat)|
  }

  ghost function Range(lo: nat, hi: nat): (r: set<nat>)
    ensures forall c :: c in r <==> lo <= c < hi
    ensures lo <= hi ==> |r| == hi - lo
    decreases hi
  {
    if lo < hi then Range(lo, hi - 1) + {hi - 1} else {}
  }

  lemma FreeBound(fat: seq<nat>)
    requires |fat| >= 2
    ensures |Free(fat)| <= |fat| - 2
    ensures forall c :: 2 <= c < |fat| && fat[c] != 0 ==> |Free(fat)| < |fat| - 2
  {
    var all := Range(2, |fat|);
    SubsetSize(Free(fat), all);
    forall c | 2 <= c < |fat| && fat[c] != 0
      ensures |Free(fat)| < |fat| - 2
    {
      SubsetSize(Free(fat), all - {c});
    }
  }

  /** Taking a free cluster removes exactly it from the free set. */
  lemma FreeTaken(fat: seq<nat>, c: nat, v: nat)
    requires 2 <= c < |fat| && fat[c] == 0 && v != 0
    ensures Free(fat[c := v]) == Free(fat) - {c} && |Free(fat[c := v])| == |Free(fat)| - 1
  {
    assert Free(fat[c := v]) == Free(fat) - {c};
    assert c in Free(fat);
  }

  lemma FreeReleased(fat: seq<nat>, c: nat)
    requires 2 <= c < |fat| && fat[c] != 0
    ensures Free(fat[c := 0]) == Free(fat) + {c} && |Free(fat[c := 0])| == |Free(fat)| + 1
    ensures Used(fat[c := 0]) == Used(fat) - {c} && c in Used(fat)
  {
    assert Free(fat[c := 0]) == Free(fat) + {c};
  }

  /** Changing one non-zero link into another keeps the free set. */
  lemma FreeKept(fat: seq<nat>, c: nat, v: nat)
    requires c < |fat| && fat[c] != 0 && v != 0
    ensures Free(fat[c := v]) == Free(fat)
  {
  }

  // ----- create_chain

  ghost function EndMark(g: Geometry): nat {
    EOC % EntryLimit(g.fsType)
  }

  /** The link array after cluster `ncl` was appended behind `clst` (0: a new chain). */
  ghost function Linked(g: Geometry, fat: seq<nat>, clst: nat, ncl: nat): seq<nat>
    requires ncl < |fat| && clst < |fat|
  {
    if clst == 0 then fat[ncl := EndMark(g)] else fat[ncl := EndMark(g)][clst := ncl]
  }

  /** A changed free count is marked for sync_fs in the lowest bit of the flag; the mark is not taken back, and the rest
      of the flag stays. A count out of the range of n entries is not touched, and one in it stays in it. */
  ghost predicate Noted(n: nat, flag: nat, free: nat, flag': nat, free': nat) {
    && flag' / 2 == flag / 2 && (flag % 2 == 1 ==> flag' % 2 == 1)
    && (free' != free ==> flag' % 2 == 1 && free + 2 <= n && free' + 2 <= n)
  }

  lemma NotedSame(n: nat, flag: nat, free: nat)
    ensures Noted(n, flag, free, flag, free)
  {
  }

  lemma NotedTrans(n: nat, flag: nat, free: nat, flag': nat, free': nat, flag'': nat, free'': nat)
    requires Noted(n, flag, free, flag', free') && Noted(n, flag', free', flag'', free'')
    ensures Noted(n, flag, free, flag'', free'')
  {
  }

  /** r is the first free cluster behind scl, going around at the end. */
  ghost predicate FirstFree(fat: seq<nat>, scl: nat, r: nat) {
    && 2 <= r < |fat| && fat[r] == 0
    && (r > scl ==> forall c :: scl < c < r ==> fat[c] != 0)
    && (r <= scl ==> (forall c :: scl < c < |fat| ==> fat[c] != 0) && forall c :: 2 <= c < r ==> fat[c] != 0)
  }

  /** Where create_chain takes a cluster: the one behind clst if it is free, otherwise the first free one behind the
      last one that was allocated, or behind clst if that is not known; a new chain starts with such a search. */
  ghost predicate Picked(fat: seq<nat>, clst: nat, last: nat, r: nat) {
    var next := if clst + 1 < |fat| then clst + 1 else 2;
    var hint := if 2 <= last < |fat| then last else if clst == 0 then 1 else clst;
    if clst != 0 && next < |fat| && fat[next] == 0 then r == next else FirstFree(fat, hint, r)
  }

  /** The wrap-around scan (ff.c:2074-2095): the first free cluster after scl, searched upwards and around.
      It visits each cluster at most once and answers 0 only when every cluster is in use. */
  method FindFree(fs: FatFs, scl: nat) returns (r: nat)
    requires fs.Valid() && 1 <= scl < fs.g.nFatent
    modifies fs`disk, fs`winsect, fs`wflag, fs.win
    ensures fs.Valid() && |fs.disk| == |old(fs.disk)|
    ensures r < fs.g.nFatent
    ensures r >= 2 ==> FirstFree(fs.fat, scl, r)
    ensures r == 0 ==> Free(fs.fat) == {}
    ensures r == 1 ==> 1 in fs.fat
    ensures InFat1(fs.g, fs.winsect) || fs.winsect == old(fs.winsect)
  {
    var n := fs.g.nFatent;
    var ncl := scl;
    var wrapped := false;
    while true
      invariant fs.Valid() && |fs.disk| == |old(fs.disk)|
      invariant !wrapped ==> scl <= ncl < n && forall c :: scl < c <= ncl ==> fs.fat[c] != 0
      invariant wrapped ==> 2 <= ncl < scl && (forall c :: scl < c < n ==> fs.fat[c] != 0)
                            && forall c :: 2 <= c <= ncl ==> fs.fat[c] != 0
      invariant InFat1(fs.g, fs.winsect) || fs.winsect == old(fs.winsect)
      decreases !wrapped, n - ncl
    {
      ncl := ncl + 1;
      if ncl >= n {
        ncl := 2;
        wrapped := true;
        if ncl > scl {
          return 0;
        }
      }
      var cs := fs.GetFat(ncl);
      if cs == 0 {
        return ncl;
      }
      if cs == 1 {
        return 1;
      }
      if ncl == scl {
        return 0;
      }
    }
  }

  /** The search for a free cluster (ff.c:2049-2095), behind clst at the end of its chain or for a new chain. */
  method ChooseCluster(fs: FatFs, clst: nat) returns (r: nat)
    requires fs.Valid() && (clst == 0 || (IsCluster(fs.g, clst) && fs.fat[clst] >= fs.g.nFatent))
    modifies fs`disk, fs`winsect, fs`wflag, fs.win
    ensures fs.Valid() && |fs.disk| == |old(fs.disk)| && r < fs.g.nFatent
    ensures r == 1 ==> 1 in fs.fat
    ensures r == 0 && Accurate(fs.freeClst, fs.fat) ==> Free(fs.fat) == {}
    ensures r >= 2 ==> Picked(fs.fat, clst, fs.lastClst, r) && fs.fat[r] == 0
    ensures InFat1(fs.g, fs.winsect) || fs.winsect == old(fs.winsect)
  {
    hide FatFs.Valid, Good, InFat1;
    ValidSizes(fs);
    var n := fs.g.nFatent;
    if fs.freeClst == 0 {
      return 0;
    }
    var scl := if clst != 0 then clst else if fs.lastClst == 0 || fs.lastClst >= n then 1 else fs.lastClst;
    if scl == clst {
      var ncl := if scl + 1 >= n then 2 else scl + 1;
      var cs := fs.GetFat(ncl);
      if cs == 1 {
        return 1;
      }
      if cs == 0 {
        return ncl;
      }
      if 2 <= fs.lastClst < n {
        scl := fs.lastClst;
      }
    }
    r := FindFree(fs, scl);
  }

  /** create_chain: the existing successor, or one previously free cluster appended; 0 when the volume is full,
      1 on a bad link. Every other link stays and the free count stays accurate. */
  method CreateChain(fs: FatFs, clst: nat) returns (r: nat)
    requires fs.Valid()
    modifies fs`disk, fs`winsect, fs`wflag, fs`view, fs`fat, fs`lastClst, fs`freeClst, fs`fsiFlag, fs.win
    ensures fs.Valid() && |fs.disk| == |old(fs.disk)|
    ensures r < fs.g.nFatent
    ensures r <= 1 ==> fs.fat == old(fs.fat) && fs.freeClst == old(fs.freeClst)
    ensures r == 1 ==> 1 in fs.fat || (clst != 0 && (IsCluster(fs.g, clst) ==> fs.fat[clst] < 2))
    ensures r == 0 && Accurate(fs.freeClst, fs.fat) ==> Free(fs.fat) == {}
    ensures r == 0 && IsCluster(fs.g, clst) ==> fs.fat[clst] >= fs.g.nFatent
    ensures r >= 2 ==> Extended(fs.g, old(fs.fat), fs.fat, clst, r)
    ensures r >= 2 && fs.fat != old(fs.fat) ==> Picked(old(fs.fat), clst, old(fs.lastClst), r) && fs.lastClst == r
    ensures Noted(fs.g.nFatent, old(fs.fsiFlag), old(fs.freeClst), fs.fsiFlag, fs.freeClst)
    ensures old(Accurate(fs.freeClst, fs.fat)) ==> Accurate(fs.freeClst, fs.fat)
    ensures forall s :: 0 <= s < |fs.disk| && !InFat1(fs.g, s) ==> fs.view[s] == old(fs.view)[s]
    ensures r >= 2 ==> InFat1(fs.g, fs.winsect)
    ensures InFat1(fs.g, fs.winsect) || fs.winsect == old(fs.winsect)
  {
    hide FatFs.Valid, Good, InFat1, Picked, Noted, Accurate, Free, Linked;
    ValidSizes(fs);
    NotedSame(fs.g.nFatent, fs.fsiFlag, fs.freeClst);
    if clst != 0 {
      var cs := fs.GetFat(clst);
      if cs < 2 {
        return 1;
      }
      if cs < fs.g.nFatent {
        return cs;
      }
    }
    r := ChooseCluster(fs, clst);
    if r >= 2 {
      Append(fs, clst, r);
    }
  }

  /** What a successful create_chain did to the links. */
  ghost predicate Extended(g: Geometry, before: seq<nat>, after: seq<nat>, clst: nat, r: nat) {
    && 2 <= r < |before|
    && clst < |before|
    && if clst != 0 && before[clst] < |before|
       then before[clst] == r && after == before
       else before[r] == 0 && (clst == 0 || 2 <= clst) && after == Linked(g, before, clst, r)
  }

  /** The end of create_chain (ff.c:2096-2111): mark, link and account for the new cluster. */
  method Append(fs: FatFs, clst: nat, ncl: nat)
    requires fs.Valid() && IsCluster(fs.g, ncl) && fs.fat[ncl] == 0
    requires clst == 0 || (IsCluster(fs.g, clst) && fs.fat[clst] >= fs.g.nFatent)
    modifies fs`disk, fs`winsect, fs`wflag, fs`view, fs`fat, fs`lastClst, fs`freeClst, fs`fsiFlag, fs.win
    ensures fs.Valid() && |fs.disk| == |old(fs.disk)|
    ensures fs.fat == Linked(fs.g, old(fs.fat), clst, ncl) && fs.lastClst == ncl
    ensures Free(fs.fat) == old(Free(fs.fat)) - {ncl}
    ensures Noted(fs.g.nFatent, old(fs.fsiFlag), old(fs.freeClst), fs.fsiFlag, fs.freeClst)
    ensures old(Accurate(fs.freeClst, fs.fat)) ==> Accurate(fs.freeClst, fs.fat)
    ensures forall s :: 0 <= s < |fs.disk| && !InFat1(fs.g, s) ==> fs.view[s] == old(fs.view)[s]
    ensures InFat1(fs.g, fs.winsect)
  {
    hide FatFs.Valid, Good, PutEntry, InFat1, EndMark, Noted;
    EndMarkOf(fs);
    ValidSizes(fs);
    FreeTaken(fs.fat, ncl, EndMark(fs.g));
    if clst != 0 {
      FreeKept(fs.fat[ncl := EndMark(fs.g)], clst, ncl);
    }
    EnterLinks(fs, clst, ncl);
    Account(fs, ncl);
  }

  /** The new cluster becomes the end of the chain (ff.c:2096-2103). */
  method EnterLinks(fs: FatFs, clst: nat, ncl: nat)
    requires fs.Valid() && IsCluster(fs.g, ncl) && (clst == 0 || IsCluster(fs.g, clst))
    modifies fs`disk, fs`winsect, fs`wflag, fs`view, fs`fat, fs.win
    ensures fs.Valid() && |fs.disk| == |old(fs.disk)| && |old(fs.fat)| == fs.g.nFatent
    ensures fs.fat == Linked(fs.g, old(fs.fat), clst, ncl)
    ensures forall s :: 0 <= s < |fs.disk| && !InFat1(fs.g, s) ==> fs.view[s] == old(fs.view)[s]
    ensures InFat1(fs.g, fs.winsect)
  {
    EndMarkEndsChains(fs.g, |fs.disk|);
    ValidSizes(fs);
    hide FatFs.Valid, Good, PutEntry, InFat1;
    var res := fs.PutFat(ncl, EOC);
    if clst != 0 {
      res := fs.PutFat(clst, ncl);
    }
  }

  /** Update of the allocation information (ff.c:2105-2111). */
  method Account(fs: FatFs, ncl: nat)
    requires fs.Valid() && ncl < fs.g.nFatent
    modifies fs`lastClst, fs`freeClst, fs`fsiFlag
    ensures fs.Valid() && fs.lastClst == ncl
    ensures fs.freeClst == if 0 < old(fs.freeClst) <= fs.g.nFatent - 2 then old(fs.freeClst) - 1 else old(fs.freeClst)
    ensures Noted(fs.g.nFatent, old(fs.fsiFlag), old(fs.freeClst), fs.fsiFlag, fs.freeClst)
  {
    fs.lastClst := ncl;
    if 0 < fs.freeClst <= fs.g.nFatent - 2 {
      fs.freeClst := fs.freeClst - 1;
      fs.fsiFlag := SetDirty(fs.fsiFlag);
    }
  }

  /** fsi_flag |= 1 */
  function SetDirty(flag: nat): nat {
    if flag % 2 == 0 then flag + 1 else flag
  }

  // ----- remove_chain

  ghost predicate Bounded(fat: seq<nat>, tail: seq<nat>) {
    forall i :: 0 <= i < |tail| ==> tail[i] < |fat|
  }

  /** The links with every cluster of `tail` freed. */
  ghost function Freed(fat: seq<nat>, tail: seq<nat>): (r: seq<nat>)
    requires Bounded(fat, tail)
    ensures |r| == |fat|
    ensures forall c :: 0 <= c < |fat| ==> r[c] == if c in tail then 0 else fat[c]
  {
    seq(|fat|, c requires 0 <= c < |fat| => if c in tail then 0 else fat[c])
  }

  /** The links remove_chain works on once the previous cluster is marked as the end. */
  ghost function Cut(g: Geometry, fat: seq<nat>, pclst: nat): (r: seq<nat>)
    requires pclst < |fat|
    ensures |r| == |fat|
  {
    if pclst == 0 then fat else fat[pclst := EndMark(g)]
  }

  /** Freeing the head of a chain leaves the rest a chain. */
  lemma ChainTail(fat: seq<nat>, ch: seq<nat>)
    requires IsChain(fat, ch)
    ensures fat[ch[0]] >= 2
    ensures |ch| == 1 <==> fat[ch[0]] >= |fat|
    ensures |ch| > 1 ==> fat[ch[0]] == ch[1] && IsChain(fat[ch[0] := 0], ch[1..])
  {
    ChainAcyclic(fat, ch);
    assert |ch| > 1 ==> fat[ch[0]] == ch[0 + 1];
    if |ch| > 1 {
      var f, t := fat[ch[0] := 0], ch[1..];
      forall i | 0 <= i < |t| - 1
        ensures f[t[i]] == t[i + 1]
      {
        assert ch[i + 1] == t[i] && fat[ch[i + 1]] == ch[i + 2];
      }
    }
  }

  lemma FreedStep(fat: seq<nat>, rest: seq<nat>)
    requires IsChain(fat, rest)
    ensures |rest| == 1 ==> Freed(fat, rest) == fat[rest[0] := 0]
    ensures |rest| > 1 ==> Freed(fat[rest[0] := 0], rest[1..]) == Freed(fat, rest)
  {
    if |rest| > 1 {
      assert forall c :: c in rest <==> c == rest[0] || c in rest[1..];
    }
  }

  /** One round of remove_chain (ff.c:1884-1905): the cluster is freed and counted. */
  method Release(fs: FatFs, clst: nat)
    requires fs.Valid() && IsCluster(fs.g, clst) && fs.fat[clst] != 0
    modifies fs`disk, fs`winsect, fs`wflag, fs`view, fs`fat, fs`freeClst, fs`fsiFlag, fs.win
    ensures fs.Valid() && |fs.disk| == |old(fs.disk)|
    ensures fs.fat == old(fs.fat)[clst := 0]
    ensures Used(fs.fat) == old(Used(fs.fat)) - {clst} && clst in old(Used(fs.fat))
    ensures Noted(fs.g.nFatent, old(fs.fsiFlag), old(fs.freeClst), fs.fsiFlag, fs.freeClst)
    ensures old(Accurate(fs.freeClst, fs.fat)) ==> Accurate(fs.freeClst, fs.fat)
    ensures forall s :: 0 <= s < |fs.disk| && !InFat1(fs.g, s) ==> fs.view[s] == old(fs.view)[s]
    ensures InFat1(fs.g, fs.winsect)
  {
    FreeReleased(fs.fat, clst);
    FreeBound(fs.fat);
    assert |fs.fat| == fs.g.nFatent && 0 % EntryLimit(fs.g.fsType) == 0;
    var res := fs.PutFat(clst, 0);
    if fs.freeClst < fs.g.nFatent - 2 {
      fs.freeClst := fs.freeClst + 1;
      fs.fsiFlag := SetDirty(fs.fsiFlag);
    }
  }

  /** The removal loop (ff.c:1883-1931) on any links, even cyclic or cross-linked: it ends because each round
      empties a used entry. On a chain it frees exactly that chain. */
  method ReleaseAll(fs: FatFs, clst: nat, ghost tail: seq<nat>) returns (res: FResult)
    requires fs.Valid() && IsCluster(fs.g, clst)
    modifies fs`disk, fs`winsect, fs`wflag, fs`view, fs`fat, fs`freeClst, fs`fsiFlag, fs.win
    ensures fs.Valid() && |fs.disk| == |old(fs.disk)| && |fs.fat| == |old(fs.fat)| && (res == FrOk || res == FrIntErr)
    ensures forall c :: 0 <= c < |fs.fat| ==> fs.fat[c] == old(fs.fat)[c] || fs.fat[c] == 0
    ensures IsChain(old(fs.fat), tail) && clst == tail[0] ==> res == FrOk && fs.fat == Freed(old(fs.fat), tail)
    ensures Noted(fs.g.nFatent, old(fs.fsiFlag), old(fs.freeClst), fs.fsiFlag, fs.freeClst)
    ensures old(Accurate(fs.freeClst, fs.fat)) ==> Accurate(fs.freeClst, fs.fat)
    ensures forall s :: 0 <= s < |fs.disk| && !InFat1(fs.g, s) ==> fs.view[s] == old(fs.view)[s]
    ensures InFat1(fs.g, fs.winsect)
  {
    ghost var n := |fs.disk|;
    ghost var ok := IsChain(fs.fat, tail) && clst == tail[0];
    ghost var rest := tail;
    var cl: nat := clst;
    assert |fs.fat| == fs.g.nFatent && |fs.view| == n;
    NotedSame(fs.g.nFatent, fs.fsiFlag, fs.freeClst);
    hide FatFs.Valid, Good, InFat1, IsChain, Freed, Accurate, Noted;
    while true
      invariant fs.Valid() && |fs.disk| == n == |fs.view| && |fs.fat| == fs.g.nFatent == |old(fs.fat)|
      invariant IsCluster(fs.g, cl)
      invariant ok ==> IsChain(fs.fat, rest) && |rest| > 0 && cl == rest[0] && Bounded(fs.fat, rest)
      invariant ok ==> Bounded(old(fs.fat), tail)
      invariant ok ==> Freed(fs.fat, rest) == Freed(old(fs.fat), tail)
      invariant forall c :: 0 <= c < |fs.fat| ==> fs.fat[c] == old(fs.fat)[c] || fs.fat[c] == 0
      invariant Noted(fs.g.nFatent, old(fs.fsiFlag), old(fs.freeClst), fs.fsiFlag, fs.freeClst)
      invariant old(Accurate(fs.freeClst, fs.fat)) ==> Accurate(fs.freeClst, fs.fat)
      invariant forall s :: 0 <= s < n && !InFat1(fs.g, s) ==> fs.view[s] == old(fs.view)[s]
      decreases Used(fs.fat)
    {
      if ok {
        ChainTail(fs.fat, rest);
        FreedStep(fs.fat, rest);
      }
      var nxt := fs.GetFat(cl);
      if nxt == 0 {
        return FrOk;
      }
      if nxt == 1 {
        return FrIntErr;
      }
      ghost var flag, free := fs.fsiFlag, fs.freeClst;
      Release(fs, cl);
      NotedTrans(fs.g.nFatent, old(fs.fsiFlag), old(fs.freeClst), flag, free, fs.fsiFlag, fs.freeClst);
      if nxt >= fs.g.nFatent {
        return FrOk;
      }
      rest := if ok then rest[1..] else rest;
      cl := nxt;
    }
  }

  lemma EndMarkOf(fs: FatFs)
    requires fs.Valid()
    ensures EndMark(fs.g) != 0
  {
    EndMarkEndsChains(fs.g, |fs.disk|);
  }

  lemma CutKeepsTail(g: Geometry, fat: seq<nat>, pclst: nat, tail: seq<nat>)
    requires IsChain(fat, tail) && pclst !in tail && pclst < |fat|
    ensures IsChain(Cut(g, fat, pclst), tail)
  {
  }

  /** The count stays right while the free set stays the same. */
  lemma AccurateSame(free: nat, fat: seq<nat>, fat': seq<nat>)
    ensures |fat'| == |fat| && Free(fat') == Free(fat) && Accurate(free, fat) ==> Accurate(free, fat')
  {
  }

  /** The rest of a chain is a chain that does not lead back. */
  lemma RestIsChain(fat: seq<nat>, chain: seq<nat>, k: nat)
    requires IsChain(fat, chain) && 0 < k < |chain|
    ensures IsChain(fat, chain[k..]) && chain[k - 1] !in chain[k..]
  {
    ChainAcyclic(fat, chain);
    var t := chain[k..];
    forall i | 0 <= i < |t| - 1
      ensures fat[t[i]] == t[i + 1]
    {
      assert fat[chain[k + i]] == chain[k + i + 1];
    }
  }

  /** remove_chain: on a chain it frees exactly the clusters from clst on, and pclst becomes the end. */
  method RemoveChain(fs: FatFs, clst: nat, pclst: nat, ghost tail: seq<nat>) returns (res: FResult)
    requires fs.Valid()
    modifies fs`disk, fs`winsect, fs`wflag, fs`view, fs`fat, fs`freeClst, fs`fsiFlag, fs.win
    ensures fs.Valid() && |fs.disk| == |old(fs.disk)| && (res == FrOk || res == FrIntErr)
    ensures !IsCluster(fs.g, clst) ==> res == FrIntErr && fs.fat == old(fs.fat)
    ensures forall c :: 0 <= c < |fs.fat| && c != pclst ==> fs.fat[c] == old(fs.fat)[c] || fs.fat[c] == 0
    ensures IsChain(old(fs.fat), tail) && clst == tail[0] && pclst !in tail
            && (pclst == 0 || IsCluster(fs.g, pclst)) ==>
              res == FrOk && fs.fat == Freed(Cut(fs.g, old(fs.fat), pclst), tail)
    ensures Noted(fs.g.nFatent, old(fs.fsiFlag), old(fs.freeClst), fs.fsiFlag, fs.freeClst)
    ensures old(Accurate(fs.freeClst, fs.fat)) && (pclst == 0 || (pclst < |old(fs.fat)| && old(fs.fat)[pclst] != 0)) ==>
              Accurate(fs.freeClst, fs.fat)
    ensures forall s :: 0 <= s < |fs.disk| && !InFat1(fs.g, s) ==> fs.view[s] == old(fs.view)[s]
    ensures InFat1(fs.g, fs.winsect) || fs.winsect == old(fs.winsect)
  {
    EndMarkOf(fs);
    hide FatFs.Valid, Good, InFat1, Accurate, PutEntry, EndMark;
    ValidSizes(fs);
    if !IsCluster(fs.g, clst) {
      return FrIntErr;
    }
    if pclst != 0 {
      if IsCluster(fs.g, pclst) && fs.fat[pclst] != 0 {
        FreeKept(fs.fat, pclst, EndMark(fs.g));
      }
      res := fs.PutFat(pclst, EOC);
      ValidSizes(fs);
      if res != FrOk {
        return;
      }
    }
    if IsChain(old(fs.fat), tail) && pclst !in tail && pclst < |old(fs.fat)| {
      CutKeepsTail(fs.g, old(fs.fat), pclst, tail);
    }
    AccurateSame(fs.freeClst, old(fs.fat), fs.fat);
    res := ReleaseAll(fs, clst, tail);
    ValidSizes(fs);
  }
}
