/** The invariant an open file keeps between its steps, and the steps as lemmas on values. */
module FileState {
  import opened Bytes
  import opened Geometry
  import opened FatTable
  import opened Volume
  import opened Chain
  import opened ChainRuns
  import opened FileRep

  /** The flat disk seen through the file's sector buffer; sector 0 means no buffered sector. */
  ghost function Cached(view: seq<Sector>, sect: nat, buf: seq<byte>): (d: seq<Sector>)
    requires sect < |view| && |buf| == 512
    ensures |d| == |view|
  {
    if sect == 0 then view else view[sect := buf]
  }

  /** What a clean buffer has in common with its sector on the flat disk: all of it, what there is of the file's
      content, or nothing. Only another file that writes a sector this one gave back while it buffers it can spoil the
      first. */
  datatype Faith = Same | Agreeing | Torn

  ghost predicate Trusted(g: Geometry, view: seq<Sector>, chain: seq<nat>, content: seq<byte>, sect: nat,
                          buf: seq<byte>, dirty: bool, faith: Faith) {
    && (faith.Same? ==> dirty || sect == 0 || (sect < |view| && view[sect] == buf))
    && (!faith.Torn? ==> dirty || Holds(g, view, chain, content))
  }

  /** The chain, the buffer and the content of an open file fit together. A dirty buffer belongs to the chain,
      the content is found through the buffer, and the window never shows a sector of the file. */
  ghost predicate Core(g: Geometry, fat: seq<nat>, view: seq<Sector>, winsect: nat, chain: seq<nat>, content: seq<byte>,
                       sect: nat, buf: seq<byte>, dirty: bool, faith: Faith) {
    && Good(g, |view|)
    && HasChain(g, fat, chain)
    && |buf| == 512 && sect < |view|
    && (sect == 0 || g.database <= sect)
    && (dirty ==> Own(g, chain, sect))
    && !Own(g, chain, winsect)
    && Holds(g, Cached(view, sect, buf), chain, content)
    && Trusted(g, view, chain, content, sect, buf, dirty, faith)
  }

  lemma OwnInData(g: Geometry, n: nat, chain: seq<nat>, s: nat)
    requires Good(g, n) && Own(g, chain, s)
    ensures 0 < g.database <= s < n && !InFat1(g, s) && !InFat2(g, s)
  {
    var k :| 0 <= k < |chain| && InCluster(g, chain[k], s);
    ClusterInData(g, n, chain[k]);
  }

  lemma CoreHolds(g: Geometry, fat: seq<nat>, view: seq<Sector>, winsect: nat, chain: seq<nat>, content: seq<byte>,
                  sect: nat, buf: seq<byte>, dirty: bool, faith: Faith)
    requires Core(g, fat, view, winsect, chain, content, sect, buf, dirty, faith)
    ensures |buf| == 512 && sect < |view| && Holds(g, Cached(view, sect, buf), chain, content)
  {
  }

  lemma CoreOnDisk(g: Geometry, fat: seq<nat>, view: seq<Sector>, winsect: nat, chain: seq<nat>, content: seq<byte>,
                   sect: nat, buf: seq<byte>, faith: Faith)
    requires Core(g, fat, view, winsect, chain, content, sect, buf, false, faith) && !faith.Torn?
    ensures HasChain(g, fat, chain) && Holds(g, view, chain, content)
  {
  }

  lemma CleanCache(view: seq<Sector>, sect: nat, buf: seq<byte>)
    requires sect < |view| && |buf| == 512 && (sect != 0 ==> view[sect] == buf)
    ensures Cached(view, sect, buf) == view
  {
  }

  /** Only FAT sectors and the window changed. */
  lemma CoreMove(g: Geometry, fat: seq<nat>, view: seq<Sector>, winsect: nat, chain: seq<nat>, content: seq<byte>,
                 sect: nat, buf: seq<byte>, dirty: bool, faith: Faith, view': seq<Sector>, winsect': nat)
    requires Core(g, fat, view, winsect, chain, content, sect, buf, dirty, faith)
    requires |view'| == |view| && forall s :: 0 <= s < |view| && !InFat1(g, s) ==> view'[s] == view[s]
    requires InFat1(g, winsect') || winsect' == winsect
    ensures Core(g, fat, view', winsect', chain, content, sect, buf, dirty, faith)
  {
    ClusterInData(g, |view|, 2);
    if Own(g, chain, winsect') {
      OwnInData(g, |view|, chain, winsect');
    }
    HoldsOutsideFat(g, fat, Cached(view, sect, buf), Cached(view', sect, buf), chain, content);
    DataNotFat(g, |view|, sect);
    if Holds(g, view, chain, content) {
      HoldsOutsideFat(g, fat, view, view', chain, content);
    }
  }

  lemma DataNotFat(g: Geometry, n: nat, s: nat)
    requires Good(g, n)
    ensures g.database <= s ==> !InFat1(g, s) && !InFat2(g, s)
  {
    FatInsideDisk(g, n);
  }

  /** Sectors outside the file changed, and the window moved to a sector outside the file. */
  lemma CoreFrame(g: Geometry, fat: seq<nat>, view: seq<Sector>, winsect: nat, chain: seq<nat>, content: seq<byte>,
                  sect: nat, buf: seq<byte>, dirty: bool, faith: Faith, view': seq<Sector>, winsect': nat)
    requires Core(g, fat, view, winsect, chain, content, sect, buf, dirty, faith)
    requires |view'| == |view| && !Own(g, chain, winsect')
    requires forall s :: 0 <= s < |view| && (Own(g, chain, s) || (faith.Same? && s == sect && sect != 0)) ==>
               view'[s] == view[s]
    ensures Core(g, fat, view', winsect', chain, content, sect, buf, dirty, faith)
  {
    var d, d' := Cached(view, sect, buf), Cached(view', sect, buf);
    forall j | 0 <= j < Cap(g, chain) && Cl(g, j) < |chain|
      ensures d'[Sec(g, chain, j)] == d[Sec(g, chain, j)] && view'[Sec(g, chain, j)] == view[Sec(g, chain, j)]
    {
      SecPlace(g, |view|, fat, chain, j);
    }
    HoldsFrame(g, d, d', chain, content);
    if Holds(g, view, chain, content) {
      HoldsFrame(g, view, view', chain, content);
    }
  }

  /** The dirty buffer written back. */
  lemma CoreFlush(g: Geometry, fat: seq<nat>, view: seq<Sector>, winsect: nat, chain: seq<nat>, content: seq<byte>,
                  sect: nat, buf: seq<byte>, faith: Faith)
    requires Core(g, fat, view, winsect, chain, content, sect, buf, true, faith)
    ensures Core(g, fat, Overlay(view, sect, [buf]), winsect, chain, content, sect, buf, false, faith)
    ensures g.database <= sect < |view| && sect != winsect && Own(g, chain, sect)
  {
    OwnInData(g, |view|, chain, sect);
    assert Cached(view, sect, buf) == Overlay(view, sect, [buf]);
    assert Cached(Overlay(view, sect, [buf]), sect, buf) == Overlay(view, sect, [buf]);
  }

  /** A clean buffer refilled from another sector of the file. */
  lemma CoreLoad(g: Geometry, fat: seq<nat>, view: seq<Sector>, winsect: nat, chain: seq<nat>, content: seq<byte>,
                 sect: nat, buf: seq<byte>, faith: Faith, s: nat)
    requires Core(g, fat, view, winsect, chain, content, sect, buf, false, faith) && Own(g, chain, s) && s < |view|
    requires !faith.Torn?
    ensures Core(g, fat, view, winsect, chain, content, s, view[s], false, faith)
  {
    OwnInData(g, |view|, chain, s);
    CleanCache(view, s, view[s]);
  }

  /** Bytes put into the buffer for sector s, which is buffered already or replaces a clean buffer. */
  lemma CorePoke(g: Geometry, fat: seq<nat>, view: seq<Sector>, winsect: nat, chain: seq<nat>, content: seq<byte>,
                 sect: nat, buf: seq<byte>, dirty: bool, faith: Faith, pos: nat, data: seq<byte>, t: Sector)
    requires Core(g, fat, view, winsect, chain, content, sect, buf, dirty, faith)
    requires pos <= |content| && pos / 512 < Cap(g, chain) && Cl(g, pos / 512) < |chain| && pos % 512 + |data| <= 512
    requires sect == Sec(g, chain, pos / 512) || (!dirty && !faith.Torn?)
    requires forall o :: 0 <= o < 512 && pos / 512 * 512 + o < SpliceSize(|content|, pos, |data|) ==>
               t[o] == if pos % 512 <= o < pos % 512 + |data| then data[o - pos % 512]
                       else if sect == Sec(g, chain, pos / 512) then buf[o]
                       else if Sec(g, chain, pos / 512) < |view| then view[Sec(g, chain, pos / 512)][o] else 0
    ensures Core(g, fat, view, winsect, chain, Splice(content, pos, data), Sec(g, chain, pos / 512), t, true, faith)
  {
    var s := Sec(g, chain, pos / 512);
    var d := if sect == s then Cached(view, sect, buf) else view;
    SecPlace(g, |view|, fat, chain, pos / 512);
    WriteInSector(g, fat, d, chain, content, pos, data, t);
    assert Cached(view, s, t) == d[s := t];
  }

  /** The buffer after a direct write of cc sectors at s. */
  function Refilled(s: nat, data: seq<byte>, cc: nat, sect: nat, buf: seq<byte>): seq<byte>
    requires |data| == cc * 512
  {
    if s <= sect < s + cc then data[(sect - s) * 512..(sect - s) * 512 + 512] else buf
  }

  /** Whole sectors written past a clean buffer, which is refilled if it was among them. */
  lemma CoreRun(g: Geometry, fat: seq<nat>, view: seq<Sector>, winsect: nat, chain: seq<nat>, content: seq<byte>,
                sect: nat, buf: seq<byte>, faith: Faith, pos: nat, data: seq<byte>, cc: nat, buf': seq<byte>)
    requires Core(g, fat, view, winsect, chain, content, sect, buf, false, faith) && pos <= |content| && !faith.Torn?
    requires pos % 512 == 0 && |data| == cc * 512 && cc > 0
    requires Cl(g, pos / 512) < |chain| && Of(g, pos / 512) + cc <= g.csize
    requires Sec(g, chain, pos / 512) + cc <= |view|
    requires buf' == Refilled(Sec(g, chain, pos / 512), data, cc, sect, buf)
    ensures pos + |data| <= Cap(g, chain) * 512
    ensures Core(g, fat, Overlay(view, Sec(g, chain, pos / 512), Sectors(data, cc)), winsect, chain,
                 Splice(content, pos, data), sect, buf', false, faith)
  {
    var s := Sec(g, chain, pos / 512);
    var d := Cached(view, sect, buf);
    WriteRun(g, fat, view, chain, content, pos, data, cc);
    WriteRun(g, fat, d, chain, content, pos, data, cc);
    var view' := Overlay(view, s, Sectors(data, cc));
    CapIndex(g, chain, pos / 512);
    SecPlace(g, |view|, fat, chain, pos / 512);
    assert Cached(view', sect, buf') == Overlay(d, s, Sectors(data, cc));
  }

  /** The sectors a run covers belong to the file, so the window is not among them. */
  lemma RunInFile(g: Geometry, fat: seq<nat>, view: seq<Sector>, winsect: nat, chain: seq<nat>, content: seq<byte>,
                  sect: nat, buf: seq<byte>, dirty: bool, faith: Faith, j: nat, cc: nat)
    requires Core(g, fat, view, winsect, chain, content, sect, buf, dirty, faith)
    requires Cl(g, j) < |chain| && cc > 0 && Of(g, j) + cc <= g.csize
    ensures g.database <= Sec(g, chain, j) && Sec(g, chain, j) + cc <= |view|
    ensures !(Sec(g, chain, j) <= winsect < Sec(g, chain, j) + cc)
    ensures forall s :: Sec(g, chain, j) <= s < Sec(g, chain, j) + cc ==> Own(g, chain, s) && !InFat2(g, s)
  {
    hide Cl, Of;
    ClusterInData(g, |view|, chain[Cl(g, j)]);
    hide Good, HasChain, Holds, Cached;
    var c, s := chain[Cl(g, j)], Sec(g, chain, j);
    forall t | s <= t < s + cc
      ensures Own(g, chain, t) && !InFat2(g, t)
    {
      assert InCluster(g, c, t);
    }
  }

  /** The links after one free cluster was appended to the file's chain. */
  ghost function Grown(g: Geometry, fat: seq<nat>, chain: seq<nat>, ncl: nat): seq<nat>
    requires HasChain(g, fat, chain) && ncl < |fat| && |fat| > 0
  {
    Linked(g, fat, if chain == [] then 0 else Last(chain), ncl)
  }

  lemma GrownChain(g: Geometry, n: nat, fat: seq<nat>, chain: seq<nat>, ncl: nat)
    requires Good(g, n) && HasChain(g, fat, chain) && IsCluster(g, ncl) && fat[ncl] == 0
    ensures HasChain(g, Grown(g, fat, chain, ncl), chain + [ncl])
  {
    if chain == [] {
      EndMarkEndsChains(g, n);
    } else {
      StretchedChain(g, n, fat, chain, ncl);
    }
  }

  /** create_chain gave the file one more cluster. */
  lemma CoreExtend(g: Geometry, fat: seq<nat>, view: seq<Sector>, winsect: nat, chain: seq<nat>, content: seq<byte>,
                   sect: nat, buf: seq<byte>, dirty: bool, faith: Faith, ncl: nat, view': seq<Sector>, winsect': nat)
    requires Core(g, fat, view, winsect, chain, content, sect, buf, dirty, faith) && IsCluster(g, ncl) && fat[ncl] == 0
    requires |view'| == |view| && forall s :: 0 <= s < |view| && !InFat1(g, s) ==> view'[s] == view[s]
    requires InFat1(g, winsect')
    ensures Core(g, Grown(g, fat, chain, ncl), view', winsect', chain + [ncl], content, sect, buf, dirty, faith)
  {
    GrownChain(g, |view|, fat, chain, ncl);
    var c2 := chain + [ncl];
    var d, d' := Cached(view, sect, buf), Cached(view', sect, buf);
    ClusterInData(g, |view|, 2);
    if Own(g, c2, winsect') {
      OwnInData(g, |view|, c2, winsect');
    }
    if dirty {
      var k :| 0 <= k < |chain| && InCluster(g, chain[k], sect);
      assert InCluster(g, c2[k], sect);
    }
    HoldsExtend(g, d, chain, content, ncl);
    HoldsOutsideFat(g, Grown(g, fat, chain, ncl), d, d', c2, content);
    DataNotFat(g, |view|, sect);
    if Holds(g, view, chain, content) {
      HoldsExtend(g, view, chain, content, ncl);
      HoldsOutsideFat(g, Grown(g, fat, chain, ncl), view, view', c2, content);
    }
  }

  lemma HoldsOutsideFat(g: Geometry, fat: seq<nat>, d: seq<Sector>, d': seq<Sector>, chain: seq<nat>,
    content: seq<byte>)
    requires Good(g, |d|) && HasChain(g, fat, chain) && Holds(g, d, chain, content) && |d'| == |d|
    requires forall s :: 0 <= s < |d| && !InFat1(g, s) ==> d'[s] == d[s]
    ensures Holds(g, d', chain, content)
  {
    forall j | 0 <= j < Cap(g, chain) && Cl(g, j) < |chain|
      ensures d'[Sec(g, chain, j)] == d[Sec(g, chain, j)]
    {
      SecPlace(g, |d|, fat, chain, j);
    }
    HoldsFrame(g, d, d', chain, content);
  }

  lemma OwnFront(g: Geometry, chain: seq<nat>, k: nat, s: nat)
    requires k <= |chain|
    ensures Own(g, chain[..k], s) ==> Own(g, chain, s)
  {
    if Own(g, chain[..k], s) {
      var i :| 0 <= i < k && InCluster(g, chain[..k][i], s);
      assert InCluster(g, chain[i], s);
    }
  }

  /** The flat disk once a dirty buffer is written back; direct transfers see it like this. */
  ghost function Seen(view: seq<Sector>, sect: nat, buf: seq<byte>, dirty: bool): (d: seq<Sector>)
    requires sect < |view| && |buf| == 512
    ensures |d| == |view|
  {
    if dirty then Cached(view, sect, buf) else view
  }

  /** The chain was cut behind k clusters and the buffer written back. */
  lemma CoreCut(g: Geometry, fat: seq<nat>, view: seq<Sector>, winsect: nat, chain: seq<nat>, content: seq<byte>,
                sect: nat, buf: seq<byte>, dirty: bool, faith: Faith,
                k: nat, m: nat, fat': seq<nat>, view': seq<Sector>, winsect': nat)
    requires Core(g, fat, view, winsect, chain, content, sect, buf, dirty, faith)
    requires k <= |chain| && m <= |content| && m <= k * g.csize * 512 && HasChain(g, fat', chain[..k])
    requires |view'| == |view|
    requires forall s :: 0 <= s < |view| && !InFat1(g, s) ==> view'[s] == Seen(view, sect, buf, dirty)[s]
    requires InFat1(g, winsect') || winsect' == winsect
    ensures Core(g, fat', view', winsect', chain[..k], content[..m], sect, buf, false, faith)
  {
    var d := Cached(view, sect, buf);
    ClusterInData(g, |view|, 2);
    DataNotFat(g, |view|, sect);
    OwnFront(g, chain, k, winsect');
    if Own(g, chain, winsect') {
      OwnInData(g, |view|, chain, winsect');
    }
    HoldsFront(g, d, chain, content, k, m);
    HoldsOutsideFat(g, fat', d, Cached(view', sect, buf), chain[..k], content[..m]);
    if dirty {
      HoldsOutsideFat(g, fat', d, view', chain[..k], content[..m]);
    } else if !faith.Torn? {
      HoldsFront(g, view, chain, content, k, m);
      HoldsOutsideFat(g, fat', view, view', chain[..k], content[..m]);
    }
  }

  /** The content extended to m bytes with what the chain's sectors happen to hold. */
  ghost function Stretched(g: Geometry, d: seq<Sector>, chain: seq<nat>, content: seq<byte>, m: nat): (r: seq<byte>)
    requires Holds(g, d, chain, content) && |content| <= m <= Cap(g, chain) * 512
    ensures |r| == m && content <= r && Holds(g, d, chain, r)
  {
    assert forall p :: 0 <= p < m ==> 0 <= p / 512 < Cap(g, chain);
    seq(m, p requires 0 <= p < m => ByteAt(g, d, chain, p))
  }

  /** The size raised: a buffer that is the same as its sector stays so; otherwise the new bytes may have two values,
      one in the buffer and one on the disk. */
  lemma CoreStretch(g: Geometry, fat: seq<nat>, view: seq<Sector>, winsect: nat, chain: seq<nat>, content: seq<byte>,
                    sect: nat, buf: seq<byte>, dirty: bool, faith: Faith, m: nat)
    requires Core(g, fat, view, winsect, chain, content, sect, buf, dirty, faith)
      && |content| <= m <= Cap(g, chain) * 512
    ensures Core(g, fat, view, winsect, chain, Stretched(g, Cached(view, sect, buf), chain, content, m), sect, buf,
              dirty,
                 if faith.Same? then Same else Torn)
  {
    if faith.Same? && !dirty {
      CleanCache(view, sect, buf);
    }
  }

  // ----- beside other files

  /** The sector shows none of the clusters of other files. */
  ghost predicate Off(g: Geometry, others: set<nat>, s: nat) {
    forall c :: c in others ==> !InCluster(g, c, s)
  }

  lemma FatIsOff(g: Geometry, n: nat, others: set<nat>, s: nat)
    requires Good(g, n) && s < g.database
    ensures Off(g, others, s)
  {
    forall c | c in others && InCluster(g, c, s)
      ensures false
    {
      ClusterInData(g, n, c);
    }
  }

  lemma OffMove(g: Geometry, n: nat, others: set<nat>, winsect: nat, winsect': nat)
    requires Good(g, n) && Off(g, others, winsect) && (InFat1(g, winsect') || winsect' == winsect)
    ensures Off(g, others, winsect')
  {
    FatInsideDisk(g, n);
    if winsect' != winsect {
      FatIsOff(g, n, others, winsect');
    }
  }

  /** The sector of a directory entry is off the others if its directory cluster is. */
  lemma HomeIsOff(g: Geometry, n: nat, fat: seq<nat>, chain: seq<nat>, dirClst: nat, dirSect: nat, dirOfs: nat,
    others: set<nat>)
    requires Good(g, n) && Home(g, n, fat, chain, dirClst, dirSect, dirOfs) && dirClst !in others
    ensures Off(g, others, dirSect)
  {
    if dirClst == 0 {
      FatIsOff(g, n, others, dirSect);
    } else {
      forall c | c in others && InCluster(g, c, dirSect)
        ensures false
      {
        ClustersDisjoint(g, c, dirClst, dirSect - Clst2Sect(g, c), dirSect - Clst2Sect(g, dirClst));
      }
    }
  }

  // ----- what a file operation leaves alone

  /** Every sector outside the FAT and outside the file is as before. */
  ghost predicate Untouched(g: Geometry, chain: seq<nat>, v: seq<Sector>, v': seq<Sector>) {
    |v'| == |v| && forall s :: 0 <= s < |v| && !InFat1(g, s) && !Own(g, chain, s) ==> v'[s] == v[s]
  }

  /** The file grew only by clusters that were free, and every other link is as before. */
  ghost predicate Grew(fat: seq<nat>, fat': seq<nat>, chain: seq<nat>, chain': seq<nat>) {
    && |fat'| == |fat|
    && chain <= chain'
    && (forall c :: c in chain' && c !in chain ==> c < |fat| && fat[c] == 0)
    && forall c :: 0 <= c < |fat| && c !in chain' ==> fat'[c] == fat[c]
  }

  /** The clusters behind the first k of a chain became free, and no other link outside the chain changed. */
  ghost predicate Pruned(fat: seq<nat>, fat': seq<nat>, chain: seq<nat>, k: nat) {
    && |fat'| == |fat| && k <= |chain|
    && (forall c :: 0 <= c < |fat| && c !in chain ==> fat'[c] == fat[c])
    && forall c :: c in chain[k..] ==> c < |fat| && fat'[c] == 0
  }

  /** What one call on a file with chain a does to the volume: the file grows into free clusters or gives some back, and
      only sectors of its old or new clusters are written. */
  ghost predicate Acted(g: Geometry, fat: seq<nat>, fat': seq<nat>, v: seq<Sector>, v': seq<Sector>, a: seq<nat>,
    a': seq<nat>) {
    || (Untouched(g, a', v, v') && Grew(fat, fat', a, a'))
    || (Untouched(g, a, v, v') && a' <= a && Pruned(fat, fat', a, |a'|))
  }

  /** The reserved sectors are as before. */
  ghost predicate FrontKept(g: Geometry, v: seq<Sector>, v': seq<Sector>) {
    |v'| == |v| && forall s :: 0 <= s < g.fatbase && s < |v| ==> v'[s] == v[s]
  }

  lemma ActedFront(g: Geometry, fat: seq<nat>, fat': seq<nat>, v: seq<Sector>, v': seq<Sector>, a: seq<nat>,
                   a': seq<nat>)
    requires Acted(g, fat, fat', v, v', a, a') && Good(g, |v|) && HasChain(g, fat, a) && HasChain(g, fat', a')
    ensures FrontKept(g, v, v')
  {
    forall s | 0 <= s < g.fatbase && s < |v|
      ensures v'[s] == v[s]
    {
      if Own(g, a, s) { OwnInData(g, |v|, a, s); }
      if Own(g, a', s) { OwnInData(g, |v|, a', s); }
    }
  }

  /** Growing a chain enters the reserved link 1 nowhere. */
  lemma GrewNoOnes(g: Geometry, fat: seq<nat>, fat': seq<nat>, a: seq<nat>, a': seq<nat>)
    requires Grew(fat, fat', a, a') && HasChain(g, fat', a') && 1 !in fat
    ensures 1 !in fat'
  {
    forall i | 0 <= i < |fat'|
      ensures fat'[i] != 1
    {
      if i in a' {
        var k :| 0 <= k < |a'| && a'[k] == i;
        LinkOf(fat', a', k);
      }
      assert fat[i] in fat;
    }
  }

  /** Nor does any other call. */
  lemma NoOnes(g: Geometry, fat: seq<nat>, fat': seq<nat>, v: seq<Sector>, v': seq<Sector>, a: seq<nat>, a': seq<nat>)
    requires Acted(g, fat, fat', v, v', a, a') && HasChain(g, fat', a') && 1 !in fat
    ensures 1 !in fat'
  {
    forall i | 0 <= i < |fat'|
      ensures fat'[i] != 1
    {
      if i in a' {
        var k :| 0 <= k < |a'| && a'[k] == i;
        LinkOf(fat', a', k);
      } else if i in a && a' <= a {
        SliceIn(a, |a'|);
        assert a[..|a'|] == a';
      }
      assert fat[i] in fat;
    }
  }

  ghost function Members(s: seq<nat>): set<nat> { set x | x in s }

  lemma {:induction false} DistinctSize(s: seq<nat>)
    requires forall i, j :: 0 <= i < j < |s| ==> s[i] != s[j]
    ensures |Members(s)| == |s|
  {
    if s == [] {
      assert Members(s) == {};
    } else {
      var t, x := s[..|s| - 1], s[|s| - 1];
      DistinctSize(t);
      assert s == t + [x] && x !in t;
      assert Members(s) == Members(t) + {x};
    }
  }

  /** A file grows by no more clusters than are free. */
  lemma GrownSize(g: Geometry, fat: seq<nat>, fat': seq<nat>, a: seq<nat>, a': seq<nat>)
    requires Grew(fat, fat', a, a') && HasChain(g, fat', a')
    ensures |a| <= |a'| <= |a| + |Free(fat)|
  {
    var rest := a'[|a|..];
    if a' != [] { ChainAcyclic(fat', a'); }
    assert a' == a + rest;
    DistinctSize(rest);
    forall x | x in rest
      ensures x in Free(fat)
    {
      var k :| 0 <= k < |rest| && rest[k] == x;
      assert a'[|a| + k] == x && x in a' && x !in a;
    }
    SubsetSize(Members(rest), Free(fat));
  }

  /** The clusters a file may ever have: its own and the free ones. */
  ghost function Pool(fat: seq<nat>, a: seq<nat>): set<nat> { Free(fat) + Members(a) }

  lemma PoolSize(g: Geometry, fat: seq<nat>, a: seq<nat>)
    requires HasChain(g, fat, a)
    ensures |Pool(fat, a)| == |Free(fat)| + |a|
  {
    if a != [] { ChainAcyclic(fat, a); }
    DistinctSize(a);
    forall c | c in Free(fat)
      ensures c !in a
    {
      if a != [] { FreeNotOnChain(fat, a, c); }
    }
    assert Free(fat) !! Members(a);
  }

  lemma PoolGrew(g: Geometry, fat: seq<nat>, fat': seq<nat>, a: seq<nat>, a': seq<nat>)
    requires Grew(fat, fat', a, a') && HasChain(g, fat', a')
    ensures Pool(fat', a') == Pool(fat, a)
  {
    assert forall c :: c in a ==> c in a';
    if a' != [] {
      forall c | c in Free(fat')
        ensures c !in a'
      {
        FreeNotOnChain(fat', a', c);
      }
    }
  }

  lemma PoolPruned(g: Geometry, fat: seq<nat>, fat': seq<nat>, a: seq<nat>, k: nat)
    requires Pruned(fat, fat', a, k) && HasChain(g, fat, a) && HasChain(g, fat', a[..k])
    ensures Pool(fat', a[..k]) == Pool(fat, a)
  {
    SliceIn(a, k);
    forall c | c in Pool(fat, a)
      ensures c in Pool(fat', a[..k])
    {
      if c in a && a != [] {
        var i :| 0 <= i < |a| && a[i] == c;
        assert 2 <= a[i];
      }
    }
  }

  /** Conservation: whatever a call on a file does, the file and the free clusters together stay the same. */
  lemma PoolKept(g: Geometry, fat: seq<nat>, fat': seq<nat>, v: seq<Sector>, v': seq<Sector>, a: seq<nat>, a': seq<nat>)
    requires Acted(g, fat, fat', v, v', a, a') && HasChain(g, fat, a) && HasChain(g, fat', a')
    ensures Pool(fat', a') == Pool(fat, a) && |a'| + |Free(fat')| == |a| + |Free(fat)|
  {
    hide Pool, Grew, Pruned, Untouched, HasChain, Free;
    PoolSize(g, fat, a);
    PoolSize(g, fat', a');
    if Grew(fat, fat', a, a') {
      PoolGrew(g, fat, fat', a, a');
    } else {
      assert a[..|a'|] == a';
      PoolPruned(g, fat, fat', a, |a'|);
    }
  }

  lemma OwnGrows(g: Geometry, a: seq<nat>, b: seq<nat>, s: nat)
    requires a <= b && Own(g, a, s)
    ensures Own(g, b, s)
  {
    var k :| 0 <= k < |a| && InCluster(g, a[k], s);
    assert b[k] == a[k];
  }

  lemma UntouchedTrans(g: Geometry, a: seq<nat>, b: seq<nat>, v: seq<Sector>, v': seq<Sector>, v'': seq<Sector>)
    requires Untouched(g, a, v, v') && Untouched(g, b, v', v'') && a <= b
    ensures Untouched(g, b, v, v'')
  {
    forall s | 0 <= s < |v| && !InFat1(g, s) && !Own(g, b, s)
      ensures v''[s] == v[s]
    {
      if Own(g, a, s) {
        OwnGrows(g, a, b, s);
      }
    }
  }

  lemma GrewTrans(f: seq<nat>, f': seq<nat>, f'': seq<nat>, a: seq<nat>, b: seq<nat>, c: seq<nat>)
    requires Grew(f, f', a, b) && Grew(f', f'', b, c)
    ensures Grew(f, f'', a, c)
  {
    forall x | x in c && x !in a
      ensures x < |f| && f[x] == 0
    {
      if x !in b {
        assert f'[x] == f[x];
      }
    }
    assert forall x :: x in b ==> x in c;
  }

  // ----- the directory entry of the file

  /** The entry lies in the static root table (dirClst == 0) or in a cluster that is in use by a directory. */
  ghost predicate Home(g: Geometry, n: nat, fat: seq<nat>, chain: seq<nat>, dirClst: nat, dirSect: nat, dirOfs: nat) {
    && dirOfs + 32 <= 512
    && dirSect < n
    && |fat| == g.nFatent
    && if dirClst == 0 then g.fatbase + g.nFats * g.fsize <= dirSect < g.database
       else InCluster(g, dirClst, dirSect) && fat[dirClst] != 0 && dirClst !in chain
  }

  /** The entry's sector is no FAT sector, no FSInfo sector and no sector of the file. */
  lemma HomeAway(g: Geometry, n: nat, fat: seq<nat>, chain: seq<nat>, dirClst: nat, dirSect: nat, dirOfs: nat)
    requires Good(g, n) && HasChain(g, fat, chain) && Home(g, n, fat, chain, dirClst, dirSect, dirOfs)
    ensures !InFat1(g, dirSect) && !InFat2(g, dirSect) && dirSect > g.volbase + 1 && !Own(g, chain, dirSect)
  {
    ClusterInData(g, n, if dirClst == 0 then 2 else dirClst);
    FatNotEmpty(g, n);
    if Own(g, chain, dirSect) {
      OwnInData(g, n, chain, dirSect);
      var k :| 0 <= k < |chain| && InCluster(g, chain[k], dirSect);
      if dirClst != 0 {
        ClustersDisjoint(g, chain[k], dirClst, dirSect - Clst2Sect(g, chain[k]), dirSect - Clst2Sect(g, dirClst));
      }
    }
  }

  lemma FatNotEmpty(g: Geometry, n: nat)
    requires Good(g, n)
    ensures g.fsize >= 1 && g.fatbase + g.nFats * g.fsize >= g.fatbase + g.fsize
  {
  }

  /** The clusters of another file are still apart, and their links and sectors untouched. */
  lemma OtherClusters(g: Geometry, fat: seq<nat>, fat': seq<nat>, v: seq<Sector>, v': seq<Sector>, a: seq<nat>,
    a': seq<nat>, b: seq<nat>)
    requires Good(g, |v|) && Acted(g, fat, fat', v, v', a, a') && HasChain(g, fat, b) && Apart(a, b)
    ensures |v'| == |v| && |fat'| == |fat| && Apart(a', b)
    ensures forall i :: 0 <= i < |b| ==> b[i] < |fat| && fat'[b[i]] == fat[b[i]]
    ensures forall s :: 0 <= s < |v| && Own(g, b, s) ==> v'[s] == v[s]
  {
    forall i, j | 0 <= i < |a'| && 0 <= j < |b|
      ensures a'[i] != b[j]
    {
      assert a'[i] in a';
      if a'[i] !in a {
        FreeNotOnChain(fat, b, a'[i]);
      }
    }
    forall s | 0 <= s < |v| && Own(g, b, s)
      ensures v'[s] == v[s]
    {
      OwnInData(g, |v|, b, s);
      SectorsApart(g, a, b, s);
      SectorsApart(g, a', b, s);
    }
  }

  /** What is left of the trust in a file's buffer when another file acts. */
  function Doubted(faith: Faith): Faith { if faith.Torn? then Torn else Agreeing }

  /** A call on one file and another open file: whatever the call writes, the other file keeps its content, through its
      buffer and on the disk. Its buffer is still the same as its sector unless the call wrote just that one. */
  lemma OtherFileKept(g: Geometry, fat: seq<nat>, fat': seq<nat>, v: seq<Sector>, v': seq<Sector>, a: seq<nat>,
                      a': seq<nat>, win: nat, win': nat, b: seq<nat>, content: seq<byte>, sect: nat, buf: seq<byte>,
                      dirty: bool, faith: Faith)
    requires Core(g, fat, v, win, b, content, sect, buf, dirty, faith) && Acted(g, fat, fat', v, v', a, a')
    requires Apart(a, b) && !Own(g, b, win')
    ensures Apart(a', b) && |v'| == |v|
    ensures Core(g, fat', v', win', b, content, sect, buf, dirty, Doubted(faith))
    ensures !Own(g, a, sect) && !Own(g, a', sect) ==> Core(g, fat', v', win', b, content, sect, buf, dirty, faith)
  {
    OtherClusters(g, fat, fat', v, v', a, a', b);
    DataNotFat(g, |v|, sect);
    assert !Own(g, a, sect) && !Own(g, a', sect) && sect != 0 ==> v'[sect] == v[sect];
    hide Acted, Apart, Own, Good, Holds, IsChain;
    if b != [] {
      ChainFrame(fat, fat', b);
    }
    var d, d' := Cached(v, sect, buf), Cached(v', sect, buf);
    forall j | 0 <= j < Cap(g, b) && Cl(g, j) < |b|
      ensures d'[Sec(g, b, j)] == d[Sec(g, b, j)] && v'[Sec(g, b, j)] == v[Sec(g, b, j)]
    {
      SecPlace(g, |v|, fat, b, j);
    }
    HoldsFrame(g, d, d', b, content);
    if Holds(g, v, b, content) {
      HoldsFrame(g, v, v', b, content);
    }
  }

  /** The entry of another file stays where it is. */
  lemma OtherHome(g: Geometry, n: nat, fat: seq<nat>, fat': seq<nat>, v: seq<Sector>, v': seq<Sector>, a: seq<nat>,
    a': seq<nat>,
                  b: seq<nat>, dirClst: nat, dirSect: nat, dirOfs: nat)
    requires Home(g, n, fat, b, dirClst, dirSect, dirOfs) && Acted(g, fat, fat', v, v', a, a') && dirClst !in a
    ensures Home(g, n, fat', b, dirClst, dirSect, dirOfs) && (dirClst != 0 ==> dirClst !in a')
  {
  }

  lemma SectorsApart(g: Geometry, a: seq<nat>, b: seq<nat>, s: nat)
    requires Apart(a, b) && Own(g, b, s)
    ensures !Own(g, a, s)
  {
    if Own(g, a, s) {
      var i :| 0 <= i < |a| && InCluster(g, a[i], s);
      var j :| 0 <= j < |b| && InCluster(g, b[j], s);
      ClustersDisjoint(g, a[i], b[j], s - Clst2Sect(g, a[i]), s - Clst2Sect(g, b[j]));
    }
  }
}
