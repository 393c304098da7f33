/** How a directory table lies on the disk: in the static root area or in a cluster chain. */
module DirRep {
  import opened Bytes
  import opened Geometry
  import opened Volume
  import opened Chain
  import opened ChainRuns
  import opened FileRep
  import opened FileState
  import opened LongNames
  import DirEdit

  const MAX_DIR: nat := 0x20_0000
  const MAX_SECTORS: nat := 4096  // of a directory table

  /** Each cluster is the link of the one before. */
  ghost predicate Linking(g: Geometry, fat: seq<nat>, chain: seq<nat>) {
    && |fat| == g.nFatent
    && (forall k :: 0 <= k < |chain| ==> IsCluster(g, chain[k]))
    && forall k :: 0 <= k < |chain| - 1 ==> fat[chain[k]] == chain[k + 1]
  }

  /** The clusters that a walk over the table visits, on any links; [] stands for the static root table. The walk
      ends at an end mark, at a link below 2, or where it is long enough for every offset below MAX_DIR. A cluster
      may occur several times: the links may form a cycle. */
  ghost predicate IsWalk(g: Geometry, n: nat, fat: seq<nat>, chain: seq<nat>) {
    && Good(g, n) && Linking(g, fat, chain)
    && (chain != [] ==> fat[Last(chain)] >= |fat| || fat[Last(chain)] < 2 || Cap(g, chain) >= MAX_SECTORS)
  }

  /** The walk runs into a link that is neither a cluster nor an end mark. */
  ghost predicate Broken(g: Geometry, fat: seq<nat>, chain: seq<nat>) {
    chain != [] && Last(chain) < |fat| && fat[Last(chain)] < 2 && Cap(g, chain) < MAX_SECTORS
  }

  /** An intact table: a chain up to an end mark, or the static root table, which FAT32 does not have. */
  ghost predicate IsTable(g: Geometry, n: nat, fat: seq<nat>, chain: seq<nat>) {
    Good(g, n) && HasChain(g, fat, chain) && (chain == [] ==> !g.fsType.Fat32?)
  }

  lemma TableIsWalk(g: Geometry, n: nat, fat: seq<nat>, chain: seq<nat>)
    requires IsTable(g, n, fat, chain)
    ensures IsWalk(g, n, fat, chain) && !Broken(g, fat, chain)
  {
  }

  /** A walk that reaches an end mark is an intact chain. */
  lemma EndedIsTable(g: Geometry, n: nat, fat: seq<nat>, chain: seq<nat>)
    requires IsWalk(g, n, fat, chain) && chain != [] && fat[Last(chain)] >= |fat|
    ensures IsTable(g, n, fat, chain)
  {
  }

  /** From every cluster there is a walk, whatever the links are. */
  lemma {:induction false} WalkFrom(g: Geometry, n: nat, fat: seq<nat>, chain: seq<nat>) returns (walk: seq<nat>)
    requires Good(g, n) && Linking(g, fat, chain) && chain != []
    ensures IsWalk(g, n, fat, walk) && chain <= walk
    decreases MAX_SECTORS - Cap(g, chain)
  {
    walk := chain;
    var next := fat[Last(chain)];
    if 2 <= next < |fat| && Cap(g, chain) < MAX_SECTORS {
      CapGrows(g, chain, next);
      walk := WalkFrom(g, n, fat, chain + [next]);
    }
  }

  /** The number of sectors of the table. */
  function Size(g: Geometry, chain: seq<nat>): nat {
    if chain == [] then RootSectors(g) else Cap(g, chain)
  }

  /** The number of entries within reach: a table is cut at MAX_DIR bytes. */
  function Count(g: Geometry, chain: seq<nat>): nat {
    16 * if Size(g, chain) <= MAX_SECTORS then Size(g, chain) else MAX_SECTORS
  }

  /** Sector j of the table. */
  function SecOf(g: Geometry, chain: seq<nat>, j: nat): nat {
    if chain == [] then g.dirbase + j
    else if g.csize > 0 && Cl(g, j) < |chain| then Sec(g, chain, j) else 0
  }

  /** s is a sector of the table. */
  ghost predicate Mine(g: Geometry, chain: seq<nat>, s: nat) {
    if chain == [] then g.dirbase <= s < g.database else Own(g, chain, s)
  }

  /** Entry i of the table. */
  ghost function EntryAt(g: Geometry, view: seq<Sector>, chain: seq<nat>, i: nat): DirEntry {
    var s := SecOf(g, chain, i / 16);
    if s < |view| then view[s][i % 16 * 32..i % 16 * 32 + 32] else DirEdit.BlankEntry()
  }

  /** The directory as a sequence of entries. */
  ghost function Entries(g: Geometry, view: seq<Sector>, chain: seq<nat>): (d: seq<DirEntry>)
    ensures |d| == Count(g, chain) && forall i :: 0 <= i < |d| ==> d[i] == EntryAt(g, view, chain, i)
  {
    seq(Count(g, chain), i requires 0 <= i => EntryAt(g, view, chain, i))
  }

  lemma RootPlace(g: Geometry, n: nat, j: nat)
    requires Good(g, n) && j < RootSectors(g)
    ensures g.volbase + 1 < g.dirbase + j < g.database <= n && !InFat1(g, g.dirbase + j) && !InFat2(g, g.dirbase + j)
  {
    FatNotEmpty(g, n);
    ClusterInData(g, n, 2);
  }

  /** The sectors of the table hold nothing else that the volume needs. */
  lemma TablePlace(g: Geometry, n: nat, fat: seq<nat>, chain: seq<nat>, j: nat)
    requires IsWalk(g, n, fat, chain) && j < Size(g, chain)
    ensures 0 < SecOf(g, chain, j) < n && !InFat1(g, SecOf(g, chain, j)) && !InFat2(g, SecOf(g, chain, j))
      && Mine(g, chain, SecOf(g, chain, j))
    ensures chain != [] ==> g.csize > 0 && Cl(g, j) < |chain| && IsCluster(g, chain[Cl(g, j)])
  {
    if chain == [] {
      RootPlace(g, n, j);
    } else {
      CapIndex(g, chain, j);
      ClusterInData(g, n, chain[Cl(g, j)]);
      assert InCluster(g, chain[Cl(g, j)], Sec(g, chain, j));
    }
  }

  lemma TableInjective(g: Geometry, n: nat, fat: seq<nat>, chain: seq<nat>, i: nat, j: nat)
    requires IsTable(g, n, fat, chain) && i < Size(g, chain) && j < Size(g, chain)
      && SecOf(g, chain, i) == SecOf(g, chain, j)
    ensures i == j
  {
    TableIsWalk(g, n, fat, chain);
    TablePlace(g, n, fat, chain, i);
    TablePlace(g, n, fat, chain, j);
    if chain != [] {
      SecInjective(g, n, fat, chain, i, j);
    }
  }

  lemma EntrySector(g: Geometry, chain: seq<nat>, i: nat)
    requires i < Count(g, chain)
    ensures i / 16 < Size(g, chain) && i / 16 < MAX_SECTORS
  {
  }

  /** Only the table's own sectors matter. */
  lemma EntriesFrame(g: Geometry, n: nat, fat: seq<nat>, chain: seq<nat>, v: seq<Sector>, w: seq<Sector>)
    requires IsWalk(g, n, fat, chain) && |v| == |w| == n
    requires forall s :: 0 <= s < n && Mine(g, chain, s) && !InFat1(g, s) ==> w[s] == v[s]
    ensures Entries(g, w, chain) == Entries(g, v, chain)
  {
    forall i | 0 <= i < Count(g, chain)
      ensures EntryAt(g, w, chain, i) == EntryAt(g, v, chain, i)
    {
      EntrySector(g, chain, i);
      TablePlace(g, n, fat, chain, i / 16);
    }
  }

  /** A sector with the entry in slot k replaced. */
  function SetSlot(s: Sector, k: nat, e: DirEntry): Sector
    requires k < 16
  {
    s[..k * 32] + e + s[k * 32 + 32..]
  }

  lemma SlotRead(s: Sector, k: nat, e: DirEntry, m: nat)
    requires k < 16 && m < 16
    ensures SetSlot(s, k, e)[m * 32..m * 32 + 32] == if m == k then e else s[m * 32..m * 32 + 32]
  {
    var t := SetSlot(s, k, e);
    if m < k {
      assert t[m * 32..m * 32 + 32] == s[m * 32..m * 32 + 32];
    } else if m > k {
      assert t[m * 32..m * 32 + 32] == s[m * 32..m * 32 + 32];
    } else {
      assert t[m * 32..m * 32 + 32] == e;
    }
  }

  /** Storing entry i changes entry i. */
  lemma EntriesStore(g: Geometry, n: nat, fat: seq<nat>, chain: seq<nat>, v: seq<Sector>, i: nat, e: DirEntry)
    requires IsTable(g, n, fat, chain) && |v| == n && i < Count(g, chain) && SecOf(g, chain, i / 16) < n
    ensures var s := SecOf(g, chain, i / 16);
            Entries(g, v[s := SetSlot(v[s], i % 16, e)], chain) == Entries(g, v, chain)[i := e]
  {
    hide Good, SetSlot, HasChain, SecOf;
    var s := SecOf(g, chain, i / 16);
    var w := v[s := SetSlot(v[s], i % 16, e)];
    var d := Entries(g, w, chain);
    EntrySector(g, chain, i);
    forall m | 0 <= m < |d|
      ensures d[m] == Entries(g, v, chain)[i := e][m]
    {
      EntrySector(g, chain, m);
      if SecOf(g, chain, m / 16) == s {
        TableInjective(g, n, fat, chain, m / 16, i / 16);
        SlotRead(v[s], i % 16, e, m % 16);
        assert m == m / 16 * 16 + m % 16 && i == i / 16 * 16 + i % 16;
      }
    }
    assert d == Entries(g, v, chain)[i := e];
  }

  /** A stretched table that still is within reach. */
  lemma RoomLeft(g: Geometry, n: nat, chain: seq<nat>, ncl: nat)
    requires Good(g, n) && chain != [] && Size(g, chain) < MAX_SECTORS
    ensures Count(g, chain + [ncl]) == Count(g, chain) + 16 * g.csize
      && Size(g, chain + [ncl]) == Size(g, chain) + g.csize
  {
    CapGrows(g, chain, ncl);
    var c, k := g.csize, |chain|;
    assert PowerOfTwo(c);
    hide Good;
    assert k * c < MAX_SECTORS ==> (k + 1) * c <= MAX_SECTORS by {
      if c == 1 {} else if c == 2 {} else if c == 4 {} else if c == 8 {} else if c == 16 {} else if c == 32 {}
          else if c == 64 {} else {}
    }
    assert (k + 1) * c == k * c + c;
  }

  /** A cleared cluster behind the table stretches it by blank entries. */
  lemma EntriesStretch(g: Geometry, n: nat, fat: seq<nat>, chain: seq<nat>, ncl: nat, v: seq<Sector>, w: seq<Sector>)
    requires IsTable(g, n, fat, chain) && chain != [] && Size(g, chain) < MAX_SECTORS && |v| == |w| == n
      && IsCluster(g, ncl) && ncl !in chain
    requires forall s :: 0 <= s < n && InCluster(g, ncl, s) ==> w[s] == ZeroSector()
    requires forall s :: 0 <= s < n && Mine(g, chain, s) && !InFat1(g, s) ==> w[s] == v[s]
    ensures Entries(g, w, chain + [ncl]) == DirEdit.Padded(Entries(g, v, chain), 16 * g.csize)
  {
    RoomLeft(g, n, chain, ncl);
    var d, e := Entries(g, v, chain), Entries(g, w, chain + [ncl]);
    forall i | 0 <= i < |e|
      ensures e[i] == DirEdit.Padded(d, 16 * g.csize)[i]
    {
      if i < |d| {
        EntryKept(g, n, fat, chain, ncl, v, w, i);
      } else {
        EntryBlank(g, n, chain, ncl, w, i);
      }
    }
  }

  lemma EntryKept(g: Geometry, n: nat, fat: seq<nat>, chain: seq<nat>, ncl: nat, v: seq<Sector>, w: seq<Sector>, i: nat)
    requires IsTable(g, n, fat, chain) && chain != [] && |v| == |w| == n && i < Count(g, chain)
    requires forall s :: 0 <= s < n && Mine(g, chain, s) && !InFat1(g, s) ==> w[s] == v[s]
    ensures EntryAt(g, w, chain + [ncl], i) == EntryAt(g, v, chain, i)
  {
    EntrySector(g, chain, i);
    TableIsWalk(g, n, fat, chain);
    TablePlace(g, n, fat, chain, i / 16);
    SecExtend(g, chain, ncl, i / 16);
  }

  lemma EntryBlank(g: Geometry, n: nat, chain: seq<nat>, ncl: nat, w: seq<Sector>, i: nat)
    requires Good(g, n) && chain != [] && |w| == n && IsCluster(g, ncl)
    requires Size(g, chain) < MAX_SECTORS && Count(g, chain) <= i < Count(g, chain) + 16 * g.csize
    requires forall s :: 0 <= s < n && InCluster(g, ncl, s) ==> w[s] == ZeroSector()
    ensures EntryAt(g, w, chain + [ncl], i) == DirEdit.BlankEntry()
  {
    var j := i / 16;
    var c, k := g.csize, |chain|;
    assert c * k == Size(g, chain);
    DivModOf(j, c, k, j - c * k);
    ClusterInData(g, n, ncl);
    hide Good;
    var s := SecOf(g, chain + [ncl], j);
    assert InCluster(g, ncl, s);
    assert w[s] == ZeroSector();
  }
}
