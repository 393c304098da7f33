/** How an open file's bytes lie on the disk: cluster chain, sectors of the chain, and the sector buffer. */
module FileRep {
  import opened Bytes
  import opened Geometry
  import opened Volume
  import opened Chain

  /** The number of sectors a chain holds. */
  function Cap(g: Geometry, chain: seq<nat>): nat {
    |chain| * g.csize
  }

  /** Sector j of the file is sector Of(j) of its cluster Cl(j). The source masks with csize - 1, a power of two. */
  function Cl(g: Geometry, j: nat): (q: nat)
    requires g.csize > 0
  {
    DivNat(j, g.csize);
    j / g.csize
  }

  function Of(g: Geometry, j: nat): (r: nat)
    requires g.csize > 0
    ensures r < g.csize
  {
    j % g.csize
  }

  /** Sector j of the file. */
  function Sec(g: Geometry, chain: seq<nat>, j: nat): nat
    requires g.csize > 0 && Cl(g, j) < |chain|
  {
    Clst2Sect(g, chain[Cl(g, j)]) + Of(g, j)
  }

  /** s is a data sector of the chain. */
  ghost predicate Own(g: Geometry, chain: seq<nat>, s: nat) {
    exists k :: 0 <= k < |chain| && InCluster(g, chain[k], s)
  }

  predicate InCluster(g: Geometry, c: nat, s: nat) {
    IsCluster(g, c) && Clst2Sect(g, c) <= s < Clst2Sect(g, c) + g.csize
  }

  /** The links hold the chain; an empty file has no chain. */
  ghost predicate HasChain(g: Geometry, fat: seq<nat>, chain: seq<nat>) {
    |fat| == g.nFatent && (chain == [] || IsChain(fat, chain))
  }

  // ----- division by the cluster size

  lemma CapIndex(g: Geometry, chain: seq<nat>, j: nat)
    requires g.csize > 0
    ensures Cl(g, j) < |chain| <==> j < Cap(g, chain)
  {
    var c, q, r := g.csize, j / g.csize, j % g.csize;
    assert j == c * q + r;
    if q < |chain| {
      assert c * (q + 1) <= c * |chain| by { MulMonotone(q + 1, |chain|, c); }
      assert c * (q + 1) == c * q + c;
    } else {
      assert c * |chain| <= c * q by { MulMonotone(|chain|, q, c); }
    }
  }

  /** Sectors after j in the same cluster. */
  lemma SameCluster(g: Geometry, j: nat, i: nat)
    requires g.csize > 0 && Of(g, j) + i < g.csize
    ensures Cl(g, j + i) == Cl(g, j) && Of(g, j + i) == Of(g, j) + i
  {
    DivModOf(j + i, g.csize, j / g.csize, j % g.csize + i);
  }

  /** The last sector before j lies in the same cluster, or j starts the next one. */
  lemma PreviousSector(g: Geometry, j: nat)
    requires g.csize > 0 && j > 0
    ensures Of(g, j) != 0 ==> Cl(g, j - 1) == Cl(g, j)
    ensures Of(g, j) == 0 ==> Cl(g, j) >= 1 && Cl(g, j - 1) == Cl(g, j) - 1
  {
    var c, q, r := g.csize, j / g.csize, j % g.csize;
    if r != 0 {
      DivModOf(j - 1, c, q, r - 1);
    } else {
      assert q >= 1;
      DivModOf(j - 1, c, q - 1, c - 1);
    }
  }

  // ----- sectors of a chain

  lemma SecPlace(g: Geometry, n: nat, fat: seq<nat>, chain: seq<nat>, j: nat)
    requires Good(g, n) && HasChain(g, fat, chain) && j < Cap(g, chain)
    ensures Cl(g, j) < |chain| && IsCluster(g, chain[Cl(g, j)])
    ensures g.database <= Sec(g, chain, j) < n && Own(g, chain, Sec(g, chain, j)) && 0 < g.database
    ensures !InFat1(g, Sec(g, chain, j)) && !InFat2(g, Sec(g, chain, j))
  {
    CapIndex(g, chain, j);
    ClusterInData(g, n, chain[Cl(g, j)]);
    assert InCluster(g, chain[Cl(g, j)], Sec(g, chain, j));
  }

  /** Distinct file sectors lie on distinct disk sectors. */
  lemma SecInjective(g: Geometry, n: nat, fat: seq<nat>, chain: seq<nat>, i: nat, j: nat)
    requires Good(g, n) && HasChain(g, fat, chain) && i < Cap(g, chain) && j < Cap(g, chain)
    requires Cl(g, i) < |chain| && Cl(g, j) < |chain| && Sec(g, chain, i) == Sec(g, chain, j)
    ensures i == j
  {
    SecPlace(g, n, fat, chain, i);
    SecPlace(g, n, fat, chain, j);
    hide Good, Clst2Sect, Own, Cap, IsChain, InFat1, InFat2;
    var p, q, r, t := Cl(g, i), Cl(g, j), Of(g, i), Of(g, j);
    hide Cl, Of;
    ClustersDisjoint(g, chain[p], chain[q], r, t);
    assert p == q by { ChainAcyclic(fat, chain); }
    SameQuotient(g, i, j);
  }

  lemma SameQuotient(g: Geometry, i: nat, j: nat)
    requires g.csize > 0 && Cl(g, i) == Cl(g, j) && Of(g, i) == Of(g, j)
    ensures i == j
  {
    assert i == g.csize * (i / g.csize) + i % g.csize;
    assert j == g.csize * (j / g.csize) + j % g.csize;
  }

  /** A longer chain keeps the sectors of the shorter one. */
  lemma SecExtend(g: Geometry, chain: seq<nat>, ncl: nat, j: nat)
    requires g.csize > 0 && j < Cap(g, chain)
    ensures Cl(g, j) < |chain| && j < Cap(g, chain + [ncl]) && Sec(g, chain + [ncl], j) == Sec(g, chain, j)
  {
    CapIndex(g, chain, j);
    CapIndex(g, chain + [ncl], j);
  }

  // ----- file bytes

  /** The first |content| bytes of the chain's sectors on the flat disk d. */
  ghost predicate Holds(g: Geometry, d: seq<Sector>, chain: seq<nat>, content: seq<byte>) {
    && g.csize > 0
    && |content| <= Cap(g, chain) * 512
    && (forall j :: 0 <= j < Cap(g, chain) ==> Cl(g, j) < |chain| && Sec(g, chain, j) < |d|)
    && forall p :: 0 <= p < |content| ==> content[p] == ByteAt(g, d, chain, p)
  }

  ghost function ByteAt(g: Geometry, d: seq<Sector>, chain: seq<nat>, p: nat): byte
    requires g.csize > 0 && Cl(g, p / 512) < |chain| && Sec(g, chain, p / 512) < |d|
  {
    d[Sec(g, chain, p / 512)][p % 512]
  }

  /** content with data written at pos, growing it when data reaches past the end. */
  ghost function Splice(content: seq<byte>, pos: nat, data: seq<byte>): (r: seq<byte>)
    requires pos <= |content|
    ensures |r| == if pos + |data| > |content| then pos + |data| else |content|
    ensures forall p :: 0 <= p < |r| ==> r[p] == if pos <= p < pos + |data| then data[p - pos] else content[p]
  {
    content[..pos] + data + if pos + |data| < |content| then content[pos + |data|..] else []
  }

  /** Byte p of the flat disk e is the spliced byte. */
  ghost predicate Written(g: Geometry, d: seq<Sector>, e: seq<Sector>, chain: seq<nat>, pos: nat, data: seq<byte>,
    p: nat)
    requires g.csize > 0 && Cl(g, p / 512) < |chain| && Sec(g, chain, p / 512) < |d| == |e|
  {
    ByteAt(g, e, chain, p) == if pos <= p < pos + |data| then data[p - pos] else ByteAt(g, d, chain, p)
  }

  ghost function SpliceSize(size: nat, pos: nat, k: nat): nat {
    if pos + k > size then pos + k else size
  }

  /** If every byte below the new size is the spliced one, the file holds the spliced content. */
  lemma HoldsSplice(g: Geometry, d: seq<Sector>, e: seq<Sector>, chain: seq<nat>, content: seq<byte>, pos: nat,
    data: seq<byte>)
    requires Holds(g, d, chain, content) && |e| == |d| && pos <= |content| && pos + |data| <= Cap(g, chain) * 512
    requires forall p :: 0 <= p < SpliceSize(|content|, pos, |data|) ==>
               Cl(g, p / 512) < |chain| && Sec(g, chain, p / 512) < |d| && Written(g, d, e, chain, pos, data, p)
    ensures Holds(g, e, chain, Splice(content, pos, data))
  {
    var r := Splice(content, pos, data);
    forall p | 0 <= p < |r|
      ensures Cl(g, p / 512) < |chain| && r[p] == ByteAt(g, e, chain, p)
    {
      assert Written(g, d, e, chain, pos, data, p);
    }
  }

  /** A sector replaced in the middle of the file: the written bytes change, the other bytes below the size stay.
      On the growing edge the rest of the sector may be anything. */
  lemma WriteInSector(g: Geometry, fat: seq<nat>, d: seq<Sector>, chain: seq<nat>, content: seq<byte>,
                      pos: nat, data: seq<byte>, t: Sector)
    requires Good(g, |d|) && HasChain(g, fat, chain) && Holds(g, d, chain, content) && pos <= |content|
    requires pos / 512 < Cap(g, chain) && Cl(g, pos / 512) < |chain| && pos % 512 + |data| <= 512
    requires forall o :: 0 <= o < 512 && pos / 512 * 512 + o < SpliceSize(|content|, pos, |data|) ==>
               t[o] == if pos % 512 <= o < pos % 512 + |data| then data[o - pos % 512]
                       else d[Sec(g, chain, pos / 512)][o]
    ensures Holds(g, d[Sec(g, chain, pos / 512) := t], chain, Splice(content, pos, data))
  {
    var j := pos / 512;
    var s := Sec(g, chain, j);
    var e := d[s := t];
    hide Good, IsChain, Sec;
    forall p | 0 <= p < SpliceSize(|content|, pos, |data|)
      ensures Cl(g, p / 512) < |chain| && Sec(g, chain, p / 512) < |d| && Written(g, d, e, chain, pos, data, p)
    {
      assert p / 512 < Cap(g, chain);
      if p / 512 != j && Sec(g, chain, p / 512) == s {
        SecInjective(g, |d|, fat, chain, p / 512, j);
      }
    }
    HoldsSplice(g, d, e, chain, content, pos, data);
  }

  /** The sectors of a byte buffer. */
  function Sectors(b: seq<byte>, cc: nat): (r: seq<Sector>)
    requires cc * 512 <= |b|
    ensures |r| == cc
    ensures forall i :: 0 <= i < cc ==> r[i] == b[i * 512..i * 512 + 512]
  {
    seq(cc, i requires 0 <= i < cc => b[i * 512..i * 512 + 512])
  }

  /** The bytes of a run of sectors. */
  function Flat(secs: seq<Sector>): (r: seq<byte>)
    ensures |r| == |secs| * 512
    ensures forall q :: 0 <= q < |r| ==> r[q] == secs[q / 512][q % 512]
  {
    seq(|secs| * 512, q requires 0 <= q < |secs| * 512 => secs[q / 512][q % 512])
  }

  /** Sectors j..j+cc of one cluster are adjacent on disk. */
  lemma Adjacent(g: Geometry, chain: seq<nat>, j: nat, i: nat)
    requires g.csize > 0 && Cl(g, j) < |chain| && Of(g, j) + i < g.csize
    ensures Cl(g, j + i) < |chain| && Sec(g, chain, j + i) == Sec(g, chain, j) + i && j + i < Cap(g, chain)
  {
    SameCluster(g, j, i);
    CapIndex(g, chain, j + i);
  }

  /** A run of whole sectors written inside one cluster. */
  lemma WriteRun(g: Geometry, fat: seq<nat>, d: seq<Sector>, chain: seq<nat>, content: seq<byte>,
                 pos: nat, data: seq<byte>, cc: nat)
    requires Good(g, |d|) && HasChain(g, fat, chain) && Holds(g, d, chain, content) && pos <= |content|
    requires pos % 512 == 0 && |data| == cc * 512 && cc > 0
    requires Cl(g, pos / 512) < |chain| && Of(g, pos / 512) + cc <= g.csize
    requires Sec(g, chain, pos / 512) + cc <= |d|
    ensures pos + |data| <= Cap(g, chain) * 512
    ensures Holds(g, Overlay(d, Sec(g, chain, pos / 512), Sectors(data, cc)), chain, Splice(content, pos, data))
  {
    var j := pos / 512;
    var s := Sec(g, chain, j);
    var e := Overlay(d, s, Sectors(data, cc));
    Adjacent(g, chain, j, cc - 1);
    hide Good, IsChain;
    forall p | 0 <= p < SpliceSize(|content|, pos, |data|)
      ensures Cl(g, p / 512) < |chain| && Sec(g, chain, p / 512) < |d| && Written(g, d, e, chain, pos, data, p)
    {
      RunByte(g, fat, d, chain, j, data, cc, p);
    }
    HoldsSplice(g, d, e, chain, content, pos, data);
  }

  lemma RunByte(g: Geometry, fat: seq<nat>, d: seq<Sector>, chain: seq<nat>, j: nat, data: seq<byte>, cc: nat, p: nat)
    requires Good(g, |d|) && HasChain(g, fat, chain) && |data| == cc * 512 && p / 512 < Cap(g, chain)
    requires Cl(g, j) < |chain| && Of(g, j) + cc <= g.csize && Sec(g, chain, j) + cc <= |d|
    ensures Cl(g, p / 512) < |chain| && Sec(g, chain, p / 512) < |d|
    ensures Written(g, d, Overlay(d, Sec(g, chain, j), Sectors(data, cc)), chain, j * 512, data, p)
  {
    assert g.csize > 0;
    hide Good, HasChain, Own, Cap, Sec, InFat1, InFat2, Cl, Of;
    var k := p / 512;
    var s := Sec(g, chain, j);
    SecPlace(g, |d|, fat, chain, k);
    if j <= k < j + cc {
      Adjacent(g, chain, j, k - j);
    } else {
      OutsideRun(g, |d|, fat, chain, j, cc, k);
    }
  }

  /** Other sectors of the file lie outside a run of sectors. */
  lemma OutsideRun(g: Geometry, n: nat, fat: seq<nat>, chain: seq<nat>, j: nat, cc: nat, k: nat)
    requires Good(g, n) && HasChain(g, fat, chain) && k < Cap(g, chain) && g.csize > 0 && Cl(g, j) < |chain|
      && Of(g, j) + cc <= g.csize
    requires Cl(g, k) < |chain| && !(j <= k < j + cc)
    ensures !(Sec(g, chain, j) <= Sec(g, chain, k) < Sec(g, chain, j) + cc)
  {
    hide Good, HasChain, Own, Cap, Sec, InFat1, InFat2, Cl, Of;
    var s := Sec(g, chain, j);
    if s <= Sec(g, chain, k) < s + cc {
      var i := Sec(g, chain, k) - s;
      Adjacent(g, chain, j, i);
      SecInjective(g, n, fat, chain, k, j + i);
    }
  }

  // ----- growing and cutting the chain

  lemma HoldsExtend(g: Geometry, d: seq<Sector>, chain: seq<nat>, content: seq<byte>, ncl: nat)
    requires Good(g, |d|) && Holds(g, d, chain, content) && IsCluster(g, ncl)
    ensures Holds(g, d, chain + [ncl], content)
  {
    var c2 := chain + [ncl];
    ClusterInData(g, |d|, ncl);
    hide Good;
    CapGrows(g, chain, ncl);
    forall j | 0 <= j < Cap(g, c2)
      ensures Cl(g, j) < |c2| && Sec(g, c2, j) < |d|
    {
      CapIndex(g, c2, j);
      CapIndex(g, chain, j);
      assert Cl(g, j) < |chain| || c2[Cl(g, j)] == ncl;
    }
    forall p | 0 <= p < |content|
      ensures Cl(g, p / 512) < |c2| && content[p] == ByteAt(g, d, c2, p)
    {
      assert p / 512 < Cap(g, chain);
      SecExtend(g, chain, ncl, p / 512);
    }
  }

  lemma CapGrows(g: Geometry, chain: seq<nat>, ncl: nat)
    ensures Cap(g, chain + [ncl]) == Cap(g, chain) + g.csize
  {
    assert |chain + [ncl]| == |chain| + 1;
    assert (|chain| + 1) * g.csize == |chain| * g.csize + g.csize;
  }

  /** The front of the chain holds the front of the content. */
  lemma HoldsFront(g: Geometry, d: seq<Sector>, chain: seq<nat>, content: seq<byte>, k: nat, m: nat)
    requires Holds(g, d, chain, content) && k <= |chain| && m <= |content| && m <= k * g.csize * 512
    ensures Holds(g, d, chain[..k], content[..m])
  {
    var c2 := chain[..k];
    assert Cap(g, c2) == k * g.csize <= Cap(g, chain) by { MulMonotone(k, |chain|, g.csize); }
    forall j | 0 <= j < Cap(g, c2)
      ensures Cl(g, j) < |c2| && Sec(g, c2, j) == Sec(g, chain, j) < |d|
    {
      CapIndex(g, c2, j);
    }
    forall p | 0 <= p < m
      ensures Cl(g, p / 512) < |c2| && content[p] == ByteAt(g, d, c2, p)
    {
      assert p / 512 < Cap(g, c2);
    }
  }

  /** Only the chain's own sectors matter. */
  lemma HoldsFrame(g: Geometry, d: seq<Sector>, e: seq<Sector>, chain: seq<nat>, content: seq<byte>)
    requires Holds(g, d, chain, content) && |e| == |d|
    requires forall j :: 0 <= j < Cap(g, chain) && Cl(g, j) < |chain| ==> e[Sec(g, chain, j)] == d[Sec(g, chain, j)]
    ensures Holds(g, e, chain, content)
  {
    forall p | 0 <= p < |content|
      ensures content[p] == ByteAt(g, e, chain, p)
    {
      assert p / 512 < Cap(g, chain);
    }
  }

  /** A run of sectors inside one cluster holds the file's bytes from its first sector on. */
  lemma RunHolds(g: Geometry, d: seq<Sector>, chain: seq<nat>, content: seq<byte>, j: nat, secs: seq<Sector>)
    requires Holds(g, d, chain, content) && Cl(g, j) < |chain| && Of(g, j) + |secs| <= g.csize
    requires j * 512 + |secs| * 512 <= |content| && Sec(g, chain, j) + |secs| <= |d|
    requires forall i :: 0 <= i < |secs| ==> secs[i] == d[Sec(g, chain, j) + i]
    ensures Flat(secs) == content[j * 512..j * 512 + |secs| * 512]
  {
    forall q | 0 <= q < |secs| * 512
      ensures Flat(secs)[q] == content[j * 512 + q]
    {
      Adjacent(g, chain, j, q / 512);
      DivModOf(j * 512 + q, 512, j + q / 512, q % 512);
      assert content[j * 512 + q] == ByteAt(g, d, chain, j * 512 + q);
    }
  }

  /** Part of a sector is part of the content. */
  lemma SectorHolds(g: Geometry, d: seq<Sector>, chain: seq<nat>, content: seq<byte>, pos: nat, k: nat)
    requires Holds(g, d, chain, content) && Cl(g, pos / 512) < |chain| && Sec(g, chain, pos / 512) < |d|
    requires pos % 512 + k <= 512 && pos + k <= |content|
    ensures d[Sec(g, chain, pos / 512)][pos % 512..pos % 512 + k] == content[pos..pos + k]
  {
    var a, b := d[Sec(g, chain, pos / 512)][pos % 512..pos % 512 + k], content[pos..pos + k];
    forall q | 0 <= q < k
      ensures a[q] == b[q]
    {
      DivModOf(pos + q, 512, pos / 512, pos % 512 + q);
      assert content[pos + q] == ByteAt(g, d, chain, pos + q);
    }
  }
}
