/** Chain safety over every run of create_chain and remove_chain: the chains of a volume stay acyclic,
    pairwise disjoint and account for every used cluster. */
module ChainRuns {
  import opened Geometry
  import opened Volume
  import opened Chain

  /** A volume's links together with the chains they are meant to hold. */
  datatype Alloc = Alloc(fat: seq<nat>, chains: seq<seq<nat>>)

  /** One allocator call. The cluster create_chain picks is any free one. */
  datatype Event =
    | NewChain(ncl: nat)              // create_chain(obj, 0)
    | Stretch(k: nat, ncl: nat)       // create_chain(obj, last cluster of chain k)
    | Drop(k: nat)                    // remove_chain(obj, first cluster of chain k, 0)
    | Truncate(k: nat, j: nat)        // remove_chain(obj, cluster j of chain k, cluster j-1)

  ghost predicate AllChains(a: Alloc) {
    forall k :: 0 <= k < |a.chains| ==> IsChain(a.fat, a.chains[k])
  }

  ghost predicate Apart(x: seq<nat>, y: seq<nat>) {
    forall i, j :: 0 <= i < |x| && 0 <= j < |y| ==> x[i] != y[j]
  }

  ghost predicate Disjoint(a: Alloc) {
    forall k, l :: 0 <= k < l < |a.chains| ==> Apart(a.chains[k], a.chains[l])
  }

  ghost predicate OnSome(chains: seq<seq<nat>>, c: nat) {
    exists k :: 0 <= k < |chains| && c in chains[k]
  }

  /** No cluster leaks: a used cluster belongs to a chain. */
  ghost predicate Owned(a: Alloc) {
    forall c :: 2 <= c < |a.fat| && a.fat[c] != 0 ==> OnSome(a.chains, c)
  }

  ghost predicate Sound(g: Geometry, n: nat, a: Alloc) {
    Good(g, n) && |a.fat| == g.nFatent && AllChains(a) && Disjoint(a) && Owned(a)
  }

  ghost predicate Enabled(g: Geometry, a: Alloc, e: Event) {
    match e
    case NewChain(ncl) => 2 <= ncl < |a.fat| && a.fat[ncl] == 0
    case Stretch(k, ncl) => k < |a.chains| && 2 <= ncl < |a.fat| && a.fat[ncl] == 0
    case Drop(k) => k < |a.chains|
    case Truncate(k, j) => k < |a.chains| && 0 < j < |a.chains[k]|
  }

  function Last(ch: seq<nat>): nat
    requires |ch| > 0
  {
    ch[|ch| - 1]
  }

  lemma LinkOf(fat: seq<nat>, chain: seq<nat>, k: nat)
    requires IsChain(fat, chain) && k < |chain|
    ensures 2 <= chain[k] < |fat| && fat[chain[k]] >= 2
    ensures if k + 1 < |chain| then fat[chain[k]] == chain[k + 1] < |fat|
              else fat[chain[k]] >= |fat| && chain[k] == Last(chain)
  {
    assert k + 1 < |chain| ==> fat[chain[k]] == chain[k + 1];
  }

  /** The links after remove_chain cut ch behind its first j clusters. */
  ghost function Shortened(g: Geometry, fat: seq<nat>, ch: seq<nat>, j: nat): (r: seq<nat>)
    requires IsChain(fat, ch) && 0 < j < |ch|
    ensures |r| == |fat|
  {
    Freed(Cut(g, fat, ch[j - 1]), ch[j..])
  }

  /** The links each call leaves, as CreateChain and RemoveChain state them, and the chains meant by it. */
  ghost function Apply(g: Geometry, a: Alloc, e: Event): Alloc
    requires AllChains(a) && Enabled(g, a, e)
  {
    match e
    case NewChain(ncl) => Alloc(Linked(g, a.fat, 0, ncl), a.chains + [[ncl]])
    case Stretch(k, ncl) => Alloc(Linked(g, a.fat, Last(a.chains[k]), ncl), a.chains[k := a.chains[k] + [ncl]])
    case Drop(k) => Alloc(Freed(a.fat, a.chains[k]), a.chains[..k] + a.chains[k + 1..])
    case Truncate(k, j) =>
      Alloc(Shortened(g, a.fat, a.chains[k], j), a.chains[k := a.chains[k][..j]])
  }

  /** A chain whose clusters keep their links is still the same chain. */
  lemma ChainFrame(fat: seq<nat>, fat': seq<nat>, ch: seq<nat>)
    requires IsChain(fat, ch) && |fat'| == |fat|
    requires forall i :: 0 <= i < |ch| ==> fat'[ch[i]] == fat[ch[i]]
    ensures IsChain(fat', ch)
  {
  }

  /** A free cluster is on no chain. */
  lemma FreeNotOnChain(fat: seq<nat>, ch: seq<nat>, c: nat)
    requires IsChain(fat, ch) && c < |fat| && fat[c] == 0
    ensures c !in ch
  {
    forall i | 0 <= i < |ch|
      ensures fat[ch[i]] != 0
    {
      assert i < |ch| - 1 ==> fat[ch[i]] == ch[i + 1];
    }
  }

  // Who owns a cluster after the list of chains changed.

  lemma OnAppend(chains: seq<seq<nat>>, ch: seq<nat>, c: nat)
    requires OnSome(chains, c) || c in ch
    ensures OnSome(chains + [ch], c)
  {
    var cs := chains + [ch];
    if c in ch {
      assert c in cs[|chains|];
    } else {
      var k :| 0 <= k < |chains| && c in chains[k];
      assert c in cs[k];
    }
  }

  lemma OnReplace(chains: seq<seq<nat>>, k: nat, ch: seq<nat>, c: nat)
    requires k < |chains|
    requires c in ch || (OnSome(chains, c) && c !in chains[k])
    ensures OnSome(chains[k := ch], c)
  {
    var cs := chains[k := ch];
    if c in ch {
      assert c in cs[k];
    } else {
      var l :| 0 <= l < |chains| && c in chains[l];
      assert c in cs[l];
    }
  }

  lemma OnDrop(chains: seq<seq<nat>>, k: nat, c: nat)
    requires k < |chains| && OnSome(chains, c) && c !in chains[k]
    ensures OnSome(chains[..k] + chains[k + 1..], c)
  {
    var l :| 0 <= l < |chains| && c in chains[l];
    var cs := chains[..k] + chains[k + 1..];
    var m := if l < k then l else l - 1;
    assert c in cs[m];
  }

  lemma NewChainSound(g: Geometry, n: nat, a: Alloc, ncl: nat)
    requires Sound(g, n, a) && Enabled(g, a, NewChain(ncl))
    ensures Sound(g, n, Apply(g, a, NewChain(ncl)))
  {
    var b := Apply(g, a, NewChain(ncl));
    EndMarkEndsChains(g, n);
    assert IsChain(b.fat, [ncl]);
    hide Good, IsChain, OnSome, Disjoint;
    forall k | 0 <= k < |a.chains|
      ensures Apart(a.chains[k], [ncl]) && IsChain(b.fat, a.chains[k])
    {
      FreeNotOnChain(a.fat, a.chains[k], ncl);
      ChainFrame(a.fat, b.fat, a.chains[k]);
    }
    forall c | 2 <= c < |b.fat| && b.fat[c] != 0
      ensures OnSome(b.chains, c)
    {
      OnAppend(a.chains, [ncl], c);
    }
    DisjointAppend(a.fat, b.fat, a.chains, [ncl]);
  }

  lemma DisjointAppend(f: seq<nat>, f': seq<nat>, chains: seq<seq<nat>>, ch: seq<nat>)
    requires Disjoint(Alloc(f, chains)) && forall k :: 0 <= k < |chains| ==> Apart(chains[k], ch)
    ensures Disjoint(Alloc(f', chains + [ch]))
  {
    assert forall k, l :: 0 <= k < l < |chains| ==> Apart(Alloc(f, chains).chains[k], Alloc(f, chains).chains[l]);
  }

  /** Appending a free cluster behind the last one extends the chain by exactly it. */
  lemma StretchedChain(g: Geometry, n: nat, fat: seq<nat>, ch: seq<nat>, ncl: nat)
    requires Good(g, n) && |fat| == g.nFatent && IsChain(fat, ch) && 2 <= ncl < |fat| && fat[ncl] == 0
    ensures IsChain(Linked(g, fat, Last(ch), ncl), ch + [ncl])
  {
    var f, t := Linked(g, fat, Last(ch), ncl), ch + [ncl];
    EndMarkEndsChains(g, n);
    ChainAcyclic(fat, ch);
    FreeNotOnChain(fat, ch, ncl);
    forall i | 0 <= i < |t| - 1
      ensures f[t[i]] == t[i + 1]
    {
      assert i < |ch| - 1 ==> fat[ch[i]] == ch[i + 1];
    }
  }

  /** Two chains of a sound volume, in either order. */
  lemma ApartChains(a: Alloc, k: nat, l: nat)
    requires Disjoint(a) && k < |a.chains| && l < |a.chains| && k != l
    ensures Apart(a.chains[k], a.chains[l])
  {
    assert Apart(a.chains[if l < k then l else k], a.chains[if l < k then k else l]);
  }

  lemma StretchKeeps(g: Geometry, a: Alloc, k: nat, ncl: nat, l: nat)
    requires AllChains(a) && Disjoint(a) && Enabled(g, a, Stretch(k, ncl)) && l < |a.chains| && l != k
    ensures ncl !in a.chains[l] && IsChain(Linked(g, a.fat, Last(a.chains[k]), ncl), a.chains[l])
  {
    FreeNotOnChain(a.fat, a.chains[l], ncl);
    ApartChains(a, k, l);
    ChainFrame(a.fat, Linked(g, a.fat, Last(a.chains[k]), ncl), a.chains[l]);
  }

  lemma StretchOwned(g: Geometry, a: Alloc, k: nat, ncl: nat, c: nat)
    requires AllChains(a) && Owned(a) && Enabled(g, a, Stretch(k, ncl)) && 2 <= c < |a.fat|
    requires Linked(g, a.fat, Last(a.chains[k]), ncl)[c] != 0
    ensures OnSome(a.chains[k := a.chains[k] + [ncl]], c)
  {
    hide OnSome;
    assert c == ncl || c == Last(a.chains[k]) || a.fat[c] != 0;
    OnReplace(a.chains, k, a.chains[k] + [ncl], c);
  }

  lemma StretchSound(g: Geometry, n: nat, a: Alloc, k: nat, ncl: nat)
    requires Sound(g, n, a) && Enabled(g, a, Stretch(k, ncl))
    ensures Sound(g, n, Apply(g, a, Stretch(k, ncl)))
  {
    var f, ch := Linked(g, a.fat, Last(a.chains[k]), ncl), a.chains[k] + [ncl];
    assert IsChain(a.fat, a.chains[k]);
    hide Sound, Good, IsChain, Disjoint, OnSome, Linked, Last;
    SoundParts(g, n, a);
    StretchedChain(g, n, a.fat, a.chains[k], ncl);
    forall l | 0 <= l < |a.chains| && l != k
      ensures ncl !in a.chains[l] && IsChain(f, a.chains[l])
    {
      StretchKeeps(g, a, k, ncl, l);
    }
    forall c | 2 <= c < |f| && f[c] != 0
      ensures OnSome(a.chains[k := ch], c)
    {
      StretchOwned(g, a, k, ncl, c);
    }
    DisjointGrow(a, f, k, ncl);
    ReplaceSound(g, n, a, f, k, ch);
  }

  lemma SoundParts(g: Geometry, n: nat, a: Alloc)
    requires Sound(g, n, a)
    ensures Good(g, n) && |a.fat| == g.nFatent && Disjoint(a) && AllChains(a) && Owned(a)
  {
  }

  /** Growing chain k by a cluster outside every chain keeps the chains apart. */
  lemma DisjointGrow(a: Alloc, f: seq<nat>, k: nat, ncl: nat)
    requires Disjoint(a) && k < |a.chains|
    requires forall l :: 0 <= l < |a.chains| && l != k ==> ncl !in a.chains[l]
    ensures Disjoint(Alloc(f, a.chains[k := a.chains[k] + [ncl]]))
  {
    var b := a.chains[k := a.chains[k] + [ncl]];
    forall x, y | 0 <= x < y < |b|
      ensures Apart(b[x], b[y])
    {
      ApartChains(a, x, y);
    }
  }

  lemma DropKeeps(a: Alloc, k: nat, l: nat)
    requires AllChains(a) && Disjoint(a) && k < |a.chains| && l < |a.chains| && l != k
    ensures IsChain(Freed(a.fat, a.chains[k]), a.chains[l])
  {
    ApartChains(a, k, l);
    ChainFrame(a.fat, Freed(a.fat, a.chains[k]), a.chains[l]);
  }

  lemma DropSound(g: Geometry, n: nat, a: Alloc, k: nat)
    requires Sound(g, n, a) && Enabled(g, a, Drop(k))
    ensures Sound(g, n, Apply(g, a, Drop(k)))
  {
    hide Sound, Good, IsChain, Disjoint, OnSome, Owned;
    SoundParts(g, n, a);
    var b := Apply(g, a, Drop(k));
    forall l | 0 <= l < |b.chains|
      ensures IsChain(b.fat, b.chains[l])
    {
      DropKeeps(a, k, if l < k then l else l + 1);
    }
    DropOwned(g, a, k);
    DisjointDrop(a.fat, b.fat, a.chains, k);
    SoundWhole(g, n, b);
  }

  lemma DropOwned(g: Geometry, a: Alloc, k: nat)
    requires |a.fat| == g.nFatent && AllChains(a) && Owned(a) && Enabled(g, a, Drop(k))
    ensures Owned(Apply(g, a, Drop(k)))
  {
    hide IsChain, OnSome;
    var b := Apply(g, a, Drop(k));
    forall c | 2 <= c < |b.fat| && b.fat[c] != 0
      ensures OnSome(b.chains, c)
    {
      OnDrop(a.chains, k, c);
    }
  }

  lemma SoundWhole(g: Geometry, n: nat, a: Alloc)
    requires Good(g, n) && |a.fat| == g.nFatent && AllChains(a) && Disjoint(a) && Owned(a)
    ensures Sound(g, n, a)
  {
  }

  lemma DisjointDrop(f: seq<nat>, f': seq<nat>, chains: seq<seq<nat>>, k: nat)
    requires Disjoint(Alloc(f, chains)) && k < |chains|
    ensures Disjoint(Alloc(f', chains[..k] + chains[k + 1..]))
  {
    var b := chains[..k] + chains[k + 1..];
    forall x, y | 0 <= x < y < |b|
      ensures Apart(b[x], b[y])
    {
      ApartChains(Alloc(f, chains), if x < k then x else x + 1, if y < k then y else y + 1);
    }
  }

  /** Cutting a chain leaves its front as a chain. */
  lemma CutChain(g: Geometry, n: nat, fat: seq<nat>, ch: seq<nat>, j: nat)
    requires Good(g, n) && |fat| == g.nFatent && IsChain(fat, ch) && 0 < j < |ch|
    ensures IsChain(Shortened(g, fat, ch, j), ch[..j])
  {
    var f := Freed(Cut(g, fat, ch[j - 1]), ch[j..]);
    EndMarkEndsChains(g, n);
    ChainAcyclic(fat, ch);
    forall i | 0 <= i < j
      ensures ch[i] !in ch[j..]
    {
    }
    forall i | 0 <= i < j - 1
      ensures f[ch[i]] == ch[i + 1]
    {
      assert fat[ch[i]] == ch[i + 1];
    }
  }

  lemma SliceIn(ch: seq<nat>, j: nat)
    requires j <= |ch|
    ensures forall c :: c in ch <==> c in ch[..j] || c in ch[j..]
  {
    assert ch == ch[..j] + ch[j..];
  }

  /** The other chains survive a truncation of chain k. */
  lemma TruncateKeeps(g: Geometry, a: Alloc, k: nat, j: nat, l: nat)
    requires AllChains(a) && Disjoint(a) && k < |a.chains| && 0 < j < |a.chains[k]| && l < |a.chains| && l != k
    ensures IsChain(Shortened(g, a.fat, a.chains[k], j), a.chains[l])
  {
    var ch := a.chains[k];
    ApartChains(a, k, l);
    SliceIn(ch, j);
    var f := Freed(Cut(g, a.fat, ch[j - 1]), ch[j..]);
    forall i | 0 <= i < |a.chains[l]|
      ensures f[a.chains[l][i]] == a.fat[a.chains[l][i]]
    {
      assert a.chains[l][i] !in ch;
    }
    ChainFrame(a.fat, f, a.chains[l]);
  }

  /** What is still used after a truncation still has an owner. */
  lemma TruncateOwned(g: Geometry, a: Alloc, k: nat, j: nat, c: nat)
    requires AllChains(a) && Owned(a) && k < |a.chains| && 0 < j < |a.chains[k]| && 2 <= c < |a.fat|
    requires Shortened(g, a.fat, a.chains[k], j)[c] != 0
    ensures OnSome(a.chains[k := a.chains[k][..j]], c)
  {
    hide IsChain, OnSome;
    var ch := a.chains[k];
    SliceIn(ch, j);
    assert c !in ch[j..];
    if c in ch {
      assert c in ch[..j];
    } else {
      assert c != ch[j - 1];
    }
    OnReplace(a.chains, k, ch[..j], c);
  }

  lemma DisjointShrink(f: seq<nat>, f': seq<nat>, chains: seq<seq<nat>>, k: nat, j: nat)
    requires Disjoint(Alloc(f, chains)) && k < |chains| && j <= |chains[k]|
    ensures Disjoint(Alloc(f', chains[k := chains[k][..j]]))
  {
    var b := chains[k := chains[k][..j]];
    forall x, y | 0 <= x < y < |b|
      ensures Apart(b[x], b[y])
    {
      ApartChains(Alloc(f, chains), x, y);
    }
  }

  /** Replacing chain k keeps a volume sound when the new chain is one, the others still are, and nothing leaks. */
  lemma ReplaceSound(g: Geometry, n: nat, a: Alloc, f: seq<nat>, k: nat, ch: seq<nat>)
    requires Good(g, n) && |f| == g.nFatent && k < |a.chains|
    requires IsChain(f, ch) && forall l :: 0 <= l < |a.chains| && l != k ==> IsChain(f, a.chains[l])
    requires forall c :: 2 <= c < |f| && f[c] != 0 ==> OnSome(a.chains[k := ch], c)
    requires Disjoint(Alloc(f, a.chains[k := ch]))
    ensures Sound(g, n, Alloc(f, a.chains[k := ch]))
  {
    hide Good, IsChain, OnSome, Disjoint;
  }

  lemma TruncateSound(g: Geometry, n: nat, a: Alloc, k: nat, j: nat)
    requires Sound(g, n, a) && Enabled(g, a, Truncate(k, j))
    ensures Sound(g, n, Apply(g, a, Truncate(k, j)))
  {
    hide Sound, Good, IsChain, Disjoint, OnSome, Shortened, Owned;
    SoundParts(g, n, a);
    CutChain(g, n, a.fat, a.chains[k], j);
    var f, front := Shortened(g, a.fat, a.chains[k], j), a.chains[k][..j];
    DisjointShrink(a.fat, f, a.chains, k, j);
    forall l | 0 <= l < |a.chains| && l != k
      ensures IsChain(f, a.chains[l])
    {
      TruncateKeeps(g, a, k, j, l);
    }
    forall c | 2 <= c < |f| && f[c] != 0
      ensures OnSome(a.chains[k := front], c)
    {
      TruncateOwned(g, a, k, j, c);
    }
    ReplaceSound(g, n, a, f, k, front);
  }

  /** Every allocator call keeps the chains acyclic, disjoint and complete. */
  lemma StepSound(g: Geometry, n: nat, a: Alloc, e: Event)
    requires Sound(g, n, a) && Enabled(g, a, e)
    ensures Sound(g, n, Apply(g, a, e))
  {
    match e
    case NewChain(ncl) => NewChainSound(g, n, a, ncl);
    case Stretch(k, ncl) => StretchSound(g, n, a, k, ncl);
    case Drop(k) => DropSound(g, n, a, k);
    case Truncate(k, j) => TruncateSound(g, n, a, k, j);
  }

  /** A run: each call starts from the state the previous one left. */
  ghost predicate IsRun(g: Geometry, run: seq<Alloc>, events: seq<Event>) {
    && |run| == |events| + 1
    && forall i :: 0 <= i < |events| ==>
         AllChains(run[i]) && Enabled(g, run[i], events[i]) && run[i + 1] == Apply(g, run[i], events[i])
  }

  /** Chain safety over every run. */
  lemma {:induction false} RunSound(g: Geometry, n: nat, run: seq<Alloc>, events: seq<Event>, i: nat)
    requires IsRun(g, run, events) && i < |run| && Sound(g, n, run[0])
    ensures Sound(g, n, run[i])
  {
    if i > 0 {
      RunSound(g, n, run, events, i - 1);
      StepSound(g, n, run[i - 1], events[i - 1]);
    }
  }

  /** A successful create_chain on the end of chain k is the event Stretch, and on 0 the event NewChain. */
  lemma CreateChainIsEvent(g: Geometry, n: nat, a: Alloc, k: nat, fat': seq<nat>, r: nat)
    requires Sound(g, n, a)
    ensures Extended(g, a.fat, fat', 0, r) ==>
              Enabled(g, a, NewChain(r)) && Apply(g, a, NewChain(r)).fat == fat'
    ensures k < |a.chains| && Extended(g, a.fat, fat', Last(a.chains[k]), r) ==>
              Enabled(g, a, Stretch(k, r)) && Apply(g, a, Stretch(k, r)).fat == fat'
  {
  }

  /** remove_chain called for cluster j of a chain: the arguments it gets. */
  function Before(ch: seq<nat>, j: nat): nat
    requires j < |ch|
  {
    if j == 0 then 0 else ch[j - 1]
  }

  function Removal(k: nat, j: nat): Event {
    if j == 0 then Drop(k) else Truncate(k, j)
  }

  /** On cluster j of chain k remove_chain has what it asks for: the rest of the chain, not led back to. */
  lemma RemovalFits(g: Geometry, n: nat, a: Alloc, k: nat, j: nat)
    requires Sound(g, n, a) && k < |a.chains| && j < |a.chains[k]|
    ensures IsChain(a.fat, a.chains[k][j..]) && Before(a.chains[k], j) !in a.chains[k][j..]
    ensures Before(a.chains[k], j) == 0 || (IsCluster(g, Before(a.chains[k], j)) && Before(a.chains[k], j) < |a.fat|
                                            && a.fat[Before(a.chains[k], j)] != 0)
    ensures Before(a.chains[k], j) < |a.fat| && Bounded(a.fat, a.chains[k][j..])
  {
    var ch := a.chains[k];
    assert IsChain(a.fat, ch);
    hide Sound, Disjoint, Owned;
    if j == 0 {
      assert ch[j..] == ch;
    } else {
      RestIsChain(a.fat, ch, j);
      assert a.fat[ch[j - 1]] == ch[j - 1 + 1];
    }
  }

  /** A successful remove_chain of cluster j of chain k is the event Drop or Truncate. */
  lemma RemoveChainIsEvent(g: Geometry, n: nat, a: Alloc, k: nat, j: nat, fat': seq<nat>)
    requires Sound(g, n, a) && k < |a.chains| && j < |a.chains[k]|
    requires var p := Before(a.chains[k], j);
             p < |a.fat| && Bounded(a.fat, a.chains[k][j..]) && fat' == Freed(Cut(g, a.fat, p), a.chains[k][j..])
    ensures Enabled(g, a, Removal(k, j)) && Apply(g, a, Removal(k, j)).fat == fat'
  {
    hide Sound, Disjoint, Owned, Freed, IsChain;
    SoundParts(g, n, a);
    assert j == 0 ==> a.chains[k][j..] == a.chains[k];
  }

  // ----- the calls themselves

  datatype Call = CallNew | CallStretch(k: nat) | CallRemove(k: nat, j: nat)

  predicate Callable(chains: seq<seq<nat>>, call: Call) {
    match call
    case CallNew => true
    case CallStretch(k) => k < |chains| && chains[k] != []
    case CallRemove(k, j) => k < |chains| && j < |chains[k]|
  }

  /** The event that ends in cluster r, or none when create_chain gave no cluster. */
  function Done(call: Call, r: nat): seq<Event> {
    match call
    case CallNew => if r < 2 then [] else [NewChain(r)]
    case CallStretch(k) => if r < 2 then [] else [Stretch(k, r)]
    case CallRemove(k, j) => [Removal(k, j)]
  }

  /** One call on the volume: nothing, or the event. */
  method Serve(fs: FatFs, chains: seq<seq<nat>>, call: Call) returns (r: nat)
    requires fs.Valid() && Sound(fs.g, |fs.disk|, Alloc(fs.fat, chains)) && Callable(chains, call)
    modifies fs`disk, fs`winsect, fs`wflag, fs`view, fs`fat, fs`lastClst, fs`freeClst, fs`fsiFlag, fs.win
    ensures fs.Valid() && |fs.disk| == |old(fs.disk)|
    ensures Done(call, r) == [] ==> fs.fat == old(fs.fat)
    ensures Noted(fs.g.nFatent, old(fs.fsiFlag), old(fs.freeClst), fs.fsiFlag, fs.freeClst)
    ensures old(Accurate(fs.freeClst, fs.fat)) ==> Accurate(fs.freeClst, fs.fat)
    ensures Done(call, r) != [] ==>
              var a := Alloc(old(fs.fat), chains);
              AllChains(a) && Enabled(fs.g, a, Done(call, r)[0]) && fs.fat == Apply(fs.g, a, Done(call, r)[0]).fat
  {
    hide FatFs.Valid, Sound, AllChains, Apply, Enabled, Extended, IsChain, Removal, Freed, Cut, Noted, Accurate;
    ghost var a, n := Alloc(fs.fat, chains), |fs.disk|;
    SoundParts(fs.g, n, a);
    match call {
      case CallNew =>
        r := CreateChain(fs, 0);
        CreateChainIsEvent(fs.g, n, a, 0, fs.fat, r);
      case CallStretch(k) =>
        r := CreateChain(fs, Last(chains[k]));
        CreateChainIsEvent(fs.g, n, a, k, fs.fat, r);
        LastNotZero(a, k);
      case CallRemove(k, j) =>
        RemovalFits(fs.g, n, a, k, j);
        var res := RemoveChain(fs, chains[k][j], Before(chains[k], j), chains[k][j..]);
        RemoveChainIsEvent(fs.g, n, a, k, j, fs.fat);
        r := 0;
    }
  }

  /** The chains meant by the event. */
  function Chains(chains: seq<seq<nat>>, ev: Event): seq<seq<nat>> {
    match ev
    case NewChain(ncl) => chains + [[ncl]]
    case Stretch(k, ncl) => if k < |chains| then chains[k := chains[k] + [ncl]] else chains
    case Drop(k) => if k < |chains| then chains[..k] + chains[k + 1..] else chains
    case Truncate(k, j) => if k < |chains| && j <= |chains[k]| then chains[k := chains[k][..j]] else chains
  }

  lemma ChainsApplied(g: Geometry, a: Alloc, ev: Event)
    requires AllChains(a) && Enabled(g, a, ev)
    ensures Apply(g, a, ev).chains == Chains(a.chains, ev)
  {
  }

  lemma LastNotZero(a: Alloc, k: nat)
    requires AllChains(a) && k < |a.chains|
    ensures a.chains[k] != [] && Last(a.chains[k]) >= 2
  {
    assert IsChain(a.fat, a.chains[k]);
  }

  /** Every sequence of create_chain and remove_chain calls on a volume is a run of the machine above, so the volume's
      chains stay acyclic, disjoint and complete. Calls that name no chain are skipped. */
  method RunCalls(fs: FatFs, chains0: seq<seq<nat>>, calls: seq<Call>)
    returns (chains: seq<seq<nat>>, ghost run: seq<Alloc>, ghost events: seq<Event>)
    requires fs.Valid() && Sound(fs.g, |fs.disk|, Alloc(fs.fat, chains0))
    modifies fs`disk, fs`winsect, fs`wflag, fs`view, fs`fat, fs`lastClst, fs`freeClst, fs`fsiFlag, fs.win
    ensures fs.Valid() && IsRun(fs.g, run, events) && run[0] == Alloc(old(fs.fat), chains0)
    ensures run[|events|] == Alloc(fs.fat, chains) && Sound(fs.g, |fs.disk|, Alloc(fs.fat, chains))
    ensures Noted(fs.g.nFatent, old(fs.fsiFlag), old(fs.freeClst), fs.fsiFlag, fs.freeClst)
    ensures old(Accurate(fs.freeClst, fs.fat)) ==> Accurate(fs.freeClst, fs.fat)
  {
    hide FatFs.Valid, Sound, AllChains, Apply, Enabled, Chains, Noted, Accurate;
    NotedSame(fs.g.nFatent, fs.fsiFlag, fs.freeClst);
    chains, run, events := chains0, [Alloc(fs.fat, chains0)], [];
    var i := 0;
    while i < |calls|
      invariant 0 <= i <= |calls| && fs.Valid() && |fs.disk| == old(|fs.disk|)
      invariant IsRun(fs.g, run, events) && run[0] == Alloc(old(fs.fat), chains0)
        && run[|events|] == Alloc(fs.fat, chains)
      invariant Sound(fs.g, |fs.disk|, Alloc(fs.fat, chains))
      invariant Noted(fs.g.nFatent, old(fs.fsiFlag), old(fs.freeClst), fs.fsiFlag, fs.freeClst)
      invariant old(Accurate(fs.freeClst, fs.fat)) ==> Accurate(fs.freeClst, fs.fat)
    {
      if Callable(chains, calls[i]) {
        ghost var a, flag, free := Alloc(fs.fat, chains), fs.fsiFlag, fs.freeClst;
        var r := Serve(fs, chains, calls[i]);
        NotedTrans(fs.g.nFatent, old(fs.fsiFlag), old(fs.freeClst), flag, free, fs.fsiFlag, fs.freeClst);
        var done := Done(calls[i], r);
        if done != [] {
          StepSound(fs.g, |fs.disk|, a, done[0]);
          ChainsApplied(fs.g, a, done[0]);
          chains := Chains(chains, done[0]);
          run, events := run + [Alloc(fs.fat, chains)], events + done;
        }
      }
      i := i + 1;
    }
  }

  /** Free plus chained clusters make up the whole data area. */
  lemma Conservation(g: Geometry, n: nat, a: Alloc, c: nat)
    requires Sound(g, n, a) && IsCluster(g, c)
    ensures a.fat[c] == 0 <==> forall k :: 0 <= k < |a.chains| ==> c !in a.chains[k]
  {
    if a.fat[c] == 0 {
      forall k | 0 <= k < |a.chains|
        ensures c !in a.chains[k]
      {
        FreeNotOnChain(a.fat, a.chains[k], c);
      }
    }
  }
}
