/** kmalloc and kfree (mm.c:17-128): page blocks mapped at a fixed offset, with a list of live areas. */
module KernelHeap {
  import opened Geometry
  import opened BitWords
  import opened Bitmaps
  import opened Pages
  import opened PageTables
  import opened PageTree
  import opened TableCount
  import opened Paging
  import opened MemPool

  const KMEM_BASE: nat := 0xFFFF_9000_0000_0000
  const MAP_KERN_RW: nat := 3
  const FRAMES: nat := 0x8000_0000  // bit positions fit an int

  /** A vmap_area; slot is its place in the pool. */
  datatype Area = Area(start: nat, pages: nat, slot: nat)

  function Base(a: Area): int { (a.start - KMEM_BASE) / 0x1000 }

  /** The page at which frame f appears in the kmalloc region. */
  function K(f: nat): Page { PageAt(KMEM_BASE, f) }

  /** The entry of a page that is present and may be written: bits 0 and 1 are set. */
  ghost function Writable(frame: nat): nat { frame * 0x1000 + 3 }

  lemma KDigits(f: nat)
    requires f < FRAMES
    ensures KMEM_BASE + f * 0x1000 < TOP
    ensures PageOf(KMEM_BASE + f * 0x1000) == Page(288 + f / 0x800_0000, f / 0x4_0000 % 512, f / 512 % 512, f % 512)
    ensures (KMEM_BASE + f * 0x1000) % 0x1000 == 0
  {
    var a, b, c, d := f / 0x800_0000, f / 0x4_0000 % 512, f / 512 % 512, f % 512;
    assert f == ((a * 512 + b) * 512 + c) * 512 + d by { FrameDigits(f); }
    hide PageOf;
    Digits(0xFFFF, 288 + a, b, c, d, 0);
  }

  lemma FrameDigits(f: nat)
    ensures f == ((f / 0x800_0000 * 512 + f / 0x4_0000 % 512) * 512 + f / 512 % 512) * 512 + f % 512
  {
    var x := f / 512;
    var y := x / 512;
    assert f == x * 512 + f % 512;
    assert x == y * 512 + x % 512;
    assert y == f / 0x4_0000;
    assert y / 512 == f / 0x800_0000;
    assert y == y / 512 * 512 + y % 512;
  }

  /** Frames appear at different pages, outside slots 256 and 511. */
  lemma KFacts(f: nat, g: nat)
    requires f < FRAMES && g < FRAMES
    ensures K(f) == PageOf(KMEM_BASE + f * 0x1000) && IsPage(K(f)) && K(f).a != 256
    ensures K(f) == K(g) ==> f == g
  {
    KDigits(f);
    KDigits(g);
    FrameDigits(f);
    FrameDigits(g);
    hide PageOf;
    KSmall(f);
    KSmall(g);
  }

  lemma KSmall(f: nat)
    requires f < FRAMES
    ensures (KMEM_BASE + f * 0x1000) % TOP == KMEM_BASE + f * 0x1000
  {
  }

  /** A block's range of pages. */
  lemma BlockPages(va: nat, base: nat, n: nat)
    requires base + n <= FRAMES && va == KMEM_BASE + base * 0x1000
    ensures OutsideSelfMap(va, n)
    ensures forall k :: 0 <= k < n ==> PageAt(va, k) == K(base + k)
  {
    hide PageOf, Norm;
    forall k | 0 <= k < n
      ensures PageOf((va + k * 0x1000) % TOP).a < 511
      ensures PageAt(va, k) == K(base + k)
    {
      assert va + k * 0x1000 == KMEM_BASE + (base + k) * 0x1000;
      KDigits(base + k);
      KSmall(base + k);
    }
  }

  // ----- the invariant

  /** Every mapped page of the region shows the frame it stands for, which is in use and holds no table. */
  ghost predicate RegionSafe(space: imap<Page, nat>, bits: seq<bool>, tables: set<nat>) {
    forall f :: 0 <= f < |bits| && K(f) in space ==> bits[f] && f !in tables && space[K(f)] == Writable(f)
  }

  /** An area is a block of a power of two of frames, mapped page by page. */
  ghost predicate IsArea(a: Area, space: imap<Page, nat>, n: nat) {
    && KMEM_BASE <= a.start && a.start == KMEM_BASE + Base(a) * 0x1000 && Base(a) + a.pages <= n
    && (exists o :: 0 <= o <= 31 && a.pages == Pow2(o))
    && forall k :: Base(a) <= k < Base(a) + a.pages ==> K(k) in space
  }

  ghost predicate BlocksApart(a: Area, b: Area) {
    Base(a) + a.pages <= Base(b) || Base(b) + b.pages <= Base(a)
  }

  ghost predicate Areas(areas: seq<Area>, space: imap<Page, nat>, n: nat) {
    && (forall i :: 0 <= i < |areas| ==> IsArea(areas[i], space, n))
    && forall i, j :: 0 <= i < j < |areas| ==> BlocksApart(areas[i], areas[j])
  }

  /** Each area has its own pool slot. */
  ghost predicate Slots(areas: seq<Area>, free: seq<nat>, total: nat, used: nat) {
    && |areas| == used
    && (forall i :: 0 <= i < |areas| ==> areas[i].slot < total && areas[i].slot !in free)
    && forall i, j :: 0 <= i < j < |areas| ==> areas[i].slot != areas[j].slot
  }

  // ----- taking a block

  lemma {:induction false} TruesFill(bits: seq<bool>, r: nat, n: nat)
    requires RunClear(bits, r, n) && r + n <= |bits|
    ensures Trues(Fill(bits, r, n, true)) == Trues(bits) + n
  {
    if n == 0 {
      assert Fill(bits, r, 0, true) == bits;
    } else {
      TruesFill(bits, r, n - 1);
      TruesSet(Fill(bits, r, n - 1, true), r + n - 1);
      assert Fill(bits, r, n, true) == Fill(bits, r, n - 1, true)[r + n - 1 := true];
    }
  }

  /** The tables stay in order when frames that hold none of them change their bit. */
  lemma ShapeBits(mem: seq<Table>, root: nat, bits: seq<bool>, bits': seq<bool>, t: Tree)
    requires Shape(mem, root, bits, t) && |bits'| == |bits|
      && forall f :: f in Tables(t, root) && f < |bits| && bits[f] ==> bits'[f]
    ensures Shape(mem, root, bits', t)
  {
    hide Roots, Links, LevelsApart;
    StillUsed(bits, bits', t, root);
    ShapeBy(mem, root, bits', t);
  }

  lemma StillUsed(bits: seq<bool>, bits': seq<bool>, t: Tree, root: nat)
    requires InUse(bits, t, root) && |bits'| == |bits|
      && forall f :: f in Tables(t, root) && f < |bits| && bits[f] ==> bits'[f]
    ensures InUse(bits', t, root)
  {
    hide Tables;
  }

  /** A free block is unmapped in the region: mapping it cannot fail. */
  lemma BlockIsFresh(space: imap<Page, nat>, bits: seq<bool>, tables: set<nat>, va: nat, r: nat, n: nat)
    requires RegionSafe(space, bits, tables) && RunClear(bits, r, n) && r + n <= |bits| <= FRAMES
      && va == KMEM_BASE + r * 0x1000
    ensures Fresh(space, va, n)
  {
    BlockPages(va, r, n);
    hide PageAt, K;
    forall j, k | 0 <= j < k < n
      ensures PageAt(va, j) != PageAt(va, k)
    {
      KFacts(r + j, r + k);
    }
  }

  /** The space after a block was mapped. */
  lemma BlockMapped(space: imap<Page, nat>, va: nat, r: nat, n: nat, f: nat)
    requires Fresh(space, va, n) && r + n <= FRAMES && f < FRAMES && va == KMEM_BASE + r * 0x1000
    ensures var s := MapAll(space, va, r * 0x1000, MAP_KERN_RW, n);
            if r <= f < r + n then K(f) in s && s[K(f)] == Writable(f)
            else (K(f) in s <==> K(f) in space) && (K(f) in s ==> s[K(f)] == space[K(f)])
  {
    hide PageAt, K, MapAll, Fresh, OutsideSelfMap;
    BlockPages(va, r, n);
    assert r * 0x1000 / 0x1000 == r;
    if r <= f < r + n {
      MapAllHit(space, va, r * 0x1000, MAP_KERN_RW, n, f - r);
    } else {
      forall k | 0 <= k < n
        ensures PageAt(va, k) != K(f)
      {
        KFacts(r + k, f);
      }
      OtherPage(space, va, r * 0x1000, MAP_KERN_RW, n, K(f));
    }
  }

  lemma OtherPage(space: imap<Page, nat>, va: nat, pa: nat, flags: nat, n: nat, q: Page)
    requires forall k :: 0 <= k < n ==> PageAt(va, k) != q
    ensures var s := MapAll(space, va, pa, flags, n); (q in s <==> q in space) && (q in s ==> s[q] == space[q])
  {
    hide PageAt, MapAll;
    MapAllAt(space, va, pa, flags, n, q);
  }

  lemma RegionAfterMap(space: imap<Page, nat>, bits: seq<bool>, bits1: seq<bool>, bits2: seq<bool>, t: Tree, t': Tree,
    root: nat, va: nat, r: nat, n: nat)
    requires RegionSafe(space, bits, Tables(t, root)) && r + n <= |bits| <= FRAMES && va == KMEM_BASE + r * 0x1000
    requires bits1 == Fill(bits, r, n, true) && RunClear(bits, r, n) && Spent(bits1, bits2, t, t', root)
      && InUse(bits, t, root)
    ensures RegionSafe(MapAll(space, va, r * 0x1000, MAP_KERN_RW, n), bits2, Tables(t', root))
  {
    BlockIsFresh(space, bits, Tables(t, root), va, r, n);
    SpentNone(bits, t, root);
    hide K, MapAll, Fresh, Tables, InUse;
    var s := MapAll(space, va, r * 0x1000, MAP_KERN_RW, n);
    forall f | 0 <= f < |bits2| && K(f) in s
      ensures bits2[f] && f !in Tables(t', root) && s[K(f)] == Writable(f)
    {
      BlockMapped(space, va, r, n, f);
    }
  }

  lemma AreaKept(a: Area, space: imap<Page, nat>, s: imap<Page, nat>, n: nat)
    requires IsArea(a, space, n) && forall k :: Base(a) <= k < Base(a) + a.pages && K(k) in space ==> K(k) in s
    ensures IsArea(a, s, n)
  {
  }

  /** A block that was free overlaps no area. */
  lemma FreeBlockApart(a: Area, space: imap<Page, nat>, bits: seq<bool>, tables: set<nat>, b: Area)
    requires IsArea(a, space, |bits|) && RegionSafe(space, bits, tables) && Base(b) >= 0
      && RunClear(bits, Base(b), b.pages)
      && b.pages > 0 && Base(b) + b.pages <= |bits|
    ensures BlocksApart(a, b)
  {
    assert a.pages > 0;
    var f := if Base(a) <= Base(b) then Base(b) else Base(a);
    assert Base(a) <= f < Base(a) + a.pages ==> K(f) in space && bits[f];
    assert Base(b) <= f < Base(b) + b.pages ==> !bits[f];
  }

  lemma AreasAfterMap(areas: seq<Area>, space: imap<Page, nat>, s: imap<Page, nat>, bits: seq<bool>, tables: set<nat>,
    b: Area)
    requires Areas(areas, space, |bits|) && RegionSafe(space, bits, tables) && IsArea(b, s, |bits|)
      && RunClear(bits, Base(b), b.pages)
    requires forall f :: 0 <= f < |bits| && K(f) in space ==> K(f) in s
    ensures Areas(areas + [b], s, |bits|)
  {
    hide K;
    assert b.pages > 0;
    forall i | 0 <= i < |areas|
      ensures IsArea(areas[i], s, |bits|) && BlocksApart(areas[i], b)
    {
      AreaKept(areas[i], space, s, |bits|);
      FreeBlockApart(areas[i], space, bits, tables, b);
    }
  }

  // ----- giving a block back

  /** A page of the region after a block was unmapped. */
  lemma PageAfterDrop(space: imap<Page, nat>, va: nat, r: nat, n: nat, f: nat)
    requires r + n <= FRAMES && f < FRAMES && va == KMEM_BASE + r * 0x1000
    ensures K(f) in DropAll(space, va, n) <==> K(f) in space && !(r <= f < r + n)
    ensures K(f) in DropAll(space, va, n) ==> DropAll(space, va, n)[K(f)] == space[K(f)]
  {
    hide PageAt, K, DropAll, OutsideSelfMap;
    BlockPages(va, r, n);
    DropAllAt(space, va, n, K(f));
    assert r <= f < r + n ==> PageAt(va, f - r) == K(f);
    forall k | 0 <= k < n
      ensures PageAt(va, k) == K(f) ==> f == r + k
    {
      KFacts(r + k, f);
    }
  }

  lemma RegionAfterDrop(space: imap<Page, nat>, bits: seq<bool>, tables: set<nat>, va: nat, r: nat, n: nat)
    requires RegionSafe(space, bits, tables) && r + n <= |bits| <= FRAMES && va == KMEM_BASE + r * 0x1000
    ensures RegionSafe(DropAll(space, va, n), Fill(bits, r, n, false), tables)
    ensures forall f :: 0 <= f < |bits| ==> (K(f) in DropAll(space, va, n) <==> K(f) in space && !(r <= f < r + n))
  {
    hide K, DropAll;
    forall f | 0 <= f < |bits|
      ensures K(f) in DropAll(space, va, n) <==> K(f) in space && !(r <= f < r + n)
      ensures K(f) in DropAll(space, va, n) ==> DropAll(space, va, n)[K(f)] == space[K(f)]
    {
      PageAfterDrop(space, va, r, n, f);
    }
  }

  lemma BlockDroppable(space: imap<Page, nat>, va: nat, r: nat, n: nat)
    requires r + n <= FRAMES && va == KMEM_BASE + r * 0x1000 && forall f :: r <= f < r + n ==> K(f) in space
    ensures Droppable(space, va, n)
  {
    BlockPages(va, r, n);
    hide PageAt, K, DropAll;
    forall k | 0 <= k < n
      ensures PageAt(va, k) in DropAll(space, va, k)
    {
      assert K(r + k) in space;
      forall j | 0 <= j < k
        ensures PageAt(va, j) != PageAt(va, k)
      {
        KFacts(r + j, r + k);
      }
      DropAllAt(space, va, k, PageAt(va, k));
    }
  }

  lemma AreasAfterDrop(areas: seq<Area>, i: nat, space: imap<Page, nat>, s: imap<Page, nat>, n: nat)
    requires Areas(areas, space, n) && i < |areas|
    requires forall f :: 0 <= f < n && K(f) in space && !(Base(areas[i]) <= f < Base(areas[i]) + areas[i].pages) ==>
               K(f) in s
    ensures Areas(areas[..i] + areas[i + 1..], s, n)
  {
    hide K;
    var rest := areas[..i] + areas[i + 1..];
    forall j | 0 <= j < |areas| && j != i
      ensures IsArea(areas[j], s, n)
    {
      assert BlocksApart(areas[if i < j then i else j], areas[if i < j then j else i]);
      AreaKept(areas[j], space, s, n);
    }
    forall j | 0 <= j < |rest|
      ensures rest[j] == areas[if j < i then j else j + 1]
    {
    }
  }

  lemma NoAreas(space: imap<Page, nat>, n: nat, free: seq<nat>, total: nat)
    ensures Areas([], space, n) && Slots([], free, total, 0)
  {
  }

  // ----- the heap

  class Heap {
    const m: Mmu
    const pool: Pool         // vmap_area_pool
    var areas: seq<Area>     // vmap_area_list
    var locked: bool         // mm_spinlock

    ghost predicate Valid()
      reads this, m, m.frames, m.frames.words, pool, pool.slots
    {
      && m.Valid() && pool.Valid()
      && RegionSafe(m.Space(), m.frames.Bits(), Tables(m.tree, m.root))
      && Areas(areas, m.Space(), m.frames.size)
      && Slots(areas, pool.free, pool.total, pool.used)
      && Wide(m.mem, m.root)
    }

    /** The state mm_init leaves (mm.c:148-161): a pool, no areas, and a region in which only the pool's pages are
        mapped. */
    constructor (m: Mmu, pool: Pool)
      requires m.Valid() && pool.Valid() && pool.used == 0
        && RegionSafe(m.Space(), m.frames.Bits(), Tables(m.tree, m.root)) && Wide(m.mem, m.root)
      ensures Valid() && this.m == m && this.pool == pool && areas == [] && !locked
    {
      hide Mmu.Valid, Pool.Valid, RegionSafe, Areas, Slots, SpaceOf, Bitmap.Valid, Bitmap.Bits, Tables, Wide;
      NoAreas(m.Space(), m.frames.size, pool.free, pool.total);
      this.m, this.pool, areas, locked := m, pool, [], false;
    }

    ghost function Bits(): seq<bool>
      requires m.frames.Valid()
      reads m.frames, m.frames.words
    {
      m.frames.Bits()
    }
  }

  /** The frame that an address of the region stands for. */
  function FrameAt(va: nat): nat { if va < KMEM_BASE then 0 else (va - KMEM_BASE) / 0x1000 }

  /** What kmalloc takes: the lowest free block of n frames, mapped page by page; further frames went to tables only. */
  ghost predicate Took(space: imap<Page, nat>, space': imap<Page, nat>, bits: seq<bool>, bits': seq<bool>, t: Tree,
    t': Tree, root: nat, va: nat, n: nat) {
    && va == KMEM_BASE + FrameAt(va) * 0x1000
    && IsFirstFit(bits, n, FrameAt(va))
    && space' == MapAll(space, va, FrameAt(va) * 0x1000, MAP_KERN_RW, n)
    && Spent(Fill(bits, FrameAt(va), n, true), bits', t, t', root)
  }

  /** The pages of a block of frames. */
  function Block(r: nat, n: nat): set<Page> {
    set f | r <= f < r + n :: K(f)
  }

  /** If a block of n frames can be taken, the frames left over suffice for the tables missing on its walks. */
  predicate Enough(mem: seq<Table>, root: nat, bits: seq<bool>, n: nat) {
    forall r :: 0 <= r <= |bits| && IsFirstFit(bits, n, r) ==> FreeFrames(bits) >= n + |Missing(mem, root, Block(r, n))|
  }

  /** A fresh block is gone through to its end. */
  lemma BlockReached(space: imap<Page, nat>, va: nat, r: nat, n: nat)
    requires Fresh(space, va, n) && r + n <= FRAMES && va == KMEM_BASE + r * 0x1000
    ensures Reached(space, va, n) == Block(r, n)
  {
    hide PageAt, K, Fresh, OutsideSelfMap;
    BlockPages(va, r, n);
    forall k | 0 <= k < n
      ensures PageAt(va, k) in Reached(space, va, n) && PageAt(va, k) in Block(r, n)
    {
      FreshPrefix(space, va, k, n);
      assert PageAt(va, k) == K(r + k);
    }
    forall f | r <= f < r + n
      ensures K(f) in Reached(space, va, n)
    {
      assert PageAt(va, f - r) == K(f);
    }
  }

  /** A 32-bit result read as an unsigned 64-bit number. */
  function Unsigned(x: int): int { if x < 0 then x + WORD else x }

  lemma MmuFacts(m: Mmu)
    requires m.Valid()
    ensures m.frames.Valid() && m.frames.size < FRAMES && InUse(m.frames.Bits(), m.tree, m.root)
      && Shape(m.mem, m.root, m.frames.Bits(), m.tree)
  {
  }

  lemma MmuBy(m: Mmu)
    requires m.frames.Valid() && m.frames.size < FRAMES && Shape(m.mem, m.root, m.frames.Bits(), m.tree)
    ensures m.Valid()
  {
  }

  /** Setting bits keeps the tables in order. */
  lemma MoreBits(mem: seq<Table>, root: nat, bits: seq<bool>, r: nat, n: nat, t: Tree)
    requires Shape(mem, root, bits, t)
    ensures Shape(mem, root, Fill(bits, r, n, true), t)
  {
    hide Shape, Tables;
    ShapeBits(mem, root, bits, Fill(bits, r, n, true), t);
  }

  /** __kmem_map: a block of frames and its mapping at KMEM_BASE. */
  method KmemMap(m: Mmu, order: nat) returns (va: nat)
    requires m.Valid() && RegionSafe(m.Space(), m.frames.Bits(), Tables(m.tree, m.root))
    requires order < 64 && Pow2(order) <= m.frames.size && Enough(m.mem, m.root, m.frames.Bits(), Pow2(order))
    modifies m`mem, m`tree, m.frames.words
    ensures m.Valid() && RegionSafe(m.Space(), m.frames.Bits(), Tables(m.tree, m.root))
    ensures va == 0 ==> NoFit(old(m.frames.Bits()), Pow2(order)) && m.frames.Bits() == old(m.frames.Bits())
    ensures va == 0 ==> m.Space() == old(m.Space()) && m.tree == old(m.tree)
    ensures old(Wide(m.mem, m.root)) ==> Wide(m.mem, m.root)
    ensures va != 0 ==>
              Took(old(m.Space()), m.Space(), old(m.frames.Bits()), m.frames.Bits(), old(m.tree), m.tree, m.root, va,
                  Pow2(order))
    ensures va != 0 ==> m.Free() == old(m.Free()) - Pow2(order) -
                                    |Missing(old(m.mem), m.root, Block(FrameAt(va), Pow2(order)))|
  {
    hide Wide, Mmu.Valid, Mmu.Space, Spent, RegionSafe, MapAll, Tables, Pow2, NoFit, InUse, RunClear, Bitmap.Valid,
      Bitmap.Bits, Missing, Block, IsFirstFit, Took, Enough, FrameAt, Fill, FreeFrames;
    MmuFacts(m);
    ghost var space, bits, t := m.Space(), m.frames.Bits(), m.tree;
    var n := OrderToPages(order);
    var pa := TakeBlock(m, order);
    if pa < 0 {
      return 0;
    }
    va := KMEM_BASE + pa;
    var ret := MapBlock(m, pa / PAGE, n, bits);
    MmuFacts(m);
    BlockAt(pa, pa / PAGE);
    TookBy(space, m.Space(), bits, m.frames.Bits(), t, m.tree, m.root, pa / PAGE, n);
    // The test for a failed mapping (mm.c:43-44) never fires: the block was free, so its pages were unmapped.
    assert Unsigned(ret) >= n;
  }

  /** alloc_pages for a block that is to be mapped: the frames left suffice for the tables. */
  method TakeBlock(m: Mmu, order: nat) returns (pa: int)
    requires m.Valid() && order < 64 && Pow2(order) <= m.frames.size
    requires Enough(m.mem, m.root, m.frames.Bits(), Pow2(order))
    modifies m.frames.words
    ensures m.Valid()
    ensures pa == -1 ==> NoFit(old(m.frames.Bits()), Pow2(order)) && m.frames.Bits() == old(m.frames.Bits())
    ensures pa != -1 ==> pa >= 0 && pa % PAGE == 0
    ensures pa != -1 ==> m.frames.Bits() == Fill(old(m.frames.Bits()), pa / PAGE, Pow2(order), true)
    ensures pa != -1 ==> var r, n := pa / PAGE, Pow2(order);
              && IsFirstFit(old(m.frames.Bits()), n, r) && RunClear(old(m.frames.Bits()), r, n)
              && r + n <= m.frames.size
              && m.Free() == old(m.Free()) - n && m.Free() >= |Missing(m.mem, m.root, Block(r, n))|
  {
    hide Mmu.Valid, Shape, Tables, Pow2, Trues, NoFit, Bitmap.Valid, Bitmap.Bits, Missing, Block, IsFirstFit, Enough,
      Fill, RunClear;
    MmuFacts(m);
    ghost var bits := m.frames.Bits();
    Pow2Positive(order);
    pa := AllocPages(m.frames, order);
    if pa >= 0 {
      ghost var r, n := pa / PAGE, Pow2(order);
      FitFacts(bits, n, r);
      MoreBits(m.mem, m.root, bits, r, n, m.tree);
      TruesFill(bits, r, n);
      EnoughAt(m.mem, m.root, bits, n, r);
    }
    MmuBy(m);
  }

  lemma BlockAt(pa: nat, r: nat)
    requires pa % PAGE == 0 && r == pa / PAGE
    ensures pa == r * 0x1000 && FrameAt(KMEM_BASE + pa) == r
  {
  }

  lemma TookBy(space: imap<Page, nat>, space': imap<Page, nat>, bits: seq<bool>, bits': seq<bool>, t: Tree, t': Tree,
    root: nat, r: nat, n: nat)
    requires IsFirstFit(bits, n, r) && space' == MapAll(space, KMEM_BASE + r * 0x1000, r * 0x1000, MAP_KERN_RW, n)
    requires Spent(Fill(bits, r, n, true), bits', t, t', root)
    ensures Took(space, space', bits, bits', t, t', root, KMEM_BASE + r * 0x1000, n)
  {
    var va := KMEM_BASE + r * 0x1000;
    assert FrameAt(va) == r;
    hide IsFirstFit, MapAll, Spent;
  }

  lemma EnoughAt(mem: seq<Table>, root: nat, bits: seq<bool>, n: nat, r: nat)
    requires Enough(mem, root, bits, n) && IsFirstFit(bits, n, r)
    ensures FreeFrames(bits) >= n + |Missing(mem, root, Block(r, n))|
  {
  }

  /** Mapping a block that was just taken always succeeds. */
  method MapBlock(m: Mmu, r: nat, n: nat, ghost bits: seq<bool>) returns (ret: int)
    requires m.Valid() && RunClear(bits, r, n) && r + n <= |bits| <= FRAMES && InUse(bits, m.tree, m.root)
    requires m.frames.Bits() == Fill(bits, r, n, true) && RegionSafe(m.Space(), bits, Tables(m.tree, m.root))
    requires m.Free() >= |Missing(m.mem, m.root, Block(r, n))|
    modifies m`mem, m`tree, m.frames.words
    ensures m.Valid() && RegionSafe(m.Space(), m.frames.Bits(), Tables(m.tree, m.root)) && ret == n
    ensures m.Space() == MapAll(old(m.Space()), KMEM_BASE + r * 0x1000, r * 0x1000, MAP_KERN_RW, n)
    ensures Spent(old(m.frames.Bits()), m.frames.Bits(), old(m.tree), m.tree, m.root)
    ensures m.Free() == old(m.Free() - |Missing(m.mem, m.root, Block(r, n))|)
    ensures old(Wide(m.mem, m.root)) ==> Wide(m.mem, m.root)
  {
    hide Wide, Mmu.Valid, SpaceOf, Spent, RegionSafe, MapAll, Fresh, OutsideSelfMap, Tables, InUse, Bitmap.Valid,
      Bitmap.Bits, Missing, Reached, Block, RunClear, FreeFrames, Mmu.Space, PageAt, K, Fill;
    MmuFacts(m);
    ghost var space, t := m.Space(), m.tree;
    var va := KMEM_BASE + r * 0x1000;
    BlockPages(va, r, n);
    BlockIsFresh(space, bits, Tables(t, m.root), va, r, n);
    BlockReached(space, va, r, n);
    ret := MapPageRange(m, r * 0x1000, va, MAP_KERN_RW, n);
    MmuFacts(m);
    RegionAfterMap(space, bits, Fill(bits, r, n, true), m.frames.Bits(), t, m.tree, m.root, va, r, n);
  }

  lemma Pow2Positive(o: nat)
    ensures Pow2(o) >= 1
  {
  }

  lemma FitFacts(bits: seq<bool>, n: nat, r: nat)
    requires IsFirstFit(bits, n, r) && n >= 1
    ensures r + n <= |bits| && RunClear(bits, r, n) && !NoFit(bits, n)
  {
  }

  lemma HeapFacts(h: Heap)
    requires h.Valid()
    ensures h.m.Valid() && h.pool.Valid() && h.m.frames.Valid() && h.m.frames.size < FRAMES
      && |h.m.frames.Bits()| == h.m.frames.size
    ensures RegionSafe(h.m.Space(), h.m.frames.Bits(), Tables(h.m.tree, h.m.root))
    ensures Areas(h.areas, h.m.Space(), h.m.frames.size) && Slots(h.areas, h.pool.free, h.pool.total, h.pool.used)
    ensures Wide(h.m.mem, h.m.root)
  {
  }

  lemma HeapBy(h: Heap)
    requires h.m.Valid() && h.pool.Valid()
    requires RegionSafe(h.m.Space(), h.m.frames.Bits(), Tables(h.m.tree, h.m.root))
    requires Areas(h.areas, h.m.Space(), h.m.frames.size) && Slots(h.areas, h.pool.free, h.pool.total, h.pool.used)
    requires Wide(h.m.mem, h.m.root)
    ensures h.Valid()
  {
  }

  /** The order a block can have at all. */
  lemma SmallOrder(o: nat)
    requires Pow2(o) < FRAMES
    ensures o <= 31
  {
    assert Pow2(8) == 256;
    Pow2Add(8, 8);
    Pow2Add(15, 16);
    assert Pow2(31) == FRAMES;
    if o > 31 {
      Pow2Monotone(31, o);
    }
  }

  /** What the new area is, in the new space. */
  lemma TookArea(space: imap<Page, nat>, space': imap<Page, nat>, bits: seq<bool>, bits': seq<bool>, t: Tree, t': Tree,
    root: nat, va: nat, o: nat, slot: nat, tables: set<nat>)
    requires Took(space, space', bits, bits', t, t', root, va, Pow2(o)) && RegionSafe(space, bits, tables)
      && |bits| < FRAMES
    ensures IsArea(Area(va, Pow2(o), slot), space', |bits|) && Base(Area(va, Pow2(o), slot)) >= 0
    ensures RunClear(bits, Base(Area(va, Pow2(o), slot)), Pow2(o))
    ensures forall f :: 0 <= f < |bits| && K(f) in space ==> K(f) in space'
  {
    var r := FrameAt(va);
    var n := Pow2(o);
    Pow2Positive(o);
    SmallOrder(o);
    hide Pow2, K, MapAll, Fresh, Spent;
    BlockIsFresh(space, bits, tables, va, r, n);
    forall f | 0 <= f < |bits|
      ensures r <= f < r + n ==> K(f) in space'
      ensures K(f) in space ==> K(f) in space'
    {
      BlockMapped(space, va, r, n, f);
    }
  }

  lemma AreasGrown(areas: seq<Area>, space: imap<Page, nat>, space': imap<Page, nat>, n: nat)
    requires Areas(areas, space, n) && forall f :: 0 <= f < n && K(f) in space ==> K(f) in space'
    ensures Areas(areas, space', n)
  {
    hide K;
    forall i | 0 <= i < |areas|
      ensures IsArea(areas[i], space', n)
    {
      AreaKept(areas[i], space, space', n);
    }
  }

  /** A fresh slot goes to the new area. */
  lemma SlotTaken(areas: seq<Area>, free: seq<nat>, total: nat, used: nat, a: Area)
    requires Slots(areas, free, total, used) && free != [] && a.slot == free[0] < total && AllDifferent(free)
    ensures Slots(areas + [a], free[1..], total, used + 1)
  {
    assert free[0] in free;
  }

  lemma FirstSlot(p: Pool)
    requires p.Valid() && p.free != []
    ensures p.free[0] < p.total && AllDifferent(p.free)
  {
  }

  /** kmalloc: a new area, disjoint from all others and mapped to its own frames; got is the block taken, if any. When
      the pool has no slot left the block stays taken without an area. Only a success gives the lock back. */
  method Kmalloc(h: Heap, size: nat) returns (va: nat, ghost got: nat)
    requires h.Valid() && !h.locked && size < WORD
    requires size > 0 ==> Pow2(SizeToOrder(size)) <= h.m.frames.size
    requires size > 0 ==> Enough(h.m.mem, h.m.root, h.m.frames.Bits(), Pow2(SizeToOrder(size)))
    modifies h`areas, h`locked, h.m`mem, h.m`tree, h.m.frames.words, h.pool`freeList, h.pool`used, h.pool`free
    ensures h.Valid() && (h.locked <==> va == 0)
    ensures got == 0 <==> size == 0 || NoFit(old(h.m.frames.Bits()), Pow2(SizeToOrder(size)))
    ensures va == if old(h.pool.free) == [] then 0 else got
    ensures got == 0 ==> h.m.frames.Bits() == old(h.m.frames.Bits()) && h.m.Space() == old(h.m.Space())
    ensures got == 0 ==> h.m.tree == old(h.m.tree)
    ensures got != 0 ==> Took(old(h.m.Space()), h.m.Space(), old(h.m.frames.Bits()), h.m.frames.Bits(), old(h.m.tree),
      h.m.tree, h.m.root, got, Pow2(SizeToOrder(size)))
    ensures got != 0 ==> h.m.Free() == old(h.m.Free()) - Pow2(SizeToOrder(size)) -
                                      |Missing(old(h.m.mem), h.m.root, Block(FrameAt(got), Pow2(SizeToOrder(size))))|
    ensures va == 0 ==> h.areas == old(h.areas)
    ensures va != 0 ==> h.areas == old(h.areas) + [Area(va, Pow2(SizeToOrder(size)), old(h.pool.free)[0])]
  {
    hide Heap.Valid, Mmu.Valid, SpaceOf, Spent, RegionSafe, MapAll, Tables, Pow2, NoFit, Bitmap.Valid, Bitmap.Bits,
      Areas, Slots, Pool.Valid, SizeToOrder, Took, FlsOf, Enough, FreeFrames, Missing, Block, FrameAt;
    HeapFacts(h);
    h.locked, got := true, 0;
    if size == 0 {
      HeapBy(h);
      return 0, 0;
    }
    ghost var space, bits, t, areas := h.m.Space(), h.m.frames.Bits(), h.m.tree, h.areas;
    var order := SizeToOrder(size);
    OrderBound(order, h.m.frames.size);
    va := KmemMap(h.m, order);
    got := va;
    MmuFacts(h.m);
    if va == 0 {
      HeapBy(h);
      return;
    }
    TookFits(space, h.m.Space(), bits, h.m.frames.Bits(), t, h.m.tree, h.m.root, va, order);
    TookArea(space, h.m.Space(), bits, h.m.frames.Bits(), t, h.m.tree, h.m.root, va, order,
      if h.pool.free == [] then 0 else h.pool.free[0], Tables(t, h.m.root));
    AreasGrown(areas, space, h.m.Space(), h.m.frames.size);
    if h.pool.free != [] { FirstSlot(h.pool); }
    ghost var free, used := h.pool.free, h.pool.used;
    var slot := h.pool.Alloc();
    if slot == -1 {
      HeapBy(h);
      return 0, got;
    }
    var a := Area(va, OrderToPages(order), slot);
    AreasAfterMap(areas, space, h.m.Space(), bits, Tables(t, h.m.root), a);
    SlotTaken(areas, free, h.pool.total, used, a);
    h.areas, h.locked := h.areas + [a], false;
    HeapBy(h);
  }

  lemma TookFits(space: imap<Page, nat>, space': imap<Page, nat>, bits: seq<bool>, bits': seq<bool>, t: Tree,
    t': Tree, root: nat, va: nat, o: nat)
    requires Took(space, space', bits, bits', t, t', root, va, Pow2(o))
    ensures !NoFit(bits, Pow2(o))
  {
    Pow2Positive(o);
    hide Pow2;
    FitFacts(bits, Pow2(o), FrameAt(va));
  }

  lemma OrderBound(o: nat, n: nat)
    requires Pow2(o) <= n < FRAMES
    ensures o < 64
  {
    SmallOrder(o);
  }

  /** __find_vmap_area: the first area that starts at va. */
  method FindArea(h: Heap, va: nat) returns (i: int)
    ensures i == -1 ==> forall j :: 0 <= j < |h.areas| ==> h.areas[j].start != va
    ensures i != -1 ==>
              0 <= i < |h.areas| && h.areas[i].start == va && forall j :: 0 <= j < i ==> h.areas[j].start != va
  {
    i := 0;
    while i < |h.areas|
      invariant 0 <= i <= |h.areas| && forall j :: 0 <= j < i ==> h.areas[j].start != va
    {
      if h.areas[i].start == va {
        return;
      }
      i := i + 1;
    }
    return -1;
  }

  function Without(s: seq<Area>, i: nat): seq<Area>
    requires i < |s|
  {
    s[..i] + s[i + 1..]
  }

  /** The slot of the removed area becomes free. */
  lemma SlotFreed(areas: seq<Area>, free: seq<nat>, total: nat, used: nat, i: nat)
    requires Slots(areas, free, total, used) && i < |areas|
    ensures used > 0 && Slots(Without(areas, i), [areas[i].slot] + free, total, used - 1) && areas[i].slot < total
      && areas[i].slot !in free
  {
    var rest := Without(areas, i);
    forall j | 0 <= j < |rest|
      ensures rest[j] == areas[if j < i then j else j + 1] && rest[j].slot != areas[i].slot
    {
      assert areas[if j < i then j else i].slot != areas[if j < i then i else j + 1].slot;
    }
  }

  /** The area's block and its order. */
  lemma AreaBlock(a: Area, space: imap<Page, nat>, n: nat)
    requires IsArea(a, space, n)
    ensures 0 <= Base(a) && Base(a) + a.pages <= n && a.pages >= 1 && a.start == KMEM_BASE + Base(a) * 0x1000
    ensures a.pages * PAGE < WORD && SizeToOrder(a.pages * PAGE) < 64 && Pow2(SizeToOrder(a.pages * PAGE)) == a.pages
    ensures forall f :: Base(a) <= f < Base(a) + a.pages ==> K(f) in space
  {
    hide Pow2, SizeToOrder, K;
    var o :| 0 <= o <= 31 && a.pages == Pow2(o);
    Pow2Positive(o);
    OrderInverts(o);
    PageOrders(o);
  }

  /** Where its first page leads. */
  lemma AreaPage(a: Area, space: imap<Page, nat>, bits: seq<bool>, tables: set<nat>)
    requires 0 <= Base(a) && Base(a) + a.pages <= |bits| < FRAMES && a.pages >= 1
      && a.start == KMEM_BASE + Base(a) * 0x1000
    requires RegionSafe(space, bits, tables) && forall f :: Base(a) <= f < Base(a) + a.pages ==> K(f) in space
    ensures PageOf(a.start).a < 511 && a.start % 0x1000 == 0 && Norm(PageOf(a.start)) == K(Base(a))
      && FrameOf(space[K(Base(a))]) == Base(a)
    ensures forall f :: Base(a) <= f < Base(a) + a.pages ==> f !in tables
  {
    KDigits(Base(a));
    KFacts(Base(a), Base(a));
    hide PageOf, K, PageAt;
  }

  /** Clearing the bits of a block that holds no table keeps the tables in order. */
  lemma LessBits(mem: seq<Table>, root: nat, bits: seq<bool>, r: nat, n: nat, t: Tree)
    requires Shape(mem, root, bits, t) && forall f :: r <= f < r + n ==> f !in Tables(t, root)
    ensures Shape(mem, root, Fill(bits, r, n, false), t)
  {
    hide Shape, Tables;
    ShapeBits(mem, root, bits, Fill(bits, r, n, false), t);
  }

  /** The middle of kfree: the frames are freed, then unmapped (mm.c:118-123). */
  method Release(m: Mmu, a: Area)
    requires m.Valid() && m.frames.Valid() && RegionSafe(m.Space(), m.frames.Bits(), Tables(m.tree, m.root))
      && IsArea(a, m.Space(), m.frames.size)
    modifies m`mem, m.frames.words
    ensures m.Valid() && RegionSafe(m.Space(), m.frames.Bits(), Tables(m.tree, m.root)) && Base(a) >= 0
    ensures m.frames.Bits() == Fill(old(m.frames.Bits()), Base(a), a.pages, false)
      && m.Space() == DropAll(old(m.Space()), a.start, a.pages)
    ensures forall f :: 0 <= f < m.frames.size ==>
                          (K(f) in m.Space() <==> K(f) in old(m.Space()) && !(Base(a) <= f < Base(a) + a.pages))
    ensures old(Wide(m.mem, m.root)) ==> Wide(m.mem, m.root)
  {
    hide Wide, SameTables, Mmu.Valid, Shape, SpaceOf, RegionSafe, DropAll, Droppable, Tables, Pow2, Bitmap.Valid,
      Bitmap.Bits, SizeToOrder, PageOf, Norm, OutsideSelfMap, K, IsArea;
    MmuFacts(m);
    ghost var space, bits := m.Space(), m.frames.Bits();
    AreaBlock(a, space, |bits|);
    AreaPage(a, space, bits, Tables(m.tree, m.root));
    var order := SizeToOrder(a.pages * PAGE);
    var pa := m.GetPhysaddr(a.start);
    FreePages(m.frames, pa, order);
    assert pa / PAGE == Base(a);
    LessBits(m.mem, m.root, bits, Base(a), a.pages, m.tree);
    MmuBy(m);
    BlockPages(a.start, Base(a), a.pages);
    BlockDroppable(space, a.start, Base(a), a.pages);
    var n := UnmapPageRange(m, a.start, a.pages);
    if Wide(old(m.mem), m.root) { SameWide(old(m.mem), m.mem, m.root); }
    RegionAfterDrop(space, bits, Tables(m.tree, m.root), a.start, Base(a), a.pages);
  }

  /** kfree: the area's mappings and frames, and nothing else, are given back. */
  method Kfree(h: Heap, va: nat) returns (r: int, ghost i: nat)
    requires h.Valid() && !h.locked && h.m.frames.words as object != h.pool.slots
    modifies h`areas, h`locked, h.m`mem, h.m.frames.words, h.pool`freeList, h.pool`used, h.pool`free, h.pool.slots
    ensures h.Valid() && (h.locked <==> r == -1) && h.m.tree == old(h.m.tree)
    ensures r == -1 <==> forall j :: 0 <= j < |old(h.areas)| ==> old(h.areas)[j].start != va
    ensures r == -1 ==>
              h.areas == old(h.areas) && h.m.Space() == old(h.m.Space()) && h.m.frames.Bits() == old(h.m.frames.Bits())
    ensures r != -1 ==>
              r == 0 && i < |old(h.areas)| && old(h.areas)[i].start == va && h.areas == Without(old(h.areas), i)
    ensures r != -1 ==> Base(old(h.areas)[i]) >= 0
    ensures r != -1 ==>
              h.m.frames.Bits() == Fill(old(h.m.frames.Bits()), Base(old(h.areas)[i]), old(h.areas)[i].pages, false)
    ensures r != -1 ==> h.m.Space() == DropAll(old(h.m.Space()), va, old(h.areas)[i].pages)
  {
    hide Heap.Valid, Mmu.Valid, SpaceOf, RegionSafe, DropAll, Tables, Bitmap.Valid, Bitmap.Bits, Areas, Slots,
      Pool.Valid, IsArea, K, Wide;
    HeapFacts(h);
    i, h.locked := 0, true;
    var k := FindArea(h, va);
    if k == -1 {
      HeapBy(h);
      return -1, i;
    }
    i := k;
    ghost var space, areas, free, used := h.m.Space(), h.areas, h.pool.free, h.pool.used;
    var a := h.areas[k];
    OneArea(areas, space, h.m.frames.size, k);
    h.areas := h.areas[..k] + h.areas[k + 1..];
    Release(h.m, a);
    AreasAfterDrop(areas, k, space, h.m.Space(), h.m.frames.size);
    SlotFreed(areas, free, h.pool.total, used, k);
    h.pool.Free(a.slot);
    h.locked := false;
    HeapBy(h);
    return 0, i;
  }

  lemma OneArea(areas: seq<Area>, space: imap<Page, nat>, n: nat, i: nat)
    requires Areas(areas, space, n) && i < |areas|
    ensures IsArea(areas[i], space, n)
  {
  }

  lemma FreedFrames(bits: seq<bool>, bits': seq<bool>, t: Tree, t': Tree, root: nat, r: nat, n: nat)
    requires RunClear(bits, r, n) && InUse(bits, t, root) && Spent(Fill(bits, r, n, true), bits', t, t', root)
    ensures |bits'| == |bits|
    ensures forall f :: 0 <= f < |bits| ==>
                          (Fill(bits', r, n, false)[f] <==> bits[f] || f in Tables(t', root) - Tables(t, root))
  {
    SpentNone(bits, t, root);
    hide Tables, InUse;
  }

  /** kfree gives back exactly what its kmalloc took: all mappings, and all frames but those of new page tables. */
  lemma MallocThenFree(space: imap<Page, nat>, space': imap<Page, nat>, bits: seq<bool>, bits': seq<bool>, t: Tree,
    t': Tree, root: nat, va: nat, n: nat)
    requires Took(space, space', bits, bits', t, t', root, va, n) && RegionSafe(space, bits, Tables(t, root))
      && |bits| < FRAMES && InUse(bits, t, root)
    ensures DropAll(space', va, n) == space
    ensures var freed := Fill(bits', FrameAt(va), n, false);
            && |freed| == |bits|
            && forall f :: 0 <= f < |bits| ==> (freed[f] <==> bits[f] || f in Tables(t', root) - Tables(t, root))
  {
    var r := FrameAt(va);
    hide Tables, InUse, MapAll, Fresh, DropAll, Spent, FrameAt;
    FreedFrames(bits, bits', t, t', root, r, n);
    BlockIsFresh(space, bits, Tables(t, root), va, r, n);
    MapThenUnmap(space, va, r * 0x1000, MAP_KERN_RW, n);
  }

  /** Two live areas share no address and no frame. */
  lemma AreasShareNothing(areas: seq<Area>, space: imap<Page, nat>, bits: seq<bool>, tables: set<nat>, i: nat, j: nat,
    k: nat, l: nat)
    requires Areas(areas, space, |bits|) && RegionSafe(space, bits, tables) && |bits| < FRAMES && i < |areas|
      && j < |areas| && i != j
    requires k < areas[i].pages && l < areas[j].pages
    ensures PageAt(areas[i].start, k) != PageAt(areas[j].start, l)
    ensures PageAt(areas[i].start, k) in space && PageAt(areas[j].start, l) in space
    ensures space[PageAt(areas[i].start, k)] == Writable(Base(areas[i]) + k) && bits[Base(areas[i]) + k]
    ensures FrameOf(space[PageAt(areas[i].start, k)]) != FrameOf(space[PageAt(areas[j].start, l)])
  {
    var a, b := areas[i], areas[j];
    assert BlocksApart(areas[if i < j then i else j], areas[if i < j then j else i]);
    assert IsArea(a, space, |bits|) && IsArea(b, space, |bits|);
    BlockPages(a.start, Base(a), a.pages);
    BlockPages(b.start, Base(b), b.pages);
    KFacts(Base(a) + k, Base(b) + l);
  }

  /** Every page of a live area may be written: its own entry leads to its frame and says so, and so do the entries of
      the three tables above it. */
  lemma AreaWritable(h: Heap, i: nat, k: nat, l: nat)
    requires h.Valid() && i < |h.areas| && k < h.areas[i].pages && 1 <= l <= 3
    ensures var p, f := PageAt(h.areas[i].start, k), Base(h.areas[i]) + k;
            && 0 <= f && LeafAt(h.m.mem, h.m.root, p) == Some(f * 0x1000 + 3)
            && UpperAt(h.m.mem, h.m.root, p, l).Some? && UpperAt(h.m.mem, h.m.root, p, l).value / 2 % 2 == 1
  {
    hide Heap.Valid, Mmu.Valid, Slots, RegionSafe, Wide, Pow2, TableAt, PageAt, K, Areas, IsArea, Base, Bitmap.Valid,
      Bitmap.Bits, LeafAt, UpperAt, IsPage, Tables, Pool.Valid;
    HeapFacts(h);
    var a, space, bits := h.areas[i], h.m.Space(), h.m.frames.Bits();
    OneArea(h.areas, space, h.m.frames.size, i);
    AreaFrame(a, space, bits, Tables(h.m.tree, h.m.root), k);
    Covered(h.m.mem, h.m.root, PageAt(a.start, k), l);
  }

  lemma AreaFrame(a: Area, space: imap<Page, nat>, bits: seq<bool>, tables: set<nat>, k: nat)
    requires IsArea(a, space, |bits|) && RegionSafe(space, bits, tables) && |bits| < FRAMES && k < a.pages
    ensures Base(a) >= 0 && PageAt(a.start, k) in space && space[PageAt(a.start, k)] == Writable(Base(a) + k)
  {
    hide PageAt, K, Pow2, SizeToOrder, Base, IsArea, OutsideSelfMap, Writable;
    AreaBlock(a, space, |bits|);
    BlockPages(a.start, Base(a), a.pages);
    assert PageAt(a.start, k) == K(Base(a) + k);
  }

  /** A mapped page has its tables. */
  lemma Covered(mem: seq<Table>, root: nat, p: Page, l: nat)
    requires Wide(mem, root) && LeafAt(mem, root, p).Some? && IsPage(p) && 1 <= l <= 3
    ensures UpperAt(mem, root, p, l).Some? && UpperAt(mem, root, p, l).value / 2 % 2 == 1
  {
    assert TableAt(mem, root, p, 4).Some? && TableAt(mem, root, p, 3).Some? && TableAt(mem, root, p, 2).Some?;
  }

  const POOL_PAGES: nat := 32
  const AREA_SIZE: nat := 40  // sizeof(struct vmap_area)

  /** mm_init (mm.c:148-161): a block for the pool is taken and mapped like any other; its pages belong to no area. */
  method MmInit(m: Mmu) returns (h: Heap, ghost va: nat)
    requires m.Valid() && POOL_PAGES <= m.frames.size && (forall f :: 0 <= f < m.frames.size ==> K(f) !in m.Space())
    requires !NoFit(m.frames.Bits(), POOL_PAGES) && Enough(m.mem, m.root, m.frames.Bits(), POOL_PAGES)
    requires Wide(m.mem, m.root)
    modifies m`mem, m`tree, m.frames.words
    ensures h.Valid() && fresh(h) && fresh(h.pool) && fresh(h.pool.slots) && h.m == m && h.areas == [] && !h.locked
    ensures h.pool.total == 3276 && h.pool.used == 0
    ensures Took(old(m.Space()), m.Space(), old(m.frames.Bits()), m.frames.Bits(), old(m.tree), m.tree, m.root, va,
              POOL_PAGES)
    ensures m.Free() == old(m.Free()) - POOL_PAGES - |Missing(old(m.mem), m.root, Block(FrameAt(va), POOL_PAGES))|
    ensures PagesToOrder(POOL_PAGES) == 5
  {
    hide Missing, Block, FrameAt, FreeFrames, Pow2, SizeToOrder, Mmu.Valid, SpaceOf, K, Bitmap.Valid, Bitmap.Bits,
      NoFit, Tables, Spent, MapAll, Pool.Valid, Heap.Valid, Wide;
    PoolOrder();
    MmuFacts(m);
    va := KmemMap(m, PagesToOrder(POOL_PAGES));
    var pool := new Pool(POOL_PAGES, AREA_SIZE);
    h := new Heap(m, pool);
  }

  lemma PoolOrder()
    ensures PagesToOrder(POOL_PAGES) == 5 && Pow2(5) == POOL_PAGES
  {
    assert Pow2(5) == POOL_PAGES;
    OrderInverts(5);
  }
}
