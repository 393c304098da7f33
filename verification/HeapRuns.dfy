/** The heap from boot on: how few frames its tables take, where every used frame belongs over any run of kmalloc and
    kfree, and the state the boot code starts from (mm.c:63-161, page.c:22-44, head.S:38-83). */
module HeapRuns {
  import opened Bytes
  import opened Geometry
  import opened BitWords
  import opened Bitmaps
  import opened Pages
  import opened PageTables
  import opened PageTree
  import opened TableCount
  import opened Paging
  import opened MemPool
  import opened KernelHeap

  // ----- a bound on the tables of a block

  /** The number of tables of a level that a block spans when each of them covers width frames. */
  function Spanned(r: nat, n: nat, width: nat): nat
    requires n > 0 && width > 0
  {
    SpanOrder(r, n, width);
    (r + n - 1) / width - r / width + 1
  }

  lemma DivOrder(a: nat, b: nat, w: nat)
    requires a <= b && w > 0
    ensures a / w <= b / w
  {
    assert a == w * (a / w) + a % w && b == w * (b / w) + b % w;
    Scale(w, b / w + 1, a / w);
  }

  lemma SpanOrder(r: nat, n: nat, width: nat)
    requires n > 0 && width > 0
    ensures r / width <= (r + n - 1) / width
  {
    DivOrder(r, r + n - 1, width);
  }

  /** The names of the tables number lo to hi - 1 of a level. */
  ghost function Names(l: nat, lo: nat, hi: nat): set<Page> {
    set j | lo <= j < hi :: Name(l, j)
  }

  /** Table number j of a level in the kmalloc region. */
  function Name(l: nat, j: nat): Page {
    if l == 2 then Page(288 + j, 0, 0, 2)
    else if l == 3 then Page(288 + j / 512, j % 512, 0, 3)
    else Page(288 + j / 0x4_0000, j / 512 % 512, j % 512, 4)
  }

  lemma {:induction false} NamesSize(l: nat, lo: nat, hi: nat)
    requires lo <= hi
    ensures |Names(l, lo, hi)| <= hi - lo
    decreases hi - lo
  {
    hide Name;
    if lo < hi {
      NamesSize(l, lo, hi - 1);
      assert Names(l, lo, hi) == Names(l, lo, hi - 1) + {Name(l, hi - 1)};
    } else {
      assert Names(l, lo, hi) == {};
    }
  }

  function Width(l: nat): (w: nat)
    ensures w > 0
  {
    if l == 2 then 0x800_0000 else if l == 3 then 0x4_0000 else 512
  }

  lemma WayIsName(f: nat, l: nat)
    requires f < FRAMES && 2 <= l <= 4
    ensures Way(K(f), l) == Name(l, f / Width(l))
  {
    KDigits(f);
    KSmall(f);
    hide PageOf;
    assert f / 0x800_0000 < 16;
    assert f / 0x4_0000 / 512 == f / 0x800_0000;
    assert f / 512 / 0x4_0000 == f / 0x800_0000;
    assert f / 512 / 512 == f / 0x4_0000;
  }

  /** The tables of level l that a block spans. */
  ghost function SpanNames(r: nat, n: nat, l: nat): (s: set<Page>)
    requires n > 0
    ensures |s| <= Spanned(r, n, Width(l))
  {
    SpanOrder(r, n, Width(l));
    NamesSize(l, r / Width(l), (r + n - 1) / Width(l) + 1);
    Names(l, r / Width(l), (r + n - 1) / Width(l) + 1)
  }

  lemma WayInSpan(r: nat, n: nat, f: nat, l: nat)
    requires r <= f < r + n <= FRAMES && 2 <= l <= 4
    ensures Way(K(f), l) in SpanNames(r, n, l)
  {
    hide K, Way, Name;
    WayIsName(f, l);
    DivOrder(r, f, Width(l));
    DivOrder(f, r + n - 1, Width(l));
  }

  /** A block never needs more tables than it spans: about one for 512 frames, and a few above. */
  lemma SpannedTables(mem: seq<Table>, root: nat, r: nat, n: nat)
    requires n > 0 && r + n <= FRAMES
    ensures |Missing(mem, root, Block(r, n))| <= Spanned(r, n, Width(2)) + Spanned(r, n, Width(3)) +
              Spanned(r, n, Width(4))
  {
    hide K, Way, TableAt, SpanNames, Spanned, Width;
    var a, b, c := SpanNames(r, n, 2), SpanNames(r, n, 3), SpanNames(r, n, 4);
    forall p, l | p in Block(r, n) && 2 <= l <= 4
      ensures Way(p, l) in a + b + c
    {
      var f :| r <= f < r + n && p == K(f);
      WayInSpan(r, n, f, l);
    }
    SubsetSize(Missing(mem, root, Block(r, n)), a + b + c);
  }

  lemma Scale(w: nat, x: nat, y: nat)
    ensures x <= y ==> w * x <= w * y
  {
  }

  lemma DivRem(a: nat, w: nat)
    requires w > 0
    ensures a == w * (a / w) + a % w && a % w < w
  {
  }

  lemma Distribute(w: nat, x: nat, y: nat)
    ensures w * (x + y + 2) == w * x + w * y + 2 * w
  {
  }

  lemma SpanBound(r: nat, n: nat, width: nat)
    requires n > 0 && width > 0
    ensures Spanned(r, n, width) <= (n - 1) / width + 2
  {
    var q, x, y := r / width, (n - 1) / width, (r + n - 1) / width;
    DivRem(r, width);
    DivRem(n - 1, width);
    DivRem(r + n - 1, width);
    Distribute(width, q, x);
    Scale(width, q + x + 2, y);
  }

  /** What a block of n frames costs at most, with its tables: for 1024 frames, seven more. */
  function Cost(n: nat): nat {
    if n == 0 then 0 else n + (n - 1) / 512 + (n - 1) / 0x4_0000 + (n - 1) / 0x800_0000 + 6
  }

  lemma CostCovers(n: nat)
    ensures Cost(n) >= n >= 0 && Cost(1) == 7 && Cost(POOL_PAGES) == POOL_PAGES + 6
  {
  }

  lemma CostBound(mem: seq<Table>, root: nat, r: nat, n: nat)
    requires n > 0 && r + n <= FRAMES
    ensures n + |Missing(mem, root, Block(r, n))| <= Cost(n)
  {
    hide Missing, Spanned;
    SpannedTables(mem, root, r, n);
    SpanBound(r, n, Width(2));
    SpanBound(r, n, Width(3));
    SpanBound(r, n, Width(4));
  }

  /** So this many free frames are enough. */
  lemma EnoughFrames(mem: seq<Table>, root: nat, bits: seq<bool>, n: nat)
    requires n > 0 && |bits| <= FRAMES && FreeFrames(bits) >= Cost(n)
    ensures Enough(mem, root, bits, n)
  {
    hide FreeFrames, Missing, Cost;
    forall r | 0 <= r <= |bits| && IsFirstFit(bits, n, r)
      ensures FreeFrames(bits) >= n + |Missing(mem, root, Block(r, n))|
    {
      CostBound(mem, root, r, n);
    }
  }

  // ----- where every used frame belongs

  ghost predicate InArea(areas: seq<Area>, f: nat) {
    exists i :: 0 <= i < |areas| && Base(areas[i]) <= f < Base(areas[i]) + areas[i].pages
  }

  /** A frame is in use exactly if it is one of the kernel's own, holds a table or belongs to a live area. */
  ghost predicate Accounted(bits: seq<bool>, own: set<nat>, tables: set<nat>, areas: seq<Area>) {
    && (forall f :: 0 <= f < |bits| ==> (bits[f] <==> f in own || f in tables || InArea(areas, f)))
    && forall f :: f in own ==> !InArea(areas, f)
  }

  lemma InAreaAdd(areas: seq<Area>, a: Area, f: nat)
    ensures InArea(areas + [a], f) <==> InArea(areas, f) || Base(a) <= f < Base(a) + a.pages
  {
    var all := areas + [a];
    assert all[|areas|] == a && forall i :: 0 <= i < |areas| ==> all[i] == areas[i];
  }

  lemma InAreaWithout(areas: seq<Area>, i: nat, f: nat)
    requires i < |areas|
    ensures InArea(areas, f) <==> InArea(Without(areas, i), f) || Base(areas[i]) <= f < Base(areas[i]) + areas[i].pages
  {
    var rest := Without(areas, i);
    if InArea(areas, f) {
      var j :| 0 <= j < |areas| && Base(areas[j]) <= f < Base(areas[j]) + areas[j].pages;
      if j != i { assert rest[if j < i then j else j - 1] == areas[j]; }
    }
    if InArea(rest, f) {
      var j :| 0 <= j < |rest| && Base(rest[j]) <= f < Base(rest[j]) + rest[j].pages;
      assert rest[j] == areas[if j < i then j else j + 1];
    }
  }

  /** A block of n free frames at r was taken, and frames for tables. */
  ghost predicate BlockTaken(bits: seq<bool>, bits': seq<bool>, t: Tree, t': Tree, root: nat, r: nat, n: nat) {
    n > 0 && r + n <= |bits| && RunClear(bits, r, n) && InUse(bits, t, root)
      && Spent(Fill(bits, r, n, true), bits', t, t', root)
  }

  lemma TakenFrame(bits: seq<bool>, bits': seq<bool>, t: Tree, t': Tree, root: nat, r: nat, n: nat, f: nat)
    requires BlockTaken(bits, bits', t, t', root, r, n) && f < |bits|
    ensures |bits'| == |bits| && (bits'[f] <==> bits[f] || r <= f < r + n || f in Tables(t', root))
    ensures r <= f < r + n ==> !bits[f] && f !in Tables(t', root)
    ensures f in Tables(t, root) ==> f in Tables(t', root)
    ensures f in Tables(t', root) && bits[f] ==> f in Tables(t, root)
  {
    hide Tables;
  }

  /** kmalloc with a new area keeps the books. */
  lemma MallocAccounts(bits: seq<bool>, bits': seq<bool>, t: Tree, t': Tree, root: nat, own: set<nat>, areas: seq<Area>,
    a: Area)
    requires Base(a) >= 0 && BlockTaken(bits, bits', t, t', root, Base(a), a.pages)
      && Accounted(bits, own, Tables(t, root), areas)
    requires forall f :: f in own ==> f < |bits|
    ensures Accounted(bits', own, Tables(t', root), areas + [a])
  {
    hide BlockTaken, Tables, InArea;
    Inside(bits, bits', t, t', root, Base(a), a.pages);
    forall f | 0 <= f < |bits|
      ensures bits'[f] <==> f in own || f in Tables(t', root) || InArea(areas + [a], f)
      ensures f in own ==> !InArea(areas + [a], f)
    {
      TakenFrame(bits, bits', t, t', root, Base(a), a.pages, f);
      InAreaAdd(areas, a, f);
    }
  }

  lemma TakenInside(bits: seq<bool>, bits': seq<bool>, t: Tree, t': Tree, root: nat, r: nat, n: nat)
    requires BlockTaken(bits, bits', t, t', root, r, n)
    ensures r + n <= |bits| && n > 0
  {
  }

  lemma Inside(bits: seq<bool>, bits': seq<bool>, t: Tree, t': Tree, root: nat, r: nat, n: nat)
    requires BlockTaken(bits, bits', t, t', root, r, n)
    ensures r < |bits| == |bits'|
  {
  }

  /** A block taken without an area is lost: no owner is left for its frames. */
  lemma LeakBreaks(bits: seq<bool>, bits': seq<bool>, t: Tree, t': Tree, root: nat, own: set<nat>, areas: seq<Area>,
    r: nat, n: nat)
    requires BlockTaken(bits, bits', t, t', root, r, n) && Accounted(bits, own, Tables(t, root), areas)
    ensures !Accounted(bits', own, Tables(t', root), areas)
  {
    Inside(bits, bits', t, t', root, r, n);
    hide BlockTaken, Tables, InArea;
    TakenFrame(bits, bits', t, t', root, r, n, r);
    assert bits'[r] && r !in Tables(t', root);
  }

  /** A frame of area i belongs to no other area. */
  lemma OneOwner(areas: seq<Area>, i: nat, f: nat)
    requires i < |areas| && Base(areas[i]) <= f < Base(areas[i]) + areas[i].pages
    requires forall j, k :: 0 <= j < k < |areas| ==> BlocksApart(areas[j], areas[k])
    ensures !InArea(Without(areas, i), f)
  {
    var rest := Without(areas, i);
    forall j | 0 <= j < |rest|
      ensures !(Base(rest[j]) <= f < Base(rest[j]) + rest[j].pages)
    {
      var k := if j < i then j else j + 1;
      assert rest[j] == areas[k];
      assert BlocksApart(areas[if k < i then k else i], areas[if k < i then i else k]);
    }
  }

  /** kfree keeps the books. */
  lemma FreeAccounts(bits: seq<bool>, own: set<nat>, tables: set<nat>, areas: seq<Area>, i: nat, space: imap<Page, nat>)
    requires Accounted(bits, own, tables, areas) && i < |areas| && Areas(areas, space, |bits|) && |bits| < FRAMES
    requires RegionSafe(space, bits, tables) && Base(areas[i]) >= 0
    ensures Accounted(Fill(bits, Base(areas[i]), areas[i].pages, false), own, tables, Without(areas, i))
  {
    var a := areas[i];
    OneArea(areas, space, |bits|, i);
    AreaBlock(a, space, |bits|);
    AreaPage(a, space, bits, tables);
    assert forall j, k :: 0 <= j < k < |areas| ==> BlocksApart(areas[j], areas[k]);
    hide InArea, Areas, RegionSafe, IsArea, BlocksApart, K, PageOf, Norm, Pow2, SizeToOrder;
    forall f | 0 <= f
      ensures f < |bits| ==>
                (Fill(bits, Base(a), a.pages, false)[f] <==> f in own || f in tables || InArea(Without(areas, i), f))
      ensures f in own ==> !InArea(Without(areas, i), f)
    {
      InAreaWithout(areas, i, f);
      if Base(a) <= f < Base(a) + a.pages { OneOwner(areas, i, f); }
    }
  }

  // ----- runs

  datatype Call = Malloc(size: nat) | Free(va: nat)

  /** The frames that are free suffice for the call. */
  predicate Affordable(mem: seq<Table>, root: nat, bits: seq<bool>, call: Call) {
    match call
    case Malloc(size) => size < WORD && (size > 0 ==> Pow2(SizeToOrder(size)) <= |bits|
                                                      && Enough(mem, root, bits, Pow2(SizeToOrder(size))))
    case Free(va) => true
  }

  ghost predicate Books(h: Heap, own: set<nat>)
    requires h.m.frames.Valid()
    reads h, h.m, h.m.frames, h.m.frames.words
  {
    && (forall f :: f in own ==> f < h.m.frames.size)
    && Accounted(h.m.frames.Bits(), own, Tables(h.m.tree, h.m.root), h.areas)
  }

  lemma TookBlock(space: imap<Page, nat>, space': imap<Page, nat>, bits: seq<bool>, bits': seq<bool>, t: Tree,
    t': Tree, root: nat, va: nat, n: nat)
    requires Took(space, space', bits, bits', t, t', root, va, n) && n > 0 && InUse(bits, t, root)
    ensures va == KMEM_BASE + FrameAt(va) * 0x1000 && BlockTaken(bits, bits', t, t', root, FrameAt(va), n)
  {
    hide Spent, InUse, MapAll;
  }

  /** All slots are taken exactly when no slot is free. */
  lemma PoolFull(h: Heap)
    requires h.Valid()
    ensures h.pool.free == [] <==> |h.areas| == h.pool.total
  {
    hide Mmu.Valid, RegionSafe, Areas, Threaded;
  }

  /** kmalloc and the books: they stay right unless the block is lost, and it is lost exactly when it was taken while
      all slots of the pool were in use. */
  method MallocStep(h: Heap, size: nat, ghost own: set<nat>) returns (va: nat, ghost lost: bool)
    requires h.Valid() && !h.locked && h.m.frames.Valid() && Books(h, own)
    requires Affordable(h.m.mem, h.m.root, h.m.frames.Bits(), Malloc(size))
    modifies h`areas, h`locked, h.m`mem, h.m`tree, h.m.frames.words, h.pool`freeList, h.pool`used, h.pool`free
    ensures h.Valid() && h.m.frames.Valid() && (Books(h, own) <==> !lost)
    ensures lost ==> h.locked && h.areas == old(h.areas)
    ensures !h.locked ==> |h.areas| == |old(h.areas)| + 1
    ensures h.locked ==> lost || size == 0 || NoFit(old(h.m.frames.Bits()), Pow2(SizeToOrder(size)))
    ensures h.m.Free() >= old(h.m.Free()) - Cost(Pow2(SizeToOrder(size)))
    ensures lost <==>
              size > 0 && !NoFit(old(h.m.frames.Bits()), Pow2(SizeToOrder(size))) && |old(h.areas)| == h.pool.total
  {
    hide Heap.Valid, Mmu.Valid, Bitmap.Valid, Bitmap.Bits, Pool.Valid, Mmu.Space, Pow2, SizeToOrder, Took, NoFit,
      BlockTaken, Accounted, InUse, Enough, Tables, FreeFrames, Missing, Block, FrameAt, Cost;
    PoolFull(h);
    HeapFacts(h);
    MmuFacts(h.m);
    CostCovers(0);
    ghost var bits, t, areas, space, mem := h.m.frames.Bits(), h.m.tree, h.areas, h.m.Space(), h.m.mem;
    ghost var got;
    va, got := Kmalloc(h, size);
    HeapFacts(h);
    lost := got != 0 && va == 0;
    if got != 0 {
      Pow2Positive(SizeToOrder(size));
      ghost var n, r := Pow2(SizeToOrder(size)), FrameAt(got);
      TookBlock(space, h.m.Space(), bits, h.m.frames.Bits(), t, h.m.tree, h.m.root, got, n);
      TakenInside(bits, h.m.frames.Bits(), t, h.m.tree, h.m.root, r, n);
      CostBound(mem, h.m.root, r, n);
      if va == 0 {
        LeakBreaks(bits, h.m.frames.Bits(), t, h.m.tree, h.m.root, own, areas, r, n);
      } else {
        MallocAccounts(bits, h.m.frames.Bits(), t, h.m.tree, h.m.root, own, areas, h.areas[|areas|]);
      }
    }
  }

  method FreeStep(h: Heap, va: nat, ghost own: set<nat>) returns (r: int)
    requires h.Valid() && !h.locked && h.m.frames.Valid() && Books(h, own) && h.m.frames.words as object != h.pool.slots
    modifies h`areas, h`locked, h.m`mem, h.m.frames.words, h.pool`freeList, h.pool`used, h.pool`free, h.pool.slots
    ensures h.Valid() && h.m.frames.Valid() && Books(h, own)
  {
    hide Heap.Valid, Mmu.Valid, Bitmap.Valid, Bitmap.Bits, Pool.Valid, Mmu.Space, Accounted, Areas, RegionSafe, Tables,
      DropAll;
    HeapFacts(h);
    ghost var bits, areas, space := h.m.frames.Bits(), h.areas, h.m.Space();
    ghost var i;
    r, i := Kfree(h, va);
    HeapFacts(h);
    if r != -1 {
      FreeAccounts(bits, own, Tables(h.m.tree, h.m.root), areas, i, space);
    }
  }

  /** Any run of kmalloc and kfree calls: the books stay right up to a lost block. A failed call keeps the lock and so
      ends the run; it also ends before a call the free frames do not suffice for. So at most one block is ever lost. */
  method Run(h: Heap, calls: seq<Call>, ghost own: set<nat>) returns (done: nat, ghost lost: bool)
    requires h.Valid() && !h.locked && h.m.frames.Valid() && Books(h, own) && h.m.frames.words as object != h.pool.slots
    modifies h`areas, h`locked, h.m`mem, h.m`tree, h.m.frames.words, h.pool`freeList, h.pool`used, h.pool`free,
             h.pool.slots
    ensures h.Valid() && h.m.frames.Valid() && done <= |calls| && (Books(h, own) <==> !lost)
    ensures lost ==> done > 0 && calls[done - 1].Malloc? && |h.areas| == h.pool.total
    ensures done == |calls| || h.locked || !Affordable(h.m.mem, h.m.root, h.m.frames.Bits(), calls[done])
  {
    hide Heap.Valid, Bitmap.Valid, Books, Affordable, NoFit, Pow2, SizeToOrder;
    done, lost := 0, false;
    while done < |calls| && !h.locked && Affordable(h.m.mem, h.m.root, h.m.frames.Bits(), calls[done])
      invariant h.Valid() && h.m.frames.Valid() && done <= |calls| && (Books(h, own) <==> !lost) && (lost ==> h.locked)
      invariant lost ==> done > 0 && calls[done - 1].Malloc? && |h.areas| == h.pool.total
      decreases |calls| - done
    {
      match calls[done] {
        case Malloc(size) =>
          var va;
          va, lost := MallocStep(h, size, own);
        case Free(va) =>
          var r := FreeStep(h, va, own);
      }
      done := done + 1;
    }
  }

  // ----- boot

  const VIRT_OFFSET: nat := 0xFFFF_8000_0000_0000
  const BOOTMAP_PAGES: nat := 0x1000  // BOOTMAP_LEN in pages

  /** The frames page_init marks: the kernel's, which hold the boot tables, and those of the bitmap itself. */
  function BootUsed(bits: nat, kernelEnd: nat): nat { kernelEnd + (bits / 8 + 0xFFF) / 0x1000 }

  ghost function Below(n: nat): (s: set<nat>)
    ensures forall f :: f in s <==> 0 <= f < n
  {
    if n == 0 then {} else Below(n - 1) + {n - 1}
  }

  /** The words of the bitmap, behind the kernel, lie in the frames that page_init marks exactly if the number of frames
      is not just past a multiple of 32768: page.c:30 rounds it down to bytes before it rounds the bytes up to pages. */
  lemma BitmapInside(bits: nat, kernelEnd: nat)
    ensures kernelEnd * 0x1000 + (bits + 63) / 64 * 8 <= BootUsed(bits, kernelEnd) * 0x1000 <==>
            bits % 0x8000 == 0 || bits % 0x8000 >= 8
  {
    var q, r := bits / 0x8000, bits % 0x8000;
    assert bits / 8 == 0x1000 * q + r / 8;
    assert (bits + 63) / 64 == 512 * q + (r + 63) / 64;
    assert (bits / 8 + 0xFFF) / 0x1000 == if r < 8 then q else q + 1;
  }

  function BootBits(bits: nat, used: nat): seq<bool> { seq(bits, f => f < used) }

  lemma HighHalf(used: nat, n: nat)
    requires used + n <= BOOTMAP_PAGES
    ensures OutsideSelfMap(VIRT_OFFSET + used * 0x1000, n)
  {
    hide PageOf;
    forall k | 0 <= k < n
      ensures PageOf((VIRT_OFFSET + used * 0x1000 + k * 0x1000) % TOP).a < 511
    {
      var f := used + k;
      var va := VIRT_OFFSET + f * 0x1000;
      assert VIRT_OFFSET + used * 0x1000 + k * 0x1000 == va && va % TOP == va;
      Digits(0xFFFF, 256, 0, f / 512, f % 512, 0);
    }
  }

  /** The boot tables map nothing in the kmalloc region. */
  lemma BootRegion(mem: seq<Table>, root: nat, f: nat)
    requires BootTables(mem, root) && f < FRAMES
    ensures K(f) !in SpaceOf(mem, root)
  {
    KDigits(f);
    KSmall(f);
    hide PageOf, BootTables;
    var p := K(f);
    assert 288 <= p.a < 304;
    BootSteps(mem, root, p.a);
    assert TableAt(mem, root, p, 2).None?;
    assert TableAt(mem, root, p, 3).None?;
    assert TableAt(mem, root, p, 4).None?;
  }

  /** page_init: the bitmap of frames, and the rest of the boot mapping removed. */
  method PageInit(mem: seq<Table>, root: nat, data: array<nat>, bits: nat, kernelEnd: nat) returns (m: Mmu)
    requires BootTables(mem, root) && root + 3 + NUM_PT <= kernelEnd && bits < FRAMES && bits <= |mem|
    requires BootUsed(bits, kernelEnd) <= bits && BootUsed(bits, kernelEnd) <= BOOTMAP_PAGES
    requires bits <= 64 * data.Length && 128 * data.Length < WORD
      && forall k :: 0 <= k < data.Length ==> data[k] < Pow2(64)
    modifies data
    ensures m.Valid() && fresh(m) && fresh(m.frames) && m.frames.words == data && m.frames.size == bits
      && m.root == root
    ensures m.frames.Bits() == BootBits(bits, BootUsed(bits, kernelEnd)) && m.tree == BootTree(root)
    ensures (forall f :: 0 <= f < bits ==> K(f) !in m.Space()) && Wide(m.mem, m.root)
  {
    hide Wide, BootTables, Mmu.Valid, Bitmap.Valid, Bitmap.Bits, BootTree, BootBits, SpaceOf, OutsideSelfMap, K,
      DropAll, Droppable, Pow2, SameTables, PageAt;
    assert BootUsed(bits, kernelEnd) >= kernelEnd;
    hide BootUsed;
    var used := BootUsed(bits, kernelEnd);
    m := BootMmu(mem, root, data, bits, used);
    m.FramesValid();
    UnmapRest(m, used);
    m.FramesValid();
  }

  /** The boot mapping of the frames that are not in use is removed (page.c:40-43). */
  method UnmapRest(m: Mmu, used: nat)
    requires m.Valid() && BootTables(m.mem, m.root) && used <= BOOTMAP_PAGES
    modifies m`mem
    ensures m.Valid() && Wide(m.mem, m.root) && forall f :: 0 <= f < m.frames.size ==> K(f) !in m.Space()
  {
    hide Wide, BootTables, Mmu.Valid, Bitmap.Valid, Bitmap.Bits, SpaceOf, OutsideSelfMap, K, DropAll, Droppable,
      SameTables, PageAt;
    m.FramesValid();
    HighHalf(used, BOOTMAP_PAGES - used);
    ghost var mem := m.mem;
    var n := UnmapPageRange(m, VIRT_OFFSET + used * 0x1000, BOOTMAP_PAGES - used);
    BootEmpty(mem, m.root, VIRT_OFFSET + used * 0x1000, n, m.frames.size);
    BootWide(mem, m.root);
    SameWide(mem, m.mem, m.root);
  }

  /** The boot code lets every table be written through. */
  lemma BootWide(mem: seq<Table>, root: nat)
    requires BootTables(mem, root)
    ensures Wide(mem, root)
  {
    forall p, l | IsPage(p) && 1 <= l <= 3 && UpperAt(mem, root, p, l).Some?
      ensures UpperAt(mem, root, p, l).value / 2 % 2 == 1
    {
      BootSteps(mem, root, p.a);
      BootSteps(mem, root, p.b);
      BootWays(mem, root, p);
      BootBit(root);
      BootBit(root + 1);
      BootBit(root + 2);
      BootBit(root + 3 + p.c);
      hide BootEntry, Present, TableAt;
    }
  }

  lemma BootWays(mem: seq<Table>, root: nat, p: Page)
    requires BootTables(mem, root) && IsPage(p)
    ensures TableAt(mem, root, p, 1) == Some(root)
    ensures TableAt(mem, root, p, 2) == if p.a == 0 || p.a == 256 then Some(root + 1) else None
    ensures TableAt(mem, root, p, 3) == if (p.a == 0 || p.a == 256) && p.b == 0 then Some(root + 2) else None
  {
    BootSteps(mem, root, p.a);
    BootSteps(mem, root, p.b);
    hide BootTables;
    assert TableAt(mem, root, p, 2) == Next(mem, root, p.a);
  }

  lemma BootBit(frame: nat)
    ensures BootEntry(frame) / 2 % 2 == 1 && !Present(0)
  {
    DivModOf(BootEntry(frame), 2, 0x800 * frame + 1, 1);
    DivModOf(0x800 * frame + 1, 2, 0x400 * frame, 1);
  }

  lemma BootEmpty(mem: seq<Table>, root: nat, va: nat, n: nat, bits: nat)
    requires BootTables(mem, root) && bits < FRAMES
    ensures forall f :: 0 <= f < bits ==> K(f) !in DropAll(SpaceOf(mem, root), va, n)
  {
    hide BootTables, SpaceOf, DropAll, K;
    forall f | 0 <= f < bits
      ensures K(f) !in DropAll(SpaceOf(mem, root), va, n)
    {
      BootRegion(mem, root, f);
      DropAllAt(SpaceOf(mem, root), va, n, K(f));
    }
  }

  /** The boot tables with a bitmap of the first frames. */
  method BootMmu(mem: seq<Table>, root: nat, data: array<nat>, bits: nat, used: nat) returns (m: Mmu)
    requires BootTables(mem, root) && root + 3 + NUM_PT <= used <= bits <= |mem| && bits < FRAMES
    requires bits <= 64 * data.Length && 128 * data.Length < WORD
      && forall k :: 0 <= k < data.Length ==> data[k] < Pow2(64)
    modifies data
    ensures m.Valid() && fresh(m) && fresh(m.frames) && m.frames.words == data && m.frames.size == bits
      && m.root == root
    ensures m.frames.Bits() == BootBits(bits, used) && m.tree == BootTree(root) && m.mem == mem
  {
    hide BootTables, Shape, BootTree, Bitmap.Valid, Bitmap.Bits, Pow2;
    var frames := new Bitmap(data, bits);
    frames.SetRange(0, used);
    assert frames.Bits() == BootBits(bits, used);
    BootShape(mem, root, frames.Bits());
    m := new Mmu(mem, root, frames, BootTree(root));
  }

  lemma {:induction false} NoTrues(s: seq<bool>)
    requires forall i :: 0 <= i < |s| ==> !s[i]
    ensures Trues(s) == 0
  {
    if s != [] { NoTrues(s[1..]); }
  }

  /** All frames from used on are free: the pool's block is the first of them. */
  lemma BootFits(bits: nat, used: nat)
    requires used + POOL_PAGES <= bits
    ensures FreeFrames(BootBits(bits, used)) == bits - used
    ensures IsFirstFit(BootBits(bits, used), POOL_PAGES, used) && !NoFit(BootBits(bits, used), POOL_PAGES)
    ensures forall r :: IsFirstFit(BootBits(bits, used), POOL_PAGES, r) ==> r == used
  {
    var b, none := BootBits(bits, used), seq(bits, _ => false);
    NoTrues(none);
    TruesFill(none, 0, used);
    assert Fill(none, 0, used, true) == b;
    assert RunClear(b, used, POOL_PAGES);
    forall i | 0 <= i < used
      ensures !RunClear(b, i, POOL_PAGES)
    {
      assert b[i];
    }
  }

  /** The start of the kernel (main.c:72-73): the heap is in order, and every used frame is one of the kernel's own, the
      pool's or a table's. */
  method Boot(mem: seq<Table>, root: nat, data: array<nat>, bits: nat, kernelEnd: nat) returns (h: Heap,
    ghost own: set<nat>)
    requires BootTables(mem, root) && root + 3 + NUM_PT <= kernelEnd && bits < FRAMES && bits <= |mem|
    requires BootUsed(bits, kernelEnd) + POOL_PAGES + 6 <= bits && BootUsed(bits, kernelEnd) <= BOOTMAP_PAGES
    requires bits <= 64 * data.Length && 128 * data.Length < WORD
      && forall k :: 0 <= k < data.Length ==> data[k] < Pow2(64)
    modifies data
    ensures h.Valid() && !h.locked && h.areas == [] && h.pool.total == 3276 && fresh(h) && fresh(h.m) && fresh(h.pool)
    ensures h.m.frames.words == data && fresh(h.pool.slots) && h.m.frames.Valid() && Books(h, own)
    ensures forall f :: f in own <==> 0 <= f < BootUsed(bits, kernelEnd) + POOL_PAGES
    ensures h.m.frames.size == bits && h.m.Free() >= bits - BootUsed(bits, kernelEnd) - POOL_PAGES - 6
  {
    hide Missing, Block, FrameAt, Cost, Mmu.Valid, Heap.Valid, Bitmap.Valid, Bitmap.Bits, BootTables, Mmu.Space, K,
      Pow2, FreeFrames, NoFit, Took, IsFirstFit, Tables, Enough, BootBits, Accounted, Books;
    ghost var used := BootUsed(bits, kernelEnd);
    var m := PageInit(mem, root, data, bits, kernelEnd);
    MmuFacts(m);
    BootFits(bits, used);
    CostCovers(POOL_PAGES);
    EnoughFrames(m.mem, m.root, m.frames.Bits(), POOL_PAGES);
    ghost var va, space, t, mem1 := 0, m.Space(), m.tree, m.mem;
    h, va := MmInit(m);
    HeapFacts(h);
    TookPlace(space, m.Space(), BootBits(bits, used), m.frames.Bits(), t, m.tree, m.root, va);
    CostBound(mem1, m.root, FrameAt(va), POOL_PAGES);
    own := Below(used + POOL_PAGES);
    BootBooks(h, own, space, used, t, va);
  }

  lemma TookPlace(space: imap<Page, nat>, space': imap<Page, nat>, bits: seq<bool>, bits': seq<bool>, t: Tree, t': Tree,
    root: nat, va: nat)
    requires Took(space, space', bits, bits', t, t', root, va, POOL_PAGES)
    ensures FrameAt(va) + POOL_PAGES <= |bits|
  {
  }

  lemma BootBooks(h: Heap, own: set<nat>, space: imap<Page, nat>, used: nat, t: Tree, va: nat)
    requires h.m.frames.Valid() && used + POOL_PAGES <= h.m.frames.size && h.areas == []
    requires forall f :: f in own <==> 0 <= f < used + POOL_PAGES
    requires Took(space, h.m.Space(), BootBits(h.m.frames.size, used), h.m.frames.Bits(), t, h.m.tree, h.m.root, va,
               POOL_PAGES)
    ensures Books(h, own)
  {
    hide Tables, IsFirstFit, FreeFrames, NoFit, MapAll, Mmu.Space, Bitmap.Valid, Bitmap.Bits;
    BootFits(h.m.frames.size, used);
    assert forall f :: !InArea(h.areas, f);
  }

  // ----- the pool can be filled

  lemma OnePage()
    ensures SizeToOrder(1) == 0 && Pow2(0) == 1
  {
  }

  /** While a frame is free, a block of one fits. */
  lemma OneFits(bits: seq<bool>)
    requires FreeFrames(bits) > 0
    ensures !NoFit(bits, 1)
  {
    SomeFree(bits);
    var i :| 0 <= i < |bits| && !bits[i];
    assert RunClear(bits, i, 1);
  }

  /** A page more: a new area, or a lost block when the pool is full. */
  method OneMore(h: Heap, ghost own: set<nat>) returns (ghost lost: bool)
    requires h.Valid() && !h.locked && h.m.frames.Valid() && Books(h, own) && h.m.Free() >= 7
    modifies h`areas, h`locked, h.m`mem, h.m`tree, h.m.frames.words, h.pool`freeList, h.pool`used, h.pool`free
    ensures h.Valid() && h.m.frames.Valid() && (Books(h, own) <==> !lost) && h.m.Free() >= old(h.m.Free()) - 7
    ensures lost <==> |old(h.areas)| == h.pool.total
    ensures if lost then h.locked && h.areas == old(h.areas) else !h.locked && |h.areas| == |old(h.areas)| + 1
  {
    hide Heap.Valid, Mmu.Valid, Bitmap.Valid, Bitmap.Bits, Books, SizeToOrder, Pow2, NoFit, Enough, FreeFrames, Cost;
    HeapFacts(h);
    OnePage();
    CostCovers(1);
    FreeBelow(h.m.frames.Bits());
    EnoughFrames(h.m.mem, h.m.root, h.m.frames.Bits(), 1);
    OneFits(h.m.frames.Bits());
    var va;
    va, lost := MallocStep(h, 1, own);
  }

  lemma FreeBelow(bits: seq<bool>)
    ensures FreeFrames(bits) <= |bits|
  {
  }

  /** The failing run, from boot: on a machine with memory enough for it, 3276 allocations of a page use up the pool,
      and the next one loses its frame and keeps the lock. */
  method FullPool(mem: seq<Table>, root: nat, data: array<nat>, bits: nat, kernelEnd: nat)
    returns (h: Heap, ghost own: set<nat>, ghost lost: bool)
    requires BootTables(mem, root) && root + 3 + NUM_PT <= kernelEnd && bits < FRAMES && bits <= |mem|
    requires BootUsed(bits, kernelEnd) + POOL_PAGES + 6 + 7 * 3277 <= bits && BootUsed(bits, kernelEnd) <= BOOTMAP_PAGES
    requires bits <= 64 * data.Length && 128 * data.Length < WORD
      && forall k :: 0 <= k < data.Length ==> data[k] < Pow2(64)
    modifies data
    ensures h.Valid() && h.m.frames.Valid() && |h.areas| == h.pool.total == 3276 && lost && h.locked && !Books(h, own)
  {
    hide Heap.Valid, Bitmap.Valid, Books, BootTables, BootUsed, Pow2;
    h, own := Boot(mem, root, data, bits, kernelEnd);
    var k := 0;
    while k < 3276
      invariant 0 <= k <= 3276 && h.Valid() && h.m.frames.Valid() && !h.locked && Books(h, own) && |h.areas| == k
      invariant h.pool.total == 3276 && h.m.Free() >= 7 * (3277 - k) && fresh(h) && fresh(h.m) && fresh(h.pool)
      invariant h.m.frames.words == data
    {
      lost := OneMore(h, own);
      k := k + 1;
    }
    lost := OneMore(h, own);
  }
}
