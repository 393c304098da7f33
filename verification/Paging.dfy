/** Mapping through the self-map: map_page_range, unmap_page_range and get_physaddr (page.c:66-207). */
module Paging {
  import opened Bytes
  import opened Geometry
  import opened BitWords
  import opened Bitmaps
  import opened Pages
  import opened PageTables
  import opened PageTree
  import opened TableCount

  /** The address space below slot 511: the entry of every mapped page, under its first name. */
  ghost function SpaceOf(mem: seq<Table>, root: nat): (s: imap<Page, nat>)
    ensures forall p :: p in s <==> IsPage(p) && p.a != 256 && LeafAt(mem, root, p).Some?
    ensures forall p :: p in s ==> s[p] == LeafAt(mem, root, p).value
  {
    imap p: Page | IsPage(p) && p.a != 256 && LeafAt(mem, root, p).Some? :: LeafAt(mem, root, p).value
  }

  /** The entry of a present page: its frame, the flags in the low 12 bits, and bit 0. */
  ghost function LeafFor(frame: nat, flags: nat): nat { frame * 0x1000 + flags / 2 * 2 + 1 }

  ghost function Drop(s: imap<Page, nat>, p: Page): (r: imap<Page, nat>)
    ensures forall q :: q in r <==> q in s && q != p
    ensures forall q :: q in r ==> r[q] == s[q]
  {
    imap q | q in s && q != p :: s[q]
  }

  /** A present entry for a frame with flag bits below the address. */
  function MakeEntry(pa: nat, flags: nat): (e: nat)
    requires flags < 0x1000
    ensures Present(e) && FrameOf(e) == pa / 0x1000 && e == LeafFor(pa / 0x1000, flags)
  {
    pa - pa % 0x1000 + flags + (1 - flags % 2)
  }

  lemma WideEntry(pa: nat, flags: nat)
    requires flags < 0x1000 && flags / 2 % 2 == 1
    ensures MakeEntry(pa, flags) / 2 % 2 == 1
  {
    DivModOf(MakeEntry(pa, flags), 2, 0x800 * (pa / 0x1000) + flags / 2, 1);
  }

  // ----- counting free frames

  lemma {:induction false} TruesSet(s: seq<bool>, i: nat)
    requires i < |s| && !s[i]
    ensures Trues(s[i := true]) == Trues(s) + 1
  {
    if i > 0 {
      TruesSet(s[1..], i - 1);
      assert s[i := true][1..] == s[1..][i - 1 := true];
    } else {
      assert s[i := true][1..] == s[1..];
    }
  }

  lemma {:induction false} SomeFree(s: seq<bool>)
    requires Trues(s) < |s|
    ensures exists i :: 0 <= i < |s| && !s[i]
  {
    if s[0] {
      SomeFree(s[1..]);
      var i :| 0 <= i < |s[1..]| && !s[1..][i];
      assert !s[i + 1];
    } else {
      assert !s[0];
    }
  }

  function FreeFrames(bits: seq<bool>): int { |bits| - Trues(bits) }

  // ----- values

  /** The walk to a table that was just entered, while it is being cleared. */
  lemma ReachNew(mem: seq<Table>, mem': seq<Table>, root: nat, bits: seq<bool>, t: Tree, p: Page, l: nat, f: nat,
    g: nat, e: nat)
    requires Shape(mem, root, bits, t) && IsPage(p) && 1 <= l <= 3 && TableAt(mem, root, p, l) == Some(f) && Present(e)
      && FrameOf(e) == g
    requires g < |bits| && !bits[g] && |mem'| == |mem| && f < |mem| && mem'[f] == mem[f][Idx(p, l) := e]
    requires forall h :: 0 <= h < |mem| && h != f && h != g ==> mem'[h] == mem[h]
    ensures TableAt(mem', root, p, l + 1) == Some(g) && Next(mem', root, 511) == Some(root) && f != g
  {
    FreeFrame(bits, t, root, g);
    OnLevel(mem, root, bits, t, p, l);
    assert root in Level(t, root, 1);
    UsedFrame(bits, t, root, 1, root);
    forall m | 1 <= m < l
      ensures Level(t, root, m) !! {f, g}
    {
      LevelsFacts(t, root, f, l, m);
    }
    WalkKept(mem, mem', root, bits, t, p, l, {f, g});
    hide Links, LevelsApart, InUse;
    assert Next(mem', root, 511) == Next(mem, root, 511);
  }

  /** The space after a new, empty table. */
  lemma SpaceEntered(mem: seq<Table>, mem': seq<Table>, root: nat, bits: seq<bool>, t: Tree, p: Page, l: nat, f: nat,
    g: nat, e: nat)
    requires Shape(mem, root, bits, t) && IsPage(p) && 1 <= l <= 3 && TableAt(mem, root, p, l) == Some(f)
    requires Next(mem, f, Idx(p, l)) == None && g < |bits| && !bits[g] && Entered(mem, mem', f, Idx(p, l), g, e)
    ensures SpaceOf(mem', root) == SpaceOf(mem, root)
  {
    hide Shape, Entered, Trans, LeafAt;
    forall q | IsPage(q)
      ensures LeafAt(mem', root, q) == LeafAt(mem, root, q)
    {
      EnteredTrans(mem, mem', root, bits, t, p, l, f, g, e, q);
    }
  }

  lemma SpaceLeaf(mem: seq<Table>, root: nat, bits: seq<bool>, t: Tree, p: Page, e: nat)
    requires Shape(mem, root, bits, t) && IsPage(p) && TableAt(mem, root, p, 4).Some?
      && TableAt(mem, root, p, 4).value < |mem|
    ensures SpaceOf(WriteEntry(mem, TableAt(mem, root, p, 4).value, p.d, e), root) ==
            if Present(e) then SpaceOf(mem, root)[Norm(p) := e] else Drop(SpaceOf(mem, root), Norm(p))
  {
    hide Shape, Trans, WriteEntry, LeafAt;
    var mem' := WriteEntry(mem, TableAt(mem, root, p, 4).value, p.d, e);
    forall q | IsPage(q)
      ensures LeafAt(mem', root, q) ==
              if Norm(p) == Norm(q) then (if Present(e) then Some(e) else None) else LeafAt(mem, root, q)
    {
      LeafTrans(mem, root, bits, t, p, q, e);
    }
  }

  /** A page's own entry decides whether it is in the space. */
  lemma InSpace(mem: seq<Table>, root: nat, bits: seq<bool>, t: Tree, p: Page)
    requires Shape(mem, root, bits, t) && IsPage(p)
    ensures Norm(p) in SpaceOf(mem, root) <==> LeafAt(mem, root, p).Some?
    ensures LeafAt(mem, root, p).Some? ==> SpaceOf(mem, root)[Norm(p)] == LeafAt(mem, root, p).value
  {
    SameWay(mem, root, bits, t, p, Norm(p), 4);
  }

  /** Frames were taken for new tables only. */
  ghost predicate Spent(bits: seq<bool>, bits': seq<bool>, t: Tree, t': Tree, root: nat) {
    && |bits'| == |bits|
    && (forall i :: 0 <= i < |bits| ==> (bits'[i] <==> bits[i] || i in Tables(t', root)))
    && Tables(t, root) <= Tables(t', root)
    && forall f :: f in Tables(t', root) && f < |bits| && bits[f] ==> f in Tables(t, root)
  }

  lemma SpentNone(bits: seq<bool>, t: Tree, root: nat)
    requires InUse(bits, t, root)
    ensures Spent(bits, bits, t, t, root)
  {
    hide Tables;
  }

  lemma SpentTrans(a: seq<bool>, b: seq<bool>, c: seq<bool>, t: Tree, u: Tree, v: Tree, root: nat)
    requires Spent(a, b, t, u, root) && Spent(b, c, u, v, root)
    ensures Spent(a, c, t, v, root)
  {
    hide Tables;
  }

  lemma SpentOne(bits: seq<bool>, t: Tree, root: nat, l: nat, f: nat, i: nat, g: nat)
    requires InUse(bits, t, root) && g < |bits| && !bits[g] && 1 <= l <= 3
    ensures Spent(bits, bits[g := true], t, Grow(t, l, f, i, g), root)
  {
    hide Tables, Grow;
    SpentNone(bits, t, root);
    GrowTables(t, root, l, f, i, g);
  }

  // ----- the machine

  class Mmu {
    var mem: seq<Table>        // physical frames, as tables of 512 entries
    const root: nat            // CR3
    const frames: Bitmap       // page_alloc_bitmap
    ghost var tree: Tree

    constructor (mem: seq<Table>, root: nat, frames: Bitmap, ghost tree: Tree)
      requires frames.Valid() && frames.size < 0x8000_0000 && Shape(mem, root, frames.Bits(), tree)
      ensures Valid() && this.mem == mem && this.root == root && this.frames == frames && this.tree == tree
    {
      this.mem, this.root, this.frames, this.tree := mem, root, frames, tree;
    }

    ghost predicate Valid()
      reads this, frames, frames.words
    {
      frames.Valid() && frames.size < 0x8000_0000 && Shape(mem, root, frames.Bits(), tree)
    }

    ghost function Space(): imap<Page, nat>
      reads `mem
    {
      SpaceOf(mem, root)
    }

    ghost function Free(): int
      requires frames.Valid()
      reads frames, frames.words
    {
      FreeFrames(frames.Bits())
    }

    lemma FramesValid()
      requires Valid()
      ensures frames.Valid() && frames.size < 0x8000_0000
    {
    }

    lemma SpentSame()
      requires Valid()
      ensures Spent(frames.Bits(), frames.Bits(), tree, tree, root)
    {
      SpentNone(frames.Bits(), tree, root);
    }

    /** A 64-bit load from a virtual address. */
    method Load(addr: nat) returns (e: nat)
      requires Trans(mem, root, PageOf(addr)).Some? && Trans(mem, root, PageOf(addr)).value < |mem|
      ensures e == mem[Trans(mem, root, PageOf(addr)).value][addr % 0x1000 / 8]
    {
      e := mem[Trans(mem, root, PageOf(addr)).value][addr % 0x1000 / 8];
    }

    /** A 64-bit store to a virtual address. */
    method Store(addr: nat, e: nat)
      requires Trans(mem, root, PageOf(addr)).Some? && Trans(mem, root, PageOf(addr)).value < |mem|
      modifies `mem
      ensures mem == WriteEntry(old(mem), Trans(old(mem), root, PageOf(addr)).value, addr % 0x1000 / 8, e)
    {
      mem := WriteEntry(mem, Trans(mem, root, PageOf(addr)).value, addr % 0x1000 / 8, e);
    }

    /** Where a self-map address leads while the tables are in order. */
    lemma Reach(p: Page, l: nat, j: nat)
      requires Valid() && IsPage(p) && 1 <= l <= 4 && j < 512 && TableAt(mem, root, p, l).Some?
      ensures Trans(mem, root, PageOf(EntryAddr(p, l, j))) == TableAt(mem, root, p, l)
        && EntryAddr(p, l, j) % 0x1000 / 8 == j
      ensures TableAt(mem, root, p, l).value < |mem|
    {
      hide Links, LevelsApart, InUse, EntryAddr, PageOf, Trans;
      SelfMap(mem, root, p, l, j);
      OnLevel(mem, root, frames.Bits(), tree, p, l);
    }

    /** alloc_page, while a free frame is left. */
    method AllocFrame() returns (pa: nat)
      requires frames.Valid() && frames.size < 0x8000_0000 && FreeFrames(frames.Bits()) > 0
      modifies frames.words
      ensures frames.Valid() && pa % PAGE == 0 && pa / PAGE < frames.size && !old(frames.Bits())[pa / PAGE]
      ensures frames.Bits() == old(frames.Bits())[pa / PAGE := true]
        && FreeFrames(frames.Bits()) == old(FreeFrames(frames.Bits())) - 1
    {
      ghost var bits := frames.Bits();
      SomeFree(bits);
      ghost var i :| 0 <= i < |bits| && !bits[i];
      assert RunClear(bits, i, 1);
      assert Pow2(0) == 1;
      hide Pow2, Trues;
      var r := AllocPages(frames, 0);
      pa := r;
      TruesSet(bits, pa / PAGE);
    }

    /** Clearing the new table through the self-map (page.c:97-100). */
    method ClearTable(p: Page, l: nat, ghost mem0: seq<Table>, ghost bits: seq<bool>, ghost f: nat, ghost g: nat,
      ghost e: nat)
      requires Shape(mem0, root, bits, tree) && IsPage(p) && 1 <= l <= 3 && TableAt(mem0, root, p, l) == Some(f)
        && Present(e) && FrameOf(e) == g
      requires g < |bits| && !bits[g] && f < |mem0| && mem == WriteEntry(mem0, f, Idx(p, l), e)
      modifies `mem
      ensures Entered(mem0, mem, f, Idx(p, l), g, e)
    {
      hide Shape, EntryAddr, PageOf, Trans, TableAt;
      InMemory(mem0, root, bits, tree);
      ReachNew(mem0, mem, root, bits, tree, p, l, f, g, e);
      var j := 0;
      while j < 512
        invariant 0 <= j <= 512 && |mem| == |mem0| && mem[f] == mem0[f][Idx(p, l) := e] && f != g
        invariant forall h :: 0 <= h < |mem0| && h != f && h != g ==> mem[h] == mem0[h]
        invariant forall k :: 0 <= k < j ==> mem[g][k] == 0
      {
        ReachNew(mem0, mem, root, bits, tree, p, l, f, g, e);
        SelfMap(mem, root, p, l + 1, j);
        Store(EntryAddr(p, l + 1, j), 0);
        j := j + 1;
      }
      assert mem[g] == seq(512, _ => 0);
    }

    /** A new and empty table for p below level l. */
    method AddTable(p: Page, l: nat, flags: nat, ghost ps: set<Page>)
      requires Valid() && IsPage(p) && 1 <= l <= 3 && TableAt(mem, root, p, l).Some?
        && TableAt(mem, root, p, l + 1).None?
      requires flags < 0x1000 && ArePages(ps) && Free() > 0
      modifies `mem, `tree, frames.words
      ensures Valid() && Space() == old(Space()) && TableAt(mem, root, p, l + 1).Some? && Free() == old(Free()) - 1
      ensures Missing(mem, root, ps) == old(Missing(mem, root, ps)) - {Way(p, l + 1)}
      ensures Spent(old(frames.Bits()), frames.Bits(), old(tree), tree, root)
      ensures old(Wide(mem, root)) && flags / 2 % 2 == 1 ==> Wide(mem, root)
    {
      hide Spent, Missing, ArePages, Way, Wide;
      hide Links, LevelsApart, InUse, Roots, EntryAddr, PageOf, Trans, Idx, SpaceOf, FreeFrames;
      ghost var mem0, bits, f := mem, frames.Bits(), TableAt(mem, root, p, l).value;
      IdxRange(p, l);
      Reach(p, l, Idx(p, l));
      var pa := AllocFrame();
      var e := MakeEntry(pa, flags);
      Store(EntryAddr(p, l, Idx(p, l)), e);
      ghost var g := pa / PAGE;
      ClearTable(p, l, mem0, bits, f, g, e);
      EnteredShape(mem0, mem, root, bits, tree, p, l, f, g, e);
      SpaceEntered(mem0, mem, root, bits, tree, p, l, f, g, e);
      EnteredTrans(mem0, mem, root, bits, tree, p, l, f, g, e, p);
      NextEntered(mem0, mem, f, Idx(p, l), g, e, f, Idx(p, l));
      EnteredMissing(mem0, mem, root, bits, tree, p, l, f, g, e, ps);
      if Wide(mem0, root) && flags / 2 % 2 == 1 {
        WideEntry(pa, flags);
        EnteredWide(mem0, mem, root, bits, tree, p, l, f, g, e);
      }
      SpentOne(bits, tree, root, l, f, Idx(p, l), g);
      tree := Grow(tree, l, f, Idx(p, l), g);
    }

    /** The entry of level l for p is made to lead to a table, a new and empty one if there was none (page.c:95-115).
        Of the tables missing for the pages ps, this one is taken off, at the cost of one frame. */
    method Ensure(p: Page, l: nat, flags: nat, ghost ps: set<Page>)
      requires Valid() && IsPage(p) && 1 <= l <= 3 && TableAt(mem, root, p, l).Some? && flags < 0x1000
      requires Norm(p) in ps && ArePages(ps) && Free() >= |Missing(mem, root, ps)|
      modifies `mem, `tree, frames.words
      ensures Valid() && Space() == old(Space()) && TableAt(mem, root, p, l + 1).Some?
      ensures Missing(mem, root, ps) == old(Missing(mem, root, ps)) - {Way(p, l + 1)}
      ensures Free() - |Missing(mem, root, ps)| == old(Free() - |Missing(mem, root, ps)|)
      ensures Spent(old(frames.Bits()), frames.Bits(), old(tree), tree, root)
      ensures old(Wide(mem, root)) && flags / 2 % 2 == 1 ==> Wide(mem, root)
    {
      hide Wide, Shape, Spent, Missing, ArePages, Way, Norm, EntryAddr, PageOf, Trans, SpaceOf, FreeFrames, TableAt;
      SpentSame();
      ThereForAll(mem, root, frames.Bits(), tree, p, l + 1, ps);
      var found := HasEntry(p, l);
      if !found {
        AddTable(p, l, flags, ps);
      }
    }

    /** The body of map_page_range's loop: the page is mapped unless it already is. It takes one frame for each table
        missing on its walk; of the tables missing for a set of pages around it, exactly these are no longer missing. */
    method MapOne(va: nat, pa: nat, flags: nat, ghost ps: set<Page>) returns (ok: bool)
      requires Valid() && PageOf(va).a < 511 && flags < 0x1000
      requires Norm(PageOf(va)) in ps && ArePages(ps) && Free() >= |Missing(mem, root, ps)|
      modifies `mem, `tree, frames.words
      ensures Valid() && Spent(old(frames.Bits()), frames.Bits(), old(tree), tree, root)
      ensures ok <==> Norm(PageOf(va)) !in old(Space())
      ensures Space() == if ok then old(Space())[Norm(PageOf(va)) := LeafFor(pa / 0x1000, flags)] else old(Space())
      ensures Missing(mem, root, ps) == old(Missing(mem, root, ps)) - Ways(PageOf(va))
      ensures Free() - |Missing(mem, root, ps)| == old(Free() - |Missing(mem, root, ps)|)
      ensures old(Wide(mem, root)) && flags / 2 % 2 == 1 ==> Wide(mem, root)
    {
      hide Wide, Valid, Bitmap.Valid, Bitmap.Bits, PageOf, TableAt, SpaceOf, FreeFrames, Spent, Missing, ArePages, Ways,
        Norm, SameTables, Present, FrameOf, MakeEntry;
      var p := PageOf(va);
      FramesValid();
      EnsureAll(p, flags, ps);
      FramesValid();
      ghost var mem1 := mem;
      ok := SetLeaf(p, MakeEntry(pa, flags));
      SameMissing(mem1, mem, root, ps);
      if Wide(mem1, root) { SameWide(mem1, mem, root); }
    }

    /** The three tables of the walk. */
    method EnsureAll(p: Page, flags: nat, ghost ps: set<Page>)
      requires Valid() && IsPage(p) && flags < 0x1000
      requires Norm(p) in ps && ArePages(ps) && Free() >= |Missing(mem, root, ps)|
      modifies `mem, `tree, frames.words
      ensures Valid() && Space() == old(Space()) && TableAt(mem, root, p, 4).Some?
      ensures Spent(old(frames.Bits()), frames.Bits(), old(tree), tree, root)
      ensures Missing(mem, root, ps) == old(Missing(mem, root, ps)) - Ways(p)
      ensures Free() - |Missing(mem, root, ps)| == old(Free() - |Missing(mem, root, ps)|)
      ensures old(Wide(mem, root)) && flags / 2 % 2 == 1 ==> Wide(mem, root)
    {
      hide Wide, Valid, Bitmap.Valid, Bitmap.Bits, IsPage, TableAt, SpaceOf, FreeFrames, Spent, Missing, ArePages, Way,
        Ways, Norm;
      FramesValid();
      StartTable(mem, root, p);
      ghost var b0, t0 := frames.Bits(), tree;
      Ensure(p, 1, flags, ps);
      FramesValid();
      ghost var b1, t1 := frames.Bits(), tree;
      Ensure(p, 2, flags, ps);
      FramesValid();
      ghost var b2, t2 := frames.Bits(), tree;
      SpentTrans(b0, b1, b2, t0, t1, t2, root);
      Ensure(p, 3, flags, ps);
      FramesValid();
      SpentTrans(b0, b2, frames.Bits(), t0, t2, tree, root);
      ThreeOff(old(Missing(mem, root, ps)), p);
    }

    /** The last step: a clear page-table entry is filled (page.c:116-121). */
    method SetLeaf(p: Page, v: nat) returns (ok: bool)
      requires Valid() && IsPage(p) && TableAt(mem, root, p, 4).Some? && Present(v)
      modifies `mem
      ensures Valid() && (ok <==> Norm(p) !in old(Space())) && SameTables(old(mem), mem, root)
      ensures Space() == if ok then old(Space())[Norm(p) := v] else old(Space())
    {
      hide Shape, EntryAddr, PageOf, SpaceOf;
      ghost var f := TableAt(mem, root, p, 4).value;
      Reach(p, 4, p.d);
      InSpace(mem, root, frames.Bits(), tree, p);
      OnLevel(mem, root, frames.Bits(), tree, p, 4);
      var e := Load(EntryAddr(p, 4, p.d));
      if Present(e) {
        return false;
      }
      hide SameTables;
      SpaceLeaf(mem, root, frames.Bits(), tree, p, v);
      LeafShape(mem, root, frames.Bits(), tree, f, p.d, v);
      LeafTables(mem, root, frames.Bits(), tree, f, p.d, v);
      Store(EntryAddr(p, 4, p.d), v);
      ok := true;
    }

    /** Is the entry of level l present? */
    method HasEntry(p: Page, l: nat) returns (found: bool)
      requires Valid() && IsPage(p) && 1 <= l <= 3 && TableAt(mem, root, p, l).Some?
      ensures found <==> TableAt(mem, root, p, l + 1).Some?
      ensures !found ==> TableAt(mem, root, p, 4).None?
    {
      hide Shape, EntryAddr, PageOf, Trans;
      IdxRange(p, l);
      Reach(p, l, Idx(p, l));
      var e := Load(EntryAddr(p, l, Idx(p, l)));
      found := Present(e);
      if !found { NoTable(mem, root, p, l); }
    }

    /** Reading down to the page table, through the self-map, as far as entries are present. */
    method Descend(p: Page) returns (found: bool)
      requires Valid() && IsPage(p)
      ensures found <==> TableAt(mem, root, p, 4).Some?
    {
      hide Shape, TableAt;
      StartTable(mem, root, p);
      found := HasEntry(p, 1);
      if !found {
        return;
      }
      found := HasEntry(p, 2);
      if !found {
        return;
      }
      found := HasEntry(p, 3);
    }

    /** The body of unmap_page_range's loop: the page is unmapped if it is mapped. */
    method UnmapOne(va: nat) returns (ok: bool)
      requires Valid() && PageOf(va).a < 511
      modifies `mem
      ensures Valid() && (ok <==> Norm(PageOf(va)) in old(Space())) && SameTables(old(mem), mem, root)
      ensures Space() == if ok then Drop(old(Space()), Norm(PageOf(va))) else old(Space())
    {
      hide Shape, EntryAddr, PageOf, SpaceOf;
      var p := PageOf(va);
      InSpace(mem, root, frames.Bits(), tree, p);
      ok := Descend(p);
      if !ok {
        return;
      }
      ghost var f := TableAt(mem, root, p, 4).value;
      Reach(p, 4, p.d);
      OnLevel(mem, root, frames.Bits(), tree, p, 4);
      var e := Load(EntryAddr(p, 4, p.d));
      if !Present(e) {
        return false;
      }
      SpaceLeaf(mem, root, frames.Bits(), tree, p, 0);
      hide SameTables;
      LeafShape(mem, root, frames.Bits(), tree, f, p.d, 0);
      LeafTables(mem, root, frames.Bits(), tree, f, p.d, 0);
      Store(EntryAddr(p, 4, p.d), 0);
    }

    /** get_physaddr: the physical address of a mapped address, -MAP_ERR_NOTMAPPED otherwise. */
    method GetPhysaddr(va: nat) returns (r: int)
      requires Valid() && PageOf(va).a < 511
      ensures r == if Norm(PageOf(va)) in Space()
                   then FrameOf(Space()[Norm(PageOf(va))]) * 0x1000 + va % 0x1000 else -100
    {
      hide Shape, EntryAddr, PageOf, SpaceOf;
      var p := PageOf(va);
      InSpace(mem, root, frames.Bits(), tree, p);
      var found := Descend(p);
      if !found {
        return -100;
      }
      Reach(p, 4, p.d);
      var e := Load(EntryAddr(p, 4, p.d));
      if !Present(e) {
        return -100;
      }
      r := e - e % 0x1000 + va % 0x1000;
    }
  }

  lemma ThreeOff(s: set<Page>, p: Page)
    ensures s - {Way(p, 2)} - {Way(p, 3)} - {Way(p, 4)} == s - Ways(p)
  {
  }

  lemma StartTable(mem: seq<Table>, root: nat, p: Page)
    ensures TableAt(mem, root, p, 1) == Some(root)
  {
  }

  lemma NoTable(mem: seq<Table>, root: nat, p: Page, l: nat)
    requires 1 <= l <= 3 && TableAt(mem, root, p, l + 1).None?
    ensures TableAt(mem, root, p, 4).None?
  {
  }

  lemma IdxRange(p: Page, l: nat)
    requires IsPage(p)
    ensures Idx(p, l) < 512
  {
  }

  lemma InMemory(mem: seq<Table>, root: nat, bits: seq<bool>, t: Tree)
    requires Shape(mem, root, bits, t)
    ensures |bits| <= |mem|
  {
  }

  // ----- ranges

  /** The k-th page of a range, in 64-bit arithmetic. */
  function PageAt(va: nat, k: nat): Page {
    Norm(PageOf((va + k * 0x1000) % TOP))
  }

  /** The pages of the range are unmapped and different from each other. */
  ghost predicate Fresh(s: imap<Page, nat>, va: nat, n: nat) {
    (forall k :: 0 <= k < n ==> PageAt(va, k) !in s) && forall j, k :: 0 <= j < k < n ==> PageAt(va, j) != PageAt(va, k)
  }

  ghost function MapAll(s: imap<Page, nat>, va: nat, pa: nat, flags: nat, n: nat): imap<Page, nat> {
    if n == 0 then s else MapAll(s, va, pa, flags, n - 1)[PageAt(va, n - 1) := LeafFor(pa / 0x1000 + (n - 1), flags)]
  }

  ghost function DropAll(s: imap<Page, nat>, va: nat, n: nat): imap<Page, nat> {
    if n == 0 then s else Drop(DropAll(s, va, n - 1), PageAt(va, n - 1))
  }

  /** A mapped range: each page has its own frame, every other page is as before. */
  lemma {:induction false} MapAllAt(s: imap<Page, nat>, va: nat, pa: nat, flags: nat, n: nat, q: Page)
    ensures q in s ==> q in MapAll(s, va, pa, flags, n)
    ensures (forall k :: 0 <= k < n ==> PageAt(va, k) != q) ==> (q in MapAll(s, va, pa, flags, n) <==> q in s)
    ensures (forall k :: 0 <= k < n ==> PageAt(va, k) != q) && q in s ==> MapAll(s, va, pa, flags, n)[q] == s[q]
  {
    if n > 0 {
      MapAllAt(s, va, pa, flags, n - 1, q);
    }
  }

  lemma {:induction false} MapAllHit(s: imap<Page, nat>, va: nat, pa: nat, flags: nat, n: nat, k: nat)
    requires Fresh(s, va, n) && k < n
    ensures PageAt(va, k) in MapAll(s, va, pa, flags, n)
    ensures MapAll(s, va, pa, flags, n)[PageAt(va, k)] == LeafFor(pa / 0x1000 + k, flags)
  {
    hide PageAt;
    if k < n - 1 {
      MapAllHit(s, va, pa, flags, n - 1, k);
    }
  }

  lemma {:induction false} DropAllAt(s: imap<Page, nat>, va: nat, n: nat, q: Page)
    ensures q in DropAll(s, va, n) <==> q in s && forall k :: 0 <= k < n ==> PageAt(va, k) != q
    ensures q in DropAll(s, va, n) ==> DropAll(s, va, n)[q] == s[q]
  {
    hide PageAt;
    if n > 0 {
      DropAllAt(s, va, n - 1, q);
    }
  }

  /** Unmapping a fresh range that was mapped restores the space. */
  lemma MapThenUnmap(s: imap<Page, nat>, va: nat, pa: nat, flags: nat, n: nat)
    requires Fresh(s, va, n)
    ensures DropAll(MapAll(s, va, pa, flags, n), va, n) == s
  {
    hide PageAt;
    var m := MapAll(s, va, pa, flags, n);
    var d := DropAll(m, va, n);
    forall q
      ensures (q in d <==> q in s) && (q in d ==> d[q] == s[q])
    {
      DropAllAt(m, va, n, q);
      MapAllAt(s, va, pa, flags, n, q);
    }
  }

  /** Every page of the range can be unmapped in turn. */
  ghost predicate Droppable(s: imap<Page, nat>, va: nat, n: nat) {
    forall k :: 0 <= k < n ==> PageAt(va, k) in DropAll(s, va, k)
  }

  lemma MappedIsDroppable(s: imap<Page, nat>, va: nat, pa: nat, flags: nat, n: nat)
    requires Fresh(s, va, n)
    ensures Droppable(MapAll(s, va, pa, flags, n), va, n)
  {
    hide PageAt;
    var m := MapAll(s, va, pa, flags, n);
    forall k | 0 <= k < n
      ensures PageAt(va, k) in DropAll(m, va, k)
    {
      MapAllHit(s, va, pa, flags, n, k);
      DropAllAt(m, va, k, PageAt(va, k));
    }
  }

  lemma FreshNext(s: imap<Page, nat>, va: nat, pa: nat, flags: nat, i: nat)
    requires Fresh(s, va, i)
    ensures Fresh(s, va, i + 1) <==> PageAt(va, i) !in MapAll(s, va, pa, flags, i)
  {
    hide PageAt;
    MapAllAt(s, va, pa, flags, i, PageAt(va, i));
    if exists k :: 0 <= k < i && PageAt(va, k) == PageAt(va, i) {
      var k :| 0 <= k < i && PageAt(va, k) == PageAt(va, i);
      MapAllHit(s, va, pa, flags, i, k);
    }
  }

  lemma FreshPrefix(s: imap<Page, nat>, va: nat, i: nat, n: nat)
    requires i <= n && Fresh(s, va, n)
    ensures Fresh(s, va, i)
  {
  }

  /** No page of the range lies in slot 511. */
  predicate OutsideSelfMap(va: nat, n: nat) {
    forall k :: 0 <= k < n ==> PageOf((va + k * 0x1000) % TOP).a < 511
  }

  /** unmap_page_range: unmaps pages in order until one is not mapped, and returns how many it unmapped. */
  method UnmapPageRange(m: Mmu, virtaddr: nat, len: nat) returns (ret: nat)
    requires m.Valid() && OutsideSelfMap(virtaddr, len)
    modifies m`mem
    ensures m.Valid() && ret <= len && m.Space() == DropAll(old(m.Space()), virtaddr, ret)
      && Droppable(old(m.Space()), virtaddr, ret)
    ensures ret < len ==> PageAt(virtaddr, ret) !in m.Space()
    ensures SameTables(old(m.mem), m.mem, m.root)
    ensures Droppable(old(m.Space()), virtaddr, len) ==> ret == len
  {
    hide Shape, PageOf, SpaceOf, SameTables;
    ghost var s := m.Space();
    SameSelf(m.mem, m.root);
    ret := 0;
    while ret < len
      invariant 0 <= ret <= len && m.Valid() && m.Space() == DropAll(s, virtaddr, ret) && Droppable(s, virtaddr, ret)
      invariant SameTables(old(m.mem), m.mem, m.root)
    {
      ghost var mem1 := m.mem;
      var ok := m.UnmapOne((virtaddr + ret * 0x1000) % TOP);
      SameTrans(old(m.mem), mem1, m.mem, m.root);
      if !ok {
        return;
      }
      ret := ret + 1;
    }
  }

  /** Undoing the first i pages of a range (page.c:118-119). */
  method Rollback(m: Mmu, ghost physaddr: nat, ghost flags: nat, virtaddr: nat, i: nat, ghost len: nat,
                  ghost s: imap<Page, nat>)
    requires m.Valid() && OutsideSelfMap(virtaddr, len) && i <= len && Fresh(s, virtaddr, i)
      && m.Space() == MapAll(s, virtaddr, physaddr, flags, i)
    modifies m`mem
    ensures m.Valid() && m.frames.Valid() && m.Space() == s && SameTables(old(m.mem), m.mem, m.root)
  {
    hide Mmu.Valid, SameTables, PageOf, SpaceOf, Fresh, PageAt, MapAll, Droppable, DropAll;
    MappedIsDroppable(s, virtaddr, physaddr, flags, i);
    MapThenUnmap(s, virtaddr, physaddr, flags, i);
    assert OutsideSelfMap(virtaddr, i);
    var undone := UnmapPageRange(m, virtaddr, i);
    m.FramesValid();
  }

  lemma RangePage(va: nat, n: nat, k: nat)
    requires OutsideSelfMap(va, n) && k < n
    ensures PageOf((va + k * 0x1000) % TOP).a < 511
  {
  }

  /** The pages map_page_range comes to: those before which every page was fresh. */
  ghost function Reached(s: imap<Page, nat>, va: nat, len: nat): set<Page> {
    set k | 0 <= k < len && Fresh(s, va, k) :: PageAt(va, k)
  }

  /** The tables on the walks of the first n pages. */
  ghost function WaysOf(va: nat, n: nat): set<Page> {
    if n == 0 then {} else WaysOf(va, n - 1) + Ways(PageAt(va, n - 1))
  }

  lemma {:induction false} WayOfPage(va: nat, n: nat, k: nat, l: nat)
    requires k < n && 2 <= l <= 4
    ensures Way(PageAt(va, k), l) in WaysOf(va, n)
  {
    hide PageAt, Way;
    if k < n - 1 {
      WayOfPage(va, n - 1, k, l);
    }
  }

  lemma ReachedPages(s: imap<Page, nat>, va: nat, len: nat)
    requires OutsideSelfMap(va, len)
    ensures ArePages(Reached(s, va, len))
  {
    hide PageOf, Fresh;
    assert forall k :: 0 <= k < len ==> PageOf((va + k * 0x1000) % TOP).a < 511;
  }

  /** Once the loop has done the pages it comes to, none of their tables is missing. */
  lemma AllFound(mem: seq<Table>, root: nat, s: imap<Page, nat>, va: nat, len: nat, i: nat)
    requires i == len || (i < len && !Fresh(s, va, i))
    ensures Missing(mem, root, Reached(s, va, len)) - WaysOf(va, i) == {}
  {
    hide PageAt, Way, Fresh, TableAt, WaysOf;
    forall p, l | p in Reached(s, va, len) && 2 <= l <= 4 && TableAt(mem, root, p, l).None?
      ensures Way(p, l) in WaysOf(va, i)
    {
      var k :| 0 <= k < len && Fresh(s, va, k) && p == PageAt(va, k);
      if i <= k { FreshPrefix(s, va, i, k); }
      WayOfPage(va, i, k, l);
    }
  }

  /** Of the tables missing for ps at the start, those named are there now, at the cost of one frame each. */
  ghost predicate Counted(m: Mmu, ps: set<Page>, mem: seq<Table>, bits: seq<bool>, there: set<Page>)
    reads m, m.frames, m.frames.words
  {
    && m.frames.Valid() && Missing(m.mem, m.root, ps) == Missing(mem, m.root, ps) - there
    && m.Free() - |Missing(m.mem, m.root, ps)| == FreeFrames(bits) - |Missing(mem, m.root, ps)|
  }

  /** The first i pages are mapped. */
  ghost predicate Progress(m: Mmu, s: imap<Page, nat>, bits: seq<bool>, t: Tree, pa: nat, flags: nat, va: nat, i: nat)
    reads m, m.frames, m.frames.words
  {
    && m.Valid() && m.Space() == MapAll(s, va, pa, flags, i) && Fresh(s, va, i)
    && Spent(bits, m.frames.Bits(), t, m.tree, m.root)
  }

  /** One page of the range and what it does to the count. */
  method MapCounted(m: Mmu, va: nat, pa: nat, flags: nat, ghost ps: set<Page>, ghost mem: seq<Table>,
    ghost bits: seq<bool>, ghost there: set<Page>)
    returns (ok: bool)
    requires m.Valid() && flags < 0x1000 && PageOf(va).a < 511 && Norm(PageOf(va)) in ps && ArePages(ps)
    requires Counted(m, ps, mem, bits, there) && FreeFrames(bits) >= |Missing(mem, m.root, ps)|
    modifies m`mem, m`tree, m.frames.words
    ensures m.Valid() && Spent(old(m.frames.Bits()), m.frames.Bits(), old(m.tree), m.tree, m.root)
    ensures ok <==> Norm(PageOf(va)) !in old(m.Space())
    ensures m.Space() == if ok then old(m.Space())[Norm(PageOf(va)) := LeafFor(pa / 0x1000, flags)] else old(m.Space())
    ensures Counted(m, ps, mem, bits, there + Ways(PageOf(va)))
    ensures old(Wide(m.mem, m.root)) && flags / 2 % 2 == 1 ==> Wide(m.mem, m.root)
  {
    hide Wide, Mmu.Valid, Mmu.Space, Bitmap.Valid, Bitmap.Bits, PageOf, Norm, Spent, FreeFrames, ArePages, Missing,
      Ways;
    m.FramesValid();
    ok := m.MapOne(va, pa, flags, ps);
    m.FramesValid();
  }

  lemma NextWays(va: nat, i: nat)
    ensures PageAt(va, i) == Norm(PageOf((va + i * 0x1000) % TOP))
    ensures WaysOf(va, i + 1) == WaysOf(va, i) + Ways(PageOf((va + i * 0x1000) % TOP))
  {
    hide PageOf;
    var p := PageOf((va + i * 0x1000) % TOP);
    assert Ways(Norm(p)) == Ways(p);
    assert WaysOf(va, i + 1) == WaysOf(va, i) + Ways(Norm(p));
  }

  lemma CountedSame(m: Mmu, ps: set<Page>, mem: seq<Table>, mem1: seq<Table>, bits: seq<bool>, free: int,
    there: set<Page>)
    requires SameTables(mem1, m.mem, m.root) && ArePages(ps) && m.frames.Valid()
    requires Missing(mem1, m.root, ps) == Missing(mem, m.root, ps) - there
    requires free - |Missing(mem1, m.root, ps)| == FreeFrames(bits) - |Missing(mem, m.root, ps)| && m.Free() == free
    ensures Counted(m, ps, mem, bits, there)
  {
    hide Missing, ArePages;
    SameMissing(mem1, m.mem, m.root, ps);
  }

  /** One round of map_page_range, with the rollback on a conflict. */
  method MapRound(m: Mmu, pa: nat, va: nat, flags: nat, i: nat, ghost len: nat, ghost s: imap<Page, nat>,
    ghost mem: seq<Table>,
    ghost bits: seq<bool>, ghost t: Tree)
    returns (ok: bool)
    requires Progress(m, s, bits, t, pa, flags, va, i) && i < len && OutsideSelfMap(va, len) && flags < 0x1000
    requires Counted(m, Reached(s, va, len), mem, bits, WaysOf(va, i))
    requires FreeFrames(bits) >= |Missing(mem, m.root, Reached(s, va, len))|
    modifies m`mem, m`tree, m.frames.words
    ensures ok ==> Progress(m, s, bits, t, pa, flags, va, i + 1)
    ensures !ok ==> m.Valid() && m.Space() == s && !Fresh(s, va, i + 1)
    ensures !ok ==> Spent(bits, m.frames.Bits(), t, m.tree, m.root)
    ensures Counted(m, Reached(s, va, len), mem, bits, WaysOf(va, i + 1))
    ensures old(Wide(m.mem, m.root)) && flags / 2 % 2 == 1 ==> Wide(m.mem, m.root)
  {
    hide Wide, Mmu.Valid, Bitmap.Valid, Bitmap.Bits, PageOf, SpaceOf, Spent, FreeFrames, Fresh, PageAt, MapAll,
      OutsideSelfMap, Norm;
    hide Progress, Mmu.Space, Missing, ArePages, Reached, WaysOf, SameTables;
    ProgressEnd(m, s, bits, t, pa, flags, va, i);
    ReachedPages(s, va, len);
    ReachedAt(s, va, len, i);
    ghost var b1, t1, ps := m.frames.Bits(), m.tree, Reached(s, va, len);
    FreshNext(s, va, pa, flags, i);
    MapNext(s, va, pa, flags, i);
    RangePage(va, len, i);
    NextWays(va, i);
    ok := MapCounted(m, (va + i * 0x1000) % TOP, pa + i * 0x1000, flags, ps, mem, bits, WaysOf(va, i));
    m.FramesValid();
    SpentTrans(bits, b1, m.frames.Bits(), t, t1, m.tree, m.root);
    if ok {
      ProgressBy(m, s, bits, t, pa, flags, va, i + 1);
    } else {
      ghost var mem1, free := m.mem, m.Free();
      Rollback(m, pa, flags, va, i, len, s);
      CountedSame(m, ps, mem, mem1, bits, free, WaysOf(va, i + 1));
      if Wide(mem1, m.root) { SameWide(mem1, m.mem, m.root); }
    }
  }

  lemma ReachedAt(s: imap<Page, nat>, va: nat, len: nat, i: nat)
    requires i < len && Fresh(s, va, i)
    ensures PageAt(va, i) in Reached(s, va, len)
  {
    hide PageAt;
  }

  lemma ProgressBy(m: Mmu, s: imap<Page, nat>, bits: seq<bool>, t: Tree, pa: nat, flags: nat, va: nat, n: nat)
    requires m.Valid() && Spent(bits, m.frames.Bits(), t, m.tree, m.root)
    requires Fresh(s, va, n) && m.Space() == MapAll(s, va, pa, flags, n)
    ensures Progress(m, s, bits, t, pa, flags, va, n)
  {
  }

  lemma ProgressStart(m: Mmu, pa: nat, flags: nat, va: nat, ps: set<Page>)
    requires m.Valid()
    ensures Progress(m, m.Space(), m.frames.Bits(), m.tree, pa, flags, va, 0)
      && Counted(m, ps, m.mem, m.frames.Bits(), WaysOf(va, 0))
  {
    hide PageOf, SpaceOf, Spent, FreeFrames, Shape, Missing;
    m.SpentSame();
  }

  lemma ProgressEnd(m: Mmu, s: imap<Page, nat>, bits: seq<bool>, t: Tree, pa: nat, flags: nat, va: nat, n: nat)
    requires Progress(m, s, bits, t, pa, flags, va, n)
    ensures m.Valid() && Spent(bits, m.frames.Bits(), t, m.tree, m.root)
    ensures Fresh(s, va, n) && m.Space() == MapAll(s, va, pa, flags, n)
  {
  }

  lemma CountedAll(m: Mmu, ps: set<Page>, mem: seq<Table>, bits: seq<bool>, there: set<Page>)
    requires Counted(m, ps, mem, bits, there) && Missing(mem, m.root, ps) - there == {}
    ensures m.Free() == FreeFrames(bits) - |Missing(mem, m.root, ps)|
  {
  }

  /** map_page_range: all pages are mapped, or none: on a conflict the pages mapped so far are unmapped again. Either
      way it takes exactly one frame for each table missing on the walks of the pages it comes to. */
  method MapPageRange(m: Mmu, physaddr: nat, virtaddr: nat, flags: nat, len: nat) returns (ret: int)
    requires m.Valid() && OutsideSelfMap(virtaddr, len) && flags < 0x1000
    requires m.Free() >= |Missing(m.mem, m.root, Reached(m.Space(), virtaddr, len))|
    modifies m`mem, m`tree, m.frames.words
    ensures m.Valid() && Spent(old(m.frames.Bits()), m.frames.Bits(), old(m.tree), m.tree, m.root)
    ensures m.Free() == old(m.Free() - |Missing(m.mem, m.root, Reached(m.Space(), virtaddr, len))|)
    ensures ret == if Fresh(old(m.Space()), virtaddr, len) then len else -17
    ensures m.Space() == if ret == len then MapAll(old(m.Space()), virtaddr, physaddr, flags, len) else old(m.Space())
    ensures old(Wide(m.mem, m.root)) && flags / 2 % 2 == 1 ==> Wide(m.mem, m.root)
  {
    hide Wide, Mmu.Valid, Bitmap.Valid, Bitmap.Bits, PageOf, SpaceOf, Spent, FreeFrames, Fresh, PageAt, MapAll,
      OutsideSelfMap, Norm;
    hide Progress, Mmu.Space, Missing, Reached, WaysOf, Counted;
    m.FramesValid();
    ghost var s, bits, t, mem := m.Space(), m.frames.Bits(), m.tree, m.mem;
    ghost var ps := Reached(s, virtaddr, len);
    ProgressStart(m, physaddr, flags, virtaddr, ps);
    var i := 0;
    while i < len
      invariant 0 <= i <= len && Progress(m, s, bits, t, physaddr, flags, virtaddr, i)
        && Counted(m, ps, mem, bits, WaysOf(virtaddr, i))
      invariant Wide(mem, m.root) && flags / 2 % 2 == 1 ==> Wide(m.mem, m.root)
    {
      var ok := MapRound(m, physaddr, virtaddr, flags, i, len, s, mem, bits, t);
      if !ok {
        NotFresh(s, virtaddr, i + 1, len);
        AllFound(mem, m.root, s, virtaddr, len, i + 1);
        CountedAll(m, ps, mem, bits, WaysOf(virtaddr, i + 1));
        return -17;
      }
      i := i + 1;
    }
    ProgressEnd(m, s, bits, t, physaddr, flags, virtaddr, len);
    AllFound(mem, m.root, s, virtaddr, len, len);
    CountedAll(m, ps, mem, bits, WaysOf(virtaddr, len));
    ret := len;
  }

  lemma MapNext(s: imap<Page, nat>, va: nat, pa: nat, flags: nat, i: nat)
    ensures PageAt(va, i) == Norm(PageOf((va + i * 0x1000) % TOP))
    ensures MapAll(s, va, pa, flags, i + 1) ==
            MapAll(s, va, pa, flags, i)[PageAt(va, i) := LeafFor((pa + i * 0x1000) / 0x1000, flags)]
  {
  }

  lemma NotFresh(s: imap<Page, nat>, va: nat, i: nat, n: nat)
    requires i <= n && !Fresh(s, va, i)
    ensures !Fresh(s, va, n)
  {
    if Fresh(s, va, n) {
      FreshPrefix(s, va, i, n);
    }
  }
}
