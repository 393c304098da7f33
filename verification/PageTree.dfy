/** Page tables form a tree, except that the boot code enters one PDPT in slots 0 and 256 (head.S:49-50). */
module PageTree {
  import opened Geometry
  import opened PageTables

  /** For each table below the root, where its only entry is; a PDPT has one slot up to the boot alias. */
  datatype Tree = Tree(pdpts: map<nat, nat>, pds: map<nat, (nat, nat)>, pts: map<nat, (nat, nat)>)

  /** Slot 256 stands for the same tables as slot 0. */
  function Rep(a: nat): nat { if a == 256 then 0 else a }

  /** The page by its first name. */
  function Norm(p: Page): Page { p.(a := Rep(p.a)) }

  /** The tables of a level. */
  ghost function Level(t: Tree, root: nat, l: nat): set<nat> {
    if l == 1 then {root} else if l == 2 then t.pdpts.Keys
    else if l == 3 then t.pds.Keys else if l == 4 then t.pts.Keys else {}
  }

  /** All frames that hold tables. */
  ghost function Tables(t: Tree, root: nat): set<nat> {
    {root} + t.pdpts.Keys + t.pds.Keys + t.pts.Keys
  }

  ghost predicate InUse(bits: seq<bool>, t: Tree, root: nat) {
    forall f :: f in Tables(t, root) ==> f < |bits| && bits[f]
  }

  ghost predicate LevelsApart(t: Tree, root: nat) {
    forall l, m, f :: 1 <= l < m <= 4 && f in Level(t, root, l) ==> f !in Level(t, root, m)
  }

  ghost predicate Roots(mem: seq<Table>, root: nat, t: Tree) {
    && Next(mem, root, 511) == Some(root)
    && Next(mem, root, 0).Some? && Next(mem, root, 256) == Next(mem, root, 0)
    && forall a :: 0 <= a < 511 && Next(mem, root, a).Some? ==>
                     Next(mem, root, a).value in t.pdpts && t.pdpts[Next(mem, root, a).value] == Rep(a)
  }

  ghost predicate Links(mem: seq<Table>, from: set<nat>, to: map<nat, (nat, nat)>) {
    forall f, i :: f in from && 0 <= i < 512 && Next(mem, f, i).Some? ==>
                     Next(mem, f, i).value in to && to[Next(mem, f, i).value] == (f, i)
  }

  /** The tables in memory are the tree, and the bitmap of frames counts them as used. */
  ghost predicate Shape(mem: seq<Table>, root: nat, bits: seq<bool>, t: Tree) {
    && |bits| <= |mem| && InUse(bits, t, root) && LevelsApart(t, root)
    && Roots(mem, root, t) && Links(mem, t.pdpts.Keys, t.pds) && Links(mem, t.pds.Keys, t.pts)
  }

  lemma {:induction false} OnLevel(mem: seq<Table>, root: nat, bits: seq<bool>, t: Tree, p: Page, l: nat)
    requires Shape(mem, root, bits, t) && IsPage(p) && 1 <= l <= 4 && TableAt(mem, root, p, l).Some?
    ensures TableAt(mem, root, p, l).value in Level(t, root, l)
    ensures TableAt(mem, root, p, l).value < |bits| <= |mem| && bits[TableAt(mem, root, p, l).value]
  {
    if l > 1 {
      OnLevel(mem, root, bits, t, p, l - 1);
    }
    UsedFrame(bits, t, root, l, TableAt(mem, root, p, l).value);
  }

  lemma UsedFrame(bits: seq<bool>, t: Tree, root: nat, l: nat, f: nat)
    requires InUse(bits, t, root) && 1 <= l <= 4 && f in Level(t, root, l)
    ensures f < |bits| && bits[f]
  {
    assert f in Tables(t, root);
  }

  /** p and q take the same entries down to the table of level l. */
  predicate Agree(p: Page, q: Page, l: nat) {
    (l >= 2 ==> Rep(p.a) == Rep(q.a)) && (l >= 3 ==> p.b == q.b) && (l >= 4 ==> p.c == q.c) && (l >= 5 ==> p.d == q.d)
  }

  /** A table is reached in one way only. */
  lemma {:induction false} OneWay(mem: seq<Table>, root: nat, bits: seq<bool>, t: Tree, p: Page, q: Page, l: nat)
    requires Shape(mem, root, bits, t) && IsPage(p) && IsPage(q) && 1 <= l <= 4
    requires TableAt(mem, root, p, l).Some? && TableAt(mem, root, q, l) == TableAt(mem, root, p, l)
    ensures Agree(p, q, l)
  {
    hide InUse, LevelsApart;
    if l > 1 {
      if l > 2 {
        OnLevel(mem, root, bits, t, p, l - 1);
        OnLevel(mem, root, bits, t, q, l - 1);
      }
      assert l == 2 || TableAt(mem, root, q, l - 1) == TableAt(mem, root, p, l - 1);
      OneWay(mem, root, bits, t, p, q, l - 1);
    }
  }

  lemma {:induction false} SameWay(mem: seq<Table>, root: nat, bits: seq<bool>, t: Tree, p: Page, q: Page, l: nat)
    requires Shape(mem, root, bits, t) && IsPage(p) && IsPage(q) && 1 <= l <= 5 && Agree(p, q, l)
    ensures TableAt(mem, root, q, l) == TableAt(mem, root, p, l)
  {
    hide InUse, LevelsApart, Links;
    if l > 1 {
      SameWay(mem, root, bits, t, p, q, l - 1);
    }
  }

  /** Memory changes outside the upper levels do not change the walk through them. */
  lemma {:induction false} WalkKept(mem: seq<Table>, mem': seq<Table>, root: nat, bits: seq<bool>, t: Tree, p: Page,
    l: nat, touched: set<nat>)
    requires Shape(mem, root, bits, t) && IsPage(p) && 1 <= l <= 5 && |mem'| == |mem|
    requires forall f :: 0 <= f < |mem| && f !in touched ==> mem'[f] == mem[f]
    requires forall m :: 1 <= m < l ==> Level(t, root, m) !! touched
    ensures TableAt(mem', root, p, l) == TableAt(mem, root, p, l)
  {
    if l > 1 {
      WalkKept(mem, mem', root, bits, t, p, l - 1, touched);
      if TableAt(mem, root, p, l - 1).Some? {
        OnLevel(mem, root, bits, t, p, l - 1);
      }
    }
  }

  // ----- one entry of a page table

  function WriteEntry(mem: seq<Table>, f: nat, i: nat, e: nat): (r: seq<Table>)
    requires f < |mem| && i < 512
    ensures |r| == |mem|
  {
    mem[f := mem[f][i := e]]
  }

  function Target(e: nat): Option<nat> { if Present(e) then Some(FrameOf(e)) else None }

  lemma LevelsFacts(t: Tree, root: nat, f: nat, l: nat, m: nat)
    requires LevelsApart(t, root) && 1 <= l <= 4 && 1 <= m <= 4 && l != m && f in Level(t, root, l)
    ensures f !in Level(t, root, m)
  {
    if f in Level(t, root, m) && m < l {
    }
  }

  /** Writing the page-table entry of p changes the translation of p, under both its names, and of nothing else. */
  lemma LeafTrans(mem: seq<Table>, root: nat, bits: seq<bool>, t: Tree, p: Page, q: Page, e: nat)
    requires Shape(mem, root, bits, t) && IsPage(p) && IsPage(q) && TableAt(mem, root, p, 4).Some?
      && TableAt(mem, root, p, 4).value < |mem|
    ensures Trans(WriteEntry(mem, TableAt(mem, root, p, 4).value, p.d, e), root, q) ==
            if Norm(p) == Norm(q) then Target(e) else Trans(mem, root, q)
    ensures LeafAt(WriteEntry(mem, TableAt(mem, root, p, 4).value, p.d, e), root, q) ==
            if Norm(p) == Norm(q) then (if Present(e) then Some(e) else None) else LeafAt(mem, root, q)
  {
    var f := TableAt(mem, root, p, 4).value;
    var mem' := WriteEntry(mem, f, p.d, e);
    OnLevel(mem, root, bits, t, p, 4);
    forall m | 1 <= m < 4
      ensures Level(t, root, m) !! {f}
    {
      LevelsFacts(t, root, f, 4, m);
    }
    WalkKept(mem, mem', root, bits, t, q, 4, {f});
    if Norm(p) == Norm(q) {
      SameWay(mem, root, bits, t, p, q, 4);
    } else if TableAt(mem, root, q, 4) == Some(f) {
      OneWay(mem, root, bits, t, p, q, 4);
    }
  }

  /** Page-table entries are no part of the tree. */
  lemma LeafShape(mem: seq<Table>, root: nat, bits: seq<bool>, t: Tree, f: nat, i: nat, e: nat)
    requires Shape(mem, root, bits, t) && f in t.pts && i < 512 && f < |mem|
    ensures Shape(WriteEntry(mem, f, i, e), root, bits, t)
  {
    var mem' := WriteEntry(mem, f, i, e);
    assert f in Level(t, root, 4);
    LevelsFacts(t, root, f, 4, 1);
    LevelsFacts(t, root, f, 4, 2);
    LevelsFacts(t, root, f, 4, 3);
    assert forall g, j :: g != f ==> Next(mem', g, j) == Next(mem, g, j);
  }

  // ----- a new, empty table

  /** The tree with table g entered at index i of f, one level below l. */
  ghost function Grow(t: Tree, l: nat, f: nat, i: nat, g: nat): Tree {
    if l == 1 then t.(pdpts := t.pdpts[g := Rep(i)])
    else if l == 2 then t.(pds := t.pds[g := (f, i)])
    else t.(pts := t.pts[g := (f, i)])
  }

  /** Memory after the entry was written and the new table cleared. */
  ghost predicate Entered(mem: seq<Table>, mem': seq<Table>, f: nat, i: nat, g: nat, e: nat) {
    && |mem'| == |mem| && f < |mem| && g < |mem| && f != g && i < 512 && Present(e) && FrameOf(e) == g
    && mem'[f] == mem[f][i := e] && mem'[g] == seq(512, _ => 0)
    && forall h :: 0 <= h < |mem| && h != f && h != g ==> mem'[h] == mem[h]
  }

  /** A free frame is no table. */
  lemma FreeFrame(bits: seq<bool>, t: Tree, root: nat, g: nat)
    requires InUse(bits, t, root) && g < |bits| && !bits[g]
    ensures forall l :: 1 <= l <= 4 ==> g !in Level(t, root, l)
  {
    forall l | 1 <= l <= 4
      ensures g !in Level(t, root, l)
    {
      if g in Level(t, root, l) { UsedFrame(bits, t, root, l, g); }
    }
  }

  lemma NextEntered(mem: seq<Table>, mem': seq<Table>, f: nat, i: nat, g: nat, e: nat, h: nat, j: nat)
    requires Entered(mem, mem', f, i, g, e)
    ensures Next(mem', h, j) == if h == f && j == i then Some(g) else if h == g then None else Next(mem, h, j)
  {
  }

  /** Entering an empty table where there was none changes no translation. */
  lemma EnteredTrans(mem: seq<Table>, mem': seq<Table>, root: nat, bits: seq<bool>, t: Tree, p: Page, l: nat, f: nat,
    g: nat, e: nat, q: Page)
    requires Shape(mem, root, bits, t) && IsPage(p) && IsPage(q) && 1 <= l <= 3 && TableAt(mem, root, p, l) == Some(f)
    requires Next(mem, f, Idx(p, l)) == None && g < |bits| && !bits[g] && Entered(mem, mem', f, Idx(p, l), g, e)
    ensures Trans(mem', root, q) == Trans(mem, root, q) && LeafAt(mem', root, q) == LeafAt(mem, root, q)
    ensures TableAt(mem', root, q, l) == TableAt(mem, root, q, l)
  {
    FreeFrame(bits, t, root, g);
    OnLevel(mem, root, bits, t, p, l);
    forall m | 1 <= m < l
      ensures Level(t, root, m) !! {f, g}
    {
      LevelsFacts(t, root, f, l, m);
    }
    WalkKept(mem, mem', root, bits, t, q, l, {f, g});
    EnteredBelow(mem, mem', root, bits, t, p, l, f, g, e, q, 5);
    EnteredBelow(mem, mem', root, bits, t, p, l, f, g, e, q, 4);
    if TableAt(mem, root, q, 4).Some? {
      OnLevel(mem, root, bits, t, q, 4);
      NotAbove(mem, root, bits, t, f, TableAt(mem, root, q, 4).value, l, 4);
    }
  }

  /** Below the new entry there is nothing; beside it everything is as before. */
  lemma {:induction false} EnteredBelow(mem: seq<Table>, mem': seq<Table>, root: nat, bits: seq<bool>, t: Tree, p: Page,
    l: nat, f: nat, g: nat, e: nat, q: Page, m: nat)
    requires Shape(mem, root, bits, t) && IsPage(p) && IsPage(q) && 1 <= l <= 3 && TableAt(mem, root, p, l) == Some(f)
      && l < m <= 5
    requires Next(mem, f, Idx(p, l)) == None && g < |bits| && !bits[g] && Entered(mem, mem', f, Idx(p, l), g, e)
    requires TableAt(mem', root, q, l) == TableAt(mem, root, q, l)
    ensures TableAt(mem', root, q, m) == TableAt(mem, root, q, m) || (m == l + 1 && TableAt(mem', root, q, m) == Some(g)
      && TableAt(mem, root, q, m) == None)
    decreases m
  {
    hide Shape, Entered, Level, Idx, Next, IsPage;
    var h := TableAt(mem, root, q, m - 1);
    if h.Some? {
      NextEntered(mem, mem', f, Idx(p, l), g, e, h.value, Idx(q, m - 1));
      OnLevel(mem, root, bits, t, q, m - 1);
      OnLevel(mem, root, bits, t, p, l);
    }
    if m > l + 1 {
      EnteredBelow(mem, mem', root, bits, t, p, l, f, g, e, q, m - 1);
      if h.Some? { NotAbove(mem, root, bits, t, f, h.value, l, m - 1); }
      NextEntered(mem, mem', f, Idx(p, l), g, e, g, Idx(q, m - 1));
      NotItself(mem, mem', f, Idx(p, l), g, e);
    }
  }

  lemma NotItself(mem: seq<Table>, mem': seq<Table>, f: nat, i: nat, g: nat, e: nat)
    requires Entered(mem, mem', f, i, g, e)
    ensures f != g
  {
  }

  lemma NotAbove(mem: seq<Table>, root: nat, bits: seq<bool>, t: Tree, f: nat, h: nat, l: nat, m: nat)
    requires Shape(mem, root, bits, t) && 1 <= l < m <= 4 && f in Level(t, root, l) && h in Level(t, root, m)
    ensures f != h
  {
  }

  /** The tree grows by the new table. */
  lemma EnteredShape(mem: seq<Table>, mem': seq<Table>, root: nat, bits: seq<bool>, t: Tree, p: Page, l: nat, f: nat,
    g: nat, e: nat)
    requires Shape(mem, root, bits, t) && IsPage(p) && 1 <= l <= 3 && TableAt(mem, root, p, l) == Some(f)
    requires Next(mem, f, Idx(p, l)) == None && g < |bits| && !bits[g] && Entered(mem, mem', f, Idx(p, l), g, e)
    ensures Shape(mem', root, bits[g := true], Grow(t, l, f, Idx(p, l), g))
  {
    FreeFrame(bits, t, root, g);
    OnLevel(mem, root, bits, t, p, l);
    assert forall m :: 1 <= m <= 4 && m != l ==> f !in Level(t, root, m) by {
      forall m | 1 <= m <= 4 && m != l
        ensures f !in Level(t, root, m)
      {
        LevelsFacts(t, root, f, l, m);
      }
    }
    assert g !in Level(t, root, 1) && g !in Level(t, root, 2) && (f in Level(t, root, 1) <==> l == 1);
    GrowLevels(bits, t, root, l, f, Idx(p, l), g);
    GrowRoots(mem, mem', root, t, p, l, f, g, e);
    var u := Grow(t, l, f, Idx(p, l), g);
    assert g !in Level(t, root, 2) && g !in Level(t, root, 3) && g !in Level(t, root, 4);
    assert f in Level(t, root, 2) <==> l == 2;
    assert f in Level(t, root, 3) <==> l == 3;
    hide Shape, Entered;
    LinksEntered(mem, mem', t.pdpts.Keys, t.pds, u.pdpts.Keys, u.pds, f, Idx(p, l), g, e);
    LinksEntered(mem, mem', t.pds.Keys, t.pts, u.pds.Keys, u.pts, f, Idx(p, l), g, e);
    ShapeBy(mem', root, bits[g := true], u);
  }

  lemma ShapeBy(mem: seq<Table>, root: nat, bits: seq<bool>, t: Tree)
    requires |bits| <= |mem| && InUse(bits, t, root) && LevelsApart(t, root)
    requires Roots(mem, root, t) && Links(mem, t.pdpts.Keys, t.pds) && Links(mem, t.pds.Keys, t.pts)
    ensures Shape(mem, root, bits, t)
  {
  }

  lemma LinksEntered(mem: seq<Table>, mem': seq<Table>, from: set<nat>, to: map<nat, (nat, nat)>, from': set<nat>,
    to': map<nat, (nat, nat)>,
                     f: nat, i: nat, g: nat, e: nat)
    requires Links(mem, from, to) && Entered(mem, mem', f, i, g, e) && g !in to && g !in from && from' <= from + {g}
    requires if f in from then to' == to[g := (f, i)] else to' == to
    ensures Links(mem', from', to')
  {
    forall h, j | h in from' && 0 <= j < 512 && Next(mem', h, j).Some?
      ensures Next(mem', h, j).value in to' && to'[Next(mem', h, j).value] == (h, j)
    {
      NextEntered(mem, mem', f, i, g, e, h, j);
    }
  }

  lemma GrowLevels(bits: seq<bool>, t: Tree, root: nat, l: nat, f: nat, i: nat, g: nat)
    requires InUse(bits, t, root) && LevelsApart(t, root) && 1 <= l <= 3 && g < |bits| && forall m :: 1 <= m <= 4
                                                                                           ==> g !in Level(t, root, m)
    ensures InUse(bits[g := true], Grow(t, l, f, i, g), root) && LevelsApart(Grow(t, l, f, i, g), root)
  {
    var u := Grow(t, l, f, i, g);
    forall m | 1 <= m <= 4
      ensures Level(u, root, m) == if m == l + 1 then Level(t, root, m) + {g} else Level(t, root, m)
    {
    }
    GrowTables(t, root, l, f, i, g);
    hide Grow, Level, Tables;
    forall m, n, h | 1 <= m < n <= 4 && h in Level(u, root, m)
      ensures h !in Level(u, root, n)
    {
      if h != g { LevelsFacts(t, root, h, m, n); }
    }
  }

  lemma GrowTables(t: Tree, root: nat, l: nat, f: nat, i: nat, g: nat)
    requires 1 <= l <= 3
    ensures Tables(Grow(t, l, f, i, g), root) == Tables(t, root) + {g}
  {
  }

  lemma GrowRoots(mem: seq<Table>, mem': seq<Table>, root: nat, t: Tree, p: Page, l: nat, f: nat, g: nat, e: nat)
    requires Roots(mem, root, t) && IsPage(p) && 1 <= l <= 3 && Entered(mem, mem', f, Idx(p, l), g, e)
    requires l == 1 <==> f == root
    requires Next(mem, f, Idx(p, l)) == None && g != root && g !in t.pdpts
    ensures Roots(mem', root, Grow(t, l, f, Idx(p, l), g))
  {
    var u := Grow(t, l, f, Idx(p, l), g);
    forall a | 0 <= a < 512
      ensures Next(mem', root, a) == if l == 1 && a == p.a then Some(g) else Next(mem, root, a)
    {
      NextEntered(mem, mem', f, Idx(p, l), g, e, root, a);
    }
    hide Entered;
    assert l == 1 ==> u.pdpts == t.pdpts[g := Rep(p.a)];
    assert l != 1 ==> u.pdpts == t.pdpts;
    hide Grow;
    assert l == 1 ==> p.a != 0 && p.a != 256;
  }

  // ----- the tables that the boot code builds (head.S:38-83, head.S:136-139)

  const NUM_PT: nat := 64

  /** An entry that is present and writable. */
  function BootEntry(frame: nat): nat { frame * 0x1000 + 3 }

  /** Four kinds of tables in consecutive frames: PML4, PDPT, PD and the page tables. */
  ghost predicate BootTables(mem: seq<Table>, root: nat) {
    && root + 3 + NUM_PT <= |mem|
    && var pml4, pdpt, pd := mem[root], mem[root + 1], mem[root + 2];
       && (forall i :: 0 <= i < 512 ==> pml4[i] == if i == 0
          || i == 256 then BootEntry(root + 1) else if i == 511 then BootEntry(root) else 0)
       && (forall i :: 0 <= i < 512 ==> pdpt[i] == if i == 0 then BootEntry(root + 2) else 0)
       && forall i :: 0 <= i < 512 ==> pd[i] == if i < NUM_PT then BootEntry(root + 3 + i) else 0
  }

  predicate IsBootPt(root: nat, g: nat) { root + 3 <= g < root + 3 + NUM_PT }

  ghost function BootTree(root: nat): Tree {
    Tree(map[root + 1 := 0], map[root + 2 := (root + 1, 0)],
         map g: nat | root + 3 <= g < root + 3 + NUM_PT && IsBootPt(root, g) :: (root + 2, g - root - 3))
  }

  lemma BootNext(frame: nat)
    ensures Present(BootEntry(frame)) && FrameOf(BootEntry(frame)) == frame && !Present(0)
  {
  }

  /** Where the entries of the boot tables lead. */
  lemma BootSteps(mem: seq<Table>, root: nat, i: nat)
    requires BootTables(mem, root) && i < 512
    ensures Next(mem, root, i) == if i == 0 || i == 256 then Some(root + 1) else if i == 511 then Some(root) else None
    ensures Next(mem, root + 1, i) == if i == 0 then Some(root + 2) else None
    ensures Next(mem, root + 2, i) == if i < NUM_PT then Some(root + 3 + i) else None
  {
    BootNext(root);
    BootNext(root + 1);
    BootNext(root + 2);
    BootNext(root + 3 + i);
    hide BootEntry, Present, FrameOf;
  }

  lemma BootLevels(root: nat, bits: seq<bool>)
    requires root + 3 + NUM_PT <= |bits| && forall f :: root <= f < root + 3 + NUM_PT ==> bits[f]
    ensures InUse(bits, BootTree(root), root) && LevelsApart(BootTree(root), root)
  {
    var t := BootTree(root);
    assert forall l, f :: 1 <= l <= 4 && f in Level(t, root, l) ==> if l == 4 then f >= root + 3 else f == root + l - 1;
  }

  /** They have the shape that mapping relies on, once their frames are marked as used. */
  lemma BootShape(mem: seq<Table>, root: nat, bits: seq<bool>)
    requires BootTables(mem, root) && root + 3 + NUM_PT <= |bits| <= |mem|
    requires forall f :: root <= f < root + 3 + NUM_PT ==> bits[f]
    ensures Shape(mem, root, bits, BootTree(root))
  {
    hide BootTables, Next, InUse, LevelsApart;
    var t := BootTree(root);
    BootLevels(root, bits);
    forall a | 0 <= a < 512
      ensures Next(mem, root, a) == if a == 0 || a == 256 then Some(root + 1) else if a == 511 then Some(root) else None
    {
      BootSteps(mem, root, a);
    }
    forall f, i | f in t.pdpts.Keys && 0 <= i < 512 && Next(mem, f, i).Some?
      ensures Next(mem, f, i).value in t.pds && t.pds[Next(mem, f, i).value] == (f, i)
    {
      BootSteps(mem, root, i);
    }
    forall f, i | f in t.pds.Keys && 0 <= i < 512 && Next(mem, f, i).Some?
      ensures Next(mem, f, i).value in t.pts && t.pts[Next(mem, f, i).value] == (f, i)
    {
      BootSteps(mem, root, i);
    }
    ShapeBy(mem, root, bits, t);
  }
}
