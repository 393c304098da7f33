/** The tables that mapping a set of pages still needs: each missing table counts once, however many pages share it. */
module TableCount {
  import opened Geometry
  import opened PageTables
  import opened PageTree

  /** The name of the table of level l on the walk for p: the indices that lead to it. */
  function Way(p: Page, l: nat): Page {
    Page(Rep(p.a), if l >= 3 then p.b else 0, if l >= 4 then p.c else 0, l)
  }

  ghost predicate ArePages(ps: set<Page>) {
    forall p :: p in ps ==> IsPage(p)
  }

  /** The missing tables on the walks for these pages. */
  function Missing(mem: seq<Table>, root: nat, ps: set<Page>): set<Page> {
    set p, l | p in ps && 2 <= l <= 4 && TableAt(mem, root, p, l).None? :: Way(p, l)
  }

  /** The tables on the walk for p, below the root. */
  ghost function Ways(p: Page): set<Page> {
    {Way(p, 2), Way(p, 3), Way(p, 4)}
  }

  lemma SameName(p: Page, q: Page, l: nat, m: nat)
    requires 2 <= l <= 4 && 2 <= m <= 4
    ensures Way(p, l) == Way(q, m) <==> l == m && Agree(p, q, l)
  {
  }

  /** The table that lies on the walk of p by its name is there for every page that uses the name. */
  lemma ThereForAll(mem: seq<Table>, root: nat, bits: seq<bool>, t: Tree, p: Page, l: nat, ps: set<Page>)
    requires Shape(mem, root, bits, t) && IsPage(p) && 2 <= l <= 4 && ArePages(ps)
    ensures TableAt(mem, root, p, l).Some? ==> Way(p, l) !in Missing(mem, root, ps)
    ensures TableAt(mem, root, p, l).None? && Norm(p) in ps ==> Way(p, l) in Missing(mem, root, ps)
  {
    if TableAt(mem, root, p, l).Some? {
      forall q, m | q in ps && 2 <= m <= 4 && TableAt(mem, root, q, m).None?
        ensures Way(q, m) != Way(p, l)
      {
        SameName(p, q, l, m);
        if Agree(p, q, l) { SameWay(mem, root, bits, t, p, q, l); }
      }
    } else if Norm(p) in ps {
      SameWay(mem, root, bits, t, p, Norm(p), l);
      assert Way(Norm(p), l) == Way(p, l);
    }
  }

  // ----- a new table

  /** Which walks find a table at level m after table g was entered for p below level l: those that use its name do
      now. */
  lemma EnteredFinds(mem: seq<Table>, mem': seq<Table>, root: nat, bits: seq<bool>, t: Tree, p: Page, l: nat, f: nat,
    g: nat, e: nat, q: Page, m: nat)
    requires Shape(mem, root, bits, t) && IsPage(p) && IsPage(q) && 1 <= l <= 3 && TableAt(mem, root, p, l) == Some(f)
    requires Next(mem, f, Idx(p, l)) == None && g < |bits| && !bits[g] && Entered(mem, mem', f, Idx(p, l), g, e)
    requires 2 <= m <= 4
    ensures TableAt(mem', root, q, m).None? <==> TableAt(mem, root, q, m).None? && !(m == l + 1 && Agree(p, q, m))
  {
    hide Shape, Entered, Next, Agree;
    if m <= l {
      EnteredAbove(mem, mem', root, bits, t, p, l, f, g, e, q, m);
    } else {
      EnteredTrans(mem, mem', root, bits, t, p, l, f, g, e, q);
      EnteredBelow(mem, mem', root, bits, t, p, l, f, g, e, q, m);
      if m == l + 1 {
        EnteredTrans(mem, mem', root, bits, t, p, l, f, g, e, p);
        EnteredShape(mem, mem', root, bits, t, p, l, f, g, e);
        NextEntered(mem, mem', f, Idx(p, l), g, e, f, Idx(p, l));
        var u := Grow(t, l, f, Idx(p, l), g);
        if Agree(p, q, m) {
          SameWay(mem, root, bits, t, p, q, m);
          SameWay(mem', root, bits[g := true], u, p, q, m);
        } else if TableAt(mem', root, q, m) == Some(g) {
          OneWay(mem', root, bits[g := true], u, p, q, m);
        }
      }
    }
  }

  lemma EnteredAbove(mem: seq<Table>, mem': seq<Table>, root: nat, bits: seq<bool>, t: Tree, p: Page, l: nat, f: nat,
    g: nat, e: nat, q: Page, m: nat)
    requires Shape(mem, root, bits, t) && IsPage(p) && IsPage(q) && 1 <= m <= l <= 3
      && TableAt(mem, root, p, l) == Some(f)
    requires g < |bits| && !bits[g] && Entered(mem, mem', f, Idx(p, l), g, e)
    ensures TableAt(mem', root, q, m) == TableAt(mem, root, q, m)
  {
    FreeFrame(bits, t, root, g);
    OnLevel(mem, root, bits, t, p, l);
    forall k | 1 <= k < m
      ensures Level(t, root, k) !! {f, g}
    {
      LevelsFacts(t, root, f, l, k);
    }
    WalkKept(mem, mem', root, bits, t, q, m, {f, g});
  }

  /** The new table, and no other one, is no longer missing. */
  lemma EnteredMissing(mem: seq<Table>, mem': seq<Table>, root: nat, bits: seq<bool>, t: Tree, p: Page, l: nat, f: nat,
    g: nat, e: nat, ps: set<Page>)
    requires Shape(mem, root, bits, t) && IsPage(p) && 1 <= l <= 3 && TableAt(mem, root, p, l) == Some(f)
      && ArePages(ps)
    requires Next(mem, f, Idx(p, l)) == None && g < |bits| && !bits[g] && Entered(mem, mem', f, Idx(p, l), g, e)
    ensures Missing(mem', root, ps) == Missing(mem, root, ps) - {Way(p, l + 1)}
  {
    hide Shape, Entered, Next, TableAt, Way, Agree;
    forall q, m | q in ps && 2 <= m <= 4
      ensures TableAt(mem', root, q, m).None? <==> TableAt(mem, root, q, m).None? && Way(q, m) != Way(p, l + 1)
    {
      EnteredFinds(mem, mem', root, bits, t, p, l, f, g, e, q, m);
      SameName(p, q, l + 1, m);
    }
  }

  // ----- the page itself

  /** The walks through the tables are the same. */
  ghost predicate SameTables(mem: seq<Table>, mem': seq<Table>, root: nat) {
    && (forall p, l :: IsPage(p) && 1 <= l <= 4 ==> TableAt(mem', root, p, l) == TableAt(mem, root, p, l))
    && forall p, l :: IsPage(p) && 1 <= l <= 3 ==> UpperAt(mem', root, p, l) == UpperAt(mem, root, p, l)
  }

  /** Every table may be written through: bit 1 is set in all entries that lead to one. */
  ghost predicate Wide(mem: seq<Table>, root: nat) {
    forall p, l :: IsPage(p) && 1 <= l <= 3 && UpperAt(mem, root, p, l).Some? ==>
                     UpperAt(mem, root, p, l).value / 2 % 2 == 1
  }

  lemma SameTrans(mem: seq<Table>, mem': seq<Table>, mem'': seq<Table>, root: nat)
    requires SameTables(mem, mem', root) && SameTables(mem', mem'', root)
    ensures SameTables(mem, mem'', root)
  {
  }

  lemma SameSelf(mem: seq<Table>, root: nat)
    ensures SameTables(mem, mem, root)
  {
  }

  lemma SameWide(mem: seq<Table>, mem': seq<Table>, root: nat)
    requires SameTables(mem, mem', root) && Wide(mem, root)
    ensures Wide(mem', root)
  {
  }

  /** A new table that may be written through. */
  lemma EnteredWide(mem: seq<Table>, mem': seq<Table>, root: nat, bits: seq<bool>, t: Tree, p: Page, l: nat, f: nat,
                    g: nat, e: nat)
    requires Shape(mem, root, bits, t) && IsPage(p) && 1 <= l <= 3 && TableAt(mem, root, p, l) == Some(f)
    requires Next(mem, f, Idx(p, l)) == None && g < |bits| && !bits[g] && Entered(mem, mem', f, Idx(p, l), g, e)
    requires Wide(mem, root) && e / 2 % 2 == 1
    ensures Wide(mem', root)
  {
    hide Shape, Next, TableAt;
    forall q, m | IsPage(q) && 1 <= m <= 3 && UpperAt(mem', root, q, m).Some?
      ensures UpperAt(mem', root, q, m).value / 2 % 2 == 1
    {
      if m <= l {
        EnteredAbove(mem, mem', root, bits, t, p, l, f, g, e, q, m);
      } else {
        EnteredTrans(mem, mem', root, bits, t, p, l, f, g, e, q);
        EnteredBelow(mem, mem', root, bits, t, p, l, f, g, e, q, m);
      }
      if TableAt(mem, root, q, m).Some? {
        NotNew(mem, root, bits, t, q, m, g);
        assert TableAt(mem', root, q, m) == TableAt(mem, root, q, m);
        assert UpperAt(mem, root, q, m).Some? ==> UpperAt(mem, root, q, m).value / 2 % 2 == 1;
      }
    }
  }

  lemma NotNew(mem: seq<Table>, root: nat, bits: seq<bool>, t: Tree, q: Page, m: nat, g: nat)
    requires Shape(mem, root, bits, t) && IsPage(q) && 1 <= m <= 3 && TableAt(mem, root, q, m).Some?
    requires g < |bits| && !bits[g]
    ensures TableAt(mem, root, q, m).value != g
  {
    OnLevel(mem, root, bits, t, q, m);
    FreeFrame(bits, t, root, g);
  }

  lemma SameMissing(mem: seq<Table>, mem': seq<Table>, root: nat, ps: set<Page>)
    requires SameTables(mem, mem', root) && ArePages(ps)
    ensures Missing(mem', root, ps) == Missing(mem, root, ps)
  {
  }

  lemma LeafTables(mem: seq<Table>, root: nat, bits: seq<bool>, t: Tree, f: nat, i: nat, e: nat)
    requires Shape(mem, root, bits, t) && f in t.pts && i < 512 && f < |mem|
    ensures SameTables(mem, WriteEntry(mem, f, i, e), root)
  {
    var mem' := WriteEntry(mem, f, i, e);
    forall m | 1 <= m < 4
      ensures Level(t, root, m) !! {f}
    {
      assert f in Level(t, root, 4);
      LevelsFacts(t, root, f, 4, m);
    }
    hide Shape, WriteEntry, Level;
    assert forall h :: 0 <= h < |mem| && h !in {f} ==> mem'[h] == mem[h] by { Elsewhere(mem, f, i, e); }
    forall p, l | IsPage(p) && 1 <= l <= 4
      ensures TableAt(mem', root, p, l) == TableAt(mem, root, p, l)
    {
      WalkKept(mem, mem', root, bits, t, p, l, {f});
    }
    forall p, l | IsPage(p) && 1 <= l <= 3
      ensures UpperAt(mem', root, p, l) == UpperAt(mem, root, p, l)
    {
      WalkKept(mem, mem', root, bits, t, p, l, {f});
      if TableAt(mem, root, p, l).Some? { OnLevel(mem, root, bits, t, p, l); }
    }
  }

  lemma Elsewhere(mem: seq<Table>, f: nat, i: nat, e: nat)
    requires f < |mem| && i < 512
    ensures forall h :: 0 <= h < |mem| && h !in {f} ==> WriteEntry(mem, f, i, e)[h] == mem[h]
  {
  }
}
