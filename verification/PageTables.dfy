/** Four-level page tables in physical memory (section 4.5 of the Intel 64 SDM, volume 3A), their recursive self-map
    in slot 511 (page.c:85-93), and what one entry means for the translation of addresses. */
module PageTables {
  import opened Geometry
  import opened BitWords

  type Table = s: seq<nat> | |s| == 512 witness seq(512, _ => 0)

  /** The four indices of a virtual page. */
  datatype Page = Page(a: nat, b: nat, c: nat, d: nat)

  predicate IsPage(p: Page) { p.a < 511 && p.b < 512 && p.c < 512 && p.d < 512 }

  predicate Present(e: nat) { e % 2 == 1 }

  function FrameOf(e: nat): nat { e / 0x1000 }

  /** The index used in the table of a level: 1 is the PML4, 4 the page table. */
  function Idx(p: Page, l: nat): nat {
    if l == 1 then p.a else if l == 2 then p.b else if l == 3 then p.c else p.d
  }

  /** One step of the walk: the frame a present entry points to. */
  function Next(mem: seq<Table>, f: nat, i: nat): Option<nat> {
    if f < |mem| && i < 512 && Present(mem[f][i]) then Some(FrameOf(mem[f][i])) else None
  }

  /** The frame of the table of level l on the walk for p; level 5 is the page itself. */
  function TableAt(mem: seq<Table>, root: nat, p: Page, l: nat): Option<nat>
    requires l >= 1
    decreases l
  {
    if l == 1 then Some(root)
    else match TableAt(mem, root, p, l - 1)
      case None => None
      case Some(f) => Next(mem, f, Idx(p, l - 1))
  }

  /** The frame a page is mapped to. */
  function Trans(mem: seq<Table>, root: nat, p: Page): Option<nat> {
    TableAt(mem, root, p, 5)
  }

  /** The page-table entry a page is mapped by: its frame and its flags. */
  function LeafAt(mem: seq<Table>, root: nat, p: Page): Option<nat> {
    match TableAt(mem, root, p, 4)
    case None => None
    case Some(f) => if f < |mem| && p.d < 512 && Present(mem[f][p.d]) then Some(mem[f][p.d]) else None
  }

  /** The present entry of level l on the walk for p. */
  function UpperAt(mem: seq<Table>, root: nat, p: Page, l: nat): Option<nat>
    requires l >= 1
  {
    match TableAt(mem, root, p, l)
    case None => None
    case Some(f) => if f < |mem| && Idx(p, l) < 512 && Present(mem[f][Idx(p, l)]) then Some(mem[f][Idx(p, l)]) else None
  }

  lemma LeafTarget(mem: seq<Table>, root: nat, p: Page)
    ensures Trans(mem, root, p) ==
            if LeafAt(mem, root, p).Some? then Some(FrameOf(LeafAt(mem, root, p).value)) else None
  {
    assert TableAt(mem, root, p, 5) == match TableAt(mem, root, p, 4)
      case None => None
      case Some(f) => Next(mem, f, Idx(p, 4));
  }

  // ----- addresses and the self-map

  const TOP: nat := 0x1_0000_0000_0000_0000

  function PageOf(va: nat): (p: Page)
    ensures p.a < 512 && p.b < 512 && p.c < 512 && p.d < 512
  {
    Page(va / 0x80_0000_0000 % 512, va / 0x4000_0000 % 512, va / 0x20_0000 % 512, va / 0x1000 % 512)
  }

  const PML4_BASE: nat := 0xF_FFFF_FFFF_FFFF

  /** The self-map address of entry j of the table of level l on the walk for p, in 64-bit arithmetic. */
  function EntryAddr(p: Page, l: nat, j: nat): nat {
    if l == 1 then PML4_BASE * 0x1000 % TOP + 8 * j
    else if l == 2 then PML4_BASE * 0x20_0000 % TOP + p.a * 0x1000 + 8 * j
    else if l == 3 then PML4_BASE * 0x4000_0000 % TOP + p.a * 0x20_0000 + p.b * 0x1000 + 8 * j
    else PML4_BASE * 0x80_0000_0000 % TOP + p.a * 0x4000_0000 + p.b * 0x20_0000 + p.c * 0x1000 + 8 * j
  }

  lemma Digits(h: nat, a: nat, b: nat, c: nat, d: nat, o: nat)
    requires a < 512 && b < 512 && c < 512 && d < 512 && o < 0x1000
    ensures var va := ((((h * 512 + a) * 512 + b) * 512 + c) * 512 + d) * 0x1000 + o;
            PageOf(va) == Page(a, b, c, d) && va % 0x1000 == o
  {
    var x4 := (((h * 512 + a) * 512 + b) * 512 + c) * 512 + d;
    var va := x4 * 0x1000 + o;
    assert va / 0x1000 == x4;
    var x3 := ((h * 512 + a) * 512 + b) * 512 + c;
    assert x4 / 512 == x3 && va / 0x20_0000 == x3;
    var x2 := (h * 512 + a) * 512 + b;
    assert x3 / 512 == x2 && va / 0x4000_0000 == x2;
    assert x2 / 512 == h * 512 + a && va / 0x80_0000_0000 == h * 512 + a;
  }

  /** The indices of a self-map address: slot 511 shifts the walk up by one level for each time it is taken. */
  lemma EntryAddrDigits(p: Page, l: nat, j: nat)
    requires IsPage(p) && 1 <= l <= 4 && j < 512
    ensures EntryAddr(p, l, j) % 0x1000 / 8 == j
    ensures PageOf(EntryAddr(p, l, j)) == if l == 1 then Page(511, 511, 511, 511)
              else if l == 2 then Page(511, 511, 511, p.a)
                                          else if l == 3 then Page(511, 511, p.a, p.b) else Page(511, p.a, p.b, p.c)
  {
    hide PageOf;
    Bases();
    var h := 0xFFFF;
    if l == 1 {
      Digits(h, 511, 511, 511, 511, 8 * j);
    } else if l == 2 {
      Digits(h, 511, 511, 511, p.a, 8 * j);
    } else if l == 3 {
      Digits(h, 511, 511, p.a, p.b, 8 * j);
    } else {
      Digits(h, 511, p.a, p.b, p.c, 8 * j);
    }
  }

  /** The shifted bases, truncated to 64 bits. */
  lemma Bases()
    ensures PML4_BASE * 0x1000 % TOP == 0xFFFF_FFFF_FFFF_F000
    ensures PML4_BASE * 0x20_0000 % TOP == 0xFFFF_FFFF_FFE0_0000
    ensures PML4_BASE * 0x4000_0000 % TOP == 0xFFFF_FFFF_C000_0000
    ensures PML4_BASE * 0x80_0000_0000 % TOP == 0xFFFF_FF80_0000_0000
  {
  }

  /** The walk of a self-map address reaches exactly the table that translates the page at that level. */
  lemma SelfMap(mem: seq<Table>, root: nat, p: Page, l: nat, j: nat)
    requires IsPage(p) && 1 <= l <= 4 && j < 512 && Next(mem, root, 511) == Some(root)
    ensures Trans(mem, root, PageOf(EntryAddr(p, l, j))) == TableAt(mem, root, p, l)
      && EntryAddr(p, l, j) % 0x1000 / 8 == j
  {
    hide EntryAddr, PageOf;
    EntryAddrDigits(p, l, j);
    var q := PageOf(EntryAddr(p, l, j));
    assert TableAt(mem, root, q, 2) == Some(root);
    if l == 4 {
      assert TableAt(mem, root, q, 3) == TableAt(mem, root, p, 2);
      assert TableAt(mem, root, q, 4) == TableAt(mem, root, p, 3);
    } else {
      assert TableAt(mem, root, q, 3) == Some(root);
      if l == 3 {
        assert TableAt(mem, root, q, 4) == TableAt(mem, root, p, 2);
      } else {
        assert TableAt(mem, root, q, 4) == Some(root);
      }
    }
  }
}
