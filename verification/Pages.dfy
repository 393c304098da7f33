/** Physical pages (page.c:46-64) and orders (page.h:48-78). */
module Pages {
  import opened BitWords
  import opened Bitmaps

  const PAGE: nat := 0x1000

  /** order_to_pages, in 64 bits. */
  function OrderToPages(order: nat): nat
    requires order < 64
  {
    Pow2(order)
  }

  // ----- orders

  /** The number of significant bits. */
  function FlsOf(x: nat): nat {
    if x == 0 then 0 else 1 + FlsOf(x / 2)
  }

  method Fls(x0: nat) returns (r: nat)
    ensures r == FlsOf(x0)
  {
    var x := x0;
    r := 0;
    while x != 0
      invariant r + FlsOf(x) == FlsOf(x0)
    {
      x := x / 2;
      r := r + 1;
    }
  }

  lemma {:induction false} FlsBounds(x: nat)
    ensures x < Pow2(FlsOf(x)) && (x > 0 ==> Pow2(FlsOf(x) - 1) <= x)
  {
    if x > 1 {
      FlsBounds(x / 2);
    }
  }

  lemma FlsUnique(x: nat, r: nat)
    requires x < Pow2(r) && (r > 0 ==> Pow2(r - 1) <= x)
    ensures FlsOf(x) == r
  {
    FlsBounds(x);
    var f := FlsOf(x);
    if f < r {
      Pow2Monotone(f, r - 1);
    } else if r < f {
      Pow2Monotone(r, f - 1);
    }
  }

  /** size_to_order: sums and differences wrap at 64 bits. */
  function SizeToOrder(size: nat): nat
    requires size < WORD
  {
    if size == 0 then 0 else FlsOf(((size + PAGE - 1) % WORD / PAGE - 1) % WORD)
  }

  function PagesToOrder(n: nat): nat {
    SizeToOrder(n * PAGE % WORD)
  }

  /** The order is the least one whose pages hold size bytes. */
  lemma OrderIsLeast(size: nat)
    requires size + PAGE <= WORD
    ensures size <= Pow2(SizeToOrder(size)) * PAGE
    ensures SizeToOrder(size) > 0 ==> Pow2(SizeToOrder(size) - 1) * PAGE < size
  {
    assert FlsOf(0) == 0;
    hide Pow2, FlsOf;
    if size == 0 {
      return;
    }
    var pages := (size + PAGE - 1) / PAGE;
    assert 1 <= pages && (size + PAGE - 1) % WORD == size + PAGE - 1;
    FlsBounds(pages - 1);
  }

  lemma PageOrders(o: nat)
    requires o <= 51
    ensures Pow2(o) * PAGE <= WORD / 2
  {
    hide Pow2;
    Pow2Monotone(o, 51);
    WordIsPow2();
    Pow2Add(51, 13);
    SmallPowers();
    assert Pow2(51) * 8192 == WORD;
  }

  /** kfree recovers the order of an area: size_to_order inverts order_to_pages, as far as the size fits 64 bits. */
  lemma OrderInverts(o: nat)
    requires o < 64
    ensures SizeToOrder(Pow2(o) * PAGE % WORD) == o <==> o <= 51
  {
    hide FlsOf, Pow2;
    if o <= 51 {
      PageOrders(o);
      Pow2Half(o);
      FlsUnique(Pow2(o) - 1, o);
      OrderOfPages(Pow2(o));
    } else {
      WrapsToZero(o);
    }
  }

  lemma Pow2Half(o: nat)
    ensures o > 0 ==> Pow2(o - 1) <= Pow2(o) - 1
  {
  }

  lemma OrderOfPages(n: nat)
    requires 1 <= n && n * PAGE <= WORD / 2
    ensures SizeToOrder(n * PAGE % WORD) == FlsOf(n - 1)
  {
    hide FlsOf;
    var size := n * PAGE;
    assert size % WORD == size;
    assert (size + PAGE - 1) % WORD == size + PAGE - 1;
    assert (size + PAGE - 1) / PAGE == n;
  }

  lemma WrapsToZero(o: nat)
    requires 52 <= o
    ensures Pow2(o) * PAGE % WORD == 0
  {
    hide Pow2;
    Pow2Add(52, o - 52);
    Pow2Add(12, 52);
    SmallPowers();
    WordIsPow2();
    Regroup(Pow2(52), Pow2(o - 52), PAGE);
    MultipleMod(Pow2(o - 52));
  }

  lemma Regroup(a: nat, b: nat, p: nat)
    ensures a * b * p == b * (p * a)
  {
  }

  lemma SmallPowers()
    ensures Pow2(12) == PAGE && Pow2(13) == 8192
  {
    assert Pow2(6) == 64;
    Pow2Add(6, 6);
    assert Pow2(13) == 2 * Pow2(12);
  }

  lemma MultipleMod(k: nat)
    ensures k * WORD % WORD == 0
  {
  }

  // ----- alloc_pages and free_pages

  /** r is the lowest run of count clear bits inside the bitmap. */
  predicate IsFirstFit(bits: seq<bool>, count: nat, r: nat) {
    r + count <= |bits| && RunClear(bits, r, count) && forall i :: 0 <= i < r ==> !RunClear(bits, i, count)
  }

  ghost predicate NoFit(bits: seq<bool>, count: nat) {
    forall i: nat :: i + count <= |bits| ==> !RunClear(bits, i, count)
  }

  lemma NothingFilled(bits: seq<bool>, at: int, count: nat)
    ensures at >= 0 && bits == [] ==> Fill64(bits, at, count, true) == bits
  {
  }

  lemma PageNumber(r: nat)
    ensures r * PAGE / PAGE == r && r * PAGE % PAGE == 0
  {
  }

  lemma OrderSize(order: nat)
    requires order < 64
    ensures 0 < Pow2(order) <= WORD / 2
  {
    WordIsPow2();
    assert Pow2(64) == 2 * Pow2(63);
    Pow2Monotone(order, 63);
  }

  /** What the search of alloc_pages finds: start is the first clear bit, or the last 64-bit number without one. */
  lemma FoundBlock(bits: seq<bool>, count: nat, start: nat, at: int)
    requires |bits| < 0x8000_0000 && 0 < count <= WORD / 2 && start < WORD && -1 <= at < WORD
    requires if start < |bits| then !bits[start] else start == WORD - 1
    requires forall i :: 0 <= i < start && i < |bits| ==> bits[i]
    requires at == -1 ==> forall i :: start <= i <= Limit(|bits|, count) ==> !RunClear64(bits, i, count)
    requires at == -1 ==> Limit(|bits|, count) < WORD - 1
    requires at != -1 ==> at <= Limit(|bits|, count) && RunClear64(bits, at, count)
    requires at >= start ==> forall i :: start <= i < at ==> !RunClear64(bits, i, count)
    requires 0 <= at < start ==>
              count == |bits| + 1 && forall i :: 0 <= i < at || start <= i < WORD ==> !RunClear64(bits, i, count)
    ensures at == -1 ==> NoFit(bits, count)
    ensures 0 <= at < WORD - 1 ==> at <= |bits| && forall i :: 0 <= i < at ==> !RunClear(bits, i, count)
    ensures at == WORD - 1 ==> bits == []
    ensures count <= |bits| ==> at + count <= |bits|
    ensures count > |bits| ==> (0 <= at < WORD - 1 <==> start < |bits| || (bits != [] && count == |bits| + 1))
  {
    LimitIs(|bits|, count);
    PastEnd(bits, count);
    assert RunClear64(bits, |bits|, count);
    forall i: nat | i <= |bits|
      ensures i < start && i < |bits| ==> !RunClear(bits, i, count)
      ensures RunClear64(bits, i, count) <==> RunClear(bits, i, count)
    {
      NoWrap(bits, i, count);
      if i < start && i < |bits| { assert bits[i]; }
    }
    assert bits == [] ==> RunClear64(bits, WORD - 1, count);
    if bits != [] && count == |bits| + 1 {
      LastWraps(bits, count);
    }
    hide RunClear, RunClear64;
  }

  /** From the last 64-bit position the run goes on at 0. */
  lemma LastWraps(bits: seq<bool>, count: nat)
    requires bits != [] && count == |bits| + 1 && |bits| < WORD - 1
    ensures RunClear64(bits, WORD - 1, count) ==> !bits[0]
  {
    assert Wrapped(WORD - 1, count) == |bits|;
  }

  /** alloc_pages: the lowest free block, taken; -1 when there is none. This is exact when 2^order pages exist at all;
      otherwise the 64-bit limit size - count wraps, and unless all frames are in use a block that runs past the end is
      handed out (with all in use, only if it is one longer than the bitmap). */
  method AllocPages(b: Bitmap, order: nat) returns (pa: int)
    requires b.Valid() && b.size < 0x8000_0000 && order < 64
    modifies b.words
    ensures b.Valid()
    ensures pa == -1 ==> b.Bits() == old(b.Bits()) && NoFit(b.Bits(), Pow2(order))
    ensures pa != -1 ==> pa >= 0 && pa % PAGE == 0 && b.Bits() == Fill(old(b.Bits()), pa / PAGE, Pow2(order), true)
    ensures pa != -1 ==> (IsFirstFit(old(b.Bits()), Pow2(order), pa / PAGE) <==> Pow2(order) <= b.size)
    ensures pa != -1 ==> RunClear(old(b.Bits()), pa / PAGE, Pow2(order))
    ensures pa != -1 ==> forall i :: 0 <= i < pa / PAGE ==> !RunClear(old(b.Bits()), i, Pow2(order))
    ensures Pow2(order) > b.size ==> (pa != -1 <==> false in old(b.Bits()) || (b.size > 0 && Pow2(order) == b.size + 1))
  {
    OrderSize(order);
    hide Pow2, Bitmap.Valid, Bitmap.Bits, Limit, RunClear, RunClear64, Fill64, AsInt;
    ghost var bits := b.Bits();
    var start := b.FindFirstZero(0);
    var from: nat := if start == -1 then WORD - 1 else start;
    var r;
    ghost var at;
    r, at := b.AllocRange(OrderToPages(order), from);
    FoundBlock(bits, Pow2(order), from, at);
    IntOf(if at < 0 then 0 else at);
    if r < 0 {
      NothingFilled(bits, at, Pow2(order));
      return -1;
    }
    NoWrap(bits, at, Pow2(order));
    pa := r * PAGE;
    PageNumber(r);
  }

  /** The failing call: with one frame of memory, free, a block of two is handed out at frame 0. */
  method PastTheEnd() returns (b: Bitmap, pa: int)
    ensures b.Valid() && b.size == 1 && pa == 0 && b.Bits() == [true] && Pow2(1) == 2
    ensures !IsFirstFit([false], Pow2(1), 0)
  {
    var words := new nat[1](_ => 0);
    assert Pow2(1) == 2;
    WordIsPow2();
    hide Pow2;
    b := new Bitmap(words, 1);
    ghost var bits := b.Bits();
    assert bits == [false] && bits[0] == false;
    pa := AllocPages(b, 1);
    assert RunClear(bits, 0, Pow2(1));
    PageNumber(0);
  }

  /** free_pages */
  method FreePages(b: Bitmap, pa: nat, order: nat)
    requires b.Valid() && order < 64
    modifies b.words
    ensures b.Valid() && b.Bits() == Fill(old(b.Bits()), pa / PAGE, Pow2(order), false)
  {
    b.FreeRange(pa / PAGE, OrderToPages(order));
  }

  /** Freeing an allocated block restores the bitmap. */
  lemma AllocThenFree(bits: seq<bool>, r: nat, count: nat)
    requires RunClear(bits, r, count)
    ensures Fill(Fill(bits, r, count, true), r, count, false) == bits
  {
  }
}
