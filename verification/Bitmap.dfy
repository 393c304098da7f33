/** The bitmap of src/bitmap.c: 64-bit words that stand for a sequence of bits. */
module Bitmaps {
  import opened BitWords

  /** No bit of the run of count bits at i is set; positions past the end read as clear, as bitmap_test reads them. */
  predicate RunClear(bits: seq<bool>, i: nat, count: nat) {
    forall j :: i <= j < i + count && j < |bits| ==> !bits[j]
  }

  /** Bits i..i+count-1, as far as they exist, replaced. */
  ghost function Fill(bits: seq<bool>, i: nat, count: nat, b: bool): (r: seq<bool>)
    ensures |r| == |bits| && forall j :: 0 <= j < |bits| ==> r[j] == if i <= j < i + count then b else bits[j]
  {
    seq(|bits|, j requires 0 <= j < |bits| => if i <= j < i + count then b else bits[j])
  }

  /** How far the run of count positions at i goes past 2^64 and on from 0. */
  function Wrapped(i: nat, count: nat): nat { if i + count > WORD then i + count - WORD else 0 }

  /** RunClear with positions in 64-bit arithmetic. */
  ghost predicate RunClear64(bits: seq<bool>, i: nat, count: nat) {
    RunClear(bits, i, count) && RunClear(bits, 0, Wrapped(i, count))
  }

  ghost function Fill64(bits: seq<bool>, i: nat, count: nat, b: bool): seq<bool> {
    Fill(Fill(bits, i, count, b), 0, Wrapped(i, count), b)
  }

  /** size - count in 64-bit arithmetic: the last start position that is tried. */
  function Limit(size: nat, count: nat): nat { (size - count) % WORD }

  /** A 64-bit number returned as an int. */
  function AsInt(x: nat): (r: int)
    ensures -0x8000_0000 <= r < 0x8000_0000 && (x - r) % 0x1_0000_0000 == 0
  {
    if x % 0x1_0000_0000 < 0x8000_0000 then x % 0x1_0000_0000 else x % 0x1_0000_0000 - 0x1_0000_0000
  }

  class Bitmap {
    const size: nat
    const words: array<nat>

    ghost predicate Valid()
      reads words
    {
      && size <= 64 * words.Length && 128 * words.Length < WORD
      && forall k :: 0 <= k < words.Length ==> words[k] < Pow2(64)
    }

    function Bits(): (s: seq<bool>)
      requires Valid()
      reads words
      ensures |s| == size && forall j :: 0 <= j < size ==> s[j] == Bit(words[j / 64], j % 64)
    {
      seq(size, j requires 0 <= j < size reads words requires Valid() => Bit(words[j / 64], j % 64))
    }

    /** bitmap_init */
    constructor (data: array<nat>, n: nat)
      requires n <= 64 * data.Length && 128 * data.Length < WORD
        && forall k :: 0 <= k < data.Length ==> data[k] < Pow2(64)
      modifies data
      ensures Valid() && size == n && words == data && Bits() == seq(n, _ => false)
    {
      size, words := n, data;
      new;
      var i := 0;
      while i < (n + 63) / 64
        invariant 0 <= i <= (n + 63) / 64 && Valid() && forall k :: 0 <= k < i ==> words[k] == 0
      {
        words[i] := 0;
        i := i + 1;
      }
      forall j | 0 <= j < n
        ensures !Bit(words[j / 64], j % 64)
      {
        ZeroBit(j % 64);
      }
    }

    /** bitmap_set: a bit out of range is ignored. */
    method Set(bit: nat)
      requires Valid()
      modifies words
      ensures Valid() && Bits() == if bit < size then old(Bits())[bit := true] else old(Bits())
    {
      hide Pow2, Or, And, Bit, Not;
      if bit >= size {
        return;
      }
      var w, b := bit / 64, bit % 64;
      Pow2Monotone(b, 64);
      OrBound(words[w], Pow2(b), 64);
      ghost var before, bits := words[w], Bits();
      words[w] := Or(words[w], Pow2(b));
      forall j | 0 <= j < size
        ensures Bit(words[j / 64], j % 64) == bits[bit := true][j]
      {
        OrBit(before, Pow2(b), j % 64);
        Pow2Bit(b, j % 64);
      }
      assert Bits() == bits[bit := true];
    }

    /** bitmap_clear */
    method Clear(bit: nat)
      requires Valid()
      modifies words
      ensures Valid() && Bits() == if bit < size then old(Bits())[bit := false] else old(Bits())
    {
      hide Pow2, Or, And, Bit, Not;
      if bit >= size {
        return;
      }
      var w, b := bit / 64, bit % 64;
      Pow2Monotone(b, 64);
      AndBound(words[w], Not(Pow2(b), 64));
      ghost var before, bits := words[w], Bits();
      words[w] := And(words[w], Not(Pow2(b), 64));
      forall j | 0 <= j < size
        ensures Bit(words[j / 64], j % 64) == bits[bit := false][j]
      {
        AndBit(before, Not(Pow2(b), 64), j % 64);
        NotBit(Pow2(b), 64, j % 64);
        Pow2Bit(b, j % 64);
      }
      assert Bits() == bits[bit := false];
    }

    /** bitmap_test */
    method Test(bit: nat) returns (r: bool)
      requires Valid()
      ensures r == (bit < size && Bits()[bit])
    {
      if bit >= size {
        return false;
      }
      AndBit(words[bit / 64], Pow2(bit % 64), bit % 64);
      Pow2Bit(bit % 64, bit % 64);
      OneBitLeft(words[bit / 64], bit % 64);
      r := And(words[bit / 64], Pow2(bit % 64)) != 0;
    }

    /** bitmap_find_first_zero: the lowest clear bit at or after start, -1 if there is none. */
    method FindFirstZero(start: nat) returns (r: int)
      requires Valid()
      ensures r == -1 ==> forall j :: start <= j < size ==> Bits()[j]
      ensures r != -1 ==> start <= r < size && !Bits()[r] && forall j :: start <= j < r ==> Bits()[j]
    {
      hide Bit, Pow2, And;
      var wordStart, bitStart := start / 64, start % 64;
      var i := wordStart;
      while i < (size + 63) / 64
        invariant i >= wordStart && forall k :: start <= k < 64 * i && k < size ==> Bits()[k]
        decreases (size + 63) / 64 - i
      {
        var word := words[i];
        if word == Pow2(64) - 1 {
          FullWord(word);
          i := i + 1;
          continue;
        }
        var j := if i == wordStart then bitStart else 0;
        while j < 64
          invariant (if i == wordStart then bitStart else 0) <= j <= 64
            && forall k :: start <= k < 64 * i + j && k < size ==> Bits()[k]
          decreases 64 - j
        {
          var pos := i * 64 + j;
          if pos >= size {
            break;
          }
          OneBitLeft(word, j);
          if And(word, Pow2(j)) == 0 {
            return pos;
          }
          j := j + 1;
        }
        i := i + 1;
      }
      return -1;
    }

    /** Is the run of count bits at i clear? */
    method TestRun(i: nat, count: nat) returns (found: bool)
      requires Valid() && i < WORD && count < WORD
      ensures found <==> RunClear64(Bits(), i, count)
    {
      ClearNone(Bits(), i);
      hide RunClear64;
      var j := 0;
      while j < count
        invariant 0 <= j <= count && RunClear64(Bits(), i, j)
      {
        ClearNext(Bits(), i, j, count);
        var t := Test((i + j) % WORD);
        if t {
          return false;
        }
        j := j + 1;
      }
      return true;
    }

    /** bitmap_set_range */
    method SetRange(start: nat, count: nat)
      requires Valid()
      modifies words
      ensures Valid() && Bits() == Fill(old(Bits()), start, count, true)
    {
      var i := 0;
      while i < count && start + i < size
        invariant 0 <= i <= count && Valid() && Bits() == Fill(old(Bits()), start, i, true)
      {
        Set(start + i);
        i := i + 1;
      }
    }

    /** bitmap_free_range */
    method FreeRange(start: nat, count: nat)
      requires Valid()
      modifies words
      ensures Valid() && Bits() == Fill(old(Bits()), start, count, false)
    {
      var i := 0;
      while i < count
        invariant 0 <= i <= count && Valid() && Bits() == Fill(old(Bits()), start, i, false)
      {
        if start + i < size {
          Clear(start + i);
        }
        i := i + 1;
      }
    }

    /** bitmap_alloc_range: the first clear run from start on; at is its position, and the result that position as an
        int. When count is size + 1 the limit is 2^64 - 1 and the search goes on at 0. */
    method AllocRange(count: nat, start: nat) returns (r: int, ghost at: int)
      requires Valid() && count < WORD && start < WORD
      modifies words
      ensures Valid() && -1 <= at < WORD && r == if at == -1 then -1 else AsInt(at)
      ensures at == -1 ==> Bits() == old(Bits())
      ensures at == -1 && count > 0 ==>
                forall i :: start <= i <= Limit(size, count) ==> !RunClear64(old(Bits()), i, count)
      ensures at == -1 && count > 0 ==> Limit(size, count) < WORD - 1
      ensures at != -1 ==> count > 0 && at <= Limit(size, count)
      ensures at != -1 ==> RunClear64(old(Bits()), at, count) && Bits() == Fill64(old(Bits()), at, count, true)
      ensures at >= start ==> forall i :: start <= i < at ==> !RunClear64(old(Bits()), i, count)
      ensures 0 <= at < start ==>
                count == size + 1 && forall i :: 0 <= i < at || start <= i < WORD ==> !RunClear64(old(Bits()), i, count)
    {
      if count == 0 {
        return -1, -1;
      }
      hide RunClear, RunClear64, Fill, Fill64, Wrapped, Ahead, Limit, AsInt, Pow2;
      var limit := Limit(size, count);
      LimitIs(size, count);
      PastEnd(Bits(), count);
      var i := start;
      ghost var around := false;
      while i <= limit
        invariant 0 <= i < WORD && Valid() && Bits() == old(Bits()) && (around ==> limit == WORD - 1)
          && (!around ==> start <= i)
        invariant forall k :: start <= k < (if around then WORD else i) ==> !RunClear64(old(Bits()), k, count)
        invariant around ==> forall k :: 0 <= k < i ==> !RunClear64(old(Bits()), k, count)
        decreases Ahead(size, limit, i)
      {
        var found := TestRun(i, count);
        if found {
          SetRun(i, count);
          return AsInt(i), i;
        }
        AheadNext(size, limit, i);
        i := (i + 1) % WORD;
        around := around || i == 0;
      }
      return -1, -1;
    }

    /** The inner loop of bitmap_alloc_range that sets the bits. */
    method SetRun(i: nat, count: nat)
      requires Valid() && i < WORD && count < WORD
      modifies words
      ensures Valid() && Bits() == Fill64(old(Bits()), i, count, true)
    {
      var j := 0;
      while j < count
        invariant 0 <= j <= count && Valid() && Bits() == Fill64(old(Bits()), i, j, true)
      {
        assert (i + j) % WORD == if i + j < WORD then i + j else i + j - WORD;
        Set((i + j) % WORD);
        j := j + 1;
      }
    }

    /** The part of the last word that belongs to the bitmap. */
    method Masked(i: nat) returns (word: nat)
      requires Valid() && i < (size + 63) / 64
      ensures var n := if 64 * i + 64 <= size then 64 else size - 64 * i;
              word < Pow2(n) && BitsOf(word, n) == Bits()[64 * i..64 * i + n]
    {
      hide Bit, Pow2, And;
      word := words[i];
      if i == (size + 63) / 64 - 1 && size % 64 != 0 {
        var valid := size % 64;
        ghost var w := word;
        AndBound(word, Pow2(valid) - 1);
        word := And(word, Pow2(valid) - 1);
        forall j | 0 <= j < valid
          ensures Bit(word, j) == Bit(w, j)
        {
          AndBit(w, Pow2(valid) - 1, j);
          MaskBit(valid, j);
        }
      }
    }

    /** bitmap_count_set: the number of set bits. */
    method CountSet() returns (count: nat)
      requires Valid()
      ensures count == Trues(Bits())
    {
      hide Bit, Pow2, Pop, Trues;
      count := 0;
      var i := 0;
      assert Bits()[..0] == [];
      TruesNone();
      while i < (size + 63) / 64
        invariant 0 <= i <= (size + 63) / 64 && count == Trues(Bits()[..if 64 * i <= size then 64 * i else size])
      {
        var word := Masked(i);
        ghost var lo, hi := 64 * i, if 64 * i + 64 <= size then 64 * i + 64 else size;
        PopIsTrues(word, hi - lo);
        TruesSplit(Bits()[..lo], Bits()[lo..hi]);
        assert Bits()[..lo] + Bits()[lo..hi] == Bits()[..hi];
        ghost var goal := count + Pop(word);
        while word != 0
          invariant count + Pop(word) == goal
          decreases word
        {
          count := count + 1;
          DropLowest(word);
          word := And(word, word - 1);
        }
        PopZero();
        i := i + 1;
      }
      assert Bits()[..size] == Bits();
    }
  }

  /** How many positions the search has still to try at most: up to the limit, or around to the end of the bitmap. */
  function Ahead(size: nat, limit: nat, i: nat): nat {
    if limit < WORD - 1 then (if i <= limit then limit + 1 - i else 0)
    else if i <= size then size - i
    else if i < WORD then WORD + size - i else 0
  }

  lemma AheadNext(size: nat, limit: nat, i: nat)
    requires i <= limit < WORD && (limit == WORD - 1 ==> i != size) && size < WORD - 1
    ensures Ahead(size, limit, (i + 1) % WORD) < Ahead(size, limit, i)
      && (i + 1) % WORD == if i == WORD - 1 then 0 else i + 1
  {
  }

  lemma IntOf(x: nat)
    ensures x < 0x8000_0000 ==> AsInt(x) == x
    ensures AsInt(WORD - 1) == -1
  {
  }

  /** Runs that do not reach 2^64. */
  lemma NoWrap(bits: seq<bool>, i: nat, count: nat)
    requires i + count <= WORD
    ensures RunClear64(bits, i, count) <==> RunClear(bits, i, count)
    ensures forall b :: Fill64(bits, i, count, b) == Fill(bits, i, count, b)
  {
  }

  lemma ClearNone(bits: seq<bool>, i: nat)
    requires i < WORD
    ensures RunClear64(bits, i, 0)
  {
  }

  /** A run is clear up to position j exactly if it is so far and there. */
  lemma ClearNext(bits: seq<bool>, i: nat, j: nat, count: nat)
    requires i < WORD && j < count < WORD && |bits| < WORD
    ensures var p := (i + j) % WORD;
            && (RunClear64(bits, i, j + 1) <==> RunClear64(bits, i, j) && !(p < |bits| && bits[p]))
            && (RunClear64(bits, i, count) ==> RunClear64(bits, i, j + 1))
  {
    assert (i + j) % WORD == if i + j < WORD then i + j else i + j - WORD;
  }

  lemma LimitIs(size: nat, count: nat)
    requires size < WORD && 0 < count < WORD
    ensures Limit(size, count) == if count <= size then size - count else WORD + size - count
  {
  }

  /** All positions behind the end read as clear. */
  lemma PastEnd(bits: seq<bool>, count: nat)
    ensures |bits| + count <= WORD ==> RunClear64(bits, |bits|, count)
  {
  }

  lemma TruesNone()
    ensures Trues([]) == 0
  {
  }

  lemma PopZero()
    ensures Pop(0) == 0
  {
  }

  lemma FullWord(w: nat)
    requires w == Pow2(64) - 1
    ensures forall j :: 0 <= j < 64 ==> Bit(w, j)
  {
    forall j | 0 <= j < 64
      ensures Bit(w, j)
    {
      MaskBit(64, j);
    }
  }

  /** A word masked with one bit is zero exactly when that bit is clear. */
  lemma OneBitLeft(w: nat, b: nat)
    ensures And(w, Pow2(b)) != 0 <==> Bit(w, b)
  {
    AndBit(w, Pow2(b), b);
    Pow2Bit(b, b);
    ZeroBit(b);
    if And(w, Pow2(b)) != 0 {
      SomeBit(And(w, Pow2(b)));
      var j :| Bit(And(w, Pow2(b)), j);
      AndBit(w, Pow2(b), j);
      Pow2Bit(b, j);
    }
  }

  lemma {:induction false} SomeBit(w: nat)
    requires w > 0
    ensures exists j: nat :: Bit(w, j)
  {
    if w % 2 == 1 {
      assert Bit(w, 0);
    } else {
      SomeBit(w / 2);
      var j: nat :| Bit(w / 2, j);
      assert Bit(w, j + 1);
    }
  }
}
