/** The fixed-size object pool of src/mm/mempool.c: a free list threaded through the free slots. */
module MemPool {
  /** The free slots in list order: head first, each slot holding the next one, the last holding none (-1). */
  ghost predicate Threaded(next: seq<int>, head: int, free: seq<nat>) {
    && head == (if free == [] then -1 else free[0])
    && (forall k :: 0 <= k < |free| ==> free[k] < |next|)
    && forall k :: 0 <= k < |free| ==> next[free[k]] == After(free, k)
  }

  /** The slot behind position k of the list. */
  function After(free: seq<nat>, k: nat): int {
    if k + 1 < |free| then free[k + 1] else -1
  }

  ghost predicate AllDifferent(s: seq<nat>) {
    forall i, j :: 0 <= i < j < |s| ==> s[i] != s[j]
  }

  lemma ThreadedTail(next: seq<int>, head: int, free: seq<nat>)
    requires Threaded(next, head, free) && free != []
    ensures head == free[0] < |next| && Threaded(next, next[free[0]], free[1..])
  {
    var t := free[1..];
    forall k | 0 <= k < |t|
      ensures t[k] < |next| && next[t[k]] == After(t, k)
    {
      assert t[k] == free[k + 1];
    }
  }

  lemma ThreadedPush(next: seq<int>, head: int, free: seq<nat>, obj: nat)
    requires Threaded(next, head, free) && obj < |next| && obj !in free
    ensures Threaded(next[obj := head], obj, [obj] + free)
  {
    var t := [obj] + free;
    forall k | 0 <= k < |t|
      ensures t[k] < |next| && next[obj := head][t[k]] == After(t, k)
    {
      assert k > 0 ==> t[k] == free[k - 1];
    }
  }

  lemma ThreadedNone(next: seq<int>)
    ensures Threaded(next, -1, [])
  {
  }

  class Pool {
    const total: nat
    const slots: array<int>    // the first word of every slot
    var freeList: int
    var used: nat
    ghost var free: seq<nat>

    ghost predicate Valid()
      reads this, slots
    {
      slots.Length == total && Threaded(slots[..], freeList, free) && AllDifferent(free) && used + |free| == total
    }

    /** pool_init: slots are linked from the last to the first. */
    constructor (nrPages: nat, objSize: nat)
      requires objSize > 0
      ensures Valid() && fresh(slots) && total == nrPages * 0x1000 / objSize && used == 0
      ensures free == seq(total, i requires 0 <= i => i)
    {
      total := nrPages * 0x1000 / objSize;
      slots := new int[nrPages * 0x1000 / objSize];
      used := 0;
      freeList := -1;
      free := [];
      new;
      hide Threaded;
      ThreadedNone(slots[..]);
      var i := total;
      while i > 0
        invariant 0 <= i <= total && slots.Length == total && used == 0
        invariant |free| == total - i && forall k :: 0 <= k < |free| ==> free[k] == i + k
        invariant Threaded(slots[..], freeList, free)
      {
        i := i - 1;
        ThreadedPush(slots[..], freeList, free, i);
        ghost var before := slots[..];
        slots[i] := freeList;
        assert slots[..] == before[i := freeList];
        freeList := i;
        free := [i] + free;
      }
    }

    /** pool_alloc: the first free slot, or none. */
    method Alloc() returns (obj: int)
      requires Valid()
      modifies `freeList, `used, `free
      ensures Valid()
      ensures old(free) == [] ==> obj == -1 && free == [] && used == old(used)
      ensures old(free) != [] ==> obj == old(free)[0] && free == old(free)[1..] && used == old(used) + 1
    {
      if freeList == -1 {
        return -1;
      }
      ThreadedTail(slots[..], freeList, free);
      obj := freeList;
      freeList := slots[obj];
      used := used + 1;
      free := free[1..];
    }

    /** pool_free: the slot becomes the first free one. */
    method Free(obj: nat)
      requires Valid() && obj < total && obj !in free && used > 0
      modifies `freeList, `used, `free, slots
      ensures Valid() && free == [obj] + old(free) && used == old(used) - 1
    {
      ThreadedPush(slots[..], freeList, free, obj);
      ghost var before := slots[..];
      slots[obj] := freeList;
      assert slots[..] == before[obj := freeList];
      freeList := obj;
      used := used - 1;
      free := [obj] + free;
    }
  }
}
