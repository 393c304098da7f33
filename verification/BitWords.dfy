/** 64-bit words as natural numbers, with their bitwise operations. */
module BitWords {
  function Pow2(n: nat): (p: nat)
    ensures p >= 1
  {
    if n == 0 then 1 else 2 * Pow2(n - 1)
  }

  const WORD: nat := 0x1_0000_0000_0000_0000

  lemma WordIsPow2()
    ensures Pow2(64) == WORD
  {
    assert Pow2(4) == 16;
    hide Pow2;
    Pow2Add(4, 4);
    Pow2Add(8, 8);
    Pow2Add(16, 16);
    Pow2Add(32, 32);
  }

  lemma {:induction false} Pow2Add(a: nat, b: nat)
    ensures Pow2(a + b) == Pow2(a) * Pow2(b)
  {
    if a > 0 {
      Pow2Add(a - 1, b);
      assert 2 * (Pow2(a - 1) * Pow2(b)) == Pow2(a) * Pow2(b);
    }
  }

  lemma {:induction false} Pow2Monotone(a: nat, b: nat)
    requires a <= b
    ensures Pow2(a) <= Pow2(b) && (a < b ==> Pow2(a) < Pow2(b))
  {
    if a < b {
      Pow2Monotone(a, b - 1);
    }
  }

  /** Bit j of w. */
  predicate Bit(w: nat, j: nat)
    decreases j
  {
    if j == 0 then w % 2 == 1 else Bit(w / 2, j - 1)
  }

  function And(a: nat, b: nat): nat {
    if a == 0 || b == 0 then 0 else a % 2 * (b % 2) + 2 * And(a / 2, b / 2)
  }

  function Or(a: nat, b: nat): nat {
    if a == 0 then b else if b == 0 then a else (if a % 2 == 1 || b % 2 == 1 then 1 else 0) + 2 * Or(a / 2, b / 2)
  }

  /** The complement in n bits. */
  function Not(w: nat, n: nat): nat
    requires w < Pow2(n)
  {
    Pow2(n) - 1 - w
  }

  lemma {:induction false} ZeroBit(j: nat)
    ensures !Bit(0, j)
  {
    if j > 0 {
      ZeroBit(j - 1);
    }
  }

  lemma {:induction false} AndBit(a: nat, b: nat, j: nat)
    ensures Bit(And(a, b), j) <==> Bit(a, j) && Bit(b, j)
    decreases j
  {
    ZeroBit(j);
    if a != 0 && b != 0 {
      var r := And(a, b);
      assert r % 2 == a % 2 * (b % 2) && r / 2 == And(a / 2, b / 2) by { HalfOf(a % 2 * (b % 2), And(a / 2, b / 2)); }
      if j > 0 {
        AndBit(a / 2, b / 2, j - 1);
      }
    }
  }

  lemma HalfOf(low: nat, high: nat)
    requires low < 2
    ensures (low + 2 * high) % 2 == low && (low + 2 * high) / 2 == high
  {
  }

  lemma {:induction false} OrBit(a: nat, b: nat, j: nat)
    ensures Bit(Or(a, b), j) <==> Bit(a, j) || Bit(b, j)
    decreases j
  {
    ZeroBit(j);
    if a != 0 && b != 0 && j > 0 {
      OrBit(a / 2, b / 2, j - 1);
    }
  }

  lemma {:induction false} Pow2Bit(n: nat, j: nat)
    ensures Bit(Pow2(n), j) <==> n == j
    decreases j
  {
    if n == 0 {
      if j > 0 { ZeroBit(j - 1); }
    } else if j > 0 {
      assert Pow2(n) / 2 == Pow2(n - 1);
      Pow2Bit(n - 1, j - 1);
    }
  }

  lemma {:induction false} NotBit(w: nat, n: nat, j: nat)
    requires w < Pow2(n) && j < n
    ensures Bit(Not(w, n), j) <==> !Bit(w, j)
    decreases j
  {
    assert Not(w, n) % 2 == 1 - w % 2 && Not(w, n) / 2 == Not(w / 2, n - 1);
    if j > 0 {
      NotBit(w / 2, n - 1, j - 1);
    }
  }

  /** The low n bits set. */
  lemma {:induction false} MaskBit(n: nat, j: nat)
    ensures Bit(Pow2(n) - 1, j) <==> j < n
    decreases j
  {
    if n == 0 {
      ZeroBit(j);
    } else if j > 0 {
      assert (Pow2(n) - 1) / 2 == Pow2(n - 1) - 1;
      MaskBit(n - 1, j - 1);
    }
  }

  lemma {:induction false} AndBound(a: nat, b: nat)
    ensures And(a, b) <= a && And(a, b) <= b
  {
    if a != 0 && b != 0 {
      AndBound(a / 2, b / 2);
      assert a % 2 * (b % 2) <= a % 2 && a % 2 * (b % 2) <= b % 2 by {
        if a % 2 == 0 {} else { assert a % 2 == 1; }
      }
    }
  }

  lemma {:induction false} OrBound(a: nat, b: nat, n: nat)
    requires a < Pow2(n) && b < Pow2(n)
    ensures Or(a, b) < Pow2(n)
  {
    if a != 0 && b != 0 {
      OrBound(a / 2, b / 2, n - 1);
    }
  }

  // ----- counting bits

  function Pop(w: nat): nat {
    if w == 0 then 0 else w % 2 + Pop(w / 2)
  }

  lemma {:induction false} AndSelf(a: nat)
    ensures And(a, a) == a
  {
    if a > 0 {
      AndSelf(a / 2);
    }
  }

  lemma PopDouble(x: nat)
    ensures Pop(2 * x) == Pop(x)
  {
  }

  lemma AndBelowOdd(w: nat)
    requires w % 2 == 1 && w > 1
    ensures And(w, w - 1) == 2 * (w / 2)
  {
    assert (w - 1) / 2 == w / 2 && (w - 1) % 2 == 0;
    AndSelf(w / 2);
  }

  lemma AndBelowEven(w: nat)
    requires w % 2 == 0 && w > 0
    ensures And(w, w - 1) == 2 * And(w / 2, w / 2 - 1)
  {
    assert (w - 1) / 2 == w / 2 - 1;
  }

  /** Kernighan's step: w & (w - 1) has one bit less. */
  lemma {:induction false} DropLowest(w: nat)
    requires w > 0
    ensures Pop(And(w, w - 1)) + 1 == Pop(w) && And(w, w - 1) < w
  {
    AndBound(w, w - 1);
    assert Pop(w) == w % 2 + Pop(w / 2);
    assert w == 1 ==> And(w, w - 1) == 0 && Pop(0) == 0;
    hide And, Pop;
    if w % 2 == 0 {
      AndBelowEven(w);
      DropLowest(w / 2);
      PopDouble(And(w / 2, w / 2 - 1));
    } else if w > 1 {
      AndBelowOdd(w);
      PopDouble(w / 2);
    } else {
      PopOne();
    }
  }

  lemma PopOne()
    ensures Pop(1) == 1 && Pop(0) == 0
  {
  }

  /** The number of true values. */
  function Trues(s: seq<bool>): nat {
    if s == [] then 0 else (if s[0] then 1 else 0) + Trues(s[1..])
  }

  lemma {:induction false} TruesSplit(a: seq<bool>, b: seq<bool>)
    ensures Trues(a + b) == Trues(a) + Trues(b)
  {
    if a != [] {
      TruesSplit(a[1..], b);
      assert (a + b)[1..] == a[1..] + b;
    } else {
      assert a + b == b;
    }
  }

  /** The low n bits of w, lowest first. */
  function BitsOf(w: nat, n: nat): (s: seq<bool>)
    ensures |s| == n && forall j :: 0 <= j < n ==> s[j] == Bit(w, j)
  {
    seq(n, j requires 0 <= j => Bit(w, j))
  }

  lemma {:induction false} PopIsTrues(w: nat, n: nat)
    requires w < Pow2(n)
    ensures Pop(w) == Trues(BitsOf(w, n))
  {
    if n > 0 {
      PopIsTrues(w / 2, n - 1);
      assert BitsOf(w, n)[1..] == BitsOf(w / 2, n - 1);
    }
  }
}
