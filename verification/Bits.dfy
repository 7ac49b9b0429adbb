/** Bit operations of the source on unbounded non-negative numbers, bit by bit. */
module Bits {
  /** `x << n` on unbounded numbers. */
  function Shl(x: nat, n: nat): nat {
    if n == 0 then x else 2 * Shl(x, n - 1)
  }

  /** `x >> n`. */
  function Halved(x: nat, n: nat): nat {
    if n == 0 then x else Halved(x / 2, n - 1)
  }

  function Pow2(n: nat): nat {
    Shl(1, n)
  }

  /** Bit k of x is set. */
  predicate HasBit(x: nat, k: nat) {
    if k == 0 then x % 2 == 1 else HasBit(x / 2, k - 1)
  }

  /** `x & ~mask`. */
  function AndNot(x: nat, mask: nat): nat {
    if x == 0 then 0 else (if x % 2 == 1 && mask % 2 == 0 then 1 else 0) + 2 * AndNot(x / 2, mask / 2)
  }

  // ---------- Shifts ----------

  lemma {:induction false} ShlAdds(x: nat, y: nat, n: nat)
    ensures Shl(x + y, n) == Shl(x, n) + Shl(y, n)
  {
    if n == 0 {
    } else {
      ShlAdds(x, y, n - 1);
    }
  }

  lemma {:induction false} ShlShl(x: nat, m: nat, n: nat)
    ensures Shl(Shl(x, m), n) == Shl(x, m + n)
  {
    if n == 0 {
    } else {
      ShlShl(x, m, n - 1);
    }
  }

  lemma {:induction false} HalvedStep(x: nat, n: nat)
    ensures Halved(x, n + 1) == Halved(x, n) / 2
  {
    if n == 0 {
    } else {
      HalvedStep(x / 2, n - 1);
    }
  }

  /** Shifting right by n leaves less than what was below 2 to the m + n. */
  lemma {:induction false} HalvedBelow(x: nat, m: nat, n: nat)
    requires x < Pow2(m + n)
    ensures Halved(x, n) < Pow2(m)
  {
    if n == 0 {
    } else {
      HalvedBelow(x / 2, m, n - 1);
    }
  }

  lemma {:induction false} Pow2Grows(m: nat, n: nat)
    requires m <= n
    ensures Pow2(m) <= Pow2(n)
  {
    if m == n {
    } else {
      Pow2Grows(m, n - 1);
    }
  }

  lemma Pow2Values()
    ensures Pow2(5) == 0x20 && Pow2(12) == 0x1000 && Pow2(16) == 0x1_0000 && Pow2(17) == 0x2_0000
  {
    assert Pow2(8) == 256;
    assert Pow2(12) == 16 * Pow2(8);
    assert Pow2(16) == 256 * Pow2(8);
  }

  // ---------- Masks ----------

  lemma {:induction false} NothingCleared(x: nat)
    ensures AndNot(x, 0) == x
  {
    if x == 0 {
    } else {
      NothingCleared(x / 2);
    }
  }

  /** Masking with the complement of a power of two takes that power away where it was there. */
  lemma {:induction false} ClearsBit(x: nat, k: nat)
    ensures HasBit(x, k) ==> Pow2(k) <= x
    ensures AndNot(x, Pow2(k)) == if HasBit(x, k) then x - Pow2(k) else x
    decreases k
  {
    if k == 0 {
      NothingCleared(x / 2);
    } else {
      ClearsBit(x / 2, k - 1);
      assert Pow2(k) / 2 == Pow2(k - 1);
    }
  }

  /** Adding a power of two turns its bit over. */
  lemma {:induction false} AddTurnsBit(x: nat, k: nat)
    ensures HasBit(x + Pow2(k), k) <==> !HasBit(x, k)
  {
    if k == 0 {
    } else {
      AddTurnsBit(x / 2, k - 1);
      assert (x + Pow2(k)) / 2 == x / 2 + Pow2(k - 1);
    }
  }

  /** `(x + p) & ~p` for a power of two p does not round up: it is x plus p where that bit of x
      is set, and x where it is not. */
  lemma AddThenClear(x: nat, k: nat)
    ensures AndNot(x + Pow2(k), Pow2(k)) == if HasBit(x, k) then x + Pow2(k) else x
  {
    AddTurnsBit(x, k);
    ClearsBit(x + Pow2(k), k);
  }

  /** `x & ~(p - 1)` for a power of two p rounds down. */
  lemma {:induction false} ClearsLowBits(x: nat, k: nat)
    ensures Pow2(k) > 0 && AndNot(x, Pow2(k) - 1) == Shl(Halved(x, k), k)
  {
    if k == 0 {
      NothingCleared(x);
    } else {
      ClearsLowBits(x / 2, k - 1);
      assert (Pow2(k) - 1) / 2 == Pow2(k - 1) - 1 && (Pow2(k) - 1) % 2 == 1;
    }
  }

  // ---------- The powers the source uses ----------

  lemma Bit5And12(x: nat)
    ensures HasBit(x, 5) <==> x / 32 % 2 == 1
    ensures HasBit(x, 12) <==> x / 4096 % 2 == 1
  {
    HasBitSteps(x, 5);
    HasBitSteps(x, 12);
    Halved5(x);
    Halved12(x);
  }

  lemma {:induction false} HasBitSteps(x: nat, k: nat)
    ensures HasBit(x, k) <==> Halved(x, k) % 2 == 1
  {
    if k == 0 {
    } else {
      HasBitSteps(x / 2, k - 1);
    }
  }

  lemma Halved5(x: nat)
    ensures Halved(x, 5) == x / 32
  {
    HalvedStep(x, 0);
    HalvedStep(x, 1);
    HalvedStep(x, 2);
    HalvedStep(x, 3);
    HalvedStep(x, 4);
  }

  lemma Halved12(x: nat)
    ensures Halved(x, 12) == x / 4096
  {
    Halved5(x);
    HalvedStep(x, 5);
    HalvedStep(x, 6);
    HalvedStep(x, 7);
    HalvedStep(x, 8);
    HalvedStep(x, 9);
    HalvedStep(x, 10);
    HalvedStep(x, 11);
  }

  lemma ClearsLow5And12(x: nat)
    ensures AndNot(x, 31) == x / 32 * 32
    ensures AndNot(x, 4095) == x / 4096 * 4096
  {
    Pow2Values();
    ClearsLowBits(x, 5);
    ClearsLowBits(x, 12);
    Halved5(x);
    Halved12(x);
    ShlIs(x / 32, 5);
    ShlIs(x / 4096, 12);
  }

  lemma {:induction false} ShlIs(x: nat, n: nat)
    ensures Shl(x, n) == x * Pow2(n)
  {
    if n == 0 {
    } else {
      ShlIs(x, n - 1);
      assert 2 * (x * Pow2(n - 1)) == x * (2 * Pow2(n - 1));
    }
  }
}
