/** Powers of two and bitwise operations on natural numbers, defined bit by bit. */
module Bits {

  const TWO_TO_31: nat := 0x8000_0000
  const TWO_TO_32: nat := 0x1_0000_0000
  const TWO_TO_63: nat := 0x8000_0000_0000_0000
  const TWO_TO_64: nat := 0x1_0000_0000_0000_0000

  function Pow2(n: nat): (p: nat)
    ensures 1 <= p
  {
    if n == 0 then 1 else 2 * Pow2(n - 1)
  }

  /** x shifted left by n bits. */
  function Shl(x: nat, n: nat): nat {
    if n == 0 then x else 2 * Shl(x, n - 1)
  }

  /** Bitwise or. */
  function Or(a: nat, b: nat): nat
    decreases a + b
  {
    if a == 0 then b
    else if b == 0 then a
    else 2 * Or(a / 2, b / 2) + (if a % 2 == 1 || b % 2 == 1 then 1 else 0)
  }

  /** Whether bit k of w is set. */
  predicate Bit(w: nat, k: nat) {
    if k == 0 then w % 2 == 1 else Bit(w / 2, k - 1)
  }

  lemma {:induction false} BitZero(k: nat)
    ensures !Bit(0, k)
  {
    if k != 0 { BitZero(k - 1); }
  }

  lemma {:induction false} BitOr(a: nat, b: nat, k: nat)
    ensures Bit(Or(a, b), k) == (Bit(a, k) || Bit(b, k))
  {
    BitZero(k);
    if a != 0 && b != 0 && k != 0 {
      BitOr(a / 2, b / 2, k - 1);
      assert Or(a, b) / 2 == Or(a / 2, b / 2);
    }
  }

  lemma {:induction false} BitPow2(n: nat, k: nat)
    ensures Bit(Pow2(n), k) == (n == k)
  {
    if n == 0 {
      if k != 0 { BitZero(k - 1); }
    } else if k != 0 {
      BitPow2(n - 1, k - 1);
      assert Pow2(n) / 2 == Pow2(n - 1);
    }
  }

  /** The number with exactly the lowest n bits set. */
  lemma {:induction false} BitOnes(n: nat, k: nat)
    ensures Bit(Pow2(n) - 1, k) == (k < n)
  {
    if n == 0 {
      BitZero(k);
    } else if k != 0 {
      BitOnes(n - 1, k - 1);
      assert (Pow2(n) - 1) / 2 == Pow2(n - 1) - 1;
    }
  }

  /** A number is determined by its bits. */
  lemma {:induction false} BitsDetermine(a: nat, b: nat)
    requires forall k: nat :: Bit(a, k) == Bit(b, k)
    ensures a == b
    decreases a + b
  {
    if a + b > 0 {
      assert Bit(a, 0) == Bit(b, 0);
      forall k: nat ensures Bit(a / 2, k) == Bit(b / 2, k) {
        assert Bit(a, k + 1) == Bit(b, k + 1);
      }
      BitsDetermine(a / 2, b / 2);
    }
  }

  /** Oring in bits above a is addition. */
  lemma {:induction false} OrDisjoint(a: nat, c: nat, n: nat)
    requires a < Pow2(n)
    ensures Or(a, Shl(c, n)) == a + Shl(c, n)
  {
    if n != 0 { OrDisjoint(a / 2, c, n - 1); }
  }

  lemma {:induction false} OrBound(a: nat, b: nat, n: nat)
    requires a < Pow2(n) && b < Pow2(n)
    ensures Or(a, b) < Pow2(n)
  {
    if a != 0 && b != 0 {
      OrBound(a / 2, b / 2, n - 1);
    }
  }

  lemma ShlSeven(x: nat, n: nat)
    ensures Shl(x, n + 7) == 128 * Shl(x, n)
  {
    assert Shl(x, n + 7) == 2 * Shl(x, n + 6) == 4 * Shl(x, n + 5) == 8 * Shl(x, n + 4);
    assert Shl(x, n + 4) == 2 * Shl(x, n + 3) == 4 * Shl(x, n + 2) == 8 * Shl(x, n + 1);
  }

  lemma {:induction false} ShlIsMultiplication(x: nat, n: nat)
    ensures Shl(x, n) == x * Pow2(n)
  {
    if n != 0 { ShlIsMultiplication(x, n - 1); }
  }

  lemma {:induction false} ShlBound(x: nat, n: nat, k: nat)
    requires x < Pow2(k)
    ensures Shl(x, n) < Pow2(n + k)
  {
    if n != 0 { ShlBound(x, n - 1, k); }
  }

  lemma {:induction false} ShlAboveRegister(x: nat, n: nat)
    requires 32 <= n
    ensures Shl(x, n) % TWO_TO_32 == 0
  {
    if n == 32 {
      ShlValues(x);
    } else {
      ShlAboveRegister(x, n - 1);
    }
  }

  lemma {:induction false} ShlSplit(x: nat, n: nat)
    ensures Shl(x, n) == Shl(x % 128, n) + Shl(x / 128, n + 7)
  {
    if n == 0 {
      ShlValues(x / 128);
    } else {
      ShlSplit(x, n - 1);
    }
  }

  lemma ShlValues(x: nat)
    ensures Shl(x, 7) == 128 * x && Shl(x, 14) == 16384 * x && Shl(x, 21) == 0x20_0000 * x
    ensures Shl(x, 28) == 0x1000_0000 * x && Shl(x, 32) == TWO_TO_32 * x
  {
    ShlSeven(x, 0); ShlSeven(x, 7); ShlSeven(x, 14); ShlSeven(x, 21);
    assert Shl(x, 32) == 2 * Shl(x, 31) == 4 * Shl(x, 30) == 8 * Shl(x, 29);
  }

  lemma Shl35(x: nat)
    ensures Shl(x, 35) == 0x8_0000_0000 * x
  {
    ShlValues(x);
    ShlSeven(x, 28);
  }

  lemma Shl63(x: nat)
    ensures Shl(x, 63) == TWO_TO_63 * x
  {
    Shl35(x);
    ShlSeven(x, 35); ShlSeven(x, 42); ShlSeven(x, 49); ShlSeven(x, 56);
  }

  lemma {:induction false} Pow2Monotone(m: nat, n: nat)
    requires m <= n
    ensures Pow2(m) <= Pow2(n)
    decreases n
  {
    if m < n { Pow2Monotone(m, n - 1); }
  }

  lemma Pow2Seven(n: nat)
    ensures Pow2(n + 7) == 128 * Pow2(n)
  {
    assert Pow2(n + 7) == 2 * Pow2(n + 6) == 4 * Pow2(n + 5) == 8 * Pow2(n + 4);
    assert Pow2(n + 4) == 2 * Pow2(n + 3) == 4 * Pow2(n + 2) == 8 * Pow2(n + 1);
  }

  lemma Pow2Four()
    ensures Pow2(4) == 16
  {
    assert Pow2(4) == 2 * Pow2(3) == 4 * Pow2(2) == 8 * Pow2(1);
  }

  lemma Pow2To28()
    ensures Pow2(7) == 128 && Pow2(14) == 16384 && Pow2(21) == 0x20_0000 && Pow2(28) == 0x1000_0000
  {
    Pow2Seven(0); Pow2Seven(7); Pow2Seven(14); Pow2Seven(21);
  }

  lemma Pow2To35()
    ensures Pow2(31) == TWO_TO_31 && Pow2(32) == TWO_TO_32 && Pow2(35) == 0x8_0000_0000
  {
    Pow2To28();
    assert Pow2(31) == 2 * Pow2(30) == 4 * Pow2(29) == 8 * Pow2(28);
    assert Pow2(32) == 2 * Pow2(31);
    Pow2Seven(28);
  }

  lemma Pow2To70()
    ensures Pow2(63) == TWO_TO_63 && Pow2(64) == TWO_TO_64 && Pow2(70) == 64 * TWO_TO_64
  {
    Pow2To35();
    Pow2Seven(35); Pow2Seven(42); Pow2Seven(49); Pow2Seven(56); Pow2Seven(63);
    assert Pow2(64) == 2 * Pow2(63);
  }
}
