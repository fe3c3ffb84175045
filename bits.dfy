/**
 * Python's bitwise operators `&`, `|` and `& ~` on non-negative integers,
 * defined digit by digit, together with the bit-level facts the wall masks rely on.
 */
module Bits {

  function Pow2(k: nat): (r: nat)
    ensures r >= 1
  {
    if k == 0 then 1 else 2 * Pow2(k - 1)
  }

  /** Binary digit k of a is set. */
  predicate TestBit(a: nat, k: nat)
  {
    if k == 0 then a % 2 == 1 else TestBit(a / 2, k - 1)
  }

  /** a & b */
  function And(a: nat, b: nat): nat
  {
    if a == 0 || b == 0 then 0
    else 2 * And(a / 2, b / 2) + (if a % 2 == 1 && b % 2 == 1 then 1 else 0)
  }

  /** a | b */
  function Or(a: nat, b: nat): nat
    decreases a + b
  {
    if a == 0 then b
    else if b == 0 then a
    else 2 * Or(a / 2, b / 2) + (if a % 2 == 1 || b % 2 == 1 then 1 else 0)
  }

  /** a & ~b, which is non-negative whenever a is */
  function AndNot(a: nat, b: nat): nat
  {
    if a == 0 then 0
    else 2 * AndNot(a / 2, b / 2) + (if a % 2 == 1 && b % 2 == 0 then 1 else 0)
  }

  lemma {:induction false} NoBitOfZero(k: nat)
    ensures !TestBit(0, k)
  {
    if k > 0 { NoBitOfZero(k - 1); }
  }

  lemma {:induction false} AndBit(a: nat, b: nat, k: nat)
    ensures TestBit(And(a, b), k) == (TestBit(a, k) && TestBit(b, k))
  {
    if a == 0 || b == 0 {
      NoBitOfZero(k);
    } else if k > 0 {
      AndBit(a / 2, b / 2, k - 1);
    }
  }

  lemma {:induction false} OrBit(a: nat, b: nat, k: nat)
    ensures TestBit(Or(a, b), k) == (TestBit(a, k) || TestBit(b, k))
    decreases a + b
  {
    if a == 0 || b == 0 {
      NoBitOfZero(k);
    } else if k > 0 {
      OrBit(a / 2, b / 2, k - 1);
    }
  }

  lemma {:induction false} AndNotBit(a: nat, b: nat, k: nat)
    ensures TestBit(AndNot(a, b), k) == (TestBit(a, k) && !TestBit(b, k))
  {
    if a == 0 {
      NoBitOfZero(k);
    } else if k > 0 {
      AndNotBit(a / 2, b / 2, k - 1);
    }
  }

  /** Two numbers with the same binary digits are equal. */
  lemma {:induction false} BitsDetermineValue(a: nat, b: nat)
    requires forall k: nat :: TestBit(a, k) == TestBit(b, k)
    ensures a == b
    decreases a + b
  {
    if a != 0 || b != 0 {
      assert TestBit(a, 0) == TestBit(b, 0);
      forall k: nat ensures TestBit(a / 2, k) == TestBit(b / 2, k) {
        assert TestBit(a, k + 1) == TestBit(b, k + 1);
      }
      BitsDetermineValue(a / 2, b / 2);
    }
  }

  /** Pow2(k) has exactly one binary digit set, digit k. */
  lemma {:induction false} Pow2Bit(k: nat, j: nat)
    ensures TestBit(Pow2(k), j) == (j == k)
  {
    if k == 0 {
      if j > 0 { NoBitOfZero(j - 1); }
    } else if j > 0 {
      Pow2Bit(k - 1, j - 1);
    }
  }

  /** Masking with a single bit is non-zero exactly when that bit is set. */
  lemma {:induction false} AndPow2(a: nat, k: nat)
    ensures (And(a, Pow2(k)) != 0) == TestBit(a, k)
  {
    if a == 0 {
      NoBitOfZero(k);
    } else if k == 0 {
      assert And(a / 2, 0) == 0;
    } else {
      AndPow2(a / 2, k - 1);
    }
  }

  lemma {:induction false} AndNotAtMost(a: nat, b: nat)
    ensures AndNot(a, b) <= a
  {
    if a > 0 { AndNotAtMost(a / 2, b / 2); }
  }

  lemma {:induction false} OrBelow(a: nat, b: nat, n: nat)
    requires a < Pow2(n) && b < Pow2(n)
    ensures Or(a, b) < Pow2(n)
  {
    if a != 0 && b != 0 {
      assert n > 0;
      OrBelow(a / 2, b / 2, n - 1);
    }
  }

  lemma AndNotBits(a: nat, b: nat)
    ensures forall k: nat :: TestBit(AndNot(a, b), k) == (TestBit(a, k) && !TestBit(b, k))
  {
    forall k: nat ensures TestBit(AndNot(a, b), k) == (TestBit(a, k) && !TestBit(b, k)) {
      AndNotBit(a, b, k);
    }
  }

  lemma OrBits(a: nat, b: nat)
    ensures forall k: nat :: TestBit(Or(a, b), k) == (TestBit(a, k) || TestBit(b, k))
  {
    forall k: nat ensures TestBit(Or(a, b), k) == (TestBit(a, k) || TestBit(b, k)) {
      OrBit(a, b, k);
    }
  }
}
