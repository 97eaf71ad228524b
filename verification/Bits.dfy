/**
 Natural numbers as bit strings: the `|` and `<<` of the C and Python sources.
 */
module Bits {

  function Pow2(n: nat): (p: nat)
    ensures p >= 1
  {
    if n == 0 then 1 else 2 * Pow2(n - 1)
  }

  predicate HasBit(x: nat, k: nat)
    decreases k
  {
    if k == 0 then x % 2 == 1 else HasBit(x / 2, k - 1)
  }

  /** `x | y` */
  function Or(x: nat, y: nat): nat
    decreases x + y
  {
    if x == 0 then y
    else if y == 0 then x
    else (if x % 2 == 1 || y % 2 == 1 then 1 else 0) + 2 * Or(x / 2, y / 2)
  }

  /** A bit is set in `x | y` exactly when it is set in one of them. */
  lemma {:induction false} OrHasBit(x: nat, y: nat, k: nat)
    ensures HasBit(Or(x, y), k) <==> HasBit(x, k) || HasBit(y, k)
    decreases k
  {
    if x == 0 || y == 0 {
      ZeroHasNoBit(k);
    } else if k > 0 {
      OrHasBit(x / 2, y / 2, k - 1);
    }
  }

  lemma {:induction false} ZeroHasNoBit(k: nat)
    ensures !HasBit(0, k)
  {
    if k > 0 {
      ZeroHasNoBit(k - 1);
    }
  }

  lemma {:induction false} PowerHasBit(n: nat, k: nat)
    ensures HasBit(Pow2(n), k) <==> k == n
    decreases k
  {
    if n == 0 && k > 0 {
      ZeroHasNoBit(k - 1);
    } else if n > 0 && k > 0 {
      PowerHasBit(n - 1, k - 1);
    }
  }

  lemma {:induction false} OrBound(x: nat, y: nat, n: nat)
    requires x < Pow2(n) && y < Pow2(n)
    ensures Or(x, y) < Pow2(n)
    decreases n
  {
    if x != 0 && y != 0 {
      OrBound(x / 2, y / 2, n - 1);
    }
  }

  /** On numbers without a common bit, `|` is addition. */
  lemma {:induction false} OrIsSum(x: nat, y: nat, k: nat)
    requires x < Pow2(k)
    ensures Or(x, y * Pow2(k)) == x + y * Pow2(k)
    decreases k
  {
    if x != 0 && y != 0 {
      var p := Pow2(k - 1);
      assert y * Pow2(k) == 2 * (y * p);
      assert y * p >= 1;
      OrIsSum(x / 2, y, k - 1);
    }
  }

  lemma {:induction false} Pow2Add(a: nat, b: nat)
    ensures Pow2(a + b) == Pow2(a) * Pow2(b)
  {
    if a > 0 {
      Pow2Add(a - 1, b);
      assert Pow2(a) * Pow2(b) == 2 * (Pow2(a - 1) * Pow2(b));
    }
  }
}
