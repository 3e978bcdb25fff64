/** Bitwise operators of C on unsigned numbers, by their binary digits. */
module Bits {

  function Pow2(k: nat): (r: nat)
    ensures r > 0
  {
    if k == 0 then 1 else 2 * Pow2(k - 1)
  }

  /** Binary digit `k` of `x` */
  predicate Bit(x: nat, k: nat)
  {
    if k == 0 then x % 2 == 1 else Bit(x / 2, k - 1)
  }

  /** x & y */
  function And(x: nat, y: nat): (r: nat)
  {
    if x == 0 then 0 else 2 * And(x / 2, y / 2) + (if x % 2 == 1 && y % 2 == 1 then 1 else 0)
  }

  /** x | y */
  function Or(x: nat, y: nat): (r: nat)
    decreases x + y
  {
    if x == 0 && y == 0 then 0 else 2 * Or(x / 2, y / 2) + (if x % 2 == 1 || y % 2 == 1 then 1 else 0)
  }

  /** x ^ y */
  function Xor(x: nat, y: nat): (r: nat)
    decreases x + y
  {
    if x == 0 && y == 0 then 0 else 2 * Xor(x / 2, y / 2) + (if x % 2 != y % 2 then 1 else 0)
  }

  /** ~x in `n` bits */
  function Not(x: nat, n: nat): (r: nat)
    requires x < Pow2(n)
  {
    Pow2(n) - 1 - x
  }

  /** And, digit by digit from the lowest */
  lemma AndDigits(a: nat, b: nat, p: nat, q: nat)
    requires p < 2 && q < 2
    ensures And(2 * a + p, 2 * b + q) == 2 * And(a, b) + (if p == 1 && q == 1 then 1 else 0)
  {
    var x, y := 2 * a + p, 2 * b + q;
    assert x / 2 == a && y / 2 == b && x % 2 == p && y % 2 == q;
  }

  lemma {:induction false} BitZero(k: nat)
    ensures !Bit(0, k)
  {
    if k != 0 { BitZero(k - 1); }
  }

  lemma {:induction false} BitAnd(x: nat, y: nat, k: nat)
    ensures Bit(And(x, y), k) == (Bit(x, k) && Bit(y, k))
  {
    if x == 0 {
      BitZero(k);
    } else if k != 0 {
      BitAnd(x / 2, y / 2, k - 1);
      assert And(x, y) / 2 == And(x / 2, y / 2);
    }
  }

  lemma {:induction false} BitOr(x: nat, y: nat, k: nat)
    ensures Bit(Or(x, y), k) == (Bit(x, k) || Bit(y, k))
  {
    if x == 0 && y == 0 {
      BitZero(k);
    } else if k != 0 {
      BitOr(x / 2, y / 2, k - 1);
    }
  }

  lemma {:induction false} BitXor(x: nat, y: nat, k: nat)
    ensures Bit(Xor(x, y), k) == (Bit(x, k) != Bit(y, k))
  {
    if x == 0 && y == 0 {
      BitZero(k);
    } else if k != 0 {
      BitXor(x / 2, y / 2, k - 1);
    }
  }

  lemma {:induction false} BitNot(x: nat, n: nat, k: nat)
    requires x < Pow2(n) && k < n
    ensures Bit(Not(x, n), k) == !Bit(x, k)
  {
    if k != 0 {
      BitNot(x / 2, n - 1, k - 1);
      assert Not(x, n) / 2 == Not(x / 2, n - 1);
    }
  }

  lemma {:induction false} BitPow2(k: nat, j: nat)
    ensures Bit(Pow2(k), j) == (j == k)
  {
    if k == 0 {
      if j != 0 { BitZero(j - 1); }
    } else if j != 0 {
      BitPow2(k - 1, j - 1);
    }
  }

  /** A number with no digit set is zero. */
  lemma {:induction false} HasBit(x: nat) returns (k: nat)
    requires x != 0
    ensures Bit(x, k)
  {
    if x % 2 == 1 {
      k := 0;
    } else {
      var j := HasBit(x / 2);
      k := j + 1;
    }
  }

  /** x & (1 << k) tests digit k. */
  lemma TestsBit(x: nat, k: nat)
    ensures And(x, Pow2(k)) != 0 <==> Bit(x, k)
  {
    BitAnd(x, Pow2(k), k);
    BitPow2(k, k);
    BitZero(k);
    if And(x, Pow2(k)) != 0 {
      var j := HasBit(And(x, Pow2(k)));
      BitAnd(x, Pow2(k), j);
      BitPow2(k, j);
    }
  }

  lemma {:induction false} OrBound(x: nat, y: nat, n: nat)
    requires x < Pow2(n) && y < Pow2(n)
    ensures Or(x, y) < Pow2(n) && Xor(x, y) < Pow2(n)
  {
    if n != 0 { OrBound(x / 2, y / 2, n - 1); }
  }

  lemma {:induction false} AndBound(x: nat, y: nat)
    ensures And(x, y) <= x
  {
    if x != 0 { AndBound(x / 2, y / 2); }
  }

  lemma {:induction false} Pow2Grows(k: nat, n: nat)
    requires k < n
    ensures Pow2(k) < Pow2(n)
  {
    if k + 1 < n { Pow2Grows(k, n - 1); }
  }
}
