/** Bitwise operators on natural numbers, one binary digit at a time, and what they do to
    single bits.  C's unsigned &, | and ^ on in-range operands are And, Or and Xor. */
module Bits {

  function Pow2(k: nat): (p: nat)
    ensures p > 0
  {
    if k == 0 then 1 else 2 * Pow2(k - 1)
  }

  /** Bit k of x. */
  predicate Bit(x: nat, k: nat) {
    if k == 0 then x % 2 == 1 else Bit(x / 2, k - 1)
  }

  function And(x: nat, y: nat): (r: nat)
    decreases x
  {
    if x == 0 then 0 else (if x % 2 == 1 && y % 2 == 1 then 1 else 0) + 2 * And(x / 2, y / 2)
  }

  function Or(x: nat, y: nat): (r: nat)
    decreases x
  {
    if x == 0 then y else (if x % 2 == 1 || y % 2 == 1 then 1 else 0) + 2 * Or(x / 2, y / 2)
  }

  function Xor(x: nat, y: nat): (r: nat)
    decreases x
  {
    if x == 0 then y else (if x % 2 != y % 2 then 1 else 0) + 2 * Xor(x / 2, y / 2)
  }

  lemma {:induction false} BitOfZero(k: nat)
    ensures !Bit(0, k)
  {
    if k > 0 { BitOfZero(k - 1); }
  }

  lemma {:induction false} BitAnd(x: nat, y: nat, k: nat)
    ensures Bit(And(x, y), k) <==> Bit(x, k) && Bit(y, k)
  {
    if x == 0 {
      BitOfZero(k);
    } else if k > 0 {
      BitAnd(x / 2, y / 2, k - 1);
    }
  }

  lemma {:induction false} BitOr(x: nat, y: nat, k: nat)
    ensures Bit(Or(x, y), k) <==> Bit(x, k) || Bit(y, k)
  {
    if x == 0 {
      BitOfZero(k);
    } else if k > 0 {
      BitOr(x / 2, y / 2, k - 1);
    }
  }

  lemma {:induction false} BitXor(x: nat, y: nat, k: nat)
    ensures Bit(Xor(x, y), k) <==> Bit(x, k) != Bit(y, k)
  {
    if x == 0 {
      BitOfZero(k);
    } else if k > 0 {
      BitXor(x / 2, y / 2, k - 1);
    }
  }

  lemma {:induction false} BitPow2(j: nat, k: nat)
    ensures Bit(Pow2(j), k) <==> j == k
  {
    if j == 0 {
      if k > 0 { BitOfZero(k - 1); }
    } else if k > 0 {
      BitPow2(j - 1, k - 1);
    }
  }

  /** The complement of m in n bits. */
  lemma {:induction false} BitComplement(m: nat, n: nat, k: nat)
    requires m < Pow2(n) && k < n
    ensures Bit(Pow2(n) - 1 - m, k) <==> !Bit(m, k)
  {
    if k > 0 {
      assert (Pow2(n) - 1 - m) / 2 == Pow2(n - 1) - 1 - m / 2;
      BitComplement(m / 2, n - 1, k - 1);
    }
  }

  lemma {:induction false} AndBelow(x: nat, y: nat)
    ensures And(x, y) <= x && And(x, y) <= y
  {
    if x > 0 { AndBelow(x / 2, y / 2); }
  }

  lemma {:induction false} OrBelow(x: nat, y: nat, n: nat)
    requires x < Pow2(n) && y < Pow2(n)
    ensures Or(x, y) < Pow2(n)
  {
    if x > 0 { OrBelow(x / 2, y / 2, n - 1); }
  }

  lemma {:induction false} XorBelow(x: nat, y: nat, n: nat)
    requires x < Pow2(n) && y < Pow2(n)
    ensures Xor(x, y) < Pow2(n)
  {
    if x > 0 { XorBelow(x / 2, y / 2, n - 1); }
  }

  lemma {:induction false} Pow2Monotone(j: nat, k: nat)
    requires j <= k
    ensures Pow2(j) <= Pow2(k)
  {
    if j < k { Pow2Monotone(j, k - 1); }
  }

  /** Masking with 2^k - 1 is the remainder by 2^k. */
  lemma {:induction false} AndLowMask(x: nat, k: nat)
    ensures And(x, Pow2(k) - 1) == x % Pow2(k)
  {
    if k == 0 {
      AndBelow(x, 0);
    } else {
      AndLowMask(x / 2, k - 1);
      AndLowMaskStep(x, Pow2(k - 1));
    }
  }

  lemma AndLowMaskStep(x: nat, p: nat)
    requires p > 0 && And(x / 2, p - 1) == x / 2 % p
    ensures And(x, 2 * p - 1) == x % (2 * p)
  {
    assert (2 * p - 1) / 2 == p - 1 && (2 * p - 1) % 2 == 1;
    HalveRemainder(x, p);
  }

  lemma HalveRemainder(x: nat, p: nat)
    requires p > 0
    ensures x % (2 * p) == x % 2 + 2 * (x / 2 % p)
  {
    var q, r := x / 2 / p, x / 2 % p;
    assert x / 2 == q * p + r;
    assert x == 2 * p * q + (2 * r + x % 2) by {
      assert x == 2 * (q * p + r) + x % 2;
      assert 2 * (q * p) == 2 * p * q;
    }
    RemainderIs(x, 2 * p, q, 2 * r + x % 2);
  }

  /** Quotient and remainder are unique. */
  lemma RemainderIs(x: nat, m: nat, q: nat, r: nat)
    requires m > 0 && x == m * q + r && r < m
    ensures x % m == r && x / m == q
  {
    var d := x / m - q;
    assert m * d == r - x % m;
    MultipleIsZero(m, d);
  }

  lemma MultipleIsZero(m: int, d: int)
    requires -m < m * d < m
    ensures d == 0
  {
  }
}
