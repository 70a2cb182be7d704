/** 64-bit division from a 64-by-32-bit divide (lib/arithmetic.c). */
module Arithmetic {
  import opened Bits

  const B := 0x1_0000_0000              // 2^32
  const HALF := 0x8000_0000             // 2^31
  const B64 := 0x1_0000_0000_0000_0000  // 2^64
  const HALF64 := 0x8000_0000_0000_0000 // 2^63

  /** divl, whose precondition is that the instruction does not trap. */
  method Divl(n: nat, d: nat) returns (q: nat)
    requires n < B64 && 0 < d < B && Quot(n, d) < B
    ensures q == Quot(n, d)
  {
    q := n / d;
  }

  lemma {:induction false} Pow2Sum(j: nat, k: nat)
    ensures Pow2(j + k) == Pow2(j) * Pow2(k)
  {
    if j > 0 {
      Pow2Sum(j - 1, k);
      assert Pow2(j + k) == 2 * Pow2(j - 1 + k);
    }
  }

  lemma Pow2Values()
    ensures Pow2(1) == 2 && Pow2(2) == 4 && Pow2(4) == 16 && Pow2(8) == 256 && Pow2(16) == 0x1_0000
    ensures Pow2(31) == HALF && Pow2(30) == 0x4000_0000 && Pow2(32) == B
  {
    assert Pow2(1) == 2;
    hide Pow2;
    Pow2Sum(1, 1);
    Pow2Sum(2, 2);
    Pow2Sum(4, 4);
    Pow2Sum(8, 8);
    Pow2Sum(16, 8);
    Pow2Sum(24, 4);
    Pow2Sum(28, 2);
    Pow2Sum(30, 1);
    Pow2Sum(31, 1);
  }

  /** One step of nlz: shifting by k when the top k bits are clear. */
  lemma Shifted(x: nat, n: nat, m: nat, k: nat)
    requires m == x * Pow2(n)
    ensures m * Pow2(k) == x * Pow2(n + k)
  {
    Pow2Sum(n, k);
    assert x * Pow2(n) * Pow2(k) == x * (Pow2(n) * Pow2(k));
  }

  /** nlz: shifting x left by the result brings its top bit to the top. */
  method Nlz(x0: nat) returns (n: nat)
    requires 0 < x0 < B
    ensures n <= 31 && HALF <= x0 * Pow2(n) < B
  {
    Pow2Values();
    hide Pow2;
    var x := x0;
    n := 0;
    assert x == x0 * Pow2(n) by { PowZero(x0); }
    if x <= 0x0000_FFFF {
      Shifted(x0, n, x, 16);
      n := n + 16;
      x := x * 0x1_0000;
    }
    if x <= 0x00FF_FFFF {
      Shifted(x0, n, x, 8);
      n := n + 8;
      x := x * 256;
    }
    if x <= 0x0FFF_FFFF {
      Shifted(x0, n, x, 4);
      n := n + 4;
      x := x * 16;
    }
    if x <= 0x3FFF_FFFF {
      Shifted(x0, n, x, 2);
      n := n + 2;
      x := x * 4;
    }
    if x <= 0x7FFF_FFFF {
      Shifted(x0, n, x, 1);
      n := n + 1;
    }
  }

  lemma PowZero(x: nat)
    ensures x == x * Pow2(0)
  {
  }

  // ---------- Quotients ----------

  /** Unsigned / and %. */
  function Quot(n: nat, d: nat): nat
    requires d > 0
  {
    n / d
  }

  function Rem(n: nat, d: nat): nat
    requires d > 0
  {
    n % d
  }

  lemma Whole(n: nat, d: nat)
    requires d > 0
    ensures n == Quot(n, d) * d + Rem(n, d) && Rem(n, d) < d
  {
  }

  lemma QuotientIs(n: nat, d: nat, q: nat, r: nat)
    requires n == q * d + r && r < d
    ensures Quot(n, d) == q && Rem(n, d) == r
  {
    hide Quot, Rem;
    Whole(n, d);
    Unique(d, q, r, Quot(n, d), Rem(n, d));
  }

  lemma Unique(d: nat, q: nat, r: nat, p: nat, t: nat)
    requires q * d + r == p * d + t && r < d && t < d
    ensures q == p && r == t
  {
    Distributes(d, q, 1);
    Distributes(d, p, 1);
    if q < p { Grows(d, q + 1, p); } else if p < q { Grows(d, p + 1, q); }
  }

  lemma Associates(a: int, b: int, c: int)
    ensures a * (b * c) == (a * b) * c
  {
  }

  lemma Distributes(a: int, b: int, c: int)
    ensures a * (b + c) == a * b + a * c
  {
  }

  lemma Grows(a: nat, b: nat, c: nat)
    requires b <= c
    ensures a * b <= a * c
  {
  }

  lemma CancelLe(a: nat, b: nat, s: nat)
    requires s > 0 && a * s <= b * s
    ensures a <= b
  {
    if a > b { Grows(s, b + 1, a); }
  }

  lemma CancelLt(a: nat, b: nat, s: nat)
    requires s > 0 && a * s < b * s
    ensures a < b
  {
    if a >= b { Grows(s, b, a); }
  }

  lemma QuotientBelow(m: nat, d: nat, k: nat)
    requires d > 0 && m < k * d
    ensures Quot(m, d) < k
  {
    hide Quot, Rem;
    Whole(m, d);
    CancelLt(Quot(m, d), k, d);
  }

  lemma QuotientAtLeast(m: nat, d: nat, k: nat)
    requires d > 0 && k * d <= m
    ensures Quot(m, d) >= k
  {
    hide Quot, Rem;
    Whole(m, d);
    Distributes(d, Quot(m, d), 1);
    CancelLt(k, Quot(m, d) + 1, d);
  }

  /** Dividing twice is dividing by the product. */
  lemma QuotientTwice(n: nat, a: nat, b: nat)
    requires a > 0 && b > 0
    ensures a * b > 0 && Quot(Quot(n, a), b) == Quot(n, a * b)
  {
    hide Quot, Rem;
    var x := Quot(n, a);
    var y, r := Quot(x, b), Rem(x, b);
    Whole(n, a);
    Whole(x, b);
    TwiceSum(n, a, b, x, Rem(n, a), y, r);
    QuotientIs(n, a * b, y, a * r + Rem(n, a));
  }

  lemma TwiceSum(n: nat, a: nat, b: nat, x: nat, t: nat, y: nat, r: nat)
    requires n == x * a + t && t < a && x == y * b + r && r < b
    ensures n == y * (a * b) + (a * r + t) && a * r + t < a * b && a * b > 0
  {
    Distributes(a, y * b, r);
    Associates(y, b, a);
    Grows(a, r, b - 1);
    Distributes(a, b - 1, 1);
  }

  // ---------- udiv64 ----------

  /** The case of a 32-bit divisor: the high word's quotient, and the quotient of what is left. */
  lemma ByWords(n1: nat, n0: nat, d: nat, q: nat, r: nat)
    requires n0 < B && 0 < d < B && n1 == q * d + r && r < d
    ensures B * r + n0 < B * d <= B64 && Quot(B * r + n0, d) < B
    ensures Quot(B * n1 + n0, d) == Quot(B * r + n0, d) + B * q
  {
    hide Quot, Rem;
    var m := B * r + n0;
    QuotientBelow(m, d, B);
    Whole(m, d);
    WordsSum(n1, n0, d, q, r, Quot(m, d), Rem(m, d));
    QuotientIs(B * n1 + n0, d, Quot(m, d) + B * q, Rem(m, d));
  }

  lemma WordsSum(n1: nat, n0: nat, d: nat, q: nat, r: nat, x: nat, y: nat)
    requires n1 == q * d + r && B * r + n0 == x * d + y
    ensures B * n1 + n0 == (x + B * q) * d + y
  {
    Distributes(d, x, B * q);
    Associates(B, q, d);
  }

  /** With S the power of two that brings d to the top of 64 bits and P the one with S * P == B, the top
      word v of d * S times P underestimates d by less than P. */
  lemma TopWord(d: nat, S: nat, P: nat, v: nat)
    requires S > 0 && P > 0 && S * P == B && HALF64 <= d * S < B64 && v == Quot(d * S, B)
    ensures HALF <= v < B && v * P <= d < v * P + P
  {
    Associates(v, P, S);
    Associates(v + 1, P, S);
    Distributes(P, v, 1);
    CancelLe(v * P, d, S);
    CancelLt(d, (v + 1) * P, S);
  }

  /** The quotient is less than 2 S. */
  lemma QuotientSmall(n: nat, d: nat, S: nat)
    requires n < B64 && HALF64 <= d * S && d > 0 && S > 0
    ensures Quot(n, d) + 1 <= 2 * S
  {
    hide Quot;
    Associates(2, S, d);
    QuotientBelow(n, d, 2 * S);
  }

  /** How much the underestimate of the divisor can add up to. */
  lemma ErrorFits(S: nat, P: nat, v: nat, q: nat, e: nat)
    requires S > 0 && P > 0 && S * P == B && (S <= 0x4000_0000 || S == HALF)
    requires HALF <= v && q + 1 <= 2 * S && e < P
    ensures (q + 1) * e <= v * P
  {
    Grows(q + 1, e, P - 1);
    Grows(P - 1, q + 1, 2 * S);
    assert 2 * S * (P - 1) == 2 * B - 2 * S by { Distributes(2 * S, P - 1, 1); Associates(2, S, P); }
    Grows(P, HALF, v);
    if S == HALF {
      assert P == 2;
    } else {
      assert P >= 4 by { if P <= 3 { Grows(S, P, 3); } }
    }
  }

  /** Dividing by the underestimate gives the quotient or one more. */
  lemma Estimate(n: nat, d: nat, D: nat)
    requires 0 < D <= d && (Quot(n, d) + 1) * (d - D) <= D
    ensures Quot(n, d) <= Quot(n, D) <= Quot(n, d) + 1
  {
    hide Quot, Rem;
    var q := Quot(n, d);
    Whole(n, d);
    Grows(q, D, d);
    QuotientAtLeast(n, D, q);
    EstimateUp(n, d, D, q);
    QuotientBelow(n, D, q + 2);
  }

  lemma EstimateUp(n: nat, d: nat, D: nat, q: nat)
    requires D <= d && n < q * d + d && (q + 1) * (d - D) <= D
    ensures n < (q + 2) * D
  {
    Distributes(d, q, 1);
    Distributes(q + 1, D, d - D);
    Distributes(D, q + 1, 1);
  }

  /** Shifting a divisor of more than 32 bits to the top of 64. */
  lemma ShiftedDivisor(d: nat, S: nat, P: nat)
    requires S > 0 && P > 0 && S * P == B && HALF <= Quot(d, B) * S < B
    ensures HALF64 <= d * S < B64
  {
    var d1 := Quot(d, B);
    assert d1 * B <= d < d1 * B + B;
    hide Quot;
    CancelLt(d1, P, S);
    Grows(S, d1 * B, d);
    Associates(d1, S, B);
    Associates(d1, B, S);
    assert d < P * B;
    Grows(S, d, P * B - 1);
    Associates(P, B, S);
    Associates(P, S, B);
    Distributes(S, P * B - 1, 1);
  }

  lemma HalvedTwice(n: nat, v: nat, h: nat, P: nat)
    requires v > 0 && h > 0 && P == 2 * h
    ensures v * P > 0 && Quot(Quot(Quot(n, 2), v), h) == Quot(n, v * P)
  {
    hide Quot;
    QuotientTwice(n, 2, v);
    QuotientTwice(n, 2 * v, h);
    Associates(2, v, h);
    Associates(v, 2, h);
  }

  lemma Powers(s: nat)
    requires s <= 31
    ensures Pow2(s) * Pow2(32 - s) == B && Pow2(32 - s) == 2 * Pow2(31 - s)
    ensures Pow2(s) <= 0x4000_0000 || Pow2(s) == HALF
  {
    Pow2Values();
    Pow2Sum(s, 32 - s);
    if s <= 30 { Pow2Monotone(s, 30); }
  }

  /** Everything the second case of udiv64 relies on. */
  lemma BigDivisor(n: nat, d: nat, s: nat)
    requires n < B64 && B <= d < B64 && d <= n && s <= 31 && HALF <= Quot(d, B) * Pow2(s) < B
    ensures d * Pow2(s) < B64
    ensures var v := Quot(d * Pow2(s), B);
            && 0 < v < B && Quot(Quot(n, 2), v) < B
            && Quot(n, d) <= Quot(Quot(Quot(n, 2), v), Pow2(31 - s)) <= Quot(n, d) + 1
    ensures Quot(n, d) >= 1
  {
    hide Pow2, Quot;
    var S, P := Pow2(s), Pow2(32 - s);
    Powers(s);
    ShiftedDivisor(d, S, P);
    var v := Quot(d * S, B);
    TopWord(d, S, P, v);
    QuotientSmall(n, d, S);
    ErrorFits(S, P, v, Quot(n, d), d - v * P);
    HalvedTwice(n, v, Pow2(31 - s), P);
    Estimate(n, d, v * P);
    HalfBelow(n);
    QuotientBelow(Quot(n, 2), v, B);
    QuotientAtLeast(n, d, 1);
  }

  lemma HalfBelow(n: nat)
    requires n < B64
    ensures Quot(n, 2) < HALF64
  {
  }

  /** udiv64 with a divisor that fits 32 bits. */
  method UDivSmall(n: nat, d: nat) returns (r: nat)
    requires n < B64 && 0 < d < B
    ensures r == Quot(n, d)
  {
    var n1, n0 := Quot(n, B), Rem(n, B);
    Whole(n, B);
    hide Quot, Rem;
    Whole(n1, d);
    ByWords(n1, n0, d, Quot(n1, d), Rem(n1, d));
    var low := Divl(B * Rem(n1, d) + n0, d);
    r := low + B * Quot(n1, d);
  }

  /** udiv64 with a bigger divisor: an estimate that is right or one too much, corrected. */
  method UDivBig(n: nat, d: nat) returns (r: nat)
    requires n < B64 && B <= d < B64
    ensures r == Quot(n, d)
  {
    Whole(n, d);
    if n < d {
      QuotientIs(n, d, 0, n);
      return 0;
    }
    assert 0 < Quot(d, B) < B;
    hide Quot, Rem, Pow2;
    var s := Nlz(Quot(d, B));
    BigDivisor(n, d, s);
    var q := Divl(Quot(n, 2), Quot(d * Pow2(s), B));
    q := Quot(q, Pow2(31 - s));
    OneTooMuch(n, d, Quot(n, d), Rem(n, d));
    r := if n - (q - 1) * d < d then q - 1 else q;
  }

  lemma OneTooMuch(n: nat, d: nat, q: nat, r: nat)
    requires n == q * d + r && r < d
    ensures n - q * d < d && n - (q - 1) * d >= d
  {
    Distributes(d, q - 1, 1);
  }

  /** udiv64 is the quotient, and none of its divides traps. */
  method UDiv64(n: nat, d: nat) returns (r: nat)
    requires n < B64 && 0 < d < B64
    ensures r == Quot(n, d)
  {
    if d / B == 0 {
      r := UDivSmall(n, d);
    } else {
      r := UDivBig(n, d);
    }
  }

  // ---------- Remainders and signed operands ----------

  /** umod64, whose result is cut to 32 bits. */
  method UMod64(n: nat, d: nat) returns (r: nat)
    requires n < B64 && 0 < d < B64
    ensures r == Rem(n, d) % B
  {
    hide Quot, Rem;
    var q := UDiv64(n, d);
    Whole(n, d);
    r := (n - d * q) % B;
  }

  /** That is the remainder exactly when the remainder fits, and so for every n exactly when d is at
      most 2^32. */
  lemma UModExact(d: nat)
    requires 0 < d < B64
    ensures (forall n :: 0 <= n < B64 ==> Rem(n, d) % B == Rem(n, d)) <==> d <= B
  {
    hide Quot, Rem;
    if d > B {
      QuotientIs(B, d, 0, B);
      assert Rem(B, d) % B != Rem(B, d);
    } else {
      forall n | 0 <= n < B64 ensures Rem(n, d) % B == Rem(n, d) { Whole(n, d); }
    }
  }

  function Abs(x: int): nat { if x >= 0 then x else -x }

  /** The C quotient, which truncates towards zero. */
  function TruncDiv(n: int, d: int): int
    requires d != 0
  {
    if (n < 0) == (d < 0) then Quot(Abs(n), Abs(d)) else 0 - Quot(Abs(n), Abs(d))
  }

  function TruncRem(n: int, d: int): int
    requires d != 0
  {
    n - d * TruncDiv(n, d)
  }

  /** It is the quotient whose remainder is smaller than the divisor and has the sign of the dividend,
      and the only one. */
  lemma TruncDivIs(n: int, d: int, q: int)
    requires d != 0
    ensures q == TruncDiv(n, d) <==> Abs(n - d * q) < Abs(d) && (n >= 0 ==> n - d * q >= 0) && (n <= 0 ==> n - d * q <= 0)
  {
    hide Quot, Rem;
    var a, c := Abs(n), Abs(d);
    Whole(a, c);
    var p := if (n < 0) == (d < 0) then q else -q;
    assert d * q == if n >= 0 then c * p else -(c * p) by { Signs(d, q); }
    if Abs(n - d * q) < c && (n >= 0 ==> n - d * q >= 0) && (n <= 0 ==> n - d * q <= 0) {
      assert 0 <= a - c * p < c;
      PositiveQuotient(a, c, p);
      QuotientIs(a, c, p, a - c * p);
    }
  }

  lemma Signs(d: int, q: int)
    ensures d * q == -(-d * q) && d * q == -(d * -q)
  {
  }

  lemma PositiveQuotient(a: nat, c: nat, p: int)
    requires a - c * p < c && c > 0
    ensures p >= 0
  {
    assert p < 0 ==> c * p + c <= 0;
  }

  /** A 64-bit two's complement value. */
  function Wrap64(x: int): int {
    var u := x % B64;
    if u < HALF64 then u else u - B64
  }

  function Wrap32(x: int): int {
    var u := x % B;
    if u < HALF then u else u - B
  }

  /** sdiv64: the truncated quotient, except that the one quotient out of range wraps. */
  method SDiv64(n: int, d: int) returns (q: int)
    requires -HALF64 <= n < HALF64 && -HALF64 <= d < HALF64 && d != 0
    ensures q == Wrap64(TruncDiv(n, d))
    ensures !(n == -HALF64 && d == -1) <==> q == TruncDiv(n, d)
  {
    hide Quot, Wrap64;
    var nAbs := AbsWord(n);
    var dAbs := AbsWord(d);
    var qAbs := UDiv64(nAbs, dAbs);
    QuotientRange(nAbs, dAbs);
    WrapQuotient(qAbs);
    q := if (n < 0) == (d < 0) then Wrap64(qAbs) else Wrap64(-Wrap64(qAbs));
  }

  /** The magnitude of a signed value as an unsigned one. */
  function AbsWord(x: int): (a: nat)
    requires -HALF64 <= x < HALF64
    ensures a == Abs(x)
  {
    if x >= 0 then x else (-x) % B64
  }

  /** A quotient of at most 2^63 keeps its value as a signed one unless it is 2^63 itself; its negation
      always does. */
  lemma WrapQuotient(q: int)
    requires 0 <= q <= HALF64
    ensures Wrap64(q) == (if q == HALF64 then -HALF64 else q) && Wrap64(-Wrap64(q)) == -q && Wrap64(-q) == -q
  {
    OverflowingQuotient();
    hide Wrap64;
    WrapIn(-q);
    if q < HALF64 { WrapIn(q); }
  }

  lemma WrapIn(x: int)
    requires -HALF64 <= x < HALF64
    ensures Wrap64(x) == x
  {
    assert x % B64 == if x >= 0 then x else x + B64;
  }

  lemma QuotientRange(n: nat, d: nat)
    requires n <= HALF64 && d > 0
    ensures Quot(n, d) <= HALF64 && (Quot(n, d) == HALF64 <==> n == HALF64 && d == 1)
  {
    hide Quot, Rem;
    Whole(n, d);
    var q := Quot(n, d);
    Grows(q, 1, d);
    if d >= 2 { Grows(q, 2, d); }
  }

  /** smod64: the remainder of the truncated quotient, cut to a signed 32-bit value. */
  method SMod64(n: int, d: int) returns (r: int)
    requires -HALF64 <= n < HALF64 && -HALF64 <= d < HALF64 && d != 0
    ensures r == Wrap32(TruncRem(n, d))
  {
    hide TruncDiv, Wrap64;
    var q := SDiv64(n, d);
    r := Wrap32(Wrap64(n - d * q));
    if n == -HALF64 && d == -1 {
      OverflowingQuotient();
    } else {
      RemainderRange(n, d);
      WrapIn(n - d * q);
    }
  }

  /** The one quotient that does not fit 64 bits. */
  lemma OverflowingQuotient()
    ensures TruncDiv(-HALF64, -1) == HALF64 && Wrap64(HALF64) == -HALF64 && Wrap64(-HALF64 - HALF64) == 0
  {
  }

  lemma RemainderRange(n: int, d: int)
    requires d != 0
    ensures Abs(TruncRem(n, d)) < Abs(d) && (n >= 0 ==> TruncRem(n, d) >= 0) && (n <= 0 ==> TruncRem(n, d) <= 0)
  {
    TruncDivIs(n, d, TruncDiv(n, d));
  }

  /** It is exact for every n exactly when |d| is at most 2^31. */
  lemma SModExact(d: int)
    requires -HALF64 <= d < HALF64 && d != 0
    ensures (forall n :: -HALF64 <= n < HALF64 ==> Wrap32(TruncRem(n, d)) == TruncRem(n, d)) <==> Abs(d) <= HALF
  {
    if Abs(d) <= HALF {
      forall n | -HALF64 <= n < HALF64 ensures Wrap32(TruncRem(n, d)) == TruncRem(n, d) { RemainderRange(n, d); }
    } else {
      QuotientIs(HALF, Abs(d), 0, HALF);
      assert TruncRem(HALF, d) == HALF;
      assert Wrap32(HALF) != HALF;
    }
  }
}
