/** atoi (lib/stdlib.c) on null-terminated strings; a string is the characters before the terminator. */
module Atoi {
  import opened Arithmetic

  predicate IsDigit(c: char) { '0' <= c <= '9' }

  predicate IsSpace(c: char) {
    c == ' ' || c == '\U{0c}' || c == '\n' || c == '\r' || c == '\t' || c == '\U{0b}'
  }

  function DigitOf(c: char): nat
    requires IsDigit(c)
  {
    (c - '0') as int
  }

  predicate AllDigits(s: string) {
    forall i :: 0 <= i < |s| ==> IsDigit(s[i])
  }

  /** The value of a string of decimal digits. */
  function Val(s: string): nat
    requires AllDigits(s)
  {
    if s == [] then 0 else Val(s[..|s| - 1]) * 10 + DigitOf(s[|s| - 1])
  }

  /** Where white space, or digits, from position i on end. */
  function SpacesEnd(s: string, i: nat): (j: nat)
    requires i <= |s|
    ensures i <= j <= |s| && (forall k :: i <= k < j ==> IsSpace(s[k])) && (j < |s| ==> !IsSpace(s[j]))
    decreases |s| - i
  {
    if i < |s| && IsSpace(s[i]) then SpacesEnd(s, i + 1) else i
  }

  function DigitsEnd(s: string, i: nat): (j: nat)
    requires i <= |s|
    ensures i <= j <= |s| && (forall k :: i <= k < j ==> IsDigit(s[k])) && (j < |s| ==> !IsDigit(s[j]))
    decreases |s| - i
  {
    if i < |s| && IsDigit(s[i]) then DigitsEnd(s, i + 1) else i
  }

  predicate SignAt(s: string, i: nat) {
    i < |s| && (s[i] == '+' || s[i] == '-')
  }

  /** The number a string stands for: blanks, an optional sign, digits, and anything after them. */
  function Number(s: string): int {
    var i := SpacesEnd(s, 0);
    var j := if SignAt(s, i) then i + 1 else i;
    var v := Val(s[j..DigitsEnd(s, j)]);
    if i < |s| && s[i] == '-' then 0 - v else v
  }

  lemma WrapStep(a: int, d: int)
    ensures Wrap32(Wrap32(a) * 10 - d) == Wrap32(a * 10 - d)
  {
    var k := (a - Wrap32(a)) / B;
    assert a == Wrap32(a) + k * B;
    WrapShift(Wrap32(a) * 10 - d, 10 * k);
  }

  lemma WrapShift(a: int, k: int)
    ensures Wrap32(a + k * B) == Wrap32(a)
  {
    assert (a + k * B) % B == a % B;
  }

  lemma WrapNegated(a: int)
    ensures Wrap32(-Wrap32(a)) == Wrap32(-a)
  {
    var k := (a - Wrap32(a)) / B;
    assert -Wrap32(a) == -a + k * B;
    WrapShift(-a, k);
  }

  lemma WrapZero()
    ensures Wrap32(0) == 0
  {
  }

  lemma ValNext(s: string, j: nat, i: nat)
    requires j <= i < |s| && AllDigits(s[j..i]) && IsDigit(s[i])
    ensures AllDigits(s[j..i + 1]) && Val(s[j..i + 1]) == Val(s[j..i]) * 10 + DigitOf(s[i])
  {
    assert s[j..i + 1][..i - j] == s[j..i];
  }

  /** The digits from position j on, accumulated below zero. */
  method ParseDigits(s: string, j: nat) returns (value: int)
    requires j <= |s|
    ensures value == Wrap32(0 - Val(s[j..DigitsEnd(s, j)]))
  {
    hide Wrap32, Val;
    var i := j;
    WrapZero();
    assert Val(s[j..j]) == 0 by { EmptyVal(s[j..j]); }
    value := 0;
    while i < |s| && IsDigit(s[i])
      invariant j <= i <= |s| && DigitsEnd(s, i) == DigitsEnd(s, j) && AllDigits(s[j..i])
      invariant value == Wrap32(0 - Val(s[j..i]))
    {
      ValNext(s, j, i);
      WrapStep(0 - Val(s[j..i]), DigitOf(s[i]));
      value := Wrap32(value * 10 - DigitOf(s[i]));
      i := i + 1;
    }
  }

  lemma EmptyVal(s: string)
    requires s == []
    ensures Val(s) == 0
  {
  }

  /** atoi, in 32-bit arithmetic: the number the string stands for, cut to an int. */
  method Atoi(s: string) returns (value: int)
    ensures value == Wrap32(Number(s))
  {
    hide Wrap32, Val;
    var i := 0;
    while i < |s| && IsSpace(s[i])
      invariant i <= |s| && SpacesEnd(s, i) == SpacesEnd(s, 0)
    {
      i := i + 1;
    }
    var negative := false;
    if i < |s| && s[i] == '+' {
      i := i + 1;
    } else if i < |s| && s[i] == '-' {
      negative := true;
      i := i + 1;
    }
    value := ParseDigits(s, i);
    if !negative {
      WrapNegated(0 - Val(s[i..DigitsEnd(s, i)]));
      value := Wrap32(-value);
    }
  }
}
