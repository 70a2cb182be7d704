/** What an integer conversion looks like to somebody who reads the output and knows nothing of how it was
    made: its sign, its prefix, its digits, their number and separators, its padding. */
module PrintfShape {
  import opened Arithmetic
  import opened Printf
  import opened PrintfAtoi

  // ---------- Reading a numeral ----------

  /** The value of a digit, -1 for anything else. */
  function DigitValue(ch: char): int {
    if '0' <= ch <= '9' then (ch - '0') as int
    else if 'a' <= ch <= 'f' then 10 + (ch - 'a') as int
    else if 'A' <= ch <= 'F' then 10 + (ch - 'A') as int
    else -1
  }

  /** The number a numeral stands for, least significant digit first, separators skipped. */
  function Numeral(q: string, radix: nat): int {
    if q == [] then 0
    else if q[0] == ',' then Numeral(q[1..], radix)
    else DigitValue(q[0]) + radix * Numeral(q[1..], radix)
  }

  function Radix(b: Base): nat
    requires IsBase(b)
  {
    if b == BASE_D then 10 else if b == BASE_O then 8 else 16
  }

  /** How many digits stand between two separators. */
  function GroupSize(b: Base): nat
    requires IsBase(b)
  {
    if Radix(b) == 16 then 4 else 3
  }

  /** A digit of this base, in its case of letters. */
  predicate DigitIn(ch: char, b: Base)
    requires IsBase(b)
  {
    && 0 <= DigitValue(ch) < Radix(b)
    && ('a' <= ch <= 'f' ==> b == BASE_X) && ('A' <= ch <= 'F' ==> b == BASE_UPPER_X)
  }

  lemma TableIs(b: Base, i: nat)
    requires IsBase(b) && i < Radix(b)
    ensures Radix(b) == b.base && GroupSize(b) == b.group && |b.digits| == b.base
    ensures DigitValue(b.digits[i]) == i && DigitIn(b.digits[i], b)
  {
    if b == BASE_D || b == BASE_O {
      assert b.digits[i] == "0123456789"[i];
      DecimalTable(i);
    } else {
      HexTables(i);
    }
  }

  lemma DecimalTable(i: nat)
    requires i < 10
    ensures DigitValue("0123456789"[i]) == i && '0' <= "0123456789"[i] <= '9'
  {
    var s := "0123456789";
    assert s[0] == '0' && s[1] == '1' && s[2] == '2' && s[3] == '3' && s[4] == '4';
    assert s[5] == '5' && s[6] == '6' && s[7] == '7' && s[8] == '8' && s[9] == '9';
  }

  lemma HexTables(i: nat)
    requires i < 16
    ensures DigitValue("0123456789abcdef"[i]) == i && !('A' <= "0123456789abcdef"[i] <= 'F')
    ensures DigitValue("0123456789ABCDEF"[i]) == i && !('a' <= "0123456789ABCDEF"[i] <= 'f')
  {
    if i < 10 {
      DecimalTable(i);
      assert "0123456789abcdef"[i] == "0123456789"[i] && "0123456789ABCDEF"[i] == "0123456789"[i];
    } else {
      var s, t := "0123456789abcdef", "0123456789ABCDEF";
      assert s[10] == 'a' && s[11] == 'b' && s[12] == 'c' && s[13] == 'd' && s[14] == 'e' && s[15] == 'f';
      assert t[10] == 'A' && t[11] == 'B' && t[12] == 'C' && t[13] == 'D' && t[14] == 'E' && t[15] == 'F';
    }
  }

  // ---------- The digits ----------

  /** Digits and separators only. */
  ghost predicate Clean(q: string, b: Base)
    requires IsBase(b)
  {
    forall i :: 0 <= i < |q| ==> q[i] == ',' || DigitIn(q[i], b)
  }

  /** One digit more, least significant first. */
  lemma DigitsFirst(v: nat, b: Base, grouped: bool, k: nat)
    requires IsBase(b) && v > 0
    ensures v % b.base < |b.digits|
    ensures var ch, rest := b.digits[v % b.base], Digits(v / b.base, b, grouped, k + 1);
            && Digits(v, b, grouped, k) == (if grouped && k > 0 && k % GroupSize(b) == 0 then [',', ch] + rest else [ch] + rest)
            && DigitValue(ch) == v % Radix(b) && DigitIn(ch, b) && b.base == Radix(b) && ch != ','
  {
    hide IsBase, DigitIn;
    RadixIs(b);
    TableIs(b, v % Radix(b));
    assert [','] + [b.digits[v % b.base]] == [',', b.digits[v % b.base]];
  }

  lemma RadixIs(b: Base)
    requires IsBase(b)
    ensures Radix(b) == b.base == |b.digits| && (b.base == 8 || b.base == 10 || b.base == 16)
    ensures GroupSize(b) == b.group && (b.group == 3 || b.group == 4)
  {
  }

  lemma {:induction false} NumeralOfDigits(v: nat, b: Base, grouped: bool, k: nat)
    requires IsBase(b)
    ensures var q := Digits(v, b, grouped, k);
            && Clean(q, b) && Numeral(q, Radix(b)) == v && (v == 0 ==> q == [])
            && (v > 0 ==> q != [] && DigitIn(q[|q| - 1], b) && q[|q| - 1] != '0')
    decreases v
  {
    hide Digits, IsBase, DigitIn, Radix, GroupSize, Clean, Numeral;
    if v > 0 {
      RadixIs(b);
      DigitsFirst(v, b, grouped, k);
      var ch, rest := b.digits[v % b.base], Digits(v / b.base, b, grouped, k + 1);
      Smaller(v, b.base);
      NumeralOfDigits(v / b.base, b, grouped, k + 1);
      Prepended(ch, rest, b, v);
      if grouped && k > 0 && k % GroupSize(b) == 0 {
        CommaPut([ch] + rest, b);
        assert [','] + ([ch] + rest) == [',', ch] + rest;
      }
    } else {
      NoDigits(b, grouped, k);
    }
  }

  lemma Smaller(v: nat, r: nat)
    requires v > 0 && (r == 8 || r == 10 || r == 16)
    ensures v / r < v
  {
  }

  lemma NoDigits(b: Base, grouped: bool, k: nat)
    requires IsBase(b)
    ensures Digits(0, b, grouped, k) == [] && Clean([], b) && Numeral([], Radix(b)) == 0
  {
  }

  lemma Prepended(ch: char, rest: string, b: Base, v: nat)
    requires IsBase(b) && DigitIn(ch, b) && DigitValue(ch) == v % Radix(b) && Clean(rest, b) && v > 0
    requires Numeral(rest, Radix(b)) == v / Radix(b) && (v / Radix(b) == 0 ==> rest == [])
    requires v / Radix(b) > 0 ==> rest != [] && DigitIn(rest[|rest| - 1], b) && rest[|rest| - 1] != '0'
    ensures var q := [ch] + rest;
            Clean(q, b) && Numeral(q, Radix(b)) == v && DigitIn(q[|q| - 1], b) && q[|q| - 1] != '0'
  {
    assert ([ch] + rest)[1..] == rest;
    assert ch != ',';
  }

  lemma CommaPut(q: string, b: Base)
    requires IsBase(b) && Clean(q, b)
    ensures Clean([','] + q, b) && Numeral([','] + q, Radix(b)) == Numeral(q, Radix(b))
    ensures q != [] ==> ([','] + q)[|q|] == q[|q| - 1]
  {
    hide IsBase, DigitIn, DigitValue, Radix;
    assert ([','] + q)[1..] == q;
  }

  // ---------- Separators ----------

  /** The characters that k digits take. */
  function Offset(k: nat, g: nat): nat
    requires g > 0
  {
    k + if k > 0 then (k - 1) / g else 0
  }

  /** A separator stands exactly at every place g of g + 1, counted from the right. */
  lemma {:induction false} SeparatorsAt(v: nat, b: Base, grouped: bool, k: nat, i: nat)
    requires IsBase(b) && i < |Digits(v, b, grouped, k)|
    ensures var g := GroupSize(b);
            Digits(v, b, grouped, k)[i] == ',' <==> grouped && (Offset(k, g) + i) % (g + 1) == g
    decreases v
  {
    hide Digits, DigitIn, IsBase, Radix, DigitValue, Offset;
    if v == 0 {
      NoDigits(b, grouped, k);
    } else {
      RadixIs(b);
      DigitsFirst(v, b, grouped, k);
      Smaller(v, b.base);
      var g, rest := GroupSize(b), Digits(v / b.base, b, grouped, k + 1);
      var n := if grouped && k > 0 && k % g == 0 then 2 else 1;
      if i >= n {
        SeparatorsAt(v / b.base, b, grouped, k + 1, i - n);
        assert Digits(v, b, grouped, k)[i] == rest[i - n];
      }
      if g == 3 { Places3(k); NextPlace(Offset(k, 3), 3); } else { Places4(k); NextPlace(Offset(k, 4), 4); }
    }
  }

  lemma NextPlace(o: nat, g: nat)
    requires g == 3 || g == 4
    ensures o % (g + 1) == g ==> (o + 1) % (g + 1) != g
  {
  }

  lemma Places3(k: nat)
    ensures k > 0 && k % 3 == 0 ==> Offset(k, 3) % 4 == 3 && Offset(k + 1, 3) == Offset(k, 3) + 2
    ensures !(k > 0 && k % 3 == 0) ==> Offset(k, 3) % 4 != 3 && Offset(k + 1, 3) == Offset(k, 3) + 1
  {
  }

  lemma Places4(k: nat)
    ensures k > 0 && k % 4 == 0 ==> Offset(k, 4) % 5 == 4 && Offset(k + 1, 4) == Offset(k, 4) + 2
    ensures !(k > 0 && k % 4 == 0) ==> Offset(k, 4) % 5 != 4 && Offset(k + 1, 4) == Offset(k, 4) + 1
  {
  }

  // ---------- The digits with their zeros ----------

  /** The least number of characters the precision asks for; the buffer has room for 63 and an octal zero. */
  function MinDigits(c: Conversion): nat {
    if c.precision < 0 then 1 else if c.precision < 63 then c.precision else 63
  }

  predicate OctalMark(b: Base, c: Conversion) {
    c.pound && b == BASE_O
  }

  /** q is how value has to come out, from right to left: it reads back; it is as long as the precision asks and
      has no other leading zeros but the one that marks an octal number; separators stand where they should,
      with something significant to the left of each. */
  ghost predicate Rendered(q: string, value: nat, b: Base, c: Conversion)
    requires IsBase(b)
  {
    && Clean(q, b) && Numeral(q, Radix(b)) == value
    && |q| >= MinDigits(c) && (value == 0 && MinDigits(c) == 0 && !OctalMark(b, c) ==> q == [])
    && (|q| > MinDigits(c) && q[|q| - 1] == '0' ==> OctalMark(b, c) && (|q| == 1 || q[|q| - 2] != '0'))
    && (OctalMark(b, c) ==> q != [] && q[|q| - 1] == '0')
    && (forall i :: 0 <= i < |q| ==> (q[i] == ',' <==> Separates(q, b, c, i)))
  }

  ghost predicate Separates(q: string, b: Base, c: Conversion, i: nat)
    requires IsBase(b)
  {
    c.group && i % (GroupSize(b) + 1) == GroupSize(b) && exists j :: i < j < |q| && q[j] != '0'
  }

  lemma {:induction false} ZerosTop(q: string, b: Base, n: nat)
    requires IsBase(b) && Clean(q, b)
    ensures Clean(q + Dup('0', n), b) && Numeral(q + Dup('0', n), Radix(b)) == Numeral(q, Radix(b))
    decreases |q|, n
  {
    hide IsBase, Radix, DigitIn;
    ZeroIsDigit(b);
    var r := q + Dup('0', n);
    assert forall i :: 0 <= i < |r| ==> r[i] == if i < |q| then q[i] else '0';
    if q != [] {
      ZerosTop(q[1..], b, n);
      assert r[1..] == q[1..] + Dup('0', n);
    } else if n > 0 {
      ZerosTop(q, b, n - 1);
      assert r[1..] == [] + Dup('0', n - 1);
    } else {
      assert r == [];
    }
  }

  lemma ZeroIsDigit(b: Base)
    requires IsBase(b)
    ensures DigitIn('0', b) && DigitValue('0') == 0
  {
  }

  lemma RenderedIs(value: nat, b: Base, c: Conversion)
    requires IsBase(b)
    ensures Rendered(Extended(Digits(value, b, c.group, 0), b, c), value, b, c)
  {
    hide Digits, IsBase, DigitIn, Clean, Numeral, Separates, Radix;
    var q := Digits(value, b, c.group, 0);
    var e := Extended(q, b, c);
    NumeralOfDigits(value, b, c.group, 0);
    var n: nat := ExtendedBy(q, b, c);
    ZerosTop(q, b, n);
    LengthsRight(q, value, b, c, n);
    forall i | 0 <= i < |e| ensures e[i] == ',' <==> Separates(e, b, c, i) {
      SeparatorsRight(q, value, b, c, n, i);
    }
  }

  lemma ExtendedBy(q: string, b: Base, c: Conversion) returns (n: nat)
    ensures Extended(q, b, c) == q + Dup('0', n)
  {
    var e := Extended(q, b, c);
    n := |e| - |q|;
    assert forall i :: 0 <= i < |e| ==> e[i] == if i < |q| then q[i] else '0';
  }

  lemma LengthsRight(q: string, value: nat, b: Base, c: Conversion, n: nat)
    requires IsBase(b) && Extended(q, b, c) == q + Dup('0', n)
    requires if value == 0 then q == [] else q != [] && q[|q| - 1] != '0'
    ensures var e := Extended(q, b, c);
            && |e| >= MinDigits(c) && (value == 0 && MinDigits(c) == 0 && !OctalMark(b, c) ==> e == [])
            && (|e| > MinDigits(c) && e[|e| - 1] == '0' ==> OctalMark(b, c) && (|e| == 1 || e[|e| - 2] != '0'))
            && (OctalMark(b, c) ==> e != [] && e[|e| - 1] == '0')
  {
    assert b.base == 8 <==> b == BASE_O;
    hide IsBase;
  }

  lemma SeparatorsRight(q: string, value: nat, b: Base, c: Conversion, n: nat, i: nat)
    requires IsBase(b) && q == Digits(value, b, c.group, 0) && i < |q| + n
    requires value > 0 ==> q != [] && DigitIn(q[|q| - 1], b) && q[|q| - 1] != '0'
    ensures (q + Dup('0', n))[i] == ',' <==> Separates(q + Dup('0', n), b, c, i)
  {
    hide Digits, IsBase, Numeral, Radix;
    var e := q + Dup('0', n);
    assert forall j :: 0 <= j < |e| ==> e[j] == if j < |q| then q[j] else '0';
    if i < |q| {
      SeparatorsAt(value, b, c.group, 0, i);
      assert Offset(0, GroupSize(b)) == 0;
      if value == 0 { NoDigits(b, c.group, 0); }
      if e[i] == ',' { assert i < |q| - 1 && e[|q| - 1] != '0'; }
    }
  }

  // ---------- The whole output ----------

  /** The sign: a plus exactly if it is asked for, a blank exactly if that alone is, a minus for negative
      numbers, none for unsigned ones. */
  predicate SignRight(sign: string, isSigned: bool, negative: bool, c: Conversion) {
    && (sign == "" || sign == "+" || sign == "-" || sign == " ")
    && (sign == "-" <==> isSigned && negative)
    && (sign == "+" <==> isSigned && !negative && c.plus)
    && (sign == " " <==> isSigned && !negative && c.space && !c.plus)
  }

  predicate PrefixRight(prefix: string, value: nat, b: Base, c: Conversion) {
    && (prefix == "" || prefix == "0x" || prefix == "0X")
    && (prefix == "0x" <==> c.pound && value != 0 && b == BASE_X)
    && (prefix == "0X" <==> c.pound && value != 0 && b == BASE_UPPER_X)
  }

  /** Blanks in front without the flags minus and zero, zeros under zero, blanks behind under minus. */
  predicate PaddingRight(a: nat, z: nat, e: nat, c: Conversion) {
    && (a > 0 ==> !c.minus && !c.zero) && (z > 0 ==> c.zero) && (e > 0 ==> c.minus)
    && (c.minus && c.zero ==> z == e)
  }

  /** Blanks, sign, prefix, zeros, digits, blanks: this is what an integer conversion writes. */
  lemma OutputParts(value: nat, isSigned: bool, negative: bool, b: Base, c: Conversion)
    returns (a: nat, sign: string, prefix: string, z: nat, q: string, e: nat)
    requires IsBase(b)
    ensures Formatted(value, isSigned, negative, b, c) == Dup(' ', a) + sign + prefix + Dup('0', z) + Reversed(q) + Dup(' ', e)
    ensures SignRight(sign, isSigned, negative, c) && PrefixRight(prefix, value, b, c) && PaddingRight(a, z, e, c)
    ensures Rendered(q, value, b, c)
  {
    hide Digits, Extended, IsBase, Reversed, Rendered, PadOf, Dup;
    RenderedIs(value, b, c);
    sign, prefix, q := SignOf(isSigned, negative, c), PrefixOf(value, b, c), Extended(Digits(value, b, c.group, 0), b, c);
    PrefixIs(value, b, c);
    var pad := PadOf(c.width, |q| + |prefix| + |sign|);
    a, z, e := if !c.minus && !c.zero then pad else 0, if c.zero then pad else 0, if c.minus then pad else 0;
    NoneIsEmpty();
  }

  lemma PrefixIs(value: nat, b: Base, c: Conversion)
    requires IsBase(b)
    ensures PrefixRight(PrefixOf(value, b, c), value, b, c)
  {
    assert "0" + "x" == "0x" && "0" + "X" == "0X";
    assert "0x"[1] != "0X"[1];
    assert b.x == (if b == BASE_X then "x" else if b == BASE_UPPER_X then "X" else "");
  }

  // ---------- What can be seen of it ----------

  /** In the output there is a plus, a minus or an x exactly if there should be. */
  lemma MarksSeen(value: nat, isSigned: bool, negative: bool, b: Base, c: Conversion)
    requires IsBase(b)
    ensures var out := Formatted(value, isSigned, negative, b, c);
            && ('+' in out <==> isSigned && !negative && c.plus)
            && ('-' in out <==> isSigned && negative)
            && ('x' in out <==> c.pound && value != 0 && b == BASE_X)
            && ('X' in out <==> c.pound && value != 0 && b == BASE_UPPER_X)
  {
    hide Formatted, IsBase, Rendered, Reversed;
    var a, sign, prefix, z, q, e := OutputParts(value, isSigned, negative, b, c);
    RenderedIsPlain(q, value, b, c);
    var out := Formatted(value, isSigned, negative, b, c);
    forall ch | ch != ' ' && ch != '0' && ch !in Reversed(q) ensures ch in out <==> ch in sign || ch in prefix {
      SeenIn(a, sign, prefix, z, Reversed(q), e, ch);
    }
    hide Dup;
    assert '+' in "+" && '-' in "-" && 'x' in "0x" && 'X' in "0X";
  }

  lemma SeenIn(a: nat, sign: string, prefix: string, z: nat, d: string, e: nat, ch: char)
    requires ch != ' ' && ch != '0' && ch !in d
    ensures ch in Dup(' ', a) + sign + prefix + Dup('0', z) + d + Dup(' ', e) <==> ch in sign || ch in prefix
  {
  }

  lemma RenderedIsPlain(q: string, value: nat, b: Base, c: Conversion)
    requires IsBase(b) && Rendered(q, value, b, c)
    ensures '+' !in Reversed(q) && '-' !in Reversed(q) && 'x' !in Reversed(q) && 'X' !in Reversed(q)
  {
    hide IsBase, Clean, Numeral, Separates, Radix;
    PlainCharacters(q, b);
    assert forall ch :: ch in Reversed(q) ==> ch in q;
  }

  lemma PlainCharacters(q: string, b: Base)
    requires IsBase(b) && Clean(q, b)
    ensures '+' !in q && '-' !in q && 'x' !in q && 'X' !in q && ' ' !in q
  {
    hide IsBase, Radix;
  }
}
