/** What printf writes for an int, atoi reads back; and how wide the field comes out. */
module PrintfAtoi {
  import opened Atoi
  import opened Arithmetic
  import opened Printf

  /** The value of digits that come least significant first. */
  function RevVal(q: string): nat
    requires AllDigits(q)
  {
    if q == [] then 0 else DigitOf(q[0]) + 10 * RevVal(q[1..])
  }

  lemma {:induction false} DigitsVal(v: nat, k: nat)
    ensures AllDigits(Digits(v, BASE_D, false, k)) && RevVal(Digits(v, BASE_D, false, k)) == v
    decreases v
  {
    if v > 0 {
      DigitsVal(v / 10, k + 1);
      var rest := Digits(v / 10, BASE_D, false, k + 1);
      assert NextDigit(v, BASE_D, false, k) == [DecimalDigit(v % 10)];
      assert Digits(v, BASE_D, false, k) == [DecimalDigit(v % 10)] + rest;
      assert ([DecimalDigit(v % 10)] + rest)[1..] == rest;
    }
  }

  function DecimalDigit(d: nat): (c: char)
    requires d < 10
    ensures IsDigit(c) && DigitOf(c) == d
  {
    "0123456789"[d]
  }

  lemma {:induction false} ZerosAbove(q: string, n: nat)
    requires AllDigits(q)
    ensures AllDigits(q + Dup('0', n)) && RevVal(q + Dup('0', n)) == RevVal(q)
    decreases |q|, n
  {
    var r := q + Dup('0', n);
    assert forall i :: 0 <= i < |r| ==> r[i] == if i < |q| then q[i] else '0';
    if q != [] {
      ZerosAbove(q[1..], n);
      assert r[1..] == q[1..] + Dup('0', n);
    } else if n > 0 {
      ZerosAbove(q, n - 1);
      assert r[1..] == [] + Dup('0', n - 1);
    } else {
      assert r == [];
    }
  }

  lemma {:induction false} ReversedVal(q: string)
    requires AllDigits(q)
    ensures AllDigits(Reversed(q)) && Val(Reversed(q)) == RevVal(q)
  {
    if q != [] {
      ReversedVal(q[1..]);
      assert Reversed(q) == Reversed(q[1..]) + [q[0]];
      assert (Reversed(q[1..]) + [q[0]])[..|q| - 1] == Reversed(q[1..]);
    }
  }

  lemma {:induction false} ZerosBefore(n: nat, d: string)
    requires AllDigits(d)
    ensures AllDigits(Dup('0', n) + d) && Val(Dup('0', n) + d) == Val(d)
    decreases n + |d|
  {
    var r := Dup('0', n) + d;
    assert forall i :: 0 <= i < |r| ==> r[i] == if i < n then '0' else d[i - n];
    if d != [] {
      ZerosBefore(n, d[..|d| - 1]);
      assert r[..|r| - 1] == Dup('0', n) + d[..|d| - 1];
    } else if n > 0 {
      ZerosBefore(n - 1, d);
      assert r[..|r| - 1] == Dup('0', n - 1) + [];
    }
  }

  lemma SpacesEndAt(s: string, j: nat)
    requires j <= |s| && (forall k :: 0 <= k < j ==> IsSpace(s[k])) && (j < |s| ==> !IsSpace(s[j]))
    ensures SpacesEnd(s, 0) == j
  {
  }

  lemma DigitsEndAt(s: string, i: nat, j: nat)
    requires i <= j <= |s| && (forall k :: i <= k < j ==> IsDigit(s[k])) && (j < |s| ==> !IsDigit(s[j]))
    ensures DigitsEnd(s, i) == j
  {
  }

  /** s is a blanks, then t, then d, then blanks to the end. */
  predicate Shaped(s: string, a: nat, t: string, d: string) {
    && a + |t| + |d| <= |s|
    && (forall i :: 0 <= i < a ==> s[i] == ' ')
    && s[a..a + |t|] == t && s[a + |t|..a + |t| + |d|] == d
    && (forall i :: a + |t| + |d| <= i < |s| ==> s[i] == ' ')
  }

  lemma IsShaped(a: nat, t: string, d: string, b: nat)
    ensures Shaped(Dup(' ', a) + t + d + Dup(' ', b), a, t, d)
  {
  }

  lemma SignedNumber(s: string, a: nat, sign: string, d: string)
    requires Shaped(s, a, sign, d) && AllDigits(d) && (sign == "-" || sign == "+")
    ensures Number(s) == if sign == "-" then 0 - Val(d) else Val(d)
  {
    hide Val;
    assert s[a] == s[a..a + 1][0] == sign[0];
    forall k | a + 1 <= k < a + 1 + |d| ensures IsDigit(s[k]) { assert s[a + 1..a + 1 + |d|][k - a - 1] == d[k - a - 1]; }
    SpacesEndAt(s, a);
    DigitsEndAt(s, a + 1, a + 1 + |d|);
  }

  lemma UnsignedNumber(s: string, a: nat, d: string)
    requires Shaped(s, a, "", d) && AllDigits(d)
    ensures Number(s) == Val(d)
  {
    hide Val;
    forall k | a <= k < a + |d| ensures IsDigit(s[k]) { assert s[a..a + |d|][k - a] == d[k - a]; }
    if d != [] {
      assert IsDigit(s[a]);
      SpacesEndAt(s, a);
      DigitsEndAt(s, a, a + |d|);
    } else {
      SpacesEndAt(s, |s|);
      EmptyVal(d);
      EmptyVal(s[|s|..DigitsEnd(s, |s|)]);
    }
  }

  /** Blanks, a sign, digits and blanks: the number is the digits' value with the sign. */
  lemma NumberShape(a: nat, sign: string, d: string, b: nat)
    requires AllDigits(d) && (sign == "" || sign == "-" || sign == "+" || sign == " ")
    ensures Number(Dup(' ', a) + sign + d + Dup(' ', b)) == if sign == "-" then 0 - Val(d) else Val(d)
  {
    var s := Dup(' ', a) + sign + d + Dup(' ', b);
    if sign == "-" || sign == "+" {
      IsShaped(a, sign, d, b);
      SignedNumber(s, a, sign, d);
    } else {
      var n := a + |sign|;
      assert s == Dup(' ', n) + "" + d + Dup(' ', b);
      IsShaped(n, "", d, b);
      UnsignedNumber(s, n, d);
    }
  }

  predicate White(ch: char) {
    ch in {' ', '\U{0c}', '\n', '\r', '\t', '\U{0b}'}
  }

  /** What atoi makes of a string: white space, a sign or none, digits or none, and anything that does not go on
      with them. */
  lemma NumberIs(ws: string, sign: string, d: string, tail: string)
    requires (forall i :: 0 <= i < |ws| ==> White(ws[i])) && (sign == "" || sign == "+" || sign == "-") && AllDigits(d)
    requires tail != [] ==> !('0' <= tail[0] <= '9')
    requires sign == "" && d == [] && tail != [] ==> !White(tail[0]) && tail[0] != '+' && tail[0] != '-'
    ensures Number(ws + sign + d + tail) == if sign == "-" then 0 - Val(d) else Val(d)
  {
    hide Val;
    var s, a := ws + sign + d + tail, |ws|;
    var n := a + |sign|;
    assert forall i :: 0 <= i < |s| ==>
             s[i] == if i < a then ws[i] else if i < n then sign[i - a] else if i < n + |d| then d[i - n] else tail[i - n - |d|];
    assert s[n..n + |d|] == d;
    assert a < |s| ==> !IsSpace(s[a]) && (sign != "" <==> s[a] == '+' || s[a] == '-');
    SpacesEndAt(s, a);
    DigitsEndAt(s, n, n + |d|);
  }

  /** The digits of a conversion, as atoi will read them. */
  lemma DigitsRead(v: nat, c: Conversion)
    ensures var d := Reversed(Extended(Digits(v, BASE_D, false, 0), BASE_D, c)); AllDigits(d) && Val(d) == v
  {
    var q := Digits(v, BASE_D, false, 0);
    DigitsVal(v, 0);
    hide Digits, Val, RevVal;
    var e := Extended(q, BASE_D, c);
    if |e| > |q| {
      ZerosAbove(q, |e| - |q|);
    }
    ReversedVal(e);
  }

  /** Every int, with every width and precision and any flags, comes back from atoi, exactly unless the
      group flag puts a separator into it. */
  lemma AtoiUndoesFormat(x: int, c: Conversion)
    ensures Number(Formatted(Abs(x), true, x < 0, BASE_D, c)) == x <==> !c.group || Abs(x) < 1000
    ensures -HALF <= x < HALF ==>
              (Wrap32(Number(Formatted(Abs(x), true, x < 0, BASE_D, c))) == x <==> !c.group || Abs(x) < 1000)
  {
    hide Digits, Extended, Number, Reversed, Val, PadOf, Laid, Formatted, Wrap32, SignOf, Lead;
    var v, sign := Abs(x), SignOf(true, x < 0, c);
    var digits := Extended(Digits(v, BASE_D, c.group, 0), BASE_D, c);
    FormattedIs(v, x < 0, c);
    SignIs(x < 0, c);
    if c.group && v >= 1000 {
      LaidGrouped(sign, PadOf(c.width, |digits| + |sign|), v, c);
      LeadOf(v, 0);
      IntFits(Number(Formatted(v, true, x < 0, BASE_D, c)));
    } else {
      if c.group { NoSeparator(v, 0); }
      DigitsRead(v, c);
      LaidNumber(sign, PadOf(c.width, |digits| + |sign|), digits, c);
      IntFits(x);
    }
  }

  // Separators.

  /** The digits a string begins with. */
  function Lead(s: string): (d: string)
    ensures AllDigits(d)
  {
    s[..DigitsEnd(s, 0)]
  }

  /** Small numbers get no separator. */
  lemma {:induction false} NoSeparator(v: nat, k: nat)
    requires (k == 0 && v < 1000) || (k == 1 && v < 100) || (k == 2 && v < 10)
    ensures Digits(v, BASE_D, true, k) == Digits(v, BASE_D, false, k)
    decreases v
  {
    if v >= 10 {
      NoSeparator(v / 10, k + 1);
    }
  }

  lemma LeadMore(r: string, ch: char, t: string)
    ensures Lead(r) != r ==> Lead(r + [ch] + t) == Lead(r) && Lead(r + [ch] + t) != r + [ch] + t
    ensures Lead(r) == r && IsDigit(ch) && (t == [] || !IsDigit(t[0])) ==> Lead(r + [ch] + t) == r + [ch]
  {
    var s, j := r + [ch] + t, DigitsEnd(r, 0);
    if Lead(r) != r {
      DigitsEndAt(s, 0, j);
      assert s[..j] == r[..j];
    } else if IsDigit(ch) && (t == [] || !IsDigit(t[0])) {
      assert j == |r|;
      DigitsEndAt(s, 0, |r| + 1);
      assert s[..|r| + 1] == r + [ch];
    }
  }

  /** What atoi takes of a number v with separators, written r, when k digits come after it: all of it,
      or less than it if there is a separator. */
  ghost predicate Taken(v: nat, k: nat, r: string) {
    && Val(Lead(r)) <= v && (Lead(r) == r ==> Val(Lead(r)) == v)
    && (v > 0 ==> Lead(r) != []) && (v == 0 ==> r == [])
    && (v > 0 && k > 0 && k % 3 == 0 ==> Lead(r) != r)
    && (k % 3 == 2 && v >= 10 ==> Lead(r) != r)
    && (k % 3 == 1 && v >= 100 ==> Lead(r) != r)
    && (k % 3 == 0 && v >= 1000 ==> Lead(r) != r)
    && (k == 0 && Lead(r) != r ==> Val(Lead(r)) < v)
  }

  lemma {:induction false} LeadOf(v: nat, k: nat)
    ensures Taken(v, k, Reversed(Digits(v, BASE_D, true, k)))
    decreases v
  {
    hide Taken, Reversed, Digits;
    if v > 0 {
      LeadOf(v / 10, k + 1);
      GroupedNext(v, k);
      TakenNext(v, k, Reversed(Digits(v / 10, BASE_D, true, k + 1)));
    } else {
      TakenNone(k);
    }
  }

  lemma TakenNone(k: nat)
    ensures Reversed(Digits(0, BASE_D, true, k)) == [] && Taken(0, k, Reversed(Digits(0, BASE_D, true, k)))
  {
    assert Reversed(Digits(0, BASE_D, true, k)) == [];
    assert Val([]) == 0;
  }

  lemma TakenNext(v: nat, k: nat, r: string)
    requires v > 0 && Taken(v / 10, k + 1, r)
    ensures Taken(v, k, r + [DecimalDigit(v % 10)] + if k > 0 && k % 3 == 0 then "," else "")
  {
    hide Val, Lead, IsDigit, DigitOf;
    var ch, t := DecimalDigit(v % 10), if k > 0 && k % 3 == 0 then "," else "";
    LeadMore(r, ch, t);
    CommaIsNone();
    LeadOfNone();
    assert r + [ch] + "" == r + [ch];
    if Lead(r) == r {
      ValAppend(r, ch);
    }
  }

  lemma LeadOfNone()
    ensures Lead([]) == []
  {
  }

  lemma CommaIsNone()
    ensures !IsDigit(',')
  {
  }

  lemma GroupedNext(v: nat, k: nat)
    requires v > 0
    ensures Reversed(Digits(v, BASE_D, true, k))
            == Reversed(Digits(v / 10, BASE_D, true, k + 1)) + [DecimalDigit(v % 10)] + if k > 0 && k % 3 == 0 then "," else ""
  {
    var rest := Digits(v / 10, BASE_D, true, k + 1);
    assert Digits(v, BASE_D, true, k) == NextDigit(v, BASE_D, true, k) + rest;
    hide Digits;
    if k > 0 && k % 3 == 0 {
      assert NextDigit(v, BASE_D, true, k) == [',', DecimalDigit(v % 10)];
    } else {
      assert NextDigit(v, BASE_D, true, k) == [DecimalDigit(v % 10)];
    }
  }

  lemma ValAppend(d: string, ch: char)
    requires AllDigits(d) && IsDigit(ch)
    ensures AllDigits(d + [ch]) && Val(d + [ch]) == 10 * Val(d) + DigitOf(ch)
  {
    assert (d + [ch])[..|d|] == d;
  }

  /** Blanks, a sign, digits and anything that does not go on with a digit. */
  lemma NumberLead(a: nat, sign: string, d: string, tail: string)
    requires AllDigits(d) && d != [] && (sign == "" || sign == "-" || sign == "+" || sign == " ") && (tail == [] || !IsDigit(tail[0]))
    ensures Number(Dup(' ', a) + sign + d + tail) == if sign == "-" then 0 - Val(d) else Val(d)
  {
    hide Val;
    var s := Dup(' ', a) + sign + d + tail;
    var n := a + |sign|;
    forall k | n <= k < n + |d| ensures IsDigit(s[k]) { assert s[k] == d[k - n]; }
    assert s[n..n + |d|] == d;
    DigitsEndAt(s, n, n + |d|);
    if sign == "-" || sign == "+" {
      assert s[a] == sign[0];
      SpacesEndAt(s, a);
    } else {
      SpacesEndAt(s, n);
    }
  }

  lemma LaidGrouped(sign: string, pad: nat, v: nat, c: Conversion)
    requires v >= 1000 && (sign == "" || sign == "-" || sign == "+" || sign == " ")
    ensures var q := Digits(v, BASE_D, true, 0);
            Number(Laid(sign, "", pad, Extended(q, BASE_D, c), c))
            == if sign == "-" then 0 - Val(Lead(Reversed(q))) else Val(Lead(Reversed(q)))
  {
    hide Digits, Val, Number, Laid, Reversed, Extended, Lead, IsDigit;
    var q := Digits(v, BASE_D, true, 0);
    var r := Reversed(q);
    LeadOf(v, 0);
    var m := ExtendedIs(q, c);
    var a, z, b := if !c.minus && !c.zero then pad else 0, if c.zero then pad else 0, if c.minus then pad else 0;
    LaidIs(sign, pad, Extended(q, BASE_D, c), c, a, z, b);
    var d := Lead(r);
    LeadEnds(r);
    ZerosBefore(z + m, d);
    NumberLead(a, sign, Dup('0', z + m) + d, r[|d|..] + Dup(' ', b));
    LeadSplits(r, z, m, a, sign, b);
  }

  lemma ExtendedIs(q: string, c: Conversion) returns (m: nat)
    ensures Reversed(Extended(q, BASE_D, c)) == Dup('0', m) + Reversed(q)
  {
    m := |Extended(q, BASE_D, c)| - |q|;
  }

  lemma LeadEnds(r: string)
    ensures |Lead(r)| <= |r| && (Lead(r) != r ==> |Lead(r)| < |r| && !IsDigit(r[|Lead(r)|..][0]))
  {
  }

  lemma LeadSplits(r: string, z: nat, m: nat, a: nat, sign: string, b: nat)
    ensures Dup(' ', a) + sign + (Dup('0', z) + (Dup('0', m) + r)) + Dup(' ', b)
            == Dup(' ', a) + sign + (Dup('0', z + m) + Lead(r)) + (r[|Lead(r)|..] + Dup(' ', b))
  {
    assert Dup('0', z) + Dup('0', m) == Dup('0', z + m);
    assert Lead(r) + r[|Lead(r)|..] == r;
    hide Dup, Lead;
    Chain(Dup(' ', a) + sign, Dup('0', z), Dup('0', m), Lead(r), r[|Lead(r)|..], Dup(' ', b));
  }

  lemma Chain(p: string, z: string, m: string, l: string, t: string, b: string)
    ensures p + (z + (m + (l + t))) + b == p + ((z + m) + l) + (t + b)
  {
  }

  lemma IntFits(x: int)
    ensures -HALF <= x < HALF ==> Wrap32(x) == x
  {
  }

  lemma SignIs(negative: bool, c: Conversion)
    ensures var sign := SignOf(true, negative, c);
            (sign == "" || sign == "-" || sign == "+" || sign == " ") && (sign == "-" <==> negative)
  {
  }

  lemma FormattedIs(v: nat, negative: bool, c: Conversion)
    ensures var sign, digits := SignOf(true, negative, c), Extended(Digits(v, BASE_D, c.group, 0), BASE_D, c);
            Formatted(v, true, negative, BASE_D, c) == Laid(sign, "", PadOf(c.width, |digits| + |sign|), digits, c)
  {
    hide Digits, Extended, Laid, PadOf, SignOf;
    assert PrefixOf(v, BASE_D, c) == "";
  }

  lemma LaidNumber(sign: string, pad: nat, digits: string, c: Conversion)
    requires sign == "" || sign == "-" || sign == "+" || sign == " "
    requires AllDigits(Reversed(digits))
    ensures Number(Laid(sign, "", pad, digits, c)) == if sign == "-" then 0 - Val(Reversed(digits)) else Val(Reversed(digits))
  {
    hide Number, Reversed, Val, Laid;
    var d := Reversed(digits);
    var a, z, b := if !c.minus && !c.zero then pad else 0, if c.zero then pad else 0, if c.minus then pad else 0;
    ZerosBefore(z, d);
    NumberShape(a, sign, Dup('0', z) + d, b);
    LaidIs(sign, pad, digits, c, a, z, b);
  }

  lemma LaidIs(sign: string, pad: nat, digits: string, c: Conversion, a: nat, z: nat, b: nat)
    requires a == (if !c.minus && !c.zero then pad else 0) && z == (if c.zero then pad else 0) && b == (if c.minus then pad else 0)
    ensures Laid(sign, "", pad, digits, c) == Dup(' ', a) + sign + (Dup('0', z) + Reversed(digits)) + Dup(' ', b)
  {
    hide Reversed, Dup;
    NoneIsEmpty();
    Regroup(Dup(' ', a), sign, Dup('0', z), Reversed(digits), Dup(' ', b));
  }

  lemma Regroup(a: string, sign: string, z: string, d: string, b: string)
    ensures a + sign + "" + z + d + b == a + sign + (z + d) + b
  {
  }

  lemma NoneIsEmpty()
    ensures Dup(' ', 0) == "" && Dup('0', 0) == ""
  {
  }

  // ---------- Digits in every base ----------

  /** The value of digits in base b that come least significant first, group separators skipped. */
  function ReadBack(q: string, b: Base): int
    requires IsBase(b)
  {
    if q == [] then 0
    else if q[0] == ',' then ReadBack(q[1..], b)
    else IndexIn(b.digits, q[0]) + b.base * ReadBack(q[1..], b)
  }

  function IndexIn(s: string, ch: char): int {
    if s == [] then -1 else if s[0] == ch then 0 else 1 + IndexIn(s[1..], ch)
  }

  lemma {:induction false} IndexOfDigit(s: string, d: nat)
    requires d < |s| && forall i, j :: 0 <= i < j < |s| ==> s[i] != s[j]
    ensures IndexIn(s, s[d]) == d
  {
    if d > 0 {
      assert s[1..][d - 1] == s[d];
      IndexOfDigit(s[1..], d - 1);
    }
  }

  predicate Ascending(s: string) {
    forall i :: 0 <= i < |s| - 1 ==> s[i] < s[i + 1]
  }

  lemma {:induction false} AscendingApart(s: string, i: nat, j: nat)
    requires Ascending(s) && i < j < |s|
    ensures s[i] < s[j]
    decreases j - i
  {
    if i + 1 < j { AscendingApart(s, i, j - 1); }
    assert s[j - 1] < s[j - 1 + 1];
  }

  lemma DigitsAscend(b: Base)
    requires IsBase(b)
    ensures |b.digits| == b.base && Ascending(b.digits) && b.digits[0] == '0'
  {
    assert Ascending("0123456789");
    assert Ascending("01234567");
    assert Ascending("0123456789abcdef");
    assert Ascending("0123456789ABCDEF");
  }

  lemma DigitsApart(b: Base)
    requires IsBase(b)
    ensures |b.digits| == b.base && (forall i, j :: 0 <= i < j < |b.digits| ==> b.digits[i] != b.digits[j])
    ensures forall i :: 0 <= i < |b.digits| ==> b.digits[i] != ','
  {
    DigitsAscend(b);
    hide Ascending;
    forall i, j | 0 <= i < j < |b.digits| ensures b.digits[i] != b.digits[j] { AscendingApart(b.digits, i, j); }
    forall i | 0 <= i < |b.digits| ensures b.digits[i] != ',' { if i > 0 { AscendingApart(b.digits, 0, i); } }
  }

  /** The digits read back to the value, in every base, grouped or not. */
  lemma {:induction false} DigitsReadBack(v: nat, b: Base, grouped: bool, k: nat)
    requires IsBase(b)
    ensures ReadBack(Digits(v, b, grouped, k), b) == v
    decreases v
  {
    if v > 0 {
      DigitsReadBack(v / b.base, b, grouped, k + 1);
      ReadBackNext(Digits(v / b.base, b, grouped, k + 1), v, b, grouped, k);
    }
  }

  lemma ReadBackNext(rest: string, v: nat, b: Base, grouped: bool, k: nat)
    requires IsBase(b) && ReadBack(rest, b) == v / b.base
    ensures ReadBack(NextDigit(v, b, grouped, k) + rest, b) == v
  {
    DigitsApart(b);
    hide IsBase;
    var ch := b.digits[v % b.base];
    IndexOfDigit(b.digits, v % b.base);
    var q := [ch] + rest;
    assert q[1..] == rest;
    assert ReadBack(q, b) == v % b.base + b.base * (v / b.base);
    if grouped && k > 0 && k % b.group == 0 {
      assert NextDigit(v, b, grouped, k) + rest == [','] + q;
      assert ([','] + q)[1..] == q;
    } else {
      assert NextDigit(v, b, grouped, k) + rest == q;
    }
  }

  // ---------- The field width ----------

  /** The characters of a conversion apart from padding. */
  function Used(value: nat, isSigned: bool, negative: bool, b: Base, c: Conversion): nat
    requires IsBase(b)
  {
    |Extended(Digits(value, b, c.group, 0), b, c)| + |PrefixOf(value, b, c)| + |SignOf(isSigned, negative, c)|
  }

  lemma {:induction false} DigitsFit(v: nat, b: Base, grouped: bool, k: nat, bound: nat)
    requires IsBase(b) && k <= 22 && v * Pow8(k) <= bound < B64
    ensures |Digits(v, b, grouped, k)| <= 2 * (22 - k)
    decreases v
  {
    if v > 0 {
      FewDigits(v, k, bound);
      DigitTaken(v, b.base, k, bound);
      hide Pow8, IsBase;
      DigitsFit(v / b.base, b, grouped, k + 1, bound);
    }
  }

  lemma UsedFits(value: nat, isSigned: bool, negative: bool, b: Base, c: Conversion)
    requires IsBase(b) && value < B64
    ensures Used(value, isSigned, negative, b, c) <= 67
  {
    Pow8Zero();
    DigitsFit(value, b, c.group, 0, value);
    hide Digits;
    assert |PrefixOf(value, b, c)| <= 2 && |SignOf(isSigned, negative, c)| <= 1;
  }

  /** The padding that 32-bit arithmetic comes to. */
  lemma PadIs(width: int, used: nat)
    requires used <= 67 && (0 <= width < HALF || width == -HALF)
    ensures PadOf(width, used) ==
            if width == -HALF && used == 0 then 0 else if used < Abs(width) then Abs(width) - used else 0
  {
  }

  /** The padding is written once, or twice with both flags. */
  lemma FormattedLength(value: nat, isSigned: bool, negative: bool, b: Base, c: Conversion)
    requires IsBase(b)
    ensures var used := Used(value, isSigned, negative, b, c);
            var pad := PadOf(c.width, used);
            |Formatted(value, isSigned, negative, b, c)| == used + if c.minus && c.zero then 2 * pad else pad
  {
    hide Digits, Extended, PrefixOf, SignOf, IsBase, PadOf;
  }

  /** The output fills the field and no more, exactly unless it is padded with both the minus and the
      zero flag set, or is empty in a field of 2^31, the one width an int holds as a negative number. */
  lemma FieldWidth(value: nat, isSigned: bool, negative: bool, b: Base, c: Conversion)
    requires IsBase(b) && value < B64 && (0 <= c.width < HALF || c.width == -HALF)
    ensures var used := Used(value, isSigned, negative, b, c);
            |Formatted(value, isSigned, negative, b, c)| == (if used < Abs(c.width) then Abs(c.width) else used)
            <==> !(c.minus && c.zero && used < Abs(c.width)) && !(c.width == -HALF && used == 0)
  {
    hide Formatted, Used, IsBase, PadOf;
    UsedFits(value, isSigned, negative, b, c);
    PadIs(c.width, Used(value, isSigned, negative, b, c));
    FormattedLength(value, isSigned, negative, b, c);
  }

  /** With both flags the padding is written twice. */
  lemma Overfilled(value: nat, isSigned: bool, negative: bool, b: Base, c: Conversion)
    requires IsBase(b) && value < B64 && c.minus && c.zero && Used(value, isSigned, negative, b, c) < c.width < HALF
    ensures |Formatted(value, isSigned, negative, b, c)| == 2 * c.width - Used(value, isSigned, negative, b, c)
  {
    hide Formatted, Used, IsBase, PadOf;
    UsedFits(value, isSigned, negative, b, c);
    PadIs(c.width, Used(value, isSigned, negative, b, c));
    FormattedLength(value, isSigned, negative, b, c);
  }
}
