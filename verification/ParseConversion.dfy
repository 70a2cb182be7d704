/** parse_conversion (lib/stdio.c): the flags, field width, precision and type of a conversion. */
module ParseConversion {
  import opened Arithmetic
  import opened Atoi
  import opened Printf
  import opened PrintfAtoi

  /** The character at a position of a null-terminated string. */
  function At(f: string, i: nat): char {
    if i < |f| then f[i] else '\0'
  }

  predicate IsFlag(ch: char) {
    ch == '-' || ch == '+' || ch == ' ' || ch == '#' || ch == '0' || ch == '\''
  }

  function FlagsEnd(f: string, i: nat): (j: nat)
    requires i <= |f|
    ensures i <= j <= |f| && (forall k :: i <= k < j ==> IsFlag(f[k])) && (j < |f| ==> !IsFlag(f[j]))
    decreases |f| - i
  {
    if i < |f| && IsFlag(f[i]) then FlagsEnd(f, i + 1) else i
  }

  /** Where parsing has got to: the position in the format and the next variable argument. */
  datatype Place = Place(i: nat, k: nat)

  /** The field width at a place, an int; args is the list of variable arguments. */
  function WidthAt(f: string, at: Place, args: nat -> int): (r: (int, Place))
    requires at.i <= |f|
    ensures r.1.i <= |f| && -HALF <= r.0 < HALF
  {
    if At(f, at.i) == '*' then (Wrap32(args(at.k)), Place(at.i + 1, at.k + 1))
    else (Wrap32(Val(f[at.i..DigitsEnd(f, at.i)])), Place(DigitsEnd(f, at.i), at.k))
  }

  /** The precision at a place, -1 for none. */
  function PrecisionAt(f: string, at: Place, args: nat -> int): (r: (int, Place))
    requires at.i <= |f|
    ensures r.1.i <= |f| && r.0 >= -1
  {
    if At(f, at.i) != '.' then (-1, at)
    else
      var (p, next) := WidthAt(f, Place(at.i + 1, at.k), args);
      (if p < 0 then -1 else p, next)
  }

  function KindAt(f: string, i: nat): (r: (Kind, nat))
    requires i <= |f|
    ensures r.1 <= |f|
  {
    match At(f, i)
    case 'h' => if At(f, i + 1) == 'h' then (CharKind, i + 2) else (ShortKind, i + 1)
    case 'j' => (IntMaxKind, i + 1)
    case 'l' => if At(f, i + 1) == 'l' then (LongLongKind, i + 2) else (LongKind, i + 1)
    case 't' => (PtrDiffKind, i + 1)
    case 'z' => (SizeKind, i + 1)
    case _ => (IntKind, i)
  }

  /** What the flags, width and precision come to.  A minus flag cancels a zero flag only if it is
      written as a flag; a negative width sets it later. */
  function Settled(fl: string, w: int, p: int, kind: Kind): Conversion {
    Conversion('-' in fl || w < 0, '+' in fl, ' ' in fl && '+' !in fl, '#' in fl, '0' in fl && '-' !in fl && p < 0,
               '\'' in fl, if w < 0 then Wrap32(-w) else w, p, kind)
  }

  /** What parse_conversion makes of a format. */
  function Parse(f: string, at: Place, args: nat -> int): (r: (Conversion, Place))
    requires at.i <= |f|
    ensures r.1.i <= |f|
  {
    var j := FlagsEnd(f, at.i);
    var fl := f[at.i..j];
    var (w, at1) := WidthAt(f, Place(j, at.k), args);
    var (p, at2) := PrecisionAt(f, at1, args);
    var (kind, i) := KindAt(f, at2.i);
    (Settled(fl, w, p, kind), Place(i, at2.k))
  }

  /** Decimal digits of a width or precision, in 32-bit arithmetic. */
  method ParseNumber(f: string, i0: nat) returns (v: int, i: nat)
    requires i0 <= |f|
    ensures i == DigitsEnd(f, i0) && v == Wrap32(Val(f[i0..i]))
  {
    hide Val, Wrap32;
    i, v := i0, 0;
    EmptyVal(f[i0..i0]);
    WrapZero();
    while i < |f| && IsDigit(f[i])
      invariant i0 <= i <= |f| && DigitsEnd(f, i) == DigitsEnd(f, i0) && AllDigits(f[i0..i]) && v == Wrap32(Val(f[i0..i]))
    {
      ValNext(f, i0, i);
      WrapStep(Val(f[i0..i]), 0 - DigitOf(f[i]));
      v := Wrap32(v * 10 + DigitOf(f[i]));
      i := i + 1;
    }
  }

  method ParseFlags(f: string, i0: nat) returns (c: Conversion, i: nat)
    requires i0 <= |f|
    ensures i == FlagsEnd(f, i0)
    ensures var fl := f[i0..i];
            c == Conversion('-' in fl, '+' in fl, ' ' in fl && '+' !in fl, '#' in fl, '0' in fl && '-' !in fl, '\'' in fl,
                            0, -1, IntKind)
  {
    i := i0;
    var minus, plus, space, pound, zero, group := false, false, false, false, false, false;
    while i < |f| && IsFlag(f[i])
      invariant i0 <= i <= |f| && FlagsEnd(f, i) == FlagsEnd(f, i0)
      invariant minus == ('-' in f[i0..i]) && plus == ('+' in f[i0..i]) && space == (' ' in f[i0..i])
      invariant pound == ('#' in f[i0..i]) && zero == ('0' in f[i0..i]) && group == ('\'' in f[i0..i])
    {
      assert f[i0..i + 1] == f[i0..i] + [f[i]];
      match f[i] {
        case '-' => minus := true;
        case '+' => plus := true;
        case ' ' => space := true;
        case '#' => pound := true;
        case '0' => zero := true;
        case _ => group := true;
      }
      i := i + 1;
    }
    if minus {
      zero := false;
    }
    if plus {
      space := false;
    }
    c := Conversion(minus, plus, space, pound, zero, group, 0, -1, IntKind);
  }

  method ParseWidth(f: string, at: Place, args: nat -> int) returns (w: int, next: Place)
    requires at.i <= |f|
    ensures (w, next) == WidthAt(f, at, args)
  {
    if At(f, at.i) == '*' {
      w, next := Wrap32(args(at.k)), Place(at.i + 1, at.k + 1);
    } else {
      var i;
      w, i := ParseNumber(f, at.i);
      next := Place(i, at.k);
    }
  }

  /** parse_conversion. */
  method ParseConversion(f: string, at: Place, args: nat -> int) returns (c: Conversion, next: Place)
    requires at.i <= |f|
    ensures (c, next) == Parse(f, at, args)
  {
    hide Val, WidthAt, KindAt, FlagsEnd, Wrap32;
    var i;
    c, i := ParseFlags(f, at.i);
    var w;
    w, next := ParseWidth(f, Place(i, at.k), args);
    if w < 0 {
      w := Wrap32(-w);
      c := c.(minus := true);
    }
    var p := -1;
    if At(f, next.i) == '.' {
      p, next := ParseWidth(f, Place(next.i + 1, next.k), args);
      if p < 0 {
        p := -1;
      }
    }
    if p >= 0 {
      c := c.(zero := false);
    }
    var (kind, j) := KindAt(f, next.i);
    next := Place(j, next.k);
    c := c.(width := w, precision := p, kind := kind);
  }

  /** The flags written are the longest stretch of flag characters, and each flag holds exactly if its character
      is among them, but that plus cancels space, minus and a precision cancel zero, and a negative width
      sets minus. */
  lemma ParsedFlags(f: string, at: Place, args: nat -> int)
    requires at.i <= |f|
    ensures var c, j := Parse(f, at, args).0, FlagsEnd(f, at.i);
            var fl, (w, at1) := f[at.i..j], WidthAt(f, Place(j, at.k), args);
            && (forall k :: 0 <= k < |fl| ==> FlagCharacter(fl[k])) && (j < |f| ==> !FlagCharacter(f[j]))
            && FlagsAre(c, fl, w < 0, PrecisionAt(f, at1, args).0 >= 0)
  {
    hide WidthAt, PrecisionAt, KindAt, Wrap32;
  }

  predicate FlagCharacter(ch: char) {
    ch in {'-', '+', ' ', '#', '0', '\''}
  }

  predicate FlagsAre(c: Conversion, fl: string, negative: bool, precise: bool) {
    && (c.plus <==> '+' in fl) && (c.pound <==> '#' in fl) && (c.group <==> '\'' in fl)
    && (c.space <==> ' ' in fl && '+' !in fl)
    && (c.minus <==> '-' in fl || negative)
    && (c.zero <==> '0' in fl && '-' !in fl && !precise)
  }

  /** So the field comes out right for a parsed conversion exactly unless the zero flag stands without a
      minus flag and without a precision, and the width is negative and calls for padding; or unless
      nothing is to be written in a field of -2^31.  The width is negative as a `*` argument, or as a
      number that does not fit an int. */
  lemma ParsedFieldWidth(f: string, at: Place, args: nat -> int, value: nat, isSigned: bool, negative: bool, b: Base)
    requires at.i <= |f| && IsBase(b) && value < B64
    ensures var c := Parse(f, at, args).0;
            var j := FlagsEnd(f, at.i);
            var (w, at1) := WidthAt(f, Place(j, at.k), args);
            var used := Used(value, isSigned, negative, b, c);
            |Formatted(value, isSigned, negative, b, c)| == (if used < Abs(w) then Abs(w) else used)
            <==> !('0' in f[at.i..j] && '-' !in f[at.i..j] && PrecisionAt(f, at1, args).0 < 0 && w < 0 && used < Abs(w))
                 && !(w == -HALF && used == 0)
  {
    hide Formatted, Used, WidthAt, PrecisionAt, KindAt, Wrap32, FlagsEnd;
    var w := WidthAt(f, Place(FlagsEnd(f, at.i), at.k), args).0;
    NegatedWidth(w);
    FieldWidth(value, isSigned, negative, b, Parse(f, at, args).0);
  }

  lemma NegatedWidth(w: int)
    requires -HALF <= w < HALF
    ensures w < 0 ==> (0 <= Wrap32(-w) < HALF || Wrap32(-w) == -HALF) && Abs(Wrap32(-w)) == Abs(w) && (Wrap32(-w) == -HALF <==> w == -HALF)
  {
  }

  lemma NegativeStar()
    ensures Parse("0*d", Place(0, 0), k => -5).0 == Conversion(true, false, false, false, true, false, 5, -1, IntKind)
  {
    assert FlagsEnd("0*d", 0) == 1;
    assert "0*d"[0..1] == "0";
  }

  /** An instance of the exception: 42 with a zero flag and a width argument of -5. */
  lemma NegativeStarOverfills()
    ensures Formatted(42, true, false, BASE_D, Parse("0*d", Place(0, 0), k => -5).0) == "00042   "
  {
    NegativeStar();
    hide Parse, Formatted, Laid;
    var c := Conversion(true, false, false, false, true, false, 5, -1, IntKind);
    FormattedIs(42, false, c);
    FortyTwoDigits(c);
    assert PadOf(5, 2) == 3;
    LaidTwice(c);
  }

  lemma LaidTwice(c: Conversion)
    requires c.minus && c.zero
    ensures Laid("", "", 3, "24", c) == "00042   "
  {
    assert Reversed("24") == "42";
    assert Dup('0', 3) == "000" && Dup(' ', 3) == "   ";
    hide Reversed, Dup;
    assert "" + "" + "" + "000" + "42" + "   " == "00042   ";
  }

  lemma FortyTwoDigits(c: Conversion)
    requires !c.plus && !c.space && !c.pound && !c.group && c.precision == -1
    ensures Extended(Digits(42, BASE_D, false, 0), BASE_D, c) == "24" && SignOf(true, false, c) == ""
  {
    assert Digits(42, BASE_D, false, 0) == "24" by {
      assert Digits(4, BASE_D, false, 1) == "4";
    }
    hide Digits;
    assert Extended("24", BASE_D, c) == "24";
  }

  // ---------- Parsing undoes writing ----------

  /** A number as it is written in a format; nothing for nought. */
  function Dec(n: nat): string { Reversed(Digits(n, BASE_D, false, 0)) }

  lemma DecVal(n: nat)
    ensures AllDigits(Dec(n)) && Val(Dec(n)) == n
  {
    DigitsVal(n, 0);
    ReversedVal(Digits(n, BASE_D, false, 0));
  }

  /** It does not begin with a nought. */
  lemma {:induction false} TopDigit(n: nat, k: nat)
    requires n > 0
    ensures var q := Digits(n, BASE_D, false, k); q != [] && q[|q| - 1] != '0'
    decreases n
  {
    var q := Digits(n, BASE_D, false, k);
    assert q == [DecimalDigit(n % 10)] + Digits(n / 10, BASE_D, false, k + 1);
    if n >= 10 {
      TopDigit(n / 10, k + 1);
    } else {
      assert Digits(0, BASE_D, false, k + 1) == [];
    }
  }

  function KindText(kind: Kind): string {
    match kind
    case CharKind => "hh"
    case ShortKind => "h"
    case IntKind => ""
    case IntMaxKind => "j"
    case LongKind => "l"
    case LongLongKind => "ll"
    case PtrDiffKind => "t"
    case SizeKind => "z"
  }

  /** A width or a precision: a number, or the next argument. */
  datatype Size = Given(n: nat) | Star

  function SizeText(z: Size): string {
    if z.Star? then "*" else Dec(z.n)
  }

  function SizeValue(z: Size, k: nat, args: nat -> int): int {
    if z.Star? then args(k) else z.n
  }

  /** The next argument after it. */
  function Past(z: Size, k: nat): nat {
    if z.Star? then k + 1 else k
  }

  /** A conversion in writing, with the character that names it and whatever follows. */
  function Written(fl: string, w: Size, precise: bool, p: Size, kind: Kind, rest: string): string {
    fl + (SizeText(w) + ((if precise then "." + SizeText(p) else "") + (KindText(kind) + rest)))
  }

  /** The characters that may name a conversion. */
  predicate Names(ch: char) {
    !IsFlag(ch) && !IsDigit(ch) && ch != '*' && ch != '.' && ch != 'h' && ch != 'j' && ch != 'l' && ch != 't' && ch != 'z'
  }

  lemma FlagsEndAt(f: string, i: nat, j: nat)
    requires i <= j <= |f| && (forall k :: i <= k < j ==> IsFlag(f[k])) && (j < |f| ==> !IsFlag(f[j]))
    ensures FlagsEnd(f, i) == j
  {
  }

  /** A number followed by something else, anywhere in a format. */
  lemma NumberAt(f: string, i: nat, n: nat, tail: string, k: nat, args: nat -> int)
    requires i <= |f| && f[i..] == Dec(n) + tail && tail != [] && !IsDigit(tail[0]) && tail[0] != '*'
    ensures i + |Dec(n)| <= |f| && f[i + |Dec(n)|..] == tail
    ensures WidthAt(f, Place(i, k), args) == (Wrap32(n), Place(i + |Dec(n)|, k))
  {
    DecVal(n);
    hide Dec, Val, Wrap32;
    var d := Dec(n);
    var j := i + |d|;
    assert f[i..][..|d|] == d && f[i..][|d|..] == tail;
    assert f[j..] == f[i..][|d|..] && f[i..j] == d;
    forall x | i <= x < j ensures IsDigit(f[x]) { assert f[x] == f[i..][x - i] == d[x - i]; }
    assert f[j] == f[j..][0];
    assert At(f, i) == f[i..][0];
    DigitsEndAt(f, i, j);
  }

  /** The same for a number or a star. */
  lemma SizeAt(f: string, i: nat, z: Size, tail: string, k: nat, args: nat -> int)
    requires i <= |f| && f[i..] == SizeText(z) + tail && tail != [] && !IsDigit(tail[0]) && tail[0] != '*'
    ensures i + |SizeText(z)| <= |f| && f[i + |SizeText(z)|..] == tail
    ensures WidthAt(f, Place(i, k), args) == (Wrap32(SizeValue(z, k, args)), Place(i + |SizeText(z)|, Past(z, k)))
  {
    hide Dec, Val, Wrap32;
    if z.Star? {
      assert f[i] == f[i..][0] == '*';
      assert f[i + 1..] == f[i..][1..] == tail;
    } else {
      NumberAt(f, i, z.n, tail, k, args);
    }
  }

  lemma KindRead(f: string, i: nat, kind: Kind, rest: string)
    requires i <= |f| && f[i..] == KindText(kind) + rest && rest != [] && Names(rest[0])
    ensures KindAt(f, i) == (kind, i + |KindText(kind)|)
  {
    assert forall x :: 0 <= x < |f| - i ==> f[i + x] == f[i..][x];
    assert At(f, i) == (KindText(kind) + rest)[0];
    assert |KindText(kind)| > 0 ==> At(f, i + 1) == (KindText(kind) + rest)[1];
  }

  /** What follows the width and the precision. */
  function Tail(kind: Kind, rest: string): string { KindText(kind) + rest }

  function Middle(precise: bool, p: Size, kind: Kind, rest: string): string {
    (if precise then "." + SizeText(p) else "") + Tail(kind, rest)
  }

  lemma Follows(precise: bool, p: Size, kind: Kind, rest: string)
    requires rest != [] && Names(rest[0])
    ensures var t, m := Tail(kind, rest), Middle(precise, p, kind, rest);
            && t != [] && !IsDigit(t[0]) && t[0] != '*' && t[0] != '.' && !IsFlag(t[0])
            && m != [] && !IsDigit(m[0]) && m[0] != '*' && !IsFlag(m[0]) && (m[0] == '.' <==> precise)
            && (precise ==> m[1..] == SizeText(p) + t) && (!precise ==> m == t)
  {
    hide SizeText;
    assert Tail(kind, rest)[0] == if kind == IntKind then rest[0] else KindText(kind)[0];
    if precise { assert Middle(precise, p, kind, rest) == "." + (SizeText(p) + Tail(kind, rest)); }
  }

  lemma SizeStart(z: Size, m: string)
    requires m != [] && !IsFlag(m[0])
    ensures !IsFlag((SizeText(z) + m)[0])
  {
    if z.Star? {
    } else if z.n > 0 {
      TopDigit(z.n, 0);
      DecVal(z.n);
      assert IsDigit(Dec(z.n)[0]);
    } else {
      assert Dec(0) == [];
    }
  }

  lemma FlagsRead(f: string, fl: string, z: Size, m: string)
    requires f == fl + (SizeText(z) + m) && (forall i :: 0 <= i < |fl| ==> IsFlag(fl[i])) && m != [] && !IsFlag(m[0])
    ensures FlagsEnd(f, 0) == |fl| && f[0..|fl|] == fl && f[|fl|..] == SizeText(z) + m
  {
    SizeStart(z, m);
    hide SizeText;
    FlagsEndAt(f, 0, |fl|);
  }

  lemma PrecisionRead(f: string, i: nat, precise: bool, p: Size, kind: Kind, rest: string, k: nat, args: nat -> int)
    requires i <= |f| && f[i..] == Middle(precise, p, kind, rest) && rest != [] && Names(rest[0])
    ensures var r := PrecisionAt(f, Place(i, k), args);
            && r.0 == (if precise then AsPrecision(SizeValue(p, k, args)) else -1) && f[r.1.i..] == Tail(kind, rest)
            && r.1.k == (if precise then Past(p, k) else k)
  {
    Follows(precise, p, kind, rest);
    hide SizeText, SizeValue, Middle, Tail, Wrap32;
    assert At(f, i) == f[i..][0];
    if precise {
      assert f[i + 1..] == f[i..][1..];
      SizeAt(f, i + 1, p, Tail(kind, rest), k, args);
    }
  }

  lemma KindHere(f: string, j: nat, kind: Kind, rest: string)
    requires j <= |f| && f[j..] == Tail(kind, rest) && rest != [] && Names(rest[0])
    ensures KindAt(f, j) == (kind, |f| - |rest|)
  {
    KindRead(f, j, kind, rest);
    assert |f[j..]| == |f| - j;
  }

  /** What a precision is taken for: none if, cut to an int, it comes out negative. */
  function AsPrecision(p: int): int {
    if Wrap32(p) < 0 then -1 else Wrap32(p)
  }

  /** Parsing a written conversion gives it back: every set of flags in any order, every width and precision
      or none, as numbers or arguments taken in order, every type, with width and precision cut to
      32 bits; written numbers come back themselves exactly if they are below 2^31. */
  lemma ParseUndoesWriting(fl: string, w: Size, precise: bool, p: Size, kind: Kind, rest: string, k: nat, args: nat -> int)
    requires (forall i :: 0 <= i < |fl| ==> FlagCharacter(fl[i])) && rest != [] && Names(rest[0])
    ensures var f, wide := Written(fl, w, precise, p, kind, rest), Wrap32(SizeValue(w, k, args));
            var fine := if precise then AsPrecision(SizeValue(p, Past(w, k), args)) else -1;
            var (c, next) := Parse(f, Place(0, k), args);
            && FlagsAre(c, fl, wide < 0, fine >= 0) && c.kind == kind
            && next == Place(|f| - |rest|, if precise then Past(p, Past(w, k)) else Past(w, k))
            && c.width == (if wide < 0 then Wrap32(-wide) else wide) && c.precision == fine
            && (w.Given? ==> (c.width == w.n <==> w.n < HALF))
            && (precise && p.Given? ==> (c.precision == p.n <==> p.n < HALF))
  {
    hide SizeText, WidthAt, PrecisionAt, KindAt, Middle, Tail, Written, IsDigit, Names, Settled, Parse, Wrap32, AsPrecision, FlagsAre;
    var f, m := Written(fl, w, precise, p, kind, rest), Middle(precise, p, kind, rest);
    var wide, fine := Wrap32(SizeValue(w, k, args)), if precise then AsPrecision(SizeValue(p, Past(w, k), args)) else -1;
    WrittenIs(fl, w, precise, p, kind, rest);
    Follows(precise, p, kind, rest);
    FlagsRead(f, fl, w, m);
    SizeAt(f, |fl|, w, m, k, args);
    var i := |fl| + |SizeText(w)|;
    PrecisionRead(f, i, precise, p, kind, rest, Past(w, k), args);
    var r := PrecisionAt(f, Place(i, Past(w, k)), args);
    KindHere(f, r.1.i, kind, rest);
    Assembled(f, fl, wide, fine, kind, args, Place(i, Past(w, k)), r.1, |f| - |rest|, k);
    SettledFlags(fl, wide, fine, kind);
    if w.Given? { CutWidth(w.n); }
    if precise && p.Given? { CutPrecision(p.n); }
  }

  lemma SettledFlags(fl: string, w: int, p: int, kind: Kind)
    ensures var c := Settled(fl, w, p, kind);
            && FlagsAre(c, fl, w < 0, p >= 0) && c.kind == kind
            && c.width == (if w < 0 then Wrap32(-w) else w) && c.precision == p
  {
    hide Wrap32;
  }

  lemma CutWidth(n: nat)
    ensures (if Wrap32(n) < 0 then Wrap32(-Wrap32(n)) else Wrap32(n)) == n <==> n < HALF
  {
  }

  lemma CutPrecision(n: nat)
    ensures AsPrecision(n) == n <==> n < HALF
  {
  }

  /** The other instance of the exception: a width that does not fit an int is cut to a negative one, and
      42 takes more than twice the field that is left of it. */
  lemma WideWidthOverfills(args: nat -> int)
    ensures var c := Parse(Written("0", Given(3_000_000_000), false, Star, IntKind, "d"), Place(0, 0), args).0;
            c.width == 1_294_967_296 && |Formatted(42, true, false, BASE_D, c)| == 2 * c.width - 2
  {
    hide Parse, Written, Formatted, Used;
    ParseUndoesWriting("0", Given(3_000_000_000), false, Star, IntKind, "d", 0, args);
    var c := Conversion(true, false, false, false, true, false, 1_294_967_296, -1, IntKind);
    assert Settled("0", Wrap32(3_000_000_000), -1, IntKind) == c;
    FortyTwo(c);
    Overfilled(42, true, false, BASE_D, c);
  }

  lemma FortyTwo(c: Conversion)
    requires !c.plus && !c.space && !c.pound && !c.group && c.precision == -1
    ensures Used(42, true, false, BASE_D, c) == 2
  {
    FortyTwoDigits(c);
    hide Digits, Extended;
  }

  lemma WrittenIs(fl: string, w: Size, precise: bool, p: Size, kind: Kind, rest: string)
    ensures Written(fl, w, precise, p, kind, rest) == fl + (SizeText(w) + Middle(precise, p, kind, rest))
  {
    hide SizeText;
  }

  lemma Assembled(f: string, fl: string, w: int, p: int, kind: Kind, args: nat -> int, at1: Place, at2: Place, e: nat, k: nat)
    requires FlagsEnd(f, 0) == |fl| <= |f| && f[0..|fl|] == fl && at1.i <= |f| && at2.i <= |f|
    requires WidthAt(f, Place(|fl|, k), args) == (w, at1) && PrecisionAt(f, at1, args) == (p, at2)
    requires KindAt(f, at2.i) == (kind, e)
    ensures Parse(f, Place(0, k), args) == (Settled(fl, w, p, kind), Place(e, at2.k))
  {
    hide WidthAt, PrecisionAt, KindAt, Settled;
  }
}
