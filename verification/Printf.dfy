/** Integer conversion of printf (lib/stdio.c): the digits go into a 64-byte buffer from the least
    significant on, and from there, padded, to the output function. */
module Printf {
  import opened Atoi
  import opened Arithmetic

  const BUF_SIZE := 64

  /** struct printf_conversion; a precision of -1 stands for none given. */
  datatype Conversion = Conversion(minus: bool, plus: bool, space: bool, pound: bool, zero: bool, group: bool,
                                   width: int, precision: int, kind: Kind)

  datatype Kind = CharKind | ShortKind | IntKind | IntMaxKind | LongKind | LongLongKind | PtrDiffKind | SizeKind

  /** struct integer_base. */
  datatype Base = Base(base: nat, digits: string, x: string, group: nat)

  const BASE_D := Base(10, "0123456789", "", 3)
  const BASE_O := Base(8, "01234567", "", 3)
  const BASE_X := Base(16, "0123456789abcdef", "x", 4)
  const BASE_UPPER_X := Base(16, "0123456789ABCDEF", "X", 4)

  predicate IsBase(b: Base) {
    b == BASE_D || b == BASE_O || b == BASE_X || b == BASE_UPPER_X
  }

  function Dup(ch: char, n: nat): (s: string)
    ensures |s| == n && forall i :: 0 <= i < n ==> s[i] == ch
  {
    seq(n, _ => ch)
  }

  function Reversed(s: string): (r: string)
    ensures |r| == |s| && forall i :: 0 <= i < |s| ==> r[i] == s[|s| - 1 - i]
  {
    seq(|s|, i requires 0 <= i < |s| => s[|s| - 1 - i])
  }

  // ---------- What a conversion writes ----------

  /** The buffer's contents once the digits are in, least significant first; k digits came before. */
  function Digits(value: nat, b: Base, grouped: bool, k: nat): string
    requires IsBase(b)
    decreases value
  {
    if value == 0 then [] else NextDigit(value, b, grouped, k) + Digits(value / b.base, b, grouped, k + 1)
  }

  /** One digit, with the separator before it where a group is complete. */
  function NextDigit(value: nat, b: Base, grouped: bool, k: nat): string
    requires IsBase(b)
  {
    (if grouped && k > 0 && k % b.group == 0 then "," else "") + [b.digits[value % b.base]]
  }

  /** Zeros up to the precision, and the leading zero of octal numbers. */
  function Extended(q: string, b: Base, c: Conversion): string {
    var precision := if c.precision < 0 then 1 else c.precision;
    var n := if precision < BUF_SIZE - 1 then precision else BUF_SIZE - 1;
    var r := if |q| < n then q + Dup('0', n - |q|) else q;
    if c.pound && b.base == 8 && (r == [] || r[|r| - 1] != '0') then r + "0" else r
  }

  function SignOf(isSigned: bool, negative: bool, c: Conversion): string {
    if !isSigned then ""
    else if c.plus then if negative then "-" else "+"
    else if c.space then if negative then "-" else " "
    else if negative then "-" else ""
  }

  function PrefixOf(value: nat, b: Base, c: Conversion): string {
    if c.pound && value != 0 && b.x != "" then "0" + b.x else ""
  }

  /** The number of pad characters, in 32-bit arithmetic. */
  function PadOf(width: int, used: nat): nat {
    var pad := Wrap32(width - used);
    if pad < 0 then 0 else pad
  }

  function Formatted(value: nat, isSigned: bool, negative: bool, b: Base, c: Conversion): string
    requires IsBase(b)
  {
    var sign, prefix := SignOf(isSigned, negative, c), PrefixOf(value, b, c);
    var digits := Extended(Digits(value, b, c.group, 0), b, c);
    Laid(sign, prefix, PadOf(c.width, |digits| + |prefix| + |sign|), digits, c)
  }

  // ---------- The output function of vsnprintf ----------

  /** The characters vsnprintf_helper stores: it counts them in an int and stores the one counted k if
      k, cut to an int, is less than max_length. */
  function Stored(out: string, maxLength: int): string {
    if out == [] then []
    else
      var k := |out| - 1;
      Stored(out[..k], maxLength) + if Wrap32(k) < maxLength then [out[k]] else []
  }

  lemma StoredNext(out: string, ch: char, maxLength: int)
    ensures Stored(out + [ch], maxLength) == Stored(out, maxLength) + if Wrap32(|out|) < maxLength then [ch] else []
  {
    assert (out + [ch])[..|out|] == out;
  }

  /** max_length for a buffer of this size. */
  function MaxLength(bufSize: nat): int {
    if bufSize > 0 then Wrap32(bufSize - 1) else 0
  }

  /** struct vsnprintf_aux; buffer is the memory from the buffer on, as far as it is known, and out is
      all that was written.  Of what is stored further on only the position is kept. */
  class Sink {
    const buffer: array<char>
    var p: nat
    var length: int
    const maxLength: int
    ghost var out: string

    ghost predicate Valid()
      reads this, buffer
    {
      && length == Wrap32(|out|) && p == |Stored(out, maxLength)|
      && forall i :: 0 <= i < p && i < buffer.Length ==> buffer[i] == Stored(out, maxLength)[i]
    }

    constructor (buffer: array<char>, bufSize: nat)
      ensures Valid() && this.buffer == buffer && maxLength == MaxLength(bufSize) && out == []
    {
      this.buffer, p, length, maxLength, out := buffer, 0, 0, MaxLength(bufSize), [];
    }

    /** vsnprintf_helper. */
    method Put(ch: char)
      requires Valid()
      modifies this`p, this`length, this`out, buffer
      ensures Valid() && out == old(out) + [ch] && old(p) <= p
      ensures forall i :: p <= i < buffer.Length ==> buffer[i] == old(buffer[i])
    {
      hide Stored, Wrap32;
      StoredNext(out, ch, maxLength);
      CutNext(|out|);
      if length < maxLength {
        if p < buffer.Length {
          buffer[p] := ch;
        }
        p := p + 1;
      }
      length := Wrap32(length + 1);
      out := out + [ch];
    }

    /** output_dup. */
    method PutDup(ch: char, cnt: nat)
      requires Valid()
      modifies this`p, this`length, this`out, buffer
      ensures Valid() && out == old(out) + Dup(ch, cnt) && old(p) <= p
      ensures forall i :: p <= i < buffer.Length ==> buffer[i] == old(buffer[i])
    {
      hide Valid;
      var k := 0;
      while k < cnt
        invariant k <= cnt && Valid() && out == old(out) + Dup(ch, k) && old(p) <= p
        invariant forall i :: p <= i < buffer.Length ==> buffer[i] == old(buffer[i])
      {
        Put(ch);
        k := k + 1;
      }
    }

    /** Several characters in a row. */
    method PutAll(s: string)
      requires Valid()
      modifies this`p, this`length, this`out, buffer
      ensures Valid() && out == old(out) + s && old(p) <= p
      ensures forall i :: p <= i < buffer.Length ==> buffer[i] == old(buffer[i])
    {
      hide Valid;
      var k := 0;
      while k < |s|
        invariant k <= |s| && Valid() && out == old(out) + s[..k] && old(p) <= p
        invariant forall i :: p <= i < buffer.Length ==> buffer[i] == old(buffer[i])
      {
        Put(s[k]);
        k := k + 1;
      }
      assert s[..k] == s;
    }
  }

  lemma CutNext(k: nat)
    ensures Wrap32(Wrap32(k) + 1) == Wrap32(k + 1)
  {
  }

  // ---------- format_integer ----------

  function Pow8(k: nat): nat { if k == 0 then 1 else 8 * Pow8(k - 1) }

  lemma {:induction false} Pow8Grows(j: nat, k: nat)
    requires j <= k
    ensures 1 <= Pow8(j) <= Pow8(k)
  {
    if k > 0 {
      if j < k { Pow8Grows(j, k - 1); } else { Pow8Grows(j - 1, k - 1); }
    }
  }

  /** 2^64 has 22 digits in base 8. */
  lemma Pow8Big()
    ensures Pow8(22) > B64
  {
    assert Pow8(7) == 0x20_0000;
    assert Pow8(14) == 0x20_0000 * Pow8(7);
    assert Pow8(21) == 0x20_0000 * Pow8(14);
  }

  /** One digit less: after k digits the rest of the value is less by a factor of 8^k at least. */
  lemma DigitTaken(v: nat, base: nat, k: nat, bound: nat)
    requires base >= 8 && v * Pow8(k) <= bound
    ensures (v / base) * Pow8(k + 1) <= bound
  {
    Whole(v, base);
    var w := Quot(v, base);
    hide Quot, Rem;
    Grows(w, 8, base);
    Grows(Pow8(k), w * 8, v);
    Associates(w, 8, Pow8(k));
  }

  lemma FewDigits(v: nat, k: nat, bound: nat)
    requires v > 0 && v * Pow8(k) <= bound < B64
    ensures k <= 21
  {
    Grows(Pow8(k), 1, v);
    Pow8Big();
    if k >= 22 { Pow8Grows(22, k); }
  }

  /** The digits, with group separators, never take more than 44 of the 64 bytes. */
  method FillDigits(buf: array<char>, value: nat, b: Base, grouped: bool) returns (cp: nat)
    requires buf.Length == BUF_SIZE && IsBase(b) && value < B64
    modifies buf
    ensures cp <= 44 && buf[..cp] == Digits(value, b, grouped, 0)
  {
    hide Pow8, Digits, NextDigit;
    var v: nat, k: nat := value, 0;
    cp := 0;
    Pow8Zero();
    assert buf[..0] + Digits(value, b, grouped, 0) == Digits(value, b, grouped, 0);
    while v > 0
      invariant k <= 22 && cp <= 2 * k && v * Pow8(k) <= value
      invariant buf[..cp] + Digits(v, b, grouped, k) == Digits(value, b, grouped, 0)
      decreases v
    {
      FewDigits(v, k, value);
      DigitTaken(v, b.base, k, value);
      DigitsNext(buf[..cp], v, b, grouped, k);
      cp := PutDigit(buf, cp, v, b, grouped, k);
      v := v / b.base;
      k := k + 1;
    }
    DigitsEndHere(buf[..cp], b, grouped, k);
  }

  method PutDigit(buf: array<char>, cp0: nat, v: nat, b: Base, grouped: bool, k: nat) returns (cp: nat)
    requires cp0 + 2 <= buf.Length && IsBase(b)
    modifies buf
    ensures cp0 < cp <= cp0 + 2 && buf[..cp] == old(buf[..cp0]) + NextDigit(v, b, grouped, k)
  {
    cp := cp0;
    if grouped && k > 0 && k % b.group == 0 {
      buf[cp] := ',';
      cp := cp + 1;
    }
    buf[cp] := b.digits[v % b.base];
    cp := cp + 1;
  }

  lemma DigitsNext(q: string, v: nat, b: Base, grouped: bool, k: nat)
    requires v > 0 && IsBase(b)
    ensures q + Digits(v, b, grouped, k) == q + NextDigit(v, b, grouped, k) + Digits(v / b.base, b, grouped, k + 1)
  {
    hide NextDigit;
  }

  lemma DigitsEndHere(q: string, b: Base, grouped: bool, k: nat)
    requires IsBase(b)
    ensures q + Digits(0, b, grouped, k) == q
  {
  }

  lemma Pow8Zero()
    ensures Pow8(0) == 1
  {
  }

  /** The zeros of the precision and of octal stay within the buffer too. */
  method Extend(buf: array<char>, cp0: nat, b: Base, c: Conversion) returns (cp: nat)
    requires buf.Length == BUF_SIZE && cp0 <= 44
    modifies buf
    ensures cp <= BUF_SIZE && buf[..cp] == Extended(old(buf[..cp0]), b, c)
  {
    var precision := if c.precision < 0 then 1 else c.precision;
    ghost var q := buf[..cp0];
    cp := cp0;
    while cp < precision && cp < BUF_SIZE - 1
      invariant cp0 <= cp < BUF_SIZE && (cp > cp0 ==> cp <= precision)
      invariant buf[..cp] == q + Dup('0', cp - cp0)
    {
      buf[cp] := '0';
      cp := cp + 1;
      assert buf[..cp] == q + Dup('0', cp - 1 - cp0) + ['0'];
    }
    if c.pound && b.base == 8 && (cp == 0 || buf[cp - 1] != '0') {
      buf[cp] := '0';
      cp := cp + 1;
    }
  }

  /** The buffer's contents, most significant first. */
  method PutReversed(buf: array<char>, cp0: nat, sink: Sink)
    requires sink.Valid() && cp0 <= buf.Length && buf != sink.buffer
    modifies sink`p, sink`length, sink`out, sink.buffer
    ensures sink.Valid() && sink.out == old(sink.out) + Reversed(buf[..cp0]) && old(sink.p) <= sink.p
    ensures forall i :: sink.p <= i < sink.buffer.Length ==> sink.buffer[i] == old(sink.buffer[i])
  {
    var cp: nat := cp0;
    ghost var q := buf[..cp0];
    while cp > 0
      invariant 0 <= cp <= cp0 && sink.Valid() && sink.out == old(sink.out) + Reversed(q)[..cp0 - cp] && old(sink.p) <= sink.p
      invariant forall i :: sink.p <= i < sink.buffer.Length ==> sink.buffer[i] == old(sink.buffer[i])
    {
      cp := cp - 1;
      sink.Put(buf[cp]);
      assert Reversed(q)[..cp0 - cp] == Reversed(q)[..cp0 - cp - 1] + [buf[cp]];
    }
    assert Reversed(q)[..cp0] == Reversed(q);
  }

  /** format_integer writes the conversion, and never past its buffer. */
  method FormatInteger(value: nat, isSigned: bool, negative: bool, b: Base, c: Conversion, sink: Sink)
    requires value < B64 && IsBase(b) && sink.Valid()
    modifies sink`p, sink`length, sink`out, sink.buffer
    ensures sink.Valid() && sink.out == old(sink.out) + Formatted(value, isSigned, negative, b, c)
    ensures forall i :: sink.p <= i < sink.buffer.Length ==> sink.buffer[i] == old(sink.buffer[i])
  {
    hide Digits, Extended, IsBase, Reversed, SignOf, PrefixOf, PadOf;
    var buf := new char[BUF_SIZE];
    var sign, prefix := SignOf(isSigned, negative, c), PrefixOf(value, b, c);
    var cp := FillDigits(buf, value, b, c.group);
    cp := Extend(buf, cp, b, c);
    var pad := PadOf(c.width, cp + |prefix| + |sign|);
    PutNumber(sign, prefix, pad, buf, cp, c, sink);
  }

  /** Pad characters, sign, prefix and digits in the order of the flags. */
  function Laid(sign: string, prefix: string, pad: nat, digits: string, c: Conversion): string {
    (if !c.minus && !c.zero then Dup(' ', pad) else "") + sign + prefix + (if c.zero then Dup('0', pad) else "")
    + Reversed(digits) + (if c.minus then Dup(' ', pad) else "")
  }

  method PutNumber(sign: string, prefix: string, pad: nat, buf: array<char>, cp: nat, c: Conversion, sink: Sink)
    requires sink.Valid() && cp <= buf.Length && buf != sink.buffer
    modifies sink`p, sink`length, sink`out, sink.buffer
    ensures sink.Valid() && sink.out == old(sink.out) + Laid(sign, prefix, pad, buf[..cp], c)
    ensures forall i :: sink.p <= i < sink.buffer.Length ==> sink.buffer[i] == old(sink.buffer[i])
  {
    hide Reversed, sink.Valid, Dup;
    ghost var o, d := sink.out, Reversed(buf[..cp]);
    if !c.minus && !c.zero {
      sink.PutDup(' ', pad);
    }
    sink.PutAll(sign);
    sink.PutAll(prefix);
    if c.zero {
      sink.PutDup('0', pad);
    }
    PutReversed(buf, cp, sink);
    if c.minus {
      sink.PutDup(' ', pad);
    }
    Gathered(o, Dup(' ', pad), sign, prefix, Dup('0', pad), d);
  }

  lemma Gathered(o: string, blanks: string, sign: string, prefix: string, zeros: string, d: string)
    ensures o + blanks + sign + prefix + d == o + (blanks + sign + prefix + "" + d + "")
    ensures o + sign + prefix + zeros + d == o + ("" + sign + prefix + zeros + d + "")
    ensures o + sign + prefix + d + blanks == o + ("" + sign + prefix + "" + d + blanks)
    ensures o + sign + prefix + zeros + d + blanks == o + ("" + sign + prefix + zeros + d + blanks)
  {
  }
}
