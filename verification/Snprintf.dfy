/** vsnprintf (lib/stdio.c) of one integer conversion: what is stored, what is returned, and exactly
    when both are what its comment promises. */
module Snprintf {
  import opened Arithmetic
  import opened Printf
  import opened PrintfAtoi
  import opened ParseConversion

  /** What a buffer of this size should hold of s, its terminator aside. */
  function Promised(s: string, bufSize: nat): string {
    var room := if bufSize > 0 then bufSize - 1 else 0;
    if |s| < room then s else s[..room]
  }

  /** How many of n characters are stored. */
  function Count(n: nat, maxLength: int): nat {
    if n == 0 then 0 else Count(n - 1, maxLength) + if Wrap32(n - 1) < maxLength then 1 else 0
  }

  lemma {:induction false} StoredCount(s: string, maxLength: int)
    ensures |Stored(s, maxLength)| == Count(|s|, maxLength)
  {
    if s != [] {
      StoredCount(s[..|s| - 1], maxLength);
    }
  }

  /** A counter that does not wrap stores as many as fit; when it does, it stores again. */
  lemma {:induction false} CountUp(n: nat, m: int)
    requires 0 <= m < HALF
    ensures n <= HALF ==> Count(n, m) == if n < m then n else m
    ensures n > HALF ==> Count(n, m) > m
  {
    if n > 0 {
      CountUp(n - 1, m);
    }
  }

  /** With a limit that was cut to a negative number the first 2^31 characters are lost, and so is the rest
      of each 2^32. */
  lemma {:induction false} CountDown(n: nat, m: int)
    requires -HALF <= m < 0 && n <= 2 * B
    ensures var w := m + HALF;
            Count(n, m) == if n <= HALF then 0
                           else if n <= B then (if n - HALF < w then n - HALF else w)
                           else if n <= B + HALF then w
                           else w + if n - B - HALF < w then n - B - HALF else w
  {
    if n > 0 {
      CountDown(n - 1, m);
    }
  }

  lemma {:induction false} StoredUp(s: string, m: int)
    requires 0 <= m < HALF && |s| <= HALF
    ensures Stored(s, m) == if |s| < m then s else s[..m]
  {
    hide Stored, Wrap32;
    if s == [] {
      StoredNone(m);
    } else {
      var k := |s| - 1;
      StoredUp(s[..k], m);
      ReturnIsRight(k);
      StoredNext(s[..k], s[k], m);
      assert s == s[..k] + [s[k]];
      if k >= m {
        assert s[..k][..m] == s[..m];
      }
    }
  }

  lemma StoredNone(m: int)
    ensures Stored([], m) == []
  {
  }

  lemma MaxLengthIs(bufSize: nat)
    requires bufSize < B
    ensures var room := if bufSize > 0 then bufSize - 1 else 0;
            MaxLength(bufSize) == if bufSize <= HALF then room else room - B
  {
  }

  /** The buffer gets what it is promised exactly if neither the count nor the size goes over 2^31, or
      there is nothing to store. */
  lemma StoreIsRight(s: string, bufSize: nat)
    requires bufSize < B && |s| <= 2 * B
    ensures Stored(s, MaxLength(bufSize)) == Promised(s, bufSize) <==> s == [] || (|s| <= HALF && bufSize <= HALF)
  {
    hide Stored, Count, Wrap32, MaxLength;
    var m := MaxLength(bufSize);
    MaxLengthIs(bufSize);
    StoredCount(s, m);
    if bufSize > HALF {
      CountDown(|s|, m);
    } else if |s| > HALF {
      CountUp(|s|, m);
    } else {
      StoredUp(s, m);
    }
  }

  /** The length returned is right exactly if it is below 2^31. */
  lemma ReturnIsRight(n: nat)
    ensures Wrap32(n) == n <==> n < HALF
  {
  }

  /** No conversion puts out more than this. */
  lemma FormattedBound(value: nat, isSigned: bool, negative: bool, b: Base, c: Conversion)
    requires IsBase(b) && value < B64
    ensures |Formatted(value, isSigned, negative, b, c)| <= 2 * B
  {
    hide Formatted, Used, IsBase;
    UsedFits(value, isSigned, negative, b, c);
    FormattedLength(value, isSigned, negative, b, c);
  }

  /** vsnprintf of one signed conversion.  stored is how far aux.p went; memory from the terminator on is
      as it was. */
  method SnprintfInt(buffer: array<char>, bufSize: nat, x: int, c: Conversion) returns (length: int, stored: nat)
    requires bufSize < B && -HALF <= x < HALF
    modifies buffer
    ensures var s := Formatted(Abs(x), true, x < 0, BASE_D, c);
            var t := Stored(s, MaxLength(bufSize));
            && length == Wrap32(|s|) && stored == |t|
            && (forall i :: 0 <= i < |t| && i < buffer.Length ==> buffer[i] == t[i])
            && (bufSize > 0 && |t| < buffer.Length ==> buffer[|t|] == '\0')
            && (forall i :: |t| + (if bufSize > 0 then 1 else 0) <= i < buffer.Length ==> buffer[i] == old(buffer[i]))
            && (length == |s| <==> |s| < HALF)
            && (t == Promised(s, bufSize) <==> s == [] || (|s| <= HALF && bufSize <= HALF))
  {
    hide Formatted, Stored, Promised, Wrap32, IsBase;
    DecimalIsBase();
    ghost var s := Formatted(Abs(x), true, x < 0, BASE_D, c);
    FormattedBound(Abs(x), true, x < 0, BASE_D, c);
    StoreIsRight(s, bufSize);
    ReturnIsRight(|s|);
    var sink := new Sink(buffer, bufSize);
    FormatInteger(Abs(x), true, x < 0, BASE_D, c, sink);
    assert sink.out == s;
    if bufSize > 0 && sink.p < buffer.Length {
      buffer[sink.p] := '\0';
    }
    length, stored := sink.length, sink.p;
  }

  lemma DecimalIsBase()
    ensures IsBase(BASE_D)
  {
  }

  /** An input for which neither is right, whatever the size of the buffer: the width that does not fit an
      int. */
  lemma WideWidthMiscounts(args: nat -> int, bufSize: nat)
    requires bufSize < B
    ensures var c := Parse(Written("0", Given(3_000_000_000), false, Star, IntKind, "d"), Place(0, 0), args).0;
            var s := Formatted(42, true, false, BASE_D, c);
            && |s| == 2_589_934_590 && Wrap32(|s|) == -1_705_032_706
            && Stored(s, MaxLength(bufSize)) != Promised(s, bufSize)
  {
    hide Formatted, Stored, Promised, Parse, Written;
    WideWidthOverfills(args);
    var c := Parse(Written("0", Given(3_000_000_000), false, Star, IntKind, "d"), Place(0, 0), args).0;
    StoreIsRight(Formatted(42, true, false, BASE_D, c), bufSize);
  }
}
