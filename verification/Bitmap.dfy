/** The packed bitmap of lib/kernel/bitmap.c: bit i lives in word i / 32 at position i % 32.
    The packed words refine a plain sequence of booleans. */
module Bitmap {
  import opened Words
  import opened Bits

  const ELEM_BITS := 32

  function ElemCnt(bitCnt: nat): (n: nat) {
    (bitCnt + ELEM_BITS - 1) / ELEM_BITS
  }

  /** The fewest words that hold this many bits. */
  lemma ElemCntSuffices(bitCnt: nat)
    ensures ELEM_BITS * ElemCnt(bitCnt) >= bitCnt && (bitCnt > 0 ==> ELEM_BITS * (ElemCnt(bitCnt) - 1) < bitCnt)
    ensures bitCnt == 0 ==> ElemCnt(bitCnt) == 0
  {
  }

  /** What the words mean: bit i of the map. */
  predicate BitAt(ws: seq<word>, i: nat)
    requires i < ELEM_BITS * |ws|
  {
    Bit(ws[i / ELEM_BITS], i % ELEM_BITS)
  }

  function BitsOf(ws: seq<word>): (bs: seq<bool>)
    ensures |bs| == ELEM_BITS * |ws|
  {
    seq(ELEM_BITS * |ws|, i requires 0 <= i < ELEM_BITS * |ws| => BitAt(ws, i))
  }

  /** "The CNT bits starting at START are all set to VALUE." */
  ghost predicate Group(bs: seq<bool>, start: nat, cnt: nat, value: bool) {
    start + cnt <= |bs| && forall i :: start <= i < start + cnt ==> bs[i] == value
  }

  /** bs with the CNT bits from START on set to VALUE. */
  function SetBits(bs: seq<bool>, start: nat, cnt: nat, value: bool): (r: seq<bool>)
    requires start + cnt <= |bs|
    ensures |r| == |bs|
    ensures forall i :: 0 <= i < |bs| ==> r[i] == if start <= i < start + cnt then value else bs[i]
  {
    bs[..start] + seq(cnt, _ => value) + bs[start + cnt..]
  }

  lemma MaskIsWord(k: nat)
    requires k < ELEM_BITS
    ensures Pow2(k) < WORD_LIMIT && Pow2(ELEM_BITS) == WORD_LIMIT
  {
    Pow2Monotone(k, ELEM_BITS - 1);
    PowersByFour(4, 16);
    PowersByFour(8, 0x100);
    PowersByFour(12, 0x1000);
    PowersByFour(16, 0x1_0000);
    PowersByFour(20, 0x10_0000);
    PowersByFour(24, 0x100_0000);
    PowersByFour(28, 0x1000_0000);
  }

  lemma PowersByFour(k: nat, p: nat)
    requires Pow2(k) == p
    ensures Pow2(k + 1) == 2 * p && Pow2(k + 2) == 4 * p && Pow2(k + 3) == 8 * p && Pow2(k + 4) == 16 * p
  {
  }

  /** last_mask: ones in the positions the last word really uses. */
  function LastMask(bitCnt: nat): (m: word)
  {
    if bitCnt % ELEM_BITS == 0 then WORD_LIMIT - 1
    else MaskIsWord(bitCnt % ELEM_BITS); Pow2(bitCnt % ELEM_BITS) - 1
  }

  lemma BitLowMask(n: nat, k: nat)
    ensures Bit(Pow2(n) - 1, k) <==> k < n
  {
    if n == 0 {
      BitOfZero(k);
    } else if k > 0 {
      assert (Pow2(n) - 1) / 2 == Pow2(n - 1) - 1;
      BitLowMask(n - 1, k - 1);
    }
  }

  lemma BitLastMask(bitCnt: nat, k: nat)
    requires k < ELEM_BITS
    ensures Bit(LastMask(bitCnt), k) <==> bitCnt % ELEM_BITS == 0 || k < bitCnt % ELEM_BITS
  {
    MaskIsWord(k);
    BitLowMask(ELEM_BITS, k);
    BitLowMask(bitCnt % ELEM_BITS, k);
  }

  class Bitmap {
    const bitCnt: nat
    const words: array<word>

    ghost predicate Valid() {
      words.Length == ElemCnt(bitCnt)
    }

    /** The bits of the map together with the padding bits of the last word. */
    ghost function Contents(): (bs: seq<bool>)
      reads words
    {
      BitsOf(words[..])
    }

    /** bitmap_create: the padding bits keep whatever malloc returned. */
    constructor (cnt: nat)
      ensures Valid() && bitCnt == cnt && fresh(words)
      ensures Group(Contents(), 0, cnt, false)
    {
      bitCnt := cnt;
      words := new word[ElemCnt(cnt)];
      new;
      SetMultiple(0, cnt, false);
    }

    /** bitmap_mark. */
    method Mark(i: nat)
      requires Valid() && i < bitCnt
      modifies words
      ensures Contents() == old(Contents())[i := true]
    {
      hide Pow2, Bit, And, Or, Xor;
      var idx, k := i / ELEM_BITS, i % ELEM_BITS;
      MaskIsWord(k);
      OrBelow(words[idx], Pow2(k), ELEM_BITS);
      words[idx] := Or(words[idx], Pow2(k));
      forall j | 0 <= j < |Contents()| ensures Contents()[j] == old(Contents())[i := true][j] {
        BitOr(old(words[idx]), Pow2(k), j % ELEM_BITS);
        BitPow2(k, j % ELEM_BITS);
      }
    }

    /** bitmap_reset. */
    method Reset(i: nat)
      requires Valid() && i < bitCnt
      modifies words
      ensures Contents() == old(Contents())[i := false]
    {
      hide Pow2, Bit, And, Or, Xor;
      var idx, k := i / ELEM_BITS, i % ELEM_BITS;
      MaskIsWord(k);
      var mask := WORD_LIMIT - 1 - Pow2(k);
      AndBelow(words[idx], mask);
      words[idx] := And(words[idx], mask);
      forall j | 0 <= j < |Contents()| ensures Contents()[j] == old(Contents())[i := false][j] {
        BitAnd(old(words[idx]), mask, j % ELEM_BITS);
        BitComplement(Pow2(k), ELEM_BITS, j % ELEM_BITS);
        BitPow2(k, j % ELEM_BITS);
      }
    }

    /** bitmap_flip. */
    method Flip(i: nat)
      requires Valid() && i < bitCnt
      modifies words
      ensures Contents() == old(Contents())[i := !old(Contents())[i]]
    {
      hide Pow2, Bit, And, Or, Xor;
      var idx, k := i / ELEM_BITS, i % ELEM_BITS;
      MaskIsWord(k);
      XorBelow(words[idx], Pow2(k), ELEM_BITS);
      words[idx] := Xor(words[idx], Pow2(k));
      forall j | 0 <= j < |Contents()| ensures Contents()[j] == old(Contents())[i := !old(Contents())[i]][j] {
        BitXor(old(words[idx]), Pow2(k), j % ELEM_BITS);
        BitPow2(k, j % ELEM_BITS);
      }
    }

    /** bitmap_test: (bits[elem_idx] & bit_mask) != 0. */
    method Test(i: nat) returns (value: bool)
      requires Valid() && i < bitCnt
      ensures value == Contents()[i]
    {
      var w, k := words[i / ELEM_BITS], i % ELEM_BITS;
      var masked := And(w, Pow2(k));
      value := masked != 0;
      BitAnd(w, Pow2(k), k);
      BitPow2(k, k);
      if value {
        AndPow2(w, k);
      } else {
        BitOfZero(k);
      }
    }

    /** bitmap_set_multiple. */
    method SetMultiple(start: nat, cnt: nat, value: bool)
      requires Valid() && start + cnt <= bitCnt
      modifies words
      ensures Contents() == SetBits(old(Contents()), start, cnt, value)
    {
      var i := 0;
      while i < cnt
        invariant i <= cnt
        invariant Contents() == SetBits(old(Contents()), start, i, value)
      {
        if value {
          Mark(start + i);
        } else {
          Reset(start + i);
        }
        i := i + 1;
      }
    }

    /** bitmap_contains. */
    method Contains(start: nat, cnt: nat, value: bool) returns (found: bool)
      requires Valid() && start + cnt <= bitCnt
      ensures found <==> !Group(Contents(), start, cnt, !value)
    {
      var i := 0;
      while i < cnt
        invariant i <= cnt
        invariant Group(Contents(), start, i, !value)
      {
        var b := Test(start + i);
        if b == value {
          return true;
        }
        i := i + 1;
      }
      return false;
    }

    /** bitmap_scan: the least group at or after START, or bitCnt + 1 standing for BITMAP_ERROR. */
    method Scan(start: nat, cnt: nat, value: bool) returns (found: bool, idx: nat)
      requires Valid() && start <= bitCnt
      ensures found ==> start <= idx && idx + cnt <= bitCnt && Group(Contents(), idx, cnt, value)
      ensures found ==> forall j :: start <= j < idx ==> !Group(Contents(), j, cnt, value)
      ensures !found ==> forall j :: start <= j && j + cnt <= bitCnt ==> !Group(Contents(), j, cnt, value)
    {
      idx := start;
      while idx + cnt <= bitCnt
        invariant start <= idx
        invariant forall j :: start <= j < idx ==> !Group(Contents(), j, cnt, value)
      {
        var other := Contains(idx, cnt, !value);
        if !other {
          return true, idx;
        }
        idx := idx + 1;
      }
      return false, idx;
    }

    /** bitmap_scan_and_flip. */
    method ScanAndFlip(start: nat, cnt: nat, value: bool) returns (found: bool, idx: nat)
      requires Valid() && start <= bitCnt
      modifies words
      ensures found ==> start <= idx && idx + cnt <= bitCnt && Group(old(Contents()), idx, cnt, value)
      ensures found ==> forall j :: start <= j < idx ==> !Group(old(Contents()), j, cnt, value)
      ensures found ==> Contents() == SetBits(old(Contents()), idx, cnt, !value)
      ensures !found ==> words[..] == old(words[..])
      ensures !found ==> forall j :: start <= j && j + cnt <= bitCnt ==> !Group(Contents(), j, cnt, value)
    {
      found, idx := Scan(start, cnt, value);
      if found {
        SetMultiple(idx, cnt, !value);
      }
    }

    /** The read half of bitmap_read: fills the words from a file image and clears the padding. */
    method LoadImage(img: seq<byte>)
      requires Valid() && bitCnt > 0 && |img| == 4 * words.Length
      modifies words
      ensures forall i :: 0 <= i < bitCnt ==> Contents()[i] == Bit(WordAt(img, i / ELEM_BITS), i % ELEM_BITS)
      ensures forall i :: bitCnt <= i < |Contents()| ==> !Contents()[i]
    {
      var n := words.Length;
      for k := 0 to n
        invariant forall j :: 0 <= j < k ==> words[j] == WordAt(img, j)
      {
        words[k] := WordAt(img, k);
      }
      AndBelow(words[n - 1], LastMask(bitCnt));
      words[n - 1] := And(words[n - 1], LastMask(bitCnt));
      forall i | 0 <= i < |Contents()|
        ensures Contents()[i] == (i < bitCnt && Bit(WordAt(img, i / ELEM_BITS), i % ELEM_BITS))
      {
        LoadedBit(img, words[..], bitCnt, i);
      }
    }
  }

  lemma LoadedBit(img: seq<byte>, ws: seq<word>, bitCnt: nat, i: nat)
    requires bitCnt > 0 && |ws| == ElemCnt(bitCnt) && |img| == 4 * |ws| && i < ELEM_BITS * |ws|
    requires forall j :: 0 <= j < |ws| - 1 ==> ws[j] == WordAt(img, j)
    requires ws[|ws| - 1] == And(WordAt(img, |ws| - 1), LastMask(bitCnt))
    ensures BitAt(ws, i) == (i < bitCnt && Bit(WordAt(img, i / ELEM_BITS), i % ELEM_BITS))
  {
    hide WordAt, Bit, And;
    var j, k := i / ELEM_BITS, i % ELEM_BITS;
    if j == |ws| - 1 {
      BitAnd(WordAt(img, j), LastMask(bitCnt), k);
      BitLastMask(bitCnt, k);
    }
  }

  /** w & 2^k is 0 or 2^k. */
  lemma {:induction false} AndPow2(w: nat, k: nat)
    ensures And(w, Pow2(k)) == if Bit(w, k) then Pow2(k) else 0
  {
    if w == 0 {
      BitOfZero(k);
    } else if k == 0 {
      AndZero(w / 2);
    } else {
      AndPow2(w / 2, k - 1);
    }
  }

  lemma AndZero(w: nat)
    ensures And(w, 0) == 0
  {
    AndBelow(w, 0);
  }

  /** bitmap_read undoes bitmap_write: the bytes of the words, read back, give the same bits. */
  lemma ImageRoundTrip(ws: seq<word>, i: nat)
    requires i < ELEM_BITS * |ws|
    ensures Bit(WordAt(BytesOf(ws), i / ELEM_BITS), i % ELEM_BITS) == BitsOf(ws)[i]
  {
    WordAtBytesOf(ws, i / ELEM_BITS);
  }
}
