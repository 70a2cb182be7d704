/** Bytes, little-endian 32-bit words and disk sectors: the byte-level vocabulary shared by
    the buffer cache, the free map and the inode layer. */
module Words {

  const SECTOR_SIZE := 512
  const WORDS_PER_SECTOR := 128
  const WORD_LIMIT := 0x1_0000_0000

  type byte = x: int | 0 <= x < 256
  type word = x: int | 0 <= x < WORD_LIMIT
  type Sector = s: seq<byte> | |s| == SECTOR_SIZE witness seq(SECTOR_SIZE, _ => 0)

  /** Overwrites the bytes of s from off on with buf: memcpy into the middle of a buffer. */
  function Splice(s: seq<byte>, off: nat, buf: seq<byte>): (r: seq<byte>)
    requires off + |buf| <= |s|
    ensures |r| == |s|
    ensures forall i :: 0 <= i < |s| ==> r[i] == if off <= i < off + |buf| then buf[i - off] else s[i]
  {
    s[..off] + buf + s[off + |buf|..]
  }

  /** Overwriting everything. */
  lemma SpliceAll(s: seq<byte>, buf: seq<byte>)
    requires |buf| == |s|
    ensures Splice(s, 0, buf) == buf
  {
  }

  /** The k-th little-endian word of a byte buffer. */
  function WordAt(s: seq<byte>, k: nat): (w: word)
    requires 4 * k + 4 <= |s|
  {
    s[4 * k] as int + 0x100 * (s[4 * k + 1] as int) + 0x1_0000 * (s[4 * k + 2] as int) + 0x100_0000 * (s[4 * k + 3] as int)
  }

  /** The four bytes that store a word. */
  function WordBytes(w: word): (b: seq<byte>)
    ensures |b| == 4
    ensures WordAt(b, 0) == w
  {
    ByteDigits(w);
    [w % 0x100, w / 0x100 % 0x100, w / 0x1_0000 % 0x100, w / 0x100_0000]
  }

  lemma ByteDigits(w: nat)
    requires w < WORD_LIMIT
    ensures w / 0x100_0000 < 0x100
    ensures w == w % 0x100 + 0x100 * (w / 0x100 % 0x100) + 0x1_0000 * (w / 0x1_0000 % 0x100) + 0x100_0000 * (w / 0x100_0000)
  {
    var x := w / 0x100;
    var y := x / 0x100;
    assert w / 0x1_0000 == y && w / 0x100_0000 == y / 0x100;
  }

  /** Storing a word in one slot of a buffer changes that slot and no other. */
  lemma WordAtSplice(s: seq<byte>, k: nat, w: word, j: nat)
    requires 4 * k + 4 <= |s| && 4 * j + 4 <= |s|
    ensures WordAt(Splice(s, 4 * k, WordBytes(w)), j) == if j == k then w else WordAt(s, j)
  {
    var b := WordBytes(w);
    var r := Splice(s, 4 * k, b);
    if j == k {
      assert r[4 * k] == b[0] && r[4 * k + 1] == b[1] && r[4 * k + 2] == b[2] && r[4 * k + 3] == b[3];
    }
  }

  /** The bytes of a run of words, in memory order. */
  function BytesOf(ws: seq<word>): (b: seq<byte>)
    ensures |b| == 4 * |ws|
  {
    seq(4 * |ws|, i requires 0 <= i < 4 * |ws| => WordBytes(ws[i / 4])[i % 4])
  }

  /** The bytes determine the words. */
  lemma WordAtBytesOf(ws: seq<word>, k: nat)
    requires k < |ws|
    ensures WordAt(BytesOf(ws), k) == ws[k]
  {
    hide WordBytes;
    var img, b := BytesOf(ws), WordBytes(ws[k]);
    assert img[4 * k] == b[0];
    assert img[4 * k + 1] == b[1];
    assert img[4 * k + 2] == b[2];
    assert img[4 * k + 3] == b[3];
  }

  /** The words of a sector. */
  function WordsOf(s: Sector): (ws: seq<word>)
    ensures |ws| == WORDS_PER_SECTOR
  {
    seq(WORDS_PER_SECTOR, k requires 0 <= k < WORDS_PER_SECTOR => WordAt(s, k))
  }

  lemma WordsOfBytesOf(ws: seq<word>)
    requires |ws| == WORDS_PER_SECTOR
    ensures WordsOf(BytesOf(ws)) == ws
  {
    forall k | 0 <= k < WORDS_PER_SECTOR ensures WordAt(BytesOf(ws), k) == ws[k] {
      WordAtBytesOf(ws, k);
    }
  }

  /** A sector of zero bytes. */
  function Zeros(): (s: Sector)
    ensures forall i :: 0 <= i < SECTOR_SIZE ==> s[i] == 0
  {
    seq(SECTOR_SIZE, _ => 0)
  }

  /** A sector all of whose words are 0xFFFFFFFF. */
  function AllOnes(): (s: Sector)
    ensures forall k :: 0 <= k < WORDS_PER_SECTOR ==> WordAt(s, k) == WORD_LIMIT - 1
  {
    seq(SECTOR_SIZE, _ => 0xff)
  }
}
