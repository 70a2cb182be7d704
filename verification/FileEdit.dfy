/** Editing a file: what holds between the moment a call copies a header out of its open inode
    and the moment it stores the header back (inode_read_at, inode_write_at). */
module FileEdit {
  import opened Words
  import opened FileStore
  import opened FileSysState
  import BM = Bitmap
  import Bits

  /** The bytes offset to offset + size of file ino are all there already. */
  ghost predicate InPlace(y: Sys, ino: nat, offset: nat, size: nat) {
    && Inv(y) && ino in y.hdrs
    && offset + size <= y.hdrs[ino].length && Mapped(y.view, y.hdrs[ino], offset, offset + size)
  }

  function Max(a: nat, b: nat): nat {
    if a < b then b else a
  }

  /** Byte j of a file after buf has been written at offset. */
  function WrittenByte(v: seq<Sector>, h: InodeDisk, offset: nat, buf: seq<byte>, j: nat): byte
  {
    if offset <= j < offset + |buf| then buf[j - offset] else Byte(v, h, j)
  }

  /** What holds from entry to exit of inode_write_at once the first n bytes are in place: relative
      to the state a on entry, mappings were only added, all other files are as they were. */
  ghost predicate Carried(a: Sys, y: Sys, ino: nat) {
    && Inv(a) && ino in a.hdrs && Inv(y) && ino in y.hdrs
    && |y.view| == |a.view| && |y.words| == |a.words| && y.mounted == a.mounted
    && y.hdrs == a.hdrs[ino := y.hdrs[ino]]
    && y.hdrs[ino].isDir == a.hdrs[ino].isDir && y.hdrs[ino].parent == a.hdrs[ino].parent
    && (NoDoomed(a) ==> NoDoomed(y))
    && (forall s :: s in a.owner ==> s in y.owner && y.owner[s] == a.owner[s])
    && (forall i, m :: i in a.hdrs && Resolve(a.view, a.hdrs[i], m) != UNUSED ==>
          Resolve(y.view, y.hdrs[i], m) == Resolve(a.view, a.hdrs[i], m))
    && (forall i :: i in a.hdrs && i != ino && (i != FREE_MAP || !a.mounted) ==> SameBytes(a, y, i))
    && (Ready(a) && (a.mounted ==> ino != FREE_MAP) ==> Ready(y))
  }

  ghost predicate BytesWritten(a: Sys, y: Sys, ino: nat, buf: seq<byte>, offset: nat)
    requires Sized(St(a)) && Sized(St(y)) && ino in a.hdrs && ino in y.hdrs
  {
    forall j :: Byte(y.view, y.hdrs[ino], j) == WrittenByte(a.view, a.hdrs[ino], offset, buf, j)
  }

  /** Only sectors of file ino may hold other bytes. */
  ghost predicate Confined(a: Sys, y: Sys, ino: nat) {
    && |y.view| == |a.view|
    && forall s :: 0 <= s < |a.view| && !(s in a.owner && a.owner[s].Own? && a.owner[s].ino == ino) ==> y.view[s] == a.view[s]
  }

  /** A write that stays inside allocated blocks touches neither headers nor ownership nor free map,
      and no sector of another file. */
  ghost predicate Stationary(a: Sys, y: Sys, ino: nat)
    requires Sized(St(a)) && Sized(St(y))
  {
    && y.hdrs == a.hdrs && y.owner == a.owner && y.words == a.words
    && (forall i :: i in a.hdrs ==> SameNodes(a, y, i))
    && Confined(a, y, ino)
  }

  /** Relative to the state a on entry: file ino now has this length and shows buf written at
      offset.  With `fixed` every block needed was there on entry. */
  ghost predicate Editing(a: Sys, y: Sys, ino: nat, length: nat, buf: seq<byte>, offset: nat, fixed: bool) {
    && Carried(a, y, ino) && ino in a.open && ino !in a.busy
    && y.busy == a.busy + {ino} && y.open == a.open
    && y.hdrs[ino].length == length
    && BytesWritten(a, y, ino, buf, offset)
    && (fixed ==> Stationary(a, y, ino))
    && (a.mounted && ino == FREE_MAP ==> fixed)
  }

  lemma LengthKeepsWf(a: Sys, y: Sys, ino: nat, length: word)
    requires Wf(St(a)) && ino in a.hdrs && length >= a.hdrs[ino].length
    requires y == a.(busy := y.busy, hdrs := a.hdrs[ino := a.hdrs[ino].(length := length)])
    ensures Wf(St(y))
    ensures forall i :: i in a.hdrs ==> SameBytes(a, y, i) && SameNodes(a, y, i)
  {
    hide Resolve, Byte, BM.BitsOf;
    LengthMovesNothing(a.view, a.hdrs[ino], length);
  }

  /** Raising the recorded length of a file whose header a call has just picked up. */
  lemma LengthKeepsInv(a: Sys, y: Sys, ino: nat, length: word)
    requires Inv(a) && ino in a.open && a.hdrs[ino].length <= length <= MAX_BYTES
    requires a.mounted && ino == FREE_MAP ==> length == a.hdrs[ino].length
    requires y == a.(busy := a.busy + {ino}, hdrs := a.hdrs[ino := a.hdrs[ino].(length := length)])
    ensures Inv(y)
    ensures forall i :: i in a.hdrs ==> SameBytes(a, y, i) && SameNodes(a, y, i)
  {
    hide Resolve, BM.BitsOf, BitsAgree, EncodeInode, OwnedAreUsed, OwnersMatch, ZeroTails, SameBytes;
    LengthKeepsWf(a, y, ino, length);
    if y.mounted {
      assert SameNodes(a, y, FREE_MAP);
    }
  }

  lemma EditStart(a: Sys, y: Sys, ino: nat, length: word, offset: nat, fixed: bool)
    requires Inv(a) && ino in a.open && ino !in a.busy && a.hdrs[ino].length <= length <= MAX_BYTES
    requires fixed ==> length == a.hdrs[ino].length
    requires a.mounted && ino == FREE_MAP ==> fixed
    requires y == a.(busy := a.busy + {ino}, hdrs := a.hdrs[ino := a.hdrs[ino].(length := length)])
    ensures Editing(a, y, ino, length, [], offset, fixed)
  {
    hide Resolve, Byte, BM.BitsOf, BitsAgree, EncodeInode, OwnedAreUsed, OwnersMatch, ZeroTails, CacheOk;
    LengthKeepsInv(a, y, ino, length);
    forall i, m | i in a.hdrs ensures Resolve(y.view, y.hdrs[i], m) == Resolve(a.view, a.hdrs[i], m) {
      assert SameNodes(a, y, i);
    }
    assert SameBytes(a, y, ino);
  }

  lemma EditOpen(a: Sys, y: Sys, ino: nat, length: nat, buf: seq<byte>, offset: nat, fixed: bool)
    requires Editing(a, y, ino, length, buf, offset, fixed)
    ensures y.open == a.open && ino in a.open && y.mounted == a.mounted && Inv(y) && ino in y.hdrs && ino in a.hdrs
  {
  }

  /** A read through the cache of bytes inside one block of a file nothing has been written to. */
  lemma EditRead(a: Sys, y: Sys, z: Sys, ino: nat, length: nat, fixed: bool, at: nat, chunk: seq<byte>)
    requires Editing(a, y, ino, length, [], 0, fixed)
    requires at % SECTOR_SIZE + |chunk| <= SECTOR_SIZE
    requires var s := Resolve(y.view, y.hdrs[ino], Data(at / SECTOR_SIZE));
             && s < |y.view|
             && chunk == y.view[s][at % SECTOR_SIZE..at % SECTOR_SIZE + |chunk|]
             && z == y.(cached := z.cached) && z.cached <= y.cached + {s}
    ensures Editing(a, z, ino, length, [], 0, fixed)
    ensures BytesAt(a.view, a.hdrs[ino], at, chunk)
  {
    hide Byte, Resolve, BM.BitsOf, Wf, HeadersOk, CacheOk, MountOk, Content, Editing;
    EditBytes(a, y, ino, length, fixed);
    assert Inv(y) && ino in y.hdrs by {
      EditOpen(a, y, ino, length, [], 0, fixed);
    }
    InvFacts(y);
    PointerOwned(y, ino, Data(at / SECTOR_SIZE));
    CacheKeeps(y, z, Resolve(y.view, y.hdrs[ino], Data(at / SECTOR_SIZE)));
    GrowsReflexive(y, z, ino);
    EditAllocate(a, y, z, ino, length, [], 0, fixed);
    forall k | 0 <= k < |chunk| ensures chunk[k] == Byte(y.view, y.hdrs[ino], at + k) {
      ByteInBlock(y.view, y.hdrs[ino], at, k);
    }
  }

  lemma ByteInBlock(v: seq<Sector>, h: InodeDisk, at: nat, k: nat)
    requires at % SECTOR_SIZE + k < SECTOR_SIZE && Resolve(v, h, Data(at / SECTOR_SIZE)) < |v|
    ensures Byte(v, h, at + k) == v[Resolve(v, h, Data(at / SECTOR_SIZE))][at % SECTOR_SIZE + k]
  {
    hide Resolve;
    assert (at + k) / SECTOR_SIZE == at / SECTOR_SIZE && (at + k) % SECTOR_SIZE == at % SECTOR_SIZE + k;
  }

  /** An edit that has written nothing shows the bytes there were. */
  lemma EditBytes(a: Sys, y: Sys, ino: nat, length: nat, fixed: bool)
    requires Editing(a, y, ino, length, [], 0, fixed)
    ensures forall j :: Byte(y.view, y.hdrs[ino], j) == Byte(a.view, a.hdrs[ino], j)
  {
    hide Byte;
    forall j ensures Byte(y.view, y.hdrs[ino], j) == Byte(a.view, a.hdrs[ino], j) {
      assert Byte(y.view, y.hdrs[ino], j) == WrittenByte(a.view, a.hdrs[ino], 0, [], j);
    }
  }

  lemma MappedTail(v: seq<Sector>, h: InodeDisk, lo: nat, mid: nat, hi: nat)
    requires lo <= mid <= hi
    ensures Mapped(v, h, lo, hi) ==> Mapped(v, h, mid, hi)
  {
    hide Resolve;
  }

  /** b is what the file holds from byte `at` on. */
  ghost predicate BytesAt(v: seq<Sector>, h: InodeDisk, at: nat, b: seq<byte>) {
    forall k :: 0 <= k < |b| ==> b[k] == Byte(v, h, at + k)
  }

  lemma NoBytesAt(v: seq<Sector>, h: InodeDisk, at: nat)
    ensures BytesAt(v, h, at, [])
  {
  }

  lemma BytesAtAppend(v: seq<Sector>, h: InodeDisk, at: nat, b: seq<byte>, c: seq<byte>)
    requires BytesAt(v, h, at, b) && BytesAt(v, h, at + |b|, c)
    ensures BytesAt(v, h, at, b + c)
  {
    hide Byte;
    forall k | 0 <= k < |b + c| ensures (b + c)[k] == Byte(v, h, at + k) {
      if k >= |b| {
        assert c[k - |b|] == Byte(v, h, at + |b| + (k - |b|));
      }
    }
  }

  /** Bytes collected from offset up to size or the end of the file are the slice. */
  lemma SliceRead(v: seq<Sector>, h: InodeDisk, offset: nat, size: nat, buffer: seq<byte>)
    requires |buffer| <= size && BytesAt(v, h, offset, buffer)
    requires buffer != [] ==> offset + |buffer| <= h.length
    requires |buffer| == size || h.length <= offset + |buffer|
    ensures buffer == ReadSlice(Content(v, h), offset, size)
  {
    hide Byte;
    var r := ReadSlice(Content(v, h), offset, size);
    assert |r| == |buffer|;
    forall k | 0 <= k < |buffer| ensures r[k] == buffer[k] {
      assert r[k] == Content(v, h)[offset + k];
    }
  }

  /** What an edit offers to allocate_block for block p. */
  lemma EditFacts(a: Sys, y: Sys, ino: nat, length: nat, buf: seq<byte>, offset: nat, fixed: bool, p: nat)
    requires Editing(a, y, ino, length, buf, offset, fixed)
    requires if fixed then Resolve(a.view, a.hdrs[ino], Data(p)) != UNUSED else Ready(a)
    ensures Inv(y) && ino in y.hdrs && ino in y.busy && y.open == a.open && y.mounted == a.mounted && ino in a.open
    ensures y.hdrs[ino].length == length && |y.view| < UNUSED
    ensures if fixed then Resolve(y.view, y.hdrs[ino], Data(p)) != UNUSED else Ready(y)
  {
    hide Resolve, Byte, BM.BitsOf, OwnedAreUsed, OwnersMatch, ZeroTails, CacheOk, HeadersOk, MountOk, Content;
  }

  /** allocate_block for one of its blocks. */
  lemma EditAllocate(a: Sys, y: Sys, z: Sys, ino: nat, length: nat, buf: seq<byte>, offset: nat, fixed: bool)
    requires Editing(a, y, ino, length, buf, offset, fixed)
    requires Grows(y, z, ino) && Inv(z) && (Ready(y) ==> Ready(z))
    requires fixed ==> z == y.(cached := z.cached)
    ensures Editing(a, z, ino, length, buf, offset, fixed)
  {
    hide Resolve, Byte, BM.BitsOf, BitsAgree, OwnedAreUsed, OwnersMatch, ZeroTails, HeadersOk, CacheOk, MountOk, Content;
    forall i | i in a.hdrs && i != ino && (i != FREE_MAP || !a.mounted) ensures SameBytes(a, z, i) {
      assert SameBytes(a, y, i) && SameBytes(y, z, i);
    }
    forall j ensures Byte(z.view, z.hdrs[ino], j) == WrittenByte(a.view, a.hdrs[ino], offset, buf, j) {
      assert Byte(y.view, y.hdrs[ino], j) == WrittenByte(a.view, a.hdrs[ino], offset, buf, j);
      if ino != FREE_MAP || !a.mounted {
        assert SameBytes(y, z, ino);
      }
    }
  }

  function PokeSys(y: Sys, i: nat, p: nat, o: nat, buf: seq<byte>, cached: set<nat>): (z: Sys)
    requires Sized(St(y)) && i in y.hdrs && o + |buf| <= SECTOR_SIZE
    requires Resolve(y.view, y.hdrs[i], Data(p)) < |y.view|
    ensures St(z) == Poke(St(y), i, p, o, buf) && |z.view| == |y.view|
  {
    y.(view := Poke(St(y), i, p, o, buf).view, cached := cached)
  }

  /** Writing a chunk of data inside one block. */
  lemma PokeKeepsInv(y: Sys, i: nat, p: nat, o: nat, buf: seq<byte>, cached: set<nat>)
    requires Inv(y) && i in y.hdrs && o + |buf| <= SECTOR_SIZE
    requires Resolve(y.view, y.hdrs[i], Data(p)) < |y.view| && p * SECTOR_SIZE + o + |buf| <= y.hdrs[i].length
    requires cached <= y.cached + {Resolve(y.view, y.hdrs[i], Data(p))}
    ensures var z := PokeSys(y, i, p, o, buf, cached);
            && Inv(z)
            && (forall j :: j in y.hdrs ==> SameNodes(y, z, j))
            && (forall j :: j in y.hdrs && j != i ==> SameBytes(y, z, j))
            && BytesWritten(y, z, i, buf, p * SECTOR_SIZE + o)
            && (Ready(y) && (y.mounted ==> i != FREE_MAP) ==> Ready(z))
  {
    hide Resolve, Byte, ZeroTails, BM.BitsOf, BitsAgree;
    var z := PokeSys(y, i, p, o, buf, cached);
    var q := Resolve(y.view, y.hdrs[i], Data(p));
    assert q in y.owner && y.owner[q] == Own(i, Data(p));
    PokeKeepsWf(St(y), i, p, o, buf);
    forall j, b | j in y.hdrs
      ensures Byte(z.view, z.hdrs[j], b) ==
              if j == i then WrittenByte(y.view, y.hdrs[j], p * SECTOR_SIZE + o, buf, b) else Byte(y.view, y.hdrs[j], b)
    {
      PokeByte(St(y), i, p, o, buf, j, b);
    }
    if Ready(y) && y.mounted && i != FREE_MAP {
      assert Content(z.view, z.hdrs[FREE_MAP]) == Content(y.view, y.hdrs[FREE_MAP]);
    }
  }

  lemma PokeConfined(y: Sys, z: Sys, i: nat, p: nat, o: nat, more: seq<byte>)
    requires Sized(St(y)) && i in y.hdrs && o + |more| <= SECTOR_SIZE
    requires Resolve(y.view, y.hdrs[i], Data(p)) < |y.view| && z == PokeSys(y, i, p, o, more, z.cached)
    requires var q := Resolve(y.view, y.hdrs[i], Data(p)); q in y.owner && y.owner[q] == Own(i, Data(p))
    ensures Confined(y, z, i)
  {
    hide Resolve, Splice, BM.BitsOf;
  }

  /** The next chunk of a write, all inside block p. */
  lemma EditPoke(a: Sys, y: Sys, z: Sys, ino: nat, length: nat, buf: seq<byte>, offset: nat, fixed: bool, p: nat, o: nat, more: seq<byte>)
    requires Editing(a, y, ino, length, buf, offset, fixed)
    requires p * SECTOR_SIZE + o == offset + |buf| && o + |more| <= SECTOR_SIZE && offset + |buf| + |more| <= length
    requires Resolve(y.view, y.hdrs[ino], Data(p)) < |y.view|
    requires z.cached <= y.cached + {Resolve(y.view, y.hdrs[ino], Data(p))}
    requires z == PokeSys(y, ino, p, o, more, z.cached)
    ensures Editing(a, z, ino, length, buf + more, offset, fixed)
    ensures SameNodes(y, z, ino)
  {
    hide Resolve, Byte, BM.BitsOf, BitsAgree, OwnedAreUsed, OwnersMatch, ZeroTails, HeadersOk, CacheOk, MountOk, Content, Poke;
    PokeKeepsInv(y, ino, p, o, more, z.cached);
    PointerOwned(y, ino, Data(p));
    assert Confined(y, z, ino) by {
      PokeConfined(y, z, ino, p, o, more);
    }
    forall i, m | i in a.hdrs ensures Resolve(z.view, z.hdrs[i], m) == Resolve(y.view, y.hdrs[i], m) {
      assert SameNodes(y, z, i);
    }
    forall i | i in a.hdrs && i != ino && (i != FREE_MAP || !a.mounted) ensures SameBytes(a, z, i) {
      assert SameBytes(a, y, i) && SameBytes(y, z, i);
    }
    forall j ensures Byte(z.view, z.hdrs[ino], j) == WrittenByte(a.view, a.hdrs[ino], offset, buf + more, j) {
      assert Byte(y.view, y.hdrs[ino], j) == WrittenByte(a.view, a.hdrs[ino], offset, buf, j);
      assert Byte(z.view, z.hdrs[ino], j) == WrittenByte(y.view, y.hdrs[ino], offset + |buf|, more, j);
    }
  }

  /** Storing an edited header back into its open inode. */
  lemma StoreBackKeepsInv(y: Sys, z: Sys, ino: nat)
    requires Inv(y) && ino in y.open && ino in y.busy
    requires z == y.(open := y.open[ino := y.open[ino].(data := y.hdrs[ino])], busy := y.busy - {ino})
    ensures Inv(z) && (Ready(y) ==> Ready(z))
  {
    hide Resolve, Byte, BM.BitsOf, BitsAgree, OwnedAreUsed, OwnersMatch, ZeroTails, EncodeInode, Content;
    assert St(z) == St(y);
  }

  lemma EditEnd(a: Sys, y: Sys, z: Sys, ino: nat, length: nat, buf: seq<byte>, offset: nat, fixed: bool)
    requires Editing(a, y, ino, length, buf, offset, fixed)
    requires z == y.(open := a.open[ino := a.open[ino].(data := y.hdrs[ino])], busy := a.busy)
    ensures Carried(a, z, ino) && BytesWritten(a, z, ino, buf, offset)
    ensures fixed ==> Stationary(a, z, ino) && z.open == a.open
  {
    hide Resolve, Byte, BM.BitsOf, BitsAgree, OwnedAreUsed, OwnersMatch, ZeroTails, CacheOk, EncodeInode, Content, MountOk;
    assert y.busy - {ino} == a.busy;
    StoreBackKeepsInv(y, z, ino);
    assert St(z) == St(y);
    forall i | i in a.hdrs && i != ino && (i != FREE_MAP || !a.mounted) ensures SameBytes(a, z, i) {
      assert SameBytes(a, y, i);
    }
    if fixed {
      forall i | i in a.hdrs ensures SameNodes(a, z, i) {
        assert SameNodes(a, y, i);
      }
      assert a.open[ino].data == a.hdrs[ino];
    }
  }

  lemma CarriedReflexive(a: Sys, ino: nat)
    requires Inv(a) && ino in a.hdrs
    ensures Carried(a, a, ino) && Stationary(a, a, ino)
  {
    hide Resolve, Byte, BM.BitsOf, OwnedAreUsed, OwnersMatch, ZeroTails, CacheOk, HeadersOk, MountOk, Content;
    assert forall i :: i in a.hdrs ==> SameBytes(a, a, i);
  }

  /** bitmap_write: overwriting the whole free-map file with the bytes of the map. */
  lemma WholeFileWritten(a: Sys, b: Sys, image: seq<byte>)
    requires Carried(a, b, FREE_MAP) && a.mounted && b.open == a.open && b.busy == a.busy && FREE_MAP !in a.busy
    requires image == BytesOf(a.words) && BytesWritten(a, b, FREE_MAP, image, 0) && Stationary(a, b, FREE_MAP)
    ensures InStep(b) && Quiet(a, b) && Confined(a, b, FREE_MAP)
  {
    hide Resolve, Byte, BM.BitsOf, OwnedAreUsed, OwnersMatch, ZeroTails, CacheOk, HeadersOk;
    forall j | 0 <= j < |image| ensures Byte(b.view, b.hdrs[FREE_MAP], j) == image[j] {
      assert Byte(b.view, b.hdrs[FREE_MAP], j) == WrittenByte(a.view, a.hdrs[FREE_MAP], 0, image, j);
    }
    assert Content(b.view, b.hdrs[FREE_MAP]) == image;
    forall s | 0 <= s < |b.view|
      ensures Bits.Bit(WordAt(image, s / BM.ELEM_BITS), s % BM.ELEM_BITS) == BM.BitsOf(b.words)[s]
    {
      BM.ImageRoundTrip(b.words, s);
    }
  }

  // The flat byte array a file is.

  /** An array of bytes after buf has been written at offset: extended if need be, a gap filled with
      zeros, nothing else changed. */
  function Overwrite(c: seq<byte>, offset: nat, buf: seq<byte>): (r: seq<byte>)
    ensures |r| == Max(|c|, offset + |buf|)
    ensures forall j :: 0 <= j < |r| ==>
              r[j] == if offset <= j < offset + |buf| then buf[j - offset] else if j < |c| then c[j] else 0
  {
    seq(Max(|c|, offset + |buf|), j requires 0 <= j =>
      if offset <= j < offset + |buf| then buf[j - offset] else if j < |c| then c[j] else 0)
  }

  /** What a read of size bytes at offset returns. */
  function ReadSlice(c: seq<byte>, offset: nat, size: nat): (r: seq<byte>)
  {
    if |c| <= offset then [] else if |c| < offset + size then c[offset..] else c[offset..offset + size]
  }

  lemma ContentWritten(a: Sys, y: Sys, ino: nat, buf: seq<byte>, offset: nat)
    requires Inv(a) && Inv(y) && ino in a.hdrs && ino in y.hdrs && BytesWritten(a, y, ino, buf, offset)
    requires y.hdrs[ino].length == Max(a.hdrs[ino].length, offset + |buf|)
    ensures Content(y.view, y.hdrs[ino]) == Overwrite(Content(a.view, a.hdrs[ino]), offset, buf)
  {
    hide Byte, BM.BitsOf, OwnedAreUsed, OwnersMatch, HeadersOk, MountOk, CacheOk;
    var c := Content(a.view, a.hdrs[ino]);
    forall j | 0 <= j < y.hdrs[ino].length
      ensures Byte(y.view, y.hdrs[ino], j) == Overwrite(c, offset, buf)[j]
    {
      assert Byte(y.view, y.hdrs[ino], j) == WrittenByte(a.view, a.hdrs[ino], offset, buf, j);
      if j >= a.hdrs[ino].length {
        assert Byte(a.view, a.hdrs[ino], j) == 0;
      }
    }
  }

  lemma ContentKept(a: Sys, y: Sys, i: nat)
    requires Sized(St(a)) && Sized(St(y)) && i in a.hdrs && i in y.hdrs && SameBytes(a, y, i)
    requires y.hdrs[i].length == a.hdrs[i].length
    ensures Content(y.view, y.hdrs[i]) == Content(a.view, a.hdrs[i])
  {
    hide Byte, BM.BitsOf;
    forall j | 0 <= j < a.hdrs[i].length ensures Byte(y.view, y.hdrs[i], j) == Byte(a.view, a.hdrs[i], j) {
    }
  }

  /** The files of the system, the free-map file aside: a byte array per inode. */
  ghost function Files(y: Sys): map<nat, seq<byte>> {
    map i | i in y.hdrs && i != FREE_MAP :: Content(y.view, y.hdrs[i])
  }

  /** What a header says besides: whether the file is a directory, and the sector of its parent. */
  datatype Attr = Attr(isDir: word, parent: word)

  function AttrOf(h: InodeDisk): Attr {
    Attr(h.isDir, h.parent)
  }

  ghost function Attrs(y: Sys): map<nat, Attr> {
    map i | i in y.hdrs && i != FREE_MAP :: AttrOf(y.hdrs[i])
  }

  /** A write to one file is a write to one array and nothing else. */
  lemma FilesWritten(a: Sys, y: Sys, ino: nat, buf: seq<byte>, offset: nat)
    requires Carried(a, y, ino) && ino != FREE_MAP && BytesWritten(a, y, ino, buf, offset)
    requires y.hdrs[ino].length == Max(a.hdrs[ino].length, offset + |buf|)
    ensures Files(y) == Files(a)[ino := Overwrite(Files(a)[ino], offset, buf)]
  {
    hide Byte, BM.BitsOf, Content, OwnedAreUsed, OwnersMatch, ZeroTails, HeadersOk, MountOk, CacheOk, Resolve, SameBytes;
    ContentWritten(a, y, ino, buf, offset);
    forall i | i in a.hdrs && i != FREE_MAP && i != ino
      ensures Content(y.view, y.hdrs[i]) == Content(a.view, a.hdrs[i])
    {
      ContentKept(a, y, i);
    }
  }

  /** A read may allocate blocks, but no file shows it. */
  lemma FilesRead(a: Sys, y: Sys, ino: nat)
    requires Carried(a, y, ino) && ino != FREE_MAP && BytesWritten(a, y, ino, [], 0)
    requires y.hdrs[ino].length == a.hdrs[ino].length
    ensures Files(y) == Files(a)
  {
    hide Byte, BM.BitsOf, OwnedAreUsed, OwnersMatch, ZeroTails, HeadersOk, MountOk, CacheOk, Resolve;
    FilesWritten(a, y, ino, [], 0);
    assert Overwrite(Files(a)[ino], 0, []) == Files(a)[ino];
  }

  lemma LengthMovesNothing(v: seq<Sector>, h: InodeDisk, length: word)
    ensures forall n :: Resolve(v, h.(length := length), n) == Resolve(v, h, n)
    ensures forall j :: Byte(v, h.(length := length), j) == Byte(v, h, j)
  {
    forall n ensures Resolve(v, h.(length := length), n) == Resolve(v, h, n) {
      LengthMovesNode(v, h, length, n);
    }
  }

  lemma LengthMovesNode(v: seq<Sector>, h: InodeDisk, length: word, n: Node)
    ensures Resolve(v, h.(length := length), n) == Resolve(v, h, n)
    decreases Depth(n)
  {
    if !InHeader(n) {
      LengthMovesNode(v, h, length, Parent(n));
    }
  }
}
