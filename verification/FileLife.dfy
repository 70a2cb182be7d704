/** The life of a file: inode_create, inode_open, inode_close, inode_remove, and what they do to the
    table of files. */
module FileLife {
  import opened Words
  import opened FileStore
  import opened FileSysState
  import opened FileEdit
  import opened FileFree
  import BM = Bitmap
  import Bits

  lemma FilesFreed(a: Sys, y: Sys, freed: set<nat>)
    requires Freed(a, y, freed)
    ensures Files(y) == Files(a)
  {
    hide Byte, BM.BitsOf, Content, Resolve, SameBytes;
    forall i | i in a.hdrs && i != FREE_MAP ensures Content(y.view, y.hdrs[i]) == Content(a.view, a.hdrs[i]) {
      ContentKept(a, y, i);
    }
  }

  /** The sectors of file ino are about to be freed. */
  function Doom(owner: map<nat, Role>, ino: nat): map<nat, Role> {
    map s | s in owner && s != ino ::
      if owner[s].Own? && owner[s].ino == ino then Doomed(ino, owner[s].node) else owner[s]
  }

  lemma DropHeaderWf(st: Store, ino: nat)
    requires Wf(st) && ino in st.hdrs
    ensures Wf(st.(hdrs := st.hdrs - {ino}, owner := Doom(st.owner, ino)))
  {
    hide Resolve, Byte;
  }

  lemma DropHeaderDies(a: Sys, b: Sys, ino: nat)
    requires Wf(St(a)) && NoLimbo(a) && NoDoomed(a) && ino in a.hdrs
    requires b == a.(open := b.open, hdrs := a.hdrs - {ino}, owner := Doom(a.owner, ino), busy := b.busy)
    ensures Dying(b, ino, a.hdrs[ino])
    ensures ino < |b.view| && ino < |BM.BitsOf(b.words)| && BM.BitsOf(b.words)[ino]
  {
    hide Resolve, ZeroTails, BM.BitsOf;
  }

  /** Taking a removed file out of the table: its header sector loses its owner, the sectors it
      leads to are about to be freed. */
  lemma DropHeader(a: Sys, b: Sys, ino: nat)
    requires Ready(a) && NoDoomed(a) && ino in a.hdrs && (a.mounted ==> ino != FREE_MAP)
    requires b == a.(open := a.open - {ino}, hdrs := a.hdrs - {ino}, owner := Doom(a.owner, ino), busy := a.busy - {ino})
    ensures Ready(b) && Dying(b, ino, a.hdrs[ino])
    ensures ino < |b.view| && ino < |BM.BitsOf(b.words)| && BM.BitsOf(b.words)[ino] && ino !in b.owner
  {
    hide Resolve, Byte, BM.BitsOf, Content, BitsAgree, EncodeInode, ZeroTails, OwnersMatch, Dying;
    DropHeaderWf(St(a), ino);
    assert St(b) == St(a).(hdrs := a.hdrs - {ino}, owner := Doom(a.owner, ino));
    DropHeaderDies(a, b, ino);
    assert CacheOk(b);
    assert Inv(b);
  }

  lemma FilesDropped(a: Sys, b: Sys, ino: nat)
    requires b.view == a.view && b.hdrs == a.hdrs - {ino}
    ensures Files(b) == Files(a) - {ino}
  {
    hide Content;
  }

  /** Doomed sectors that were not freed stay marked used, with nothing leading to them. */
  function Leak(owner: map<nat, Role>): map<nat, Role> {
    map s | s in owner :: if owner[s].Doomed? then Leaked else owner[s]
  }

  lemma LeakWf(st: Store)
    requires Wf(st)
    ensures Wf(st.(owner := Leak(st.owner)))
  {
    hide Resolve, Byte;
  }

  lemma LeakRest(y: Sys, z: Sys)
    requires Ready(y) && z == y.(owner := Leak(y.owner))
    ensures Ready(z) && NoDoomed(z) && Files(z) == Files(y)
  {
    hide Resolve, Byte, BM.BitsOf, Content, BitsAgree, EncodeInode, ZeroTails, OwnersMatch, OwnedAreUsed;
    LeakWf(St(y));
    assert St(z) == St(y).(owner := Leak(y.owner));
    assert Inv(z);
  }

  /** Writing a header to its sector changes neither a pointer nor a byte of any file. */
  lemma HeaderWriteNodes(a: Sys, b: Sys, ino: nat, x: Sector)
    requires Inv(a) && ino in a.hdrs && b.hdrs == a.hdrs && b.words == a.words && ino < |a.view| && b.view == a.view[ino := x]
    ensures forall i :: i in a.hdrs ==> SameNodes(a, b, i) && SameBytes(a, b, i)
  {
    hide Resolve, BM.BitsOf, HeadersOk, MountOk, CacheOk, ZeroTails;
    forall i | i in a.hdrs ensures SameNodes(a, b, i) && SameBytes(a, b, i) {
      forall n: Node ensures Resolve(b.view, b.hdrs[i], n) == Resolve(a.view, a.hdrs[i], n) {
        SetSectorResolve(St(a), ino, x, i, n);
      }
      forall j: nat ensures Byte(b.view, b.hdrs[i], j) == Byte(a.view, a.hdrs[i], j) {
        var q := Resolve(a.view, a.hdrs[i], Data(j / SECTOR_SIZE));
        assert q != UNUSED ==> q in a.owner && a.owner[q].Own?;
      }
    }
  }

  lemma HeaderWriteWf(a: Sys, b: Sys, ino: nat)
    requires Inv(a) && b.hdrs == a.hdrs && b.words == a.words && b.owner == a.owner && |b.view| == |a.view|
    requires forall i :: i in a.hdrs ==> SameNodes(a, b, i) && SameBytes(a, b, i)
    ensures Wf(St(b))
  {
    hide Resolve, Byte, BM.BitsOf, HeadersOk, MountOk, CacheOk;
    forall i, n | i in a.hdrs ensures Resolve(b.view, b.hdrs[i], n) == Resolve(a.view, a.hdrs[i], n) {
      assert SameNodes(a, b, i);
    }
    assert OwnersMatch(St(b));
    forall i, j | i in b.hdrs && b.hdrs[i].length <= j ensures Byte(b.view, b.hdrs[i], j) == 0 {
      assert SameBytes(a, b, i);
    }
  }

  /** The last close of a file that stays: the header goes to its sector. */
  lemma CloseWritesBack(a: Sys, b: Sys, ino: nat)
    requires Ready(a) && ino in a.hdrs && ino < |a.view| && (a.mounted ==> ino != FREE_MAP)
    requires b == a.(open := a.open - {ino}, busy := a.busy - {ino}, view := a.view[ino := EncodeInode(a.hdrs[ino])])
    ensures Ready(b) && Files(b) == Files(a)
  {
    hide Resolve, Byte, BM.BitsOf, BitsAgree, EncodeInode, OwnersMatch, ZeroTails;
    HeaderWriteNodes(a, b, ino, EncodeInode(a.hdrs[ino]));
    HeaderWriteWf(a, b, ino);
    if b.mounted {
      assert SameNodes(a, b, FREE_MAP);
    }
    assert Inv(b);
    forall i | i in a.hdrs ensures Content(b.view, b.hdrs[i]) == Content(a.view, a.hdrs[i]) {
      ContentKept(a, b, i);
    }
  }

  /** Opening a file reads back the header its last close wrote. */
  lemma OpenReadsBack(a: Sys, b: Sys, ino: nat, o: OpenInode)
    requires Ready(a) && ino in a.hdrs && ino !in a.busy
    requires b == a.(open := a.open[ino := o]) && o.openCnt > 0
    requires if ino in a.open then o.data == a.open[ino].data else o.data == DecodeInode(a.view[ino])
    requires a.mounted && ino == FREE_MAP ==> o.openCnt == 1 && !o.removed && o.denyWriteCnt == 0
    ensures Ready(b) && o.data == a.hdrs[ino] && Files(b) == Files(a)
  {
    hide Resolve, Byte, BM.BitsOf, Content, BitsAgree, EncodeInode, DecodeInode, OwnersMatch, ZeroTails;
    InodeRoundTrip(a.hdrs[ino]);
    assert Inv(b);
  }

  // inode_create.

  function EmptyInode(length: word, isDir: word, parent: word): InodeDisk {
    InodeDisk(seq(DIRECT_MAX, _ => UNUSED), UNUSED, UNUSED, isDir, parent, length)
  }

  lemma {:induction false} EmptyResolves(v: seq<Sector>, length: word, isDir: word, parent: word, n: Node)
    requires |v| < UNUSED
    ensures Resolve(v, EmptyInode(length, isDir, parent), n) == UNUSED
    decreases Depth(n)
  {
    if !InHeader(n) {
      EmptyResolves(v, length, isDir, parent, Parent(n));
    }
  }

  lemma EmptyReadsZero(v: seq<Sector>, length: word, isDir: word, parent: word)
    requires |v| < UNUSED
    ensures forall n :: Resolve(v, EmptyInode(length, isDir, parent), n) == UNUSED
    ensures forall j :: Byte(v, EmptyInode(length, isDir, parent), j) == 0
  {
    forall n: Node ensures Resolve(v, EmptyInode(length, isDir, parent), n) == UNUSED {
      EmptyResolves(v, length, isDir, parent, n);
    }
  }

  lemma RegisterWf(st: Store, ino: nat, h: InodeDisk)
    requires Wf(st) && ino !in st.hdrs && ino !in st.owner && ino < |st.view| && st.used[ino]
    requires forall n :: Resolve(st.view, h, n) == UNUSED
    requires forall j :: Byte(st.view, h, j) == 0
    ensures Wf(st.(hdrs := st.hdrs[ino := h], owner := st.owner[ino := Header]))
  {
    hide Resolve, Byte;
  }

  lemma RegisterKeepsHeaders(a: Sys, b: Sys, ino: nat)
    requires Inv(a) && Wf(St(b)) && ino !in a.hdrs && ino !in a.owner
    requires ino in b.hdrs && b.hdrs[ino].length <= MAX_BYTES
    requires b == a.(hdrs := a.hdrs[ino := b.hdrs[ino]], owner := a.owner[ino := Header], busy := a.busy + {ino})
    ensures Inv(b)
  {
    hide Resolve, BM.BitsOf, EncodeInode, ZeroTails, OwnersMatch, OwnedAreUsed;
    assert CacheOk(b);
    assert HeadersOk(b);
  }

  /** inode_create enters the new header into the table before it allocates blocks. */
  lemma Register(a: Sys, b: Sys, ino: nat, length: word, isDir: word, parent: word)
    requires Ready(a) && NoDoomed(a) && ino !in a.owner && ino < |a.view| && BM.BitsOf(a.words)[ino]
    requires length <= MAX_BYTES
    requires b == a.(hdrs := a.hdrs[ino := EmptyInode(length, isDir, parent)], owner := a.owner[ino := Header], busy := a.busy + {ino})
    ensures Ready(b) && NoDoomed(b) && ino !in a.hdrs && ino !in a.open
    ensures forall j :: Byte(b.view, b.hdrs[ino], j) == 0
    ensures forall n :: Resolve(b.view, b.hdrs[ino], n) == UNUSED
  {
    hide Resolve, Byte, BM.BitsOf, Content, BitsAgree, ZeroTails, OwnersMatch, CacheOk, EncodeInode;
    EmptyReadsZero(a.view, length, isDir, parent);
    RegisterWf(St(a), ino, EmptyInode(length, isDir, parent));
    assert St(b) == St(a).(hdrs := b.hdrs, owner := b.owner);
    assert ino !in a.hdrs;
    RegisterKeepsHeaders(a, b, ino);
  }

  /** The files after a successful inode_create: one more, of length zero bytes. */
  lemma FilesCreated(a: Sys, b: Sys, y: Sys, ino: nat, length: word)
    requires Inv(a) && ino !in a.hdrs && Inv(b) && b.view == a.view && ino in b.hdrs && b.hdrs == a.hdrs[ino := b.hdrs[ino]]
    requires b.mounted == a.mounted && (a.mounted ==> ino != FREE_MAP)
    requires b.hdrs[ino].length == length && Grows(b, y, ino) && forall j :: Byte(b.view, b.hdrs[ino], j) == 0
    ensures ino != FREE_MAP ==> Files(y) == Files(a)[ino := seq(length, _ => 0)]
    ensures Files(y) - {ino} == Files(a)
    ensures ino == FREE_MAP ==> Files(y) == Files(a)
  {
    hide Byte, BM.BitsOf, Resolve, OwnedAreUsed, OwnersMatch, ZeroTails, HeadersOk, CacheOk, MountOk;
    assert SameBytes(b, y, ino);
    assert Content(y.view, y.hdrs[ino]) == seq(length, _ => 0);
    hide Content;
    forall i | i in a.hdrs && i != FREE_MAP ensures Content(y.view, y.hdrs[i]) == Content(a.view, a.hdrs[i]) {
      ContentKept(b, y, i);
    }
    FilesPlusOne(a, y, ino, seq(length, _ => 0));
  }

  lemma FilesPlusOne(a: Sys, y: Sys, ino: nat, bytes: seq<byte>)
    requires ino !in a.hdrs && y.hdrs.Keys == a.hdrs.Keys + {ino} && Content(y.view, y.hdrs[ino]) == bytes
    requires forall i :: i in a.hdrs && i != FREE_MAP ==> Content(y.view, y.hdrs[i]) == Content(a.view, a.hdrs[i])
    ensures ino != FREE_MAP ==> Files(y) == Files(a)[ino := bytes]
    ensures Files(y) - {ino} == Files(a)
    ensures ino == FREE_MAP ==> Files(y) == Files(a)
  {
    hide Content;
  }

  lemma DiskStaysFull(a: Sys, b: Sys)
    requires DiskFull(a) && |b.view| == |a.view| && NoBitCleared(a, b)
    ensures DiskFull(b)
  {
    hide BM.BitsOf;
  }

  /** The first n blocks of file ino are there. */
  ghost predicate FirstBlocks(y: Sys, ino: nat, n: nat) {
    ino in y.hdrs && HasBlocks(y.view, y.hdrs[ino], n)
  }

  ghost predicate HasBlocks(v: seq<Sector>, h: InodeDisk, n: nat) {
    forall p :: 0 <= p < n ==> Resolve(v, h, Data(p)) != UNUSED
  }

  lemma FirstBlocksGrow(y: Sys, z: Sys, ino: nat, n: nat)
    requires Grows(y, z, ino) && FirstBlocks(y, ino, n) && Resolve(z.view, z.hdrs[ino], Data(n)) != UNUSED
    ensures FirstBlocks(z, ino, n + 1)
  {
    hide Resolve, SameBytes, BM.BitsOf;
    forall p | 0 <= p < n + 1 ensures Resolve(z.view, z.hdrs[ino], Data(p)) != UNUSED {
      if p < n {
        assert Resolve(y.view, y.hdrs[ino], Data(p)) != UNUSED;
      }
    }
  }

  lemma HeaderFacts(y: Sys, ino: nat)
    requires Inv(y) && (ino in y.hdrs || ino in y.open)
    ensures ino in y.hdrs && y.hdrs[ino].length <= MAX_BYTES && ino < |y.view| && ino !in y.cached
    ensures ino in y.open ==> y.open[ino].openCnt > 0
    ensures ino in y.open && ino !in y.busy ==> y.open[ino].data == y.hdrs[ino]
  {
    hide BM.BitsOf, OwnersMatch, ZeroTails;
  }

  /** Releasing the header sector leaves the blocks of the file as they were. */
  lemma DyingStays(b: Sys, c: Sys, ino: nat, h: InodeDisk)
    requires Dying(b, ino, h) && Freed(b, c, {ino}) && ino !in b.owner
    ensures Dying(c, ino, h) && c.owner == b.owner
  {
    hide BM.BitsOf, SameBytes, SameNodes;
    assert b.owner - {ino} == b.owner;
    forall n: Node ensures Resolve(c.view, h, n) == Resolve(b.view, h, n) {
      DyingNode(b, c, ino, h, n);
    }
  }

  lemma {:induction false} DyingNode(b: Sys, c: Sys, ino: nat, h: InodeDisk, n: Node)
    requires Dying(b, ino, h) && Freed(b, c, {ino}) && c.owner == b.owner
    ensures Resolve(c.view, h, n) == Resolve(b.view, h, n)
    decreases Depth(n)
  {
    hide BM.BitsOf, SameBytes, SameNodes;
    if !InHeader(n) {
      DyingNode(b, c, ino, h, Parent(n));
      var q := Resolve(b.view, h, Parent(n));
      assert q != UNUSED ==> c.view[q] == b.view[q];
    }
  }

  /** What freeing a removed file of this many blocks does to the free map: its header, its blocks
      below that and the index sectors above them become free, nothing else changes. */
  ghost predicate GaveBack(a: Sys, z: Sys, ino: nat, sectors: nat) {
    && |z.view| == |a.view| && |z.words| == |a.words| && |a.view| <= |BM.BitsOf(a.words)|
    && forall s :: 0 <= s < |a.view| ==>
         BM.BitsOf(z.words)[s] ==
         (BM.BitsOf(a.words)[s] && s != ino
          && !(s in a.owner && a.owner[s].Own? && a.owner[s].ino == ino && NodePos(a.owner[s].node) < sectors))
  }

  lemma GaveBackHolds(a: Sys, b: Sys, c: Sys, d: Sys, z: Sys, ino: nat, sectors: nat)
    requires Inv(a) && NoDoomed(a) && b.words == a.words && b.view == a.view && b.owner == Doom(a.owner, ino)
    requires c.owner == b.owner && z.words == d.words && |z.view| == |d.view|
    requires Freed(b, d, {ino} + OwnedBetween(c.owner, ino, 0, sectors))
    ensures GaveBack(a, z, ino, sectors)
  {
    hide BM.BitsOf, SameBytes, SameNodes, OwnersMatch, ZeroTails, HeadersOk, MountOk, CacheOk;
  }

  /** Freeing loses sectors exactly when the file had blocks past its length: every sector of the
      file is given back if and only if each of its nodes is given up below its block count. */
  lemma NothingLeaked(a: Sys, z: Sys, ino: nat, sectors: nat)
    requires Inv(a) && NoLimbo(a) && ino in a.hdrs && GaveBack(a, z, ino, sectors)
    ensures (forall s :: s in a.owner && a.owner[s].Own? && a.owner[s].ino == ino ==> !BM.BitsOf(z.words)[s])
            <==> (forall n :: Resolve(a.view, a.hdrs[ino], n) != UNUSED ==> NodePos(n) < sectors)
  {
    hide BM.BitsOf, Resolve, ZeroTails, HeadersOk, MountOk, CacheOk, NodePos;
    if forall s :: s in a.owner && a.owner[s].Own? && a.owner[s].ino == ino ==> !BM.BitsOf(z.words)[s] {
      forall n | Resolve(a.view, a.hdrs[ino], n) != UNUSED ensures NodePos(n) < sectors {
        var s := Resolve(a.view, a.hdrs[ino], n);
        assert s in a.owner && a.owner[s] == Own(ino, n);
      }
    }
  }

  /** A sector nobody owns is not the free-map file in use. */
  lemma NotFreeMap(a: Sys, ino: nat)
    requires Inv(a) && ino !in a.owner
    ensures a.mounted ==> ino != FREE_MAP
    ensures ino !in a.hdrs && ino !in Files(a)
  {
    hide BM.BitsOf, OwnersMatch, ZeroTails, Content, Resolve;
  }

  lemma FirstBlocksAfterClose(y: Sys, z: Sys, ino: nat, n: nat)
    requires Inv(y) && ino in y.hdrs && ino < |y.view| && z.view == y.view[ino := EncodeInode(y.hdrs[ino])]
    requires z.hdrs == y.hdrs && z.words == y.words
    ensures FirstBlocks(y, ino, n) ==> FirstBlocks(z, ino, n)
  {
    hide Resolve, EncodeInode, BM.BitsOf, OwnersMatch, OwnedAreUsed, ZeroTails, HeadersOk, MountOk, CacheOk;
    HeaderWriteNodes(y, z, ino, EncodeInode(y.hdrs[ino]));
    assert SameNodes(y, z, ino);
  }

  lemma LeakKeys(owner: map<nat, Role>)
    ensures Leak(owner).Keys == owner.Keys
  {
  }

  /** Apart from the new header the table is as it was, and the new header says what was asked for. */
  lemma CreateTable(a: Sys, b: Sys, y: Sys, ino: nat)
    requires ino !in a.hdrs && ino in b.hdrs && b.hdrs == a.hdrs[ino := b.hdrs[ino]] && Grows(b, y, ino)
    ensures y.hdrs - {ino} == a.hdrs && ino in y.hdrs && y.hdrs == a.hdrs[ino := y.hdrs[ino]]
    ensures AttrOf(y.hdrs[ino]) == AttrOf(b.hdrs[ino])
  {
    hide Resolve, SameBytes, BM.BitsOf;
  }

  // The free-map file coming into use and going out of use.

  /** From here on allocation keeps the free-map file in step. */
  lemma Mount(a: Sys, b: Sys)
    requires Ready(a) && !a.mounted && a.busy == {} && FREE_MAP in a.open && FREE_MAP in a.hdrs
    requires a.open[FREE_MAP].openCnt == 1 && !a.open[FREE_MAP].removed && a.open[FREE_MAP].denyWriteCnt == 0
    requires a.hdrs[FREE_MAP].length == 4 * |a.words| <= MAX_BYTES && FirstBlocks(a, FREE_MAP, SectorCount(a.hdrs[FREE_MAP]))
    requires b == a.(mounted := true)
    ensures Inv(b) && NoLimbo(b) && Files(b) == Files(a)
    ensures BitsAgree(Content(a.view, a.hdrs[FREE_MAP]), a.words, |a.view|) ==> Ready(b)
    ensures InPlace(b, FREE_MAP, 0, 4 * |a.words|)
  {
    hide Resolve, BM.BitsOf, OwnedAreUsed, OwnersMatch, ZeroTails, BitsAgree, Content;
    var h := b.hdrs[FREE_MAP];
    forall p | 0 <= p && p * SECTOR_SIZE < 4 * |b.words| ensures Resolve(b.view, h, Data(p)) != UNUSED {
      assert p < SectorCount(h);
    }
    assert Mapped(b.view, h, 0, 4 * |b.words|);
  }

  /** The free-map file is closed, holds the map and has all its blocks. */
  ghost predicate MapStored(y: Sys) {
    && FREE_MAP in y.hdrs && FREE_MAP !in y.open && y.hdrs[FREE_MAP].length == 4 * |y.words| <= MAX_BYTES
    && FirstBlocks(y, FREE_MAP, SectorCount(y.hdrs[FREE_MAP]))
    && BitsAgree(Content(y.view, y.hdrs[FREE_MAP]), y.words, |y.view|)
  }

  lemma Unmount(a: Sys, b: Sys)
    requires Ready(a) && a.mounted && b == a.(mounted := false)
    ensures Ready(b) && Files(b) == Files(a)
    ensures FREE_MAP in a.hdrs && FREE_MAP in a.open && a.open[FREE_MAP].openCnt == 1 && !a.open[FREE_MAP].removed
    ensures a.open[FREE_MAP].denyWriteCnt == 0
    ensures a.hdrs[FREE_MAP].length == 4 * |a.words| <= MAX_BYTES && FirstBlocks(a, FREE_MAP, SectorCount(a.hdrs[FREE_MAP]))
    ensures BitsAgree(Content(a.view, a.hdrs[FREE_MAP]), a.words, |a.view|)
  {
    hide Resolve, BM.BitsOf, OwnedAreUsed, OwnersMatch, ZeroTails, BitsAgree, Content;
    var h := a.hdrs[FREE_MAP];
    forall p | 0 <= p < SectorCount(h) ensures Resolve(a.view, h, Data(p)) != UNUSED {
      assert p * SECTOR_SIZE < 4 * |a.words|;
    }
  }

  /** Closing the free-map file leaves the map in it. */
  lemma MapClosed(a: Sys, b: Sys)
    requires Ready(a) && a.mounted && 0 < |a.view| && FREE_MAP in a.hdrs
    requires b == a.(mounted := false, open := a.open - {FREE_MAP}, view := a.view[FREE_MAP := EncodeInode(a.hdrs[FREE_MAP])])
    ensures MapStored(b)
  {
    hide Resolve, BM.BitsOf, OwnedAreUsed, OwnersMatch, ZeroTails, BitsAgree, Content, EncodeInode, Byte, HeadersOk, CacheOk, HasBlocks;
    Unmount(a, a.(mounted := false));
    HeaderWriteNodes(a, b, FREE_MAP, EncodeInode(a.hdrs[FREE_MAP]));
    FirstBlocksAfterClose(a, b, FREE_MAP, SectorCount(a.hdrs[FREE_MAP]));
    ContentKept(a, b, FREE_MAP);
  }

  lemma SliceOfAll(c: seq<byte>)
    ensures ReadSlice(c, 0, |c|) == c
  {
  }

  lemma Loaded(image: seq<byte>, words: seq<word>, cnt: nat)
    requires |image| == 4 * |words| && cnt <= BM.ELEM_BITS * |words|
    requires forall i :: 0 <= i < cnt ==> BM.BitsOf(words)[i] == Bits.Bit(WordAt(image, i / BM.ELEM_BITS), i % BM.ELEM_BITS)
    ensures BitsAgree(image, words, cnt)
  {
    hide BM.BitsOf, WordAt, Bits.Bit;
  }

  /** Reading the map back from its file gives the same bits; only padding may differ. */
  lemma Reload(a: Sys, b: Sys)
    requires Ready(a) && a.mounted && |b.words| == |a.words| && b == a.(words := b.words)
    requires var c := Content(a.view, a.hdrs[FREE_MAP]);
             BitsAgree(c, b.words, |a.view|) && BitsAgree(c, a.words, |a.view|)
    ensures Ready(b) && Files(b) == Files(a)
    ensures forall s :: 0 <= s < |a.view| ==> BM.BitsOf(b.words)[s] == BM.BitsOf(a.words)[s]
  {
    hide Resolve, BM.BitsOf, Byte, Content, EncodeInode, WordAt;
    forall s | 0 <= s < |a.view| ensures BM.BitsOf(b.words)[s] == BM.BitsOf(a.words)[s] {
    }
    assert Wf(St(b));
  }

  /** The whole state is in the sectors: nothing is open, cached or half done. */
  ghost predicate AtRest(y: Sys) {
    && Ready(y) && NoDoomed(y) && MapStored(y)
    && y.open == map[] && y.busy == {} && y.cached == {} && !y.mounted
  }

  /** After shutdown the raw disk alone holds every closed file and the free map: each header decodes to
      what it was, and through it the disk shows the bytes the file had; the free-map file, found from
      its sector, holds the bits of the map. */
  lemma ShutdownPersists(y: Sys, disk: seq<Sector>)
    requires Ready(y) && MapStored(y) && y.busy == {} && disk == y.view
    ensures forall i :: i in y.hdrs && i !in y.open ==> i < |disk| && DecodeInode(disk[i]) == y.hdrs[i]
    ensures forall i :: i in Files(y) && i !in y.open ==> i < |disk| && Content(disk, DecodeInode(disk[i])) == Files(y)[i]
    ensures 0 < |disk| && BitsAgree(Content(disk, DecodeInode(disk[FREE_MAP])), y.words, |disk|)
  {
    hide Inv, Resolve, BM.BitsOf, Byte, Content, EncodeInode, DecodeInode, HasBlocks, BitsAgree, NoDoomed, NoLimbo;
    forall i | i in y.hdrs && i !in y.open ensures i < |disk| && DecodeInode(disk[i]) == y.hdrs[i] {
      HeaderStored(y, i);
    }
    InvFacts(y);
  }

  /** The header of a closed file is in its sector. */
  lemma HeaderStored(y: Sys, i: nat)
    requires Inv(y) && i in y.hdrs && i !in y.open && i !in y.busy
    ensures i < |y.view| && DecodeInode(y.view[i]) == y.hdrs[i]
  {
    hide Resolve, BM.BitsOf, Byte, Content, EncodeInode, DecodeInode, OwnersMatch, ZeroTails;
    InodeRoundTrip(y.hdrs[i]);
  }

  lemma OpenIsKnown(a: Sys, i: nat)
    requires Inv(a) && i !in a.owner
    ensures i !in a.open
  {
    hide BM.BitsOf, OwnersMatch, ZeroTails;
  }

  lemma QuietFiles(a: Sys, b: Sys)
    requires Quiet(a, b)
    ensures Files(b) == Files(a) && b.owner == a.owner && b.busy == a.busy && b.mounted == a.mounted
  {
    hide Content, Resolve, SameBytes, SameNodes, BM.BitsOf;
    forall i | i in a.hdrs && i != FREE_MAP ensures Content(b.view, b.hdrs[i]) == Content(a.view, a.hdrs[i]) {
      ContentKept(a, b, i);
    }
  }

  lemma QuietOpen(a: Sys, b: Sys)
    requires Quiet(a, b)
    ensures b.open == a.open && b.hdrs == a.hdrs && (NoDoomed(a) ==> NoDoomed(b)) && |b.view| == |a.view|
  {
    hide SameNodes, SameBytes, BM.BitsOf;
  }

  lemma InvIsWf(y: Sys)
    requires Inv(y)
    ensures Wf(St(y))
  {
  }

  lemma WordsCover(y: Sys)
    requires Inv(y)
    ensures |y.words| == BM.ElemCnt(|y.view|)
  {
  }

  /** Reading blocks that are all there changes no file and no bit of the map. */
  lemma ReadInPlace(a: Sys, b: Sys, ino: nat)
    requires Ready(a) && Carried(a, b, ino) && Stationary(a, b, ino) && b.open == a.open && b.busy == a.busy
    requires BytesWritten(a, b, ino, [], 0) && (a.mounted ==> ino == FREE_MAP)
    ensures Ready(b) && Files(b) == Files(a) && b.words == a.words && b.mounted == a.mounted && b.owner == a.owner && b.hdrs == a.hdrs
    ensures Content(b.view, b.hdrs[ino]) == Content(a.view, a.hdrs[ino])
  {
    hide Byte, Content, Resolve, SameNodes, BM.BitsOf, OwnedAreUsed, OwnersMatch, ZeroTails, HeadersOk, CacheOk, MountOk;
    assert SameBytes(a, b, ino) by {
      forall j: nat ensures Byte(b.view, b.hdrs[ino], j) == Byte(a.view, a.hdrs[ino], j) {
        assert Byte(b.view, b.hdrs[ino], j) == WrittenByte(a.view, a.hdrs[ino], 0, [], j);
      }
    }
    forall i | i in a.hdrs && (i == ino || i != FREE_MAP || !a.mounted) ensures Content(b.view, b.hdrs[i]) == Content(a.view, a.hdrs[i]) {
      ContentKept(a, b, i);
    }
  }
}
