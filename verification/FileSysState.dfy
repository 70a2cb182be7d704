/** The invariant of the whole file system (filesys/inode.c, filesys/free-map.c) as a predicate
    on its state, and the state changes its operations are made of. */
module FileSysState {
  import opened Words
  import opened FileStore
  import BM = Bitmap
  import Bits

  const FREE_MAP: nat := 0

  /** struct inode, keyed by its sector in the list of open inodes. */
  datatype OpenInode = OpenInode(openCnt: nat, removed: bool, denyWriteCnt: nat, data: InodeDisk)

  /** The sectors as seen through the cache, the words of the free map, the sectors in the cache,
      the open inodes, whether the free-map file is in use, the current header of every file,
      the owner of every sector, and the files whose header a running call is editing. */
  datatype Sys = Sys(view: seq<Sector>, words: seq<word>, cached: set<nat>, open: map<nat, OpenInode>, mounted: bool,
                     hdrs: map<nat, InodeDisk>, owner: map<nat, Role>, busy: set<nat>)

  function St(y: Sys): Store {
    Store(y.view, BM.BitsOf(y.words), y.hdrs, y.owner)
  }

  /** Cached sectors are owned and never headers, which bypass the cache. */
  ghost predicate CacheOk(y: Sys) {
    forall b :: b in y.cached ==> b in y.owner && !y.owner[b].Header?
  }

  /** Open files have their header in memory, closed ones in their sector. */
  ghost predicate HeadersOk(y: Sys)
    requires Wf(St(y))
  {
    && (forall i :: i in y.open ==> i in y.hdrs && y.open[i].openCnt > 0)
    && (forall i :: i in y.open && i !in y.busy ==> y.open[i].data == y.hdrs[i])
    && (forall i :: i in y.hdrs ==> y.hdrs[i].length <= MAX_BYTES)
    && (forall i :: i in y.hdrs && i !in y.open && i !in y.busy ==> y.view[i] == EncodeInode(y.hdrs[i]))
  }

  /** Every block that bytes lo to hi fall in is there. */
  ghost predicate Mapped(v: seq<Sector>, h: InodeDisk, lo: nat, hi: nat)
  {
    forall p :: lo / SECTOR_SIZE <= p && p * SECTOR_SIZE < hi ==> Resolve(v, h, Data(p)) != UNUSED
  }

  /** While the free-map file is in use it is open once, writable and fully allocated. */
  ghost predicate MountOk(y: Sys)
    requires Wf(St(y))
  {
    y.mounted ==>
      && FREE_MAP in y.hdrs && FREE_MAP in y.open
      && y.open[FREE_MAP].openCnt == 1 && !y.open[FREE_MAP].removed && y.open[FREE_MAP].denyWriteCnt == 0
      && y.hdrs[FREE_MAP].length == 4 * |y.words| <= MAX_BYTES
      && Mapped(y.view, y.hdrs[FREE_MAP], 0, 4 * |y.words|)
  }

  ghost predicate Inv(y: Sys) {
    0 < |y.view| && |y.words| == BM.ElemCnt(|y.view|) && Wf(St(y)) && CacheOk(y) && HeadersOk(y) && MountOk(y)
  }

  /** The bytes of a stored bitmap hold the same cnt bits as the words in memory. */
  ghost predicate BitsAgree(c: seq<byte>, words: seq<word>, cnt: nat) {
    && |c| == 4 * |words| && cnt <= BM.ELEM_BITS * |words|
    && forall s :: 0 <= s < cnt ==> Bits.Bit(WordAt(c, s / BM.ELEM_BITS), s % BM.ELEM_BITS) == BM.BitsOf(words)[s]
  }

  /** The free-map file holds the free map, and no call is in the middle of changing it. */
  ghost predicate InStep(y: Sys) {
    Inv(y) && (y.mounted ==> BitsAgree(Content(y.view, y.hdrs[FREE_MAP]), y.words, |y.view|) && FREE_MAP !in y.busy)
  }

  /** No sector that was marked used has been given up. */
  ghost predicate NoBitCleared(a: Sys, b: Sys) {
    && |a.words| == |b.words|
    && forall s :: 0 <= s < |BM.BitsOf(a.words)| && BM.BitsOf(a.words)[s] ==> BM.BitsOf(b.words)[s]
  }

  ghost predicate NoLimbo(y: Sys) {
    forall s :: s in y.owner ==> !y.owner[s].Limbo?
  }

  ghost predicate NoDoomed(y: Sys) {
    forall s :: s in y.owner ==> !y.owner[s].Doomed?
  }

  /** Sectors may be allocated and released. */
  ghost predicate Ready(y: Sys) {
    InStep(y) && NoLimbo(y)
  }

  ghost predicate AllMarked(words: seq<word>, cnt: nat) {
    forall s :: 0 <= s < cnt && s < |BM.BitsOf(words)| ==> BM.BitsOf(words)[s]
  }

  ghost predicate DiskFull(y: Sys) {
    AllMarked(y.words, |y.view|)
  }

  /** Some data block of file ino is in the cache. */
  ghost predicate SomeBlockCached(y: Sys, ino: nat) {
    ino in y.hdrs && exists p :: Resolve(y.view, y.hdrs[ino], Data(p)) in y.cached
  }

  ghost predicate SameBytes(a: Sys, b: Sys, i: nat)
    requires Sized(St(a)) && Sized(St(b)) && i in a.hdrs && i in b.hdrs
  {
    forall j :: Byte(b.view, b.hdrs[i], j) == Byte(a.view, a.hdrs[i], j)
  }

  ghost predicate SameNodes(a: Sys, b: Sys, i: nat)
    requires Sized(St(a)) && Sized(St(b)) && i in a.hdrs && i in b.hdrs
  {
    forall n :: Resolve(b.view, b.hdrs[i], n) == Resolve(a.view, a.hdrs[i], n)
  }

  /** Nothing a user of the files can see has changed; only the free-map file may hold other bytes. */
  ghost predicate Quiet(a: Sys, b: Sys) {
    && Sized(St(a)) && Sized(St(b)) && |a.view| == |b.view| && NoBitCleared(a, b)
    && b.open == a.open && b.mounted == a.mounted && b.busy == a.busy && b.hdrs == a.hdrs && b.owner == a.owner
    && (forall i :: i in a.hdrs ==> SameNodes(a, b, i))
    && (forall i :: i in a.hdrs && (i != FREE_MAP || !a.mounted) ==> SameBytes(a, b, i))
  }

  ghost predicate SameMeta(g: InodeDisk, h: InodeDisk) {
    g.length == h.length && g.isDir == h.isDir && g.parent == h.parent
  }

  /** Allocation for file ino only adds: no mapping moves, no sector changes hands, no file but the
      free-map file shows a different byte. */
  ghost predicate Grows(a: Sys, b: Sys, ino: nat) {
    && Sized(St(a)) && Sized(St(b)) && |a.view| == |b.view| && NoBitCleared(a, b)
    && b.open == a.open && b.mounted == a.mounted && b.busy == a.busy
    && ino in a.hdrs && ino in b.hdrs && b.hdrs == a.hdrs[ino := b.hdrs[ino]]
    && SameMeta(a.hdrs[ino], b.hdrs[ino])
    && (NoDoomed(a) ==> NoDoomed(b))
    && (forall s :: s in a.owner ==> s in b.owner && b.owner[s] == a.owner[s])
    && (forall i, n :: i in a.hdrs && Resolve(a.view, a.hdrs[i], n) != UNUSED ==>
          Resolve(b.view, b.hdrs[i], n) == Resolve(a.view, a.hdrs[i], n))
    && (forall i :: i in a.hdrs && (i != FREE_MAP || !a.mounted) ==> SameBytes(a, b, i))
  }

  lemma QuietGrows(a: Sys, b: Sys, ino: nat)
    requires Quiet(a, b) && ino in a.hdrs
    ensures Grows(a, b, ino)
  {
    forall i, n | i in a.hdrs ensures Resolve(b.view, b.hdrs[i], n) == Resolve(a.view, a.hdrs[i], n) {
      assert SameNodes(a, b, i);
    }
  }

  lemma GrowsReflexive(a: Sys, b: Sys, ino: nat)
    requires Inv(a) && ino in a.hdrs && b == a.(cached := b.cached)
    ensures Grows(a, b, ino)
  {
    hide Resolve, Byte;
    assert forall i :: i in a.hdrs ==> SameBytes(a, b, i);
  }

  /** What allocate_block has achieved: block is the sector of block pos of file ino, and if it was
      there before nothing but the cache has changed. */
  ghost predicate Placed(a: Sys, b: Sys, ino: nat, pos: nat, block: word) {
    && Inv(b) && (Ready(a) ==> Ready(b)) && Grows(a, b, ino)
    && block == Resolve(b.view, b.hdrs[ino], Data(pos))
    && (block == UNUSED ==> DiskFull(b))
    && (Resolve(a.view, a.hdrs[ino], Data(pos)) != UNUSED ==> b == a.(cached := b.cached))
  }

  /** The second-level index sector on the way to block pos. */
  function SecondOf(pos: nat): Node
    requires DIRECT_MAX + WORDS_PER_SECTOR <= pos
  {
    Snd((pos - DIRECT_MAX - WORDS_PER_SECTOR) / WORDS_PER_SECTOR)
  }

  /** Halfway through the double-indirect branch: sector is the second-level index sector for pos. */
  ghost predicate Reached(a: Sys, b: Sys, ino: nat, pos: nat, sector: word)
    requires DIRECT_MAX + WORDS_PER_SECTOR <= pos
  {
    && Inv(b) && (Ready(a) ==> Ready(b)) && Grows(a, b, ino)
    && sector == Resolve(b.view, b.hdrs[ino], SecondOf(pos))
    && (sector == UNUSED ==> DiskFull(b))
    && (Resolve(a.view, a.hdrs[ino], Data(pos)) == UNUSED ==> Resolve(b.view, b.hdrs[ino], Data(pos)) == UNUSED)
    && (Resolve(a.view, a.hdrs[ino], Data(pos)) != UNUSED ==> b == a.(cached := b.cached))
  }

  lemma GrowsTransitive(a: Sys, b: Sys, c: Sys, ino: nat)
    requires Grows(a, b, ino) && Grows(b, c, ino)
    ensures Grows(a, c, ino)
  {
    forall i | i in a.hdrs && (i != FREE_MAP || !a.mounted) ensures SameBytes(a, c, i) {
      assert SameBytes(a, b, i) && SameBytes(b, c, i);
    }
  }

  lemma QuietReflexive(a: Sys)
    requires Inv(a)
    ensures Quiet(a, a)
  {
    hide Resolve, Byte;
    assert forall i :: i in a.hdrs ==> SameNodes(a, a, i) && SameBytes(a, a, i);
  }

  /** What allocation leaves alone, in short. */
  lemma GrowsFacts(a: Sys, b: Sys, ino: nat)
    requires Grows(a, b, ino)
    ensures b.open == a.open && b.mounted == a.mounted && b.busy == a.busy && b.hdrs.Keys == a.hdrs.Keys
    ensures |b.view| == |a.view| && SameMeta(a.hdrs[ino], b.hdrs[ino]) && (NoDoomed(a) ==> NoDoomed(b))
  {
  }

  lemma InvFacts(y: Sys)
    requires Inv(y)
    ensures 0 < |y.view| < UNUSED && |y.view| <= |BM.BitsOf(y.words)|
    ensures forall i :: i in y.open ==> i in y.hdrs
    ensures forall i :: i in y.hdrs ==> y.hdrs[i].length <= MAX_BYTES
    ensures forall i :: i in y.open && i !in y.busy ==> y.open[i].data == y.hdrs[i]
  {
  }

  lemma ReadyIsInv(y: Sys)
    requires Ready(y)
    ensures Inv(y)
  {
  }

  /** What an index pointer leads to is an owned sector. */
  lemma PointerOwned(y: Sys, i: nat, n: Node)
    requires Inv(y) && i in y.hdrs && Resolve(y.view, y.hdrs[i], n) != UNUSED
    ensures var q := Resolve(y.view, y.hdrs[i], n); q < |y.view| && q in y.owner && y.owner[q] == Own(i, n)
  {
  }

  lemma QuietTransitive(a: Sys, b: Sys, c: Sys)
    requires Quiet(a, b) && Quiet(b, c)
    ensures Quiet(a, c)
  {
    hide Resolve, Byte;
    forall i | i in a.hdrs ensures SameNodes(a, c, i) {
      assert SameNodes(a, b, i) && SameNodes(b, c, i);
    }
    forall i | i in a.hdrs && (i != FREE_MAP || !a.mounted) ensures SameBytes(a, c, i) {
      assert SameBytes(a, b, i) && SameBytes(b, c, i);
    }
  }

  /** A sector that was free a moment ago can be installed in the hole that was there. */
  lemma AllocatedCanLink(a: Sys, b: Sys, i: nat, n: Node, s: word)
    requires Inv(a) && NoLimbo(a) && Inv(b) && Quiet(a, b) && i in a.hdrs && s < |a.view|
    requires !BM.BitsOf(a.words)[s] && BM.BitsOf(b.words) == BM.BitsOf(a.words)[s := true]
    requires Resolve(a.view, a.hdrs[i], n) == UNUSED
    requires !InHeader(n) ==> Resolve(a.view, a.hdrs[i], Parent(n)) < |a.view| && Slot(n) < WORDS_PER_SECTOR
    ensures CanLink(St(b), i, n, s)
    ensures !InHeader(n) ==> Resolve(b.view, b.hdrs[i], Parent(n)) == Resolve(a.view, a.hdrs[i], Parent(n))
  {
    hide Resolve, BM.BitsOf, ZeroTails, OwnersMatch, HeadersOk, MountOk, CacheOk;
    assert SameNodes(a, b, i);
  }

  /** Marking a free sector in the in-memory map, before the map is written to its file. */
  lemma MarkKeeps(a: Sys, b: Sys, s: nat)
    requires Inv(a) && s < |a.view| && |b.words| == |a.words| && b == a.(words := b.words)
    requires BM.BitsOf(b.words) == BM.BitsOf(a.words)[s := true]
    ensures Inv(b) && Quiet(a, b)
  {
    hide Resolve, Byte, BM.BitsOf, EncodeInode;
    forall i | i in a.hdrs ensures SameNodes(a, b, i) && SameBytes(a, b, i) {
    }
  }

  /** A change of the set of cached sectors that only drops some or adds an owned one. */
  lemma CacheKeeps(a: Sys, b: Sys, s: nat)
    requires Inv(a) && b == a.(cached := b.cached) && b.cached <= a.cached + {s}
    requires s in a.owner && !a.owner[s].Header?
    ensures Inv(b)
    ensures Ready(a) ==> Ready(b)
  {
  }

  function LinkSys(y: Sys, i: nat, n: Node, s: word, cached: set<nat>): (z: Sys)
    requires Sized(St(y)) && i in y.hdrs && s < |y.view|
    requires !InHeader(n) ==> Resolve(y.view, y.hdrs[i], Parent(n)) < |y.view| && Slot(n) < WORDS_PER_SECTOR
    ensures St(z) == Link(St(y), i, n, s) && |z.view| == |y.view| && z.owner == y.owner[s := Own(i, n)]
  {
    var st := Link(St(y), i, n, s);
    y.(view := st.view, hdrs := st.hdrs, owner := st.owner, cached := cached)
  }

  lemma LinkSysShape(y: Sys, i: nat, n: Node, s: word, cached: set<nat>)
    requires Sized(St(y)) && i in y.hdrs && s < |y.view|
    requires !InHeader(n) ==> Resolve(y.view, y.hdrs[i], Parent(n)) < |y.view| && Slot(n) < WORDS_PER_SECTOR
    ensures InHeader(n) ==>
              LinkSys(y, i, n, s, cached) ==
              y.(view := y.view[s := Fill(n)], hdrs := y.hdrs[i := SetHeaderSlot(y.hdrs[i], n, s)],
                 owner := y.owner[s := Own(i, n)], cached := cached)
    ensures !InHeader(n) ==>
              var q := Resolve(y.view, y.hdrs[i], Parent(n));
              LinkSys(y, i, n, s, cached) ==
              y.(view := y.view[q := Splice(y.view[q], 4 * Slot(n), WordBytes(s))][s := Fill(n)],
                 owner := y.owner[s := Own(i, n)], cached := cached)
  {
    hide Resolve, Splice, WordBytes, Fill, BM.BitsOf;
  }

  /** Installing an allocated sector as a node of a file whose header is being edited. */
  lemma LinkGrows(y: Sys, i: nat, n: Node, s: word, cached: set<nat>)
    requires CanLink(St(y), i, n, s)
    ensures var z := LinkSys(y, i, n, s, cached);
            && Grows(y, z, i)
            && Resolve(z.view, z.hdrs[i], n) == s
            && forall m :: m != n ==> Resolve(z.view, z.hdrs[i], m) == Resolve(y.view, y.hdrs[i], m)
  {
    hide Resolve, Byte, Fill, PointTo, OwnedAreUsed, OwnersMatch, ZeroTails, BM.BitsOf;
    var z := LinkSys(y, i, n, s, cached);
    assert St(z) == Link(St(y), i, n, s);
    LinkKeepsWf(St(y), i, n, s);
    forall j, m | j in y.hdrs
      ensures Resolve(z.view, z.hdrs[j], m) == if j == i && m == n then s else Resolve(y.view, y.hdrs[j], m)
    {
      LinkResolve(St(y), i, n, s, j, m);
    }
    forall j | j in y.hdrs ensures SameBytes(y, z, j) {
      forall b ensures Byte(z.view, z.hdrs[j], b) == Byte(y.view, y.hdrs[j], b) {
        LinkByte(St(y), i, n, s, j, b);
      }
    }
  }

  /** Growing a file whose header is being edited, with no header sector touched, keeps the
      headers and the free-map file as the invariant wants them. */
  lemma GrowsKeepsHeaders(y: Sys, z: Sys, i: nat)
    requires Inv(y) && Wf(St(z)) && Grows(y, z, i) && i in y.busy
    requires forall j :: j in y.hdrs ==> z.view[j] == y.view[j]
    ensures HeadersOk(z) && MountOk(z)
  {
    hide Resolve, OwnersMatch, OwnedAreUsed, ZeroTails, BM.BitsOf, EncodeInode;
    if z.mounted {
      assert Mapped(z.view, z.hdrs[FREE_MAP], 0, 4 * |z.words|);
    }
  }

  lemma LinkKeepsInv(y: Sys, i: nat, n: Node, s: word, cached: set<nat>)
    requires Inv(y) && CanLink(St(y), i, n, s) && i in y.busy
    requires forall b :: b in cached ==> b in y.cached || b == s || (!InHeader(n) && b == Resolve(y.view, y.hdrs[i], Parent(n)))
    ensures var z := LinkSys(y, i, n, s, cached);
            Inv(z) && (Ready(y) ==> Ready(z))
  {
    hide Resolve, Byte, Fill, PointTo, Link, OwnedAreUsed, OwnersMatch, ZeroTails, BM.BitsOf, Content, BitsAgree;
    hide HeadersOk, MountOk, Grows, CacheOk;
    var z := LinkSys(y, i, n, s, cached);
    assert St(z) == Link(St(y), i, n, s);
    LinkKeepsWf(St(y), i, n, s);
    LinkGrows(y, i, n, s, cached);
    LinkKeepsHeaderSectors(y, i, n, s);
    GrowsKeepsHeaders(y, z, i);
    LinkKeepsCacheOk(y, i, n, s, cached);
    if Ready(y) && y.mounted {
      SameContent(y, z, i, n, s, cached);
    }
  }

  lemma LinkKeepsCacheOk(y: Sys, i: nat, n: Node, s: word, cached: set<nat>)
    requires Inv(y) && CanLink(St(y), i, n, s)
    requires forall b :: b in cached ==> b in y.cached || b == s || (!InHeader(n) && b == Resolve(y.view, y.hdrs[i], Parent(n)))
    ensures CacheOk(LinkSys(y, i, n, s, cached))
  {
    hide Resolve, Byte, Fill, PointTo, ZeroTails, BM.BitsOf, OwnersMatch, OwnedAreUsed, HeadersOk, MountOk;
    LinkParentOwned(y, i, n, s);
  }

  lemma LinkKeepsHeaderSectors(y: Sys, i: nat, n: Node, s: word)
    requires CanLink(St(y), i, n, s)
    ensures forall j :: j in y.hdrs ==> Link(St(y), i, n, s).view[j] == y.view[j]
  {
    hide BM.BitsOf, ZeroTails, Fill;
    forall j | j in y.hdrs ensures Link(St(y), i, n, s).view[j] == y.view[j] {
      assert y.owner[j].Header?;
    }
  }

  lemma LinkParentOwned(y: Sys, i: nat, n: Node, s: word)
    requires CanLink(St(y), i, n, s)
    ensures !InHeader(n) ==> var q := Resolve(y.view, y.hdrs[i], Parent(n)); q in y.owner && y.owner[q] == Own(i, Parent(n))
  {
    hide BM.BitsOf, ZeroTails;
  }

  lemma SameContent(y: Sys, z: Sys, i: nat, n: Node, s: word, cached: set<nat>)
    requires Inv(y) && y.mounted && FREE_MAP !in y.busy && i in y.busy
    requires CanLink(St(y), i, n, s) && z == LinkSys(y, i, n, s, cached)
    ensures Content(z.view, z.hdrs[FREE_MAP]) == Content(y.view, y.hdrs[FREE_MAP])
  {
    hide BM.BitsOf, OwnersMatch, OwnedAreUsed, ZeroTails, CacheOk, HeadersOk, Byte, Resolve, Fill;
    forall b | 0 <= b < y.hdrs[FREE_MAP].length
      ensures Byte(z.view, z.hdrs[FREE_MAP], b) == Byte(y.view, y.hdrs[FREE_MAP], b)
    {
      LinkByte(St(y), i, n, s, FREE_MAP, b);
    }
  }
}
