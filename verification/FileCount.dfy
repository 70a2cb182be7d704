/** Counting sectors: allocation takes exactly one free sector for each node it adds, so whether a
    call gets the blocks it needs is decided by two numbers known before the call. */
module FileCount {
  import opened Words
  import opened FileStore
  import opened FileSysState
  import opened FileEdit
  import opened FileFree
  import opened FileLife
  import BM = Bitmap

  /** What allocate_block may have to provide for block p: the block and the index sectors on the
      way to it. */
  function Path(p: nat): set<Node> {
    {Data(p)}
    + if p < DIRECT_MAX then {} else if p < DIRECT_MAX + WORDS_PER_SECTOR then {Ind} else {Dbl, SecondOf(p)}
  }

  lemma PathHas(p: nat)
    ensures Data(p) in Path(p)
    ensures DIRECT_MAX <= p < DIRECT_MAX + WORDS_PER_SECTOR ==> Ind in Path(p)
    ensures DIRECT_MAX + WORDS_PER_SECTOR <= p ==> Dbl in Path(p) && SecondOf(p) in Path(p)
  {
  }

  /** The same for all the blocks from lo up to hi. */
  function Paths(lo: nat, hi: nat): set<Node> {
    set p, n | lo <= p < hi && n in Path(p) :: n
  }

  /** The same for the blocks that size bytes from offset on fall in. */
  function Touched(offset: nat, size: nat): set<Node> {
    if size == 0 then {} else Paths(offset / SECTOR_SIZE, (offset + size - 1) / SECTOR_SIZE + 1)
  }

  /** How many sectors a file of n blocks takes, its header aside. */
  function NodeCount(n: nat): nat {
    n + (if n > DIRECT_MAX then 1 else 0)
    + if n > DIRECT_MAX + WORDS_PER_SECTOR then 1 + (n - DIRECT_MAX - 1) / WORDS_PER_SECTOR else 0
  }

  lemma {:induction false} PathsCount(n: nat)
    ensures |Paths(0, n)| == NodeCount(n)
  {
    hide Paths, NewOn, NodeCount;
    if n > 0 {
      PathsCount(n - 1);
      NextPath(n - 1);
      NewOnApart(n - 1);
      NewOnCount(n - 1);
    } else {
      NoPaths();
    }
  }

  lemma NoPaths()
    ensures Paths(0, 0) == {} && NodeCount(0) == 0
  {
  }

  lemma NewOnApart(p: nat)
    ensures NewOn(p) !! Paths(0, p)
  {
  }

  lemma NewOnCount(p: nat)
    ensures NodeCount(p + 1) == NodeCount(p) + |NewOn(p)|
  {
  }

  /** The nodes first needed for block p. */
  function NewOn(p: nat): set<Node> {
    {Data(p)} + (if p == DIRECT_MAX then {Ind} else {})
    + (if p == DIRECT_MAX + WORDS_PER_SECTOR then {Dbl} else {})
    + if DIRECT_MAX + WORDS_PER_SECTOR <= p && (p - DIRECT_MAX) % WORDS_PER_SECTOR == 0 then {SecondOf(p)} else {}
  }

  lemma NextPath(p: nat)
    ensures Paths(0, p + 1) == Paths(0, p) + NewOn(p)
  {
    assert NewOn(p) <= Path(p);
    forall n | n in Path(p) && n !in NewOn(p) ensures n in Paths(0, p) {
      assert n in Path(p - 1);
    }
  }

  /** The sectors the free map has to give. */
  ghost function FreeSet(y: Sys): set<nat> {
    set s | 0 <= s < |y.view| && s < |BM.BitsOf(y.words)| && !BM.BitsOf(y.words)[s]
  }

  /** Those of the nodes that file ino does not have. */
  ghost function Missing(y: Sys, ino: nat, nodes: set<Node>): set<Node> {
    set n | n in nodes && ino in y.hdrs && Resolve(y.view, y.hdrs[ino], n) == UNUSED
  }

  /** There are free sectors for all of these nodes that file ino does not have. */
  ghost predicate Fits(y: Sys, ino: nat, nodes: set<Node>) {
    |Missing(y, ino, nodes)| <= |FreeSet(y)|
  }

  /** Each of these nodes that file ino did not have in a has cost one free sector, and nothing else has. */
  ghost predicate Spent(a: Sys, b: Sys, ino: nat, nodes: set<Node>) {
    FreeSet(b) <= FreeSet(a) && |FreeSet(b)| == |FreeSet(a)| - |Missing(a, ino, nodes)|
  }

  /** The same as far as the free sectors go; if they do not suffice, all are gone. */
  ghost predicate SpentOrAll(a: Sys, b: Sys, ino: nat, nodes: set<Node>) {
    && FreeSet(b) <= FreeSet(a)
    && |FreeSet(b)| == if Fits(a, ino, nodes) then |FreeSet(a)| - |Missing(a, ino, nodes)| else 0
  }

  /** Sectors newly owned were free, but for the one handed in. */
  ghost predicate TookFree(a: Sys, b: Sys, sector: nat) {
    && |b.view| == |a.view| && NoBitCleared(a, b)
    && forall s :: s in b.owner && s !in a.owner ==> s == sector || s in FreeSet(a)
  }

  /** The books are kept from a to b: sectors newly marked used are exactly the ones newly owned, each
      of them for one of these nodes of file ino. */
  ghost predicate Booked(a: Sys, b: Sys, ino: nat, nodes: set<Node>) {
    && Sized(St(a)) && Sized(St(b)) && |b.view| == |a.view| && NoBitCleared(a, b)
    && (forall s :: s in a.owner ==> s in b.owner && b.owner[s] == a.owner[s])
    && (forall s :: s in b.owner && s !in a.owner ==>
          && s < |a.view| && !BM.BitsOf(a.words)[s]
          && b.owner[s].Own? && b.owner[s].ino == ino && b.owner[s].node in nodes)
    && (forall s :: 0 <= s < |a.view| && !BM.BitsOf(a.words)[s] && BM.BitsOf(b.words)[s] ==> s in b.owner && s !in a.owner)
  }

  lemma BookedSame(a: Sys, b: Sys, ino: nat, nodes: set<Node>)
    requires Inv(a) && |b.view| == |a.view| && b.words == a.words && b.owner == a.owner
    ensures Booked(a, b, ino, nodes)
  {
    hide BM.BitsOf, OwnedAreUsed, OwnersMatch, ZeroTails, HeadersOk, CacheOk, MountOk;
  }

  lemma BookedThen(a: Sys, b: Sys, c: Sys, ino: nat, m: set<Node>, n: set<Node>, nodes: set<Node>)
    requires Booked(a, b, ino, m) && Booked(b, c, ino, n) && m <= nodes && n <= nodes
    ensures Booked(a, c, ino, nodes)
  {
    hide BM.BitsOf;
  }

  lemma BookedWiden(a: Sys, b: Sys, ino: nat, m: set<Node>, nodes: set<Node>)
    requires Booked(a, b, ino, m) && m <= nodes
    ensures Booked(a, b, ino, nodes)
  {
    hide BM.BitsOf;
  }

  /** One node: a free sector is marked, then installed. */
  lemma BookedLink(a: Sys, y: Sys, z: Sys, ino: nat, n: Node, s: nat)
    requires Inv(a) && NoLimbo(a) && s < |a.view| && Sized(St(y)) && |y.view| == |a.view| && NoBitCleared(a, y) && y.owner == a.owner
    requires !BM.BitsOf(a.words)[s] && BM.BitsOf(y.words) == BM.BitsOf(a.words)[s := true]
    requires |z.view| == |y.view| && z.words == y.words && z.owner == y.owner[s := Own(ino, n)]
    ensures Booked(a, z, ino, {n})
  {
    hide BM.BitsOf, OwnersMatch, ZeroTails, HeadersOk, CacheOk, MountOk;
  }

  // Cardinalities.

  ghost predicate Matched(d: set<Node>, e: set<nat>, f: Node -> nat) {
    && (forall n :: n in d ==> f(n) in e)
    && (forall m, n :: m in d && n in d && f(m) == f(n) ==> m == n)
    && (forall s :: s in e ==> exists n :: n in d && f(n) == s)
  }

  lemma {:induction false} SameCount(d: set<Node>, e: set<nat>, f: Node -> nat)
    requires Matched(d, e, f)
    ensures |d| == |e|
    decreases d
  {
    if d == {} {
      assert e == {};
    } else {
      var n :| n in d;
      forall s | s in e - {f(n)} ensures exists m :: m in d - {n} && f(m) == s {
        var m :| m in d && f(m) == s;
      }
      SameCount(d - {n}, e - {f(n)}, f);
    }
  }

  /** The nodes file ino has gained. */
  ghost function Gained(a: Sys, b: Sys, ino: nat, nodes: set<Node>): set<Node> {
    Missing(a, ino, nodes) - Missing(b, ino, nodes)
  }

  ghost predicate Kept(a: Sys, b: Sys, ino: nat) {
    && ino in a.hdrs && ino in b.hdrs
    && forall n :: Resolve(a.view, a.hdrs[ino], n) != UNUSED ==> Resolve(b.view, b.hdrs[ino], n) == Resolve(a.view, a.hdrs[ino], n)
  }

  lemma GainedIsNew(a: Sys, b: Sys, ino: nat, nodes: set<Node>, n: Node)
    requires Wf(St(a)) && Wf(St(b)) && Booked(a, b, ino, nodes) && Kept(a, b, ino) && NoLimbo(b) && n in Gained(a, b, ino, nodes)
    ensures Resolve(b.view, b.hdrs[ino], n) in FreeSet(a) - FreeSet(b)
  {
    hide BM.BitsOf, ZeroTails, Resolve;
    var s := Resolve(b.view, b.hdrs[ino], n);
    assert s in b.owner && b.owner[s] == Own(ino, n);
  }

  lemma NewIsGained(a: Sys, b: Sys, ino: nat, nodes: set<Node>, s: nat) returns (n: Node)
    requires Wf(St(a)) && Wf(St(b)) && Booked(a, b, ino, nodes) && Kept(a, b, ino) && s in FreeSet(a) - FreeSet(b)
    ensures n in Gained(a, b, ino, nodes) && Resolve(b.view, b.hdrs[ino], n) == s
  {
    hide BM.BitsOf, ZeroTails, Resolve;
    n := b.owner[s].node;
    assert Resolve(b.view, b.hdrs[ino], n) == s;
  }

  /** Conservation: the nodes gained number the free sectors lost. */
  lemma Conservation(a: Sys, b: Sys, ino: nat, nodes: set<Node>)
    requires Wf(St(a)) && Wf(St(b)) && Booked(a, b, ino, nodes) && Kept(a, b, ino) && NoLimbo(b)
    ensures FreeSet(b) <= FreeSet(a) && Missing(b, ino, nodes) <= Missing(a, ino, nodes)
    ensures |Gained(a, b, ino, nodes)| == |FreeSet(a)| - |FreeSet(b)|
    ensures |Missing(a, ino, nodes)| + |FreeSet(b)| == |Missing(b, ino, nodes)| + |FreeSet(a)|
  {
    hide Wf, Resolve, BM.BitsOf;
    var d, e := Gained(a, b, ino, nodes), FreeSet(a) - FreeSet(b);
    var f := (n: Node) => Resolve(b.view, b.hdrs[ino], n) as nat;
    assert Matched(d, e, f) by {
      forall n | n in d ensures f(n) in e { GainedIsNew(a, b, ino, nodes, n); }
      forall m, n | m in d && n in d && f(m) == f(n) ensures m == n { GainedApart(b, ino, m, n); }
      forall s | s in e ensures exists n :: n in d && f(n) == s { var n := NewIsGained(a, b, ino, nodes, s); }
    }
    SameCount(d, e, f);
    FreeShrinks(a, b, ino, nodes);
    Difference(FreeSet(a), FreeSet(b));
    assert Missing(b, ino, nodes) <= Missing(a, ino, nodes);
    Difference(Missing(a, ino, nodes), Missing(b, ino, nodes));
  }

  lemma GainedApart(b: Sys, ino: nat, m: Node, n: Node)
    requires Wf(St(b)) && ino in b.hdrs && Resolve(b.view, b.hdrs[ino], m) == Resolve(b.view, b.hdrs[ino], n) != UNUSED
    ensures m == n
  {
    hide Resolve, BM.BitsOf, ZeroTails;
  }

  lemma FreeShrinks(a: Sys, b: Sys, ino: nat, nodes: set<Node>)
    requires Booked(a, b, ino, nodes)
    ensures FreeSet(b) <= FreeSet(a)
  {
    hide BM.BitsOf;
  }

  lemma Difference<T>(x: set<T>, y: set<T>)
    requires y <= x
    ensures |x - y| == |x| - |y|
  {
    assert x == y + (x - y);
  }

  lemma Subset<T>(x: set<T>, y: set<T>)
    requires x <= y
    ensures |x| <= |y|
  {
    Difference(y, x);
  }

  // What a caller can tell from the numbers.

  lemma FullHasNone(y: Sys)
    requires DiskFull(y)
    ensures FreeSet(y) == {}
  {
    hide BM.BitsOf;
  }

  lemma AllThere(y: Sys, ino: nat, lo: nat, hi: nat)
    requires Wf(St(y)) && ino in y.hdrs && forall p :: lo <= p < hi ==> Resolve(y.view, y.hdrs[ino], Data(p)) != UNUSED
    ensures Missing(y, ino, Paths(lo, hi)) == {}
  {
    hide BM.BitsOf, Resolve, OwnersMatch, ZeroTails, OwnedAreUsed, PtrAt;
    forall p, n | lo <= p < hi && n in Path(p) ensures Resolve(y.view, y.hdrs[ino], n) != UNUSED {
      WayThere(y.view, y.hdrs[ino], p, n);
    }
  }

  /** A block that is there has the index sectors on the way to it. */
  lemma WayThere(v: seq<Sector>, h: InodeDisk, p: nat, n: Node)
    requires |v| < UNUSED && n in Path(p) && Resolve(v, h, Data(p)) != UNUSED
    ensures Resolve(v, h, n) != UNUSED
  {
    hide Resolve;
    if p >= DIRECT_MAX {
      ResolveThrough(v, h, p);
    }
  }

  lemma PathsHave(lo: nat, hi: nat, p: nat)
    requires lo <= p < hi
    ensures Path(p) <= Paths(lo, hi) && Data(p) in Paths(lo, hi)
  {
  }

  lemma PathsWithin(lo: nat, hi: nat, lo': nat, hi': nat)
    requires lo' <= lo && hi <= hi'
    ensures Paths(lo, hi) <= Paths(lo', hi')
  {
  }

  /** Whoever got some of the nodes had free sectors for them. */
  lemma GotThem(a: Sys, b: Sys, ino: nat, nodes: set<Node>, some: set<Node>)
    requires Wf(St(a)) && Wf(St(b)) && Booked(a, b, ino, nodes) && Kept(a, b, ino) && NoLimbo(b)
    requires some <= nodes && Missing(b, ino, some) == {}
    ensures Fits(a, ino, some)
  {
    hide Wf, Resolve, BM.BitsOf, Booked, NoLimbo;
    Conservation(a, b, ino, nodes);
    Subset(Missing(a, ino, some), Gained(a, b, ino, nodes));
  }

  /** Whoever still lacks one when the disk is full did not. */
  lemma RanOut(a: Sys, b: Sys, ino: nat, nodes: set<Node>, n: Node)
    requires Wf(St(a)) && Wf(St(b)) && Booked(a, b, ino, nodes) && Kept(a, b, ino) && NoLimbo(b)
    requires DiskFull(b) && n in nodes && Resolve(b.view, b.hdrs[ino], n) == UNUSED
    ensures !Fits(a, ino, nodes)
  {
    hide Wf, Resolve, BM.BitsOf, Booked, DiskFull;
    Conservation(a, b, ino, nodes);
    FullHasNone(b);
    assert n in Missing(b, ino, nodes);
  }

  /** On a full disk no node can be added. */
  lemma FullAddsNothing(a: Sys, b: Sys, ino: nat, nodes: set<Node>, n: Node)
    requires Wf(St(a)) && Wf(St(b)) && Booked(a, b, ino, nodes) && Kept(a, b, ino) && DiskFull(a)
    requires Resolve(a.view, a.hdrs[ino], n) == UNUSED
    ensures Resolve(b.view, b.hdrs[ino], n) == UNUSED
  {
    hide BM.BitsOf, ZeroTails, Resolve;
  }

  // The chunks of a read or a write.

  /** The blocks that n bytes from offset on fall in are all there. */
  ghost predicate There(v: seq<Sector>, h: InodeDisk, offset: nat, n: nat) {
    n > 0 ==> Mapped(v, h, offset, offset + n)
  }


  /** Block (offset + n) / SECTOR_SIZE, asked for when n bytes are done. */
  lemma ChunkBooked(a: Sys, y: Sys, z: Sys, ino: nat, offset: nat, size: nat, n: nat)
    requires Booked(a, y, ino, Touched(offset, size)) && Booked(y, z, ino, Path((offset + n) / SECTOR_SIZE)) && n < size
    ensures Booked(a, z, ino, Touched(offset, size))
  {
    hide Booked, Path;
    ChunkTouched(offset, size, n);
    BookedThen(a, y, z, ino, Touched(offset, size), Path((offset + n) / SECTOR_SIZE), Touched(offset, size));
  }

  lemma ChunkTouched(offset: nat, size: nat, n: nat)
    requires n < size
    ensures Path((offset + n) / SECTOR_SIZE) <= Touched(offset, size) && Data((offset + n) / SECTOR_SIZE) in Touched(offset, size)
  {
    hide Path;
    PathsHave(offset / SECTOR_SIZE, (offset + size - 1) / SECTOR_SIZE + 1, (offset + n) / SECTOR_SIZE);
    assert Data((offset + n) / SECTOR_SIZE) in Path((offset + n) / SECTOR_SIZE) by { PathHas((offset + n) / SECTOR_SIZE); }
  }

  lemma TouchedWithin(offset: nat, size: nat, size': nat)
    requires size <= size'
    ensures Touched(offset, size) <= Touched(offset, size')
  {
    hide Path;
    if size > 0 {
      var lo := offset / SECTOR_SIZE;
      PathsWithin(lo, (offset + size - 1) / SECTOR_SIZE + 1, lo, (offset + size' - 1) / SECTOR_SIZE + 1);
    }
  }

  lemma ChunkThere(v: seq<Sector>, h: InodeDisk, offset: nat, n: nat, chunk: nat)
    requires There(v, h, offset, n) && (offset + n) % SECTOR_SIZE + chunk <= SECTOR_SIZE
    requires Resolve(v, h, Data((offset + n) / SECTOR_SIZE)) != UNUSED
    ensures There(v, h, offset, n + chunk)
  {
    hide Resolve;
    forall p | offset / SECTOR_SIZE <= p && p * SECTOR_SIZE < offset + n + chunk ensures Resolve(v, h, Data(p)) != UNUSED {
      assert p <= (offset + n) / SECTOR_SIZE;
      if p < (offset + n) / SECTOR_SIZE {
        assert p * SECTOR_SIZE < offset + n;
      }
    }
  }

  lemma NothingThere(v: seq<Sector>, h: InodeDisk, offset: nat)
    ensures There(v, h, offset, 0)
  {
  }

  lemma KeptThere(a: Sys, b: Sys, ino: nat, offset: nat, n: nat)
    requires Kept(a, b, ino) && There(a.view, a.hdrs[ino], offset, n)
    ensures There(b.view, b.hdrs[ino], offset, n)
  {
    hide Resolve;
    forall p | n > 0 && offset / SECTOR_SIZE <= p && p * SECTOR_SIZE < offset + n ensures Resolve(b.view, b.hdrs[ino], Data(p)) != UNUSED {
      assert Resolve(a.view, a.hdrs[ino], Data(p)) != UNUSED;
    }
  }

  /** All blocks of a range are there exactly when no node of it is missing. */
  lemma ThereTouched(y: Sys, ino: nat, offset: nat, size: nat)
    requires Wf(St(y)) && ino in y.hdrs && There(y.view, y.hdrs[ino], offset, size)
    ensures Missing(y, ino, Touched(offset, size)) == {}
  {
    hide Resolve, Path, Wf;
    if size > 0 {
      AllThere(y, ino, offset / SECTOR_SIZE, (offset + size - 1) / SECTOR_SIZE + 1);
    }
  }

  /** Whether a call that needs these bytes in place gets through. */
  lemma Decided(a: Sys, b: Sys, ino: nat, offset: nat, size: nat, n: nat, ok: bool)
    requires Wf(St(a)) && Wf(St(b)) && NoLimbo(b) && Booked(a, b, ino, Touched(offset, size)) && Kept(a, b, ino)
    requires ok ==> There(b.view, b.hdrs[ino], offset, size)
    requires !ok ==> DiskFull(b) && n < size && Resolve(b.view, b.hdrs[ino], Data((offset + n) / SECTOR_SIZE)) == UNUSED
    ensures ok <==> Fits(a, ino, Touched(offset, size))
    ensures ok ==> Spent(a, b, ino, Touched(offset, size))
  {
    hide Resolve, Wf, Booked, Fits, DiskFull, There, NoLimbo, Touched;
    if ok {
      ThereTouched(b, ino, offset, size);
      Conservation(a, b, ino, Touched(offset, size));
      GotThem(a, b, ino, Touched(offset, size), Touched(offset, size));
    } else {
      ChunkTouched(offset, size, n);
      RanOut(a, b, ino, Touched(offset, size), Data((offset + n) / SECTOR_SIZE));
    }
  }

  lemma FixedFits(a: Sys, ino: nat, offset: nat, size: nat)
    requires InPlace(a, ino, offset, size)
    ensures Fits(a, ino, Touched(offset, size)) && Missing(a, ino, Touched(offset, size)) == {}
  {
    hide Resolve, Wf, Touched;
    ThereTouched(a, ino, offset, size);
  }

  lemma CarriedKept(a: Sys, b: Sys, ino: nat)
    requires Carried(a, b, ino)
    ensures Kept(a, b, ino) && Wf(St(a)) && Wf(St(b)) && (Ready(a) && (a.mounted ==> ino != FREE_MAP) ==> NoLimbo(b))
  {
    hide Resolve, Wf, SameBytes;
  }

  lemma StationaryWords(a: Sys, b: Sys, ino: nat)
    requires Carried(a, b, ino)
    ensures Stationary(a, b, ino) ==> b.words == a.words
  {
  }

  lemma SameFree(a: Sys, b: Sys)
    requires |b.view| == |a.view| && b.words == a.words
    ensures FreeSet(b) == FreeSet(a)
  {
  }

  lemma GrowsKept(a: Sys, b: Sys, ino: nat)
    requires Grows(a, b, ino)
    ensures Kept(a, b, ino)
  {
    hide Resolve, SameBytes, BM.BitsOf;
  }

  /** allocate_block for the next chunk of a write. */
  lemma ChunkPlaced(a: Sys, y: Sys, z: Sys, ino: nat, offset: nat, size: nat, n: nat)
    requires Booked(a, y, ino, Touched(offset, size)) && Booked(y, z, ino, Path((offset + n) / SECTOR_SIZE)) && n < size
    requires Grows(y, z, ino) && There(y.view, y.hdrs[ino], offset, n)
    ensures Booked(a, z, ino, Touched(offset, size)) && There(z.view, z.hdrs[ino], offset, n)
  {
    hide Booked, Grows, There, Path, Touched, Kept;
    ChunkBooked(a, y, z, ino, offset, size, n);
    GrowsKept(y, z, ino);
    KeptThere(y, z, ino, offset, n);
  }

  /** The next chunk itself. */
  lemma ChunkPoked(a: Sys, y: Sys, z: Sys, ino: nat, offset: nat, size: nat, n: nat, chunk: nat)
    requires Booked(a, y, ino, Touched(offset, size)) && n + chunk <= size && Inv(y) && ino in y.hdrs && ino in z.hdrs
    requires |z.view| == |y.view| && z.words == y.words && z.owner == y.owner && SameNodes(y, z, ino)
    requires There(y.view, y.hdrs[ino], offset, n) && (offset + n) % SECTOR_SIZE + chunk <= SECTOR_SIZE
    requires Resolve(y.view, y.hdrs[ino], Data((offset + n) / SECTOR_SIZE)) != UNUSED
    ensures Booked(a, z, ino, Touched(offset, size)) && There(z.view, z.hdrs[ino], offset, n + chunk)
  {
    hide Booked, There, Path, Touched, Inv, Resolve;
    BookedSame(y, z, ino, {});
    BookedThen(a, y, z, ino, Touched(offset, size), {}, Touched(offset, size));
    KeptThere(y, z, ino, offset, n);
    ChunkThere(z.view, z.hdrs[ino], offset, n, chunk);
  }

  /** At the end of a read or write: y is the state after the loop, z the state after the header has been stored back. */
  lemma EditDecided(a: Sys, y: Sys, z: Sys, ino: nat, offset: nat, size: nat, n: nat, fixed: bool, ok: bool)
    requires Carried(a, z, ino) && z.view == y.view && z.hdrs == y.hdrs && z.words == y.words && z.owner == y.owner
    requires Booked(a, y, ino, Touched(offset, size))
    requires if fixed then ok && InPlace(a, ino, offset, size) else Ready(a) && (a.mounted ==> ino != FREE_MAP)
    requires ok ==> There(y.view, y.hdrs[ino], offset, size)
    requires !ok ==> DiskFull(y) && n < size && Resolve(y.view, y.hdrs[ino], Data((offset + n) / SECTOR_SIZE)) == UNUSED
    requires fixed ==> z.words == a.words
    ensures ok <==> Fits(a, ino, Touched(offset, size))
    ensures ok ==> Spent(a, z, ino, Touched(offset, size))
  {
    hide Resolve, Wf, Fits, There, Touched, Carried, Inv, Ready, BM.BitsOf, SameBytes;
    CarriedKept(a, z, ino);
    if fixed {
      FixedFits(a, ino, offset, size);
      assert FreeSet(z) == FreeSet(a);
    } else {
      Decided(a, z, ino, offset, size, n, ok);
    }
  }

  /** A write as a whole: the header is stored back after n bytes. */
  lemma WriteFinished(a: Sys, y: Sys, z: Sys, ino: nat, length: nat, buffer: seq<byte>, offset: nat, n: nat, fixed: bool, ok: bool)
    requires n <= |buffer| && Editing(a, y, ino, length, buffer[..n], offset, fixed) && (ok <==> n == |buffer|)
    requires z == y.(open := a.open[ino := a.open[ino].(data := y.hdrs[ino])], busy := a.busy)
    requires Booked(a, y, ino, Touched(offset, |buffer|))
    requires if fixed then ok && InPlace(a, ino, offset, |buffer|) else Ready(a) && (a.mounted ==> ino != FREE_MAP)
    requires ok ==> There(y.view, y.hdrs[ino], offset, |buffer|)
    requires !ok ==> DiskFull(y) && Resolve(y.view, y.hdrs[ino], Data((offset + n) / SECTOR_SIZE)) == UNUSED
    ensures Carried(a, z, ino) && (fixed ==> Stationary(a, z, ino) && z.open == a.open)
    ensures ok ==> BytesWritten(a, z, ino, buffer, offset) && Spent(a, z, ino, Touched(offset, |buffer|))
    ensures ok <==> Fits(a, ino, Touched(offset, |buffer|))
  {
    hide Editing, Carried, Inv, Ready, BytesWritten, Stationary, Resolve, DiskFull, There, Booked, Touched, Fits, Spent, InPlace;
    EditEnd(a, y, z, ino, length, buffer[..n], offset, fixed);
    assert ok ==> buffer[..n] == buffer;
    StationaryWords(a, z, ino);
    EditDecided(a, y, z, ino, offset, |buffer|, n, fixed, ok);
  }

  /** How many of size bytes from offset on a file of this length has. */
  function Clip(length: nat, offset: nat, size: nat): (n: nat)
    ensures n <= size
  {
    if length <= offset then 0 else if length - offset < size then length - offset else size
  }

  /** How many bytes from offset on inode_read_at asks for blocks of: one more than it reads if it comes to
      the end of the file. */
  function Asked(length: nat, offset: nat, size: nat): (n: nat)
    ensures Clip(length, offset, size) <= n <= size
  {
    var clip := Clip(length, offset, size);
    if clip < size then clip + 1 else clip
  }

  /** The blocks inode_read_at asks for exist in the index: it asks for the one at the end of the file
      too, unless it has what it wants before it gets there. */
  predicate InReach(length: nat, offset: nat, size: nat) {
    size == 0 || offset + size <= MAX_BYTES || (offset < MAX_BYTES && length < MAX_BYTES)
  }

  /** The next chunk of a read, n bytes having been read. */
  lemma ReadBooked(a: Sys, y: Sys, z: Sys, ino: nat, offset: nat, clip: nat, n: nat)
    requires Booked(a, y, ino, Touched(offset, clip)) && n <= clip && Booked(y, z, ino, Path((offset + n) / SECTOR_SIZE))
    ensures n < clip ==> Booked(a, z, ino, Touched(offset, clip))
    ensures n == clip ==> Booked(a, z, ino, Touched(offset, clip + 1))
  {
    hide Booked, Path, Touched;
    if n < clip {
      ChunkBooked(a, y, z, ino, offset, clip, n);
    } else {
      TouchedWithin(offset, clip, clip + 1);
      BookedWiden(a, y, ino, Touched(offset, clip), Touched(offset, clip + 1));
      ChunkBooked(a, y, z, ino, offset, clip + 1, n);
    }
  }

  /** The block at the end of the file, which may not be had. */
  lemma EndThere(y: Sys, z: Sys, ino: nat, offset: nat, n: nat)
    requires Kept(y, z, ino) && There(y.view, y.hdrs[ino], offset, n)
    requires Resolve(z.view, z.hdrs[ino], Data((offset + n) / SECTOR_SIZE)) != UNUSED
    ensures There(z.view, z.hdrs[ino], offset, n + 1)
  {
    hide There, Resolve;
    KeptThere(y, z, ino, offset, n);
    ChunkThere(z.view, z.hdrs[ino], offset, n, 1);
  }

  lemma ReadThere(y: Sys, z: Sys, ino: nat, offset: nat, n: nat, chunk: nat)
    requires Kept(y, z, ino) && There(y.view, y.hdrs[ino], offset, n)
    requires (offset + n) % SECTOR_SIZE + chunk <= SECTOR_SIZE
    requires chunk > 0 ==> Resolve(z.view, z.hdrs[ino], Data((offset + n) / SECTOR_SIZE)) != UNUSED
    ensures There(z.view, z.hdrs[ino], offset, n + chunk)
  {
    hide There, Resolve;
    KeptThere(y, z, ino, offset, n);
    if chunk > 0 {
      ChunkThere(z.view, z.hdrs[ino], offset, n, chunk);
    }
  }

  lemma ReadDecided(a: Sys, y: Sys, z: Sys, ino: nat, offset: nat, asked: nat, clip: nat, n: nat, fixed: bool, ok: bool)
    requires Carried(a, z, ino) && z.view == y.view && z.hdrs == y.hdrs && z.words == y.words && z.owner == y.owner
    requires clip <= asked && Booked(a, y, ino, Touched(offset, if ok then asked else clip)) && (fixed ==> z.words == a.words)
    requires if fixed then ok && clip == asked && InPlace(a, ino, offset, asked) else Ready(a) && (a.mounted ==> ino != FREE_MAP)
    requires ok ==> There(y.view, y.hdrs[ino], offset, clip) && (There(y.view, y.hdrs[ino], offset, asked) || DiskFull(y))
    requires !ok ==> DiskFull(y) && n < clip && Resolve(y.view, y.hdrs[ino], Data((offset + n) / SECTOR_SIZE)) == UNUSED
    ensures ok <==> Fits(a, ino, Touched(offset, clip))
    ensures ok ==> SpentOrAll(a, z, ino, Touched(offset, asked))
  {
    hide Resolve, Wf, Fits, There, Touched, Carried, Inv, Ready, BM.BitsOf, SameBytes, FreeSet, SpentOrAll;
    CarriedKept(a, z, ino);
    if fixed {
      FixedFits(a, ino, offset, asked);
      FixedSpends(a, z, ino, offset, asked);
    } else if ok {
      ThereTouched(z, ino, offset, clip);
      TouchedWithin(offset, clip, asked);
      GotThem(a, z, ino, Touched(offset, asked), Touched(offset, clip));
      ReadSpends(a, z, ino, offset, asked);
    } else {
      Decided(a, z, ino, offset, clip, n, ok);
    }
  }

  lemma FixedSpends(a: Sys, z: Sys, ino: nat, offset: nat, asked: nat)
    requires InPlace(a, ino, offset, asked) && |z.view| == |a.view| && z.words == a.words
    ensures SpentOrAll(a, z, ino, Touched(offset, asked))
  {
    hide Inv, FreeSet, Touched, Mapped;
    FixedFits(a, ino, offset, asked);
    SameFree(a, z);
  }

  lemma ReadSpends(a: Sys, z: Sys, ino: nat, offset: nat, asked: nat)
    requires Wf(St(a)) && Wf(St(z)) && NoLimbo(z) && Booked(a, z, ino, Touched(offset, asked)) && Kept(a, z, ino)
    requires There(z.view, z.hdrs[ino], offset, asked) || DiskFull(z)
    ensures SpentOrAll(a, z, ino, Touched(offset, asked))
  {
    hide Wf, NoLimbo, Booked, Resolve, There, DiskFull, FreeSet, Missing, Touched;
    Conservation(a, z, ino, Touched(offset, asked));
    if DiskFull(z) {
      FullHasNone(z);
    } else {
      ThereTouched(z, ino, offset, asked);
    }
  }

  // Creating a file.

  lemma CreateBooked(b: Sys, y: Sys, z: Sys, ino: nat, i: nat)
    requires Booked(b, y, ino, Paths(0, i)) && Booked(y, z, ino, Path(i))
    ensures Booked(b, z, ino, Paths(0, i + 1))
  {
    hide Booked, Path;
    PathsWithin(0, i, 0, i + 1);
    PathsHave(0, i + 1, i);
    BookedThen(b, y, z, ino, Paths(0, i), Path(i), Paths(0, i + 1));
  }

  /** inode_create goes on after a failure, in vain. */
  lemma StillLacking(y: Sys, z: Sys, ino: nat, i: nat, n: nat)
    requires Wf(St(y)) && Wf(St(z)) && Grows(y, z, ino) && Booked(y, z, ino, Path(i)) && DiskFull(y)
    requires !FirstBlocks(y, ino, n)
    ensures !FirstBlocks(z, ino, n)
  {
    hide Resolve, Wf, Booked, DiskFull, Path, BM.BitsOf, SameBytes;
    var p :| 0 <= p < n && Resolve(y.view, y.hdrs[ino], Data(p)) == UNUSED;
    GrowsKept(y, z, ino);
    FullAddsNothing(y, z, ino, Path(i), Data(p));
  }

  /** A file can be created exactly when there is a free sector for each of its nodes. */
  lemma CreateDecided(a: Sys, b: Sys, y: Sys, ino: nat, sectors: nat, success: bool)
    requires b.words == a.words && b.view == a.view && Wf(St(b)) && Wf(St(y)) && NoLimbo(y) && ino in b.hdrs
    requires forall n :: Resolve(b.view, b.hdrs[ino], n) == UNUSED
    requires Grows(b, y, ino) && Booked(b, y, ino, Paths(0, sectors))
    requires success == FirstBlocks(y, ino, sectors) && (!success ==> DiskFull(y))
    ensures success <==> |Paths(0, sectors)| <= |FreeSet(a)|
    ensures success ==> FreeSet(y) <= FreeSet(a) && |FreeSet(y)| == |FreeSet(a)| - |Paths(0, sectors)|
  {
    hide Resolve, Wf, Booked, DiskFull, Path, BM.BitsOf, SameBytes, Grows, NoLimbo;
    assert Missing(b, ino, Paths(0, sectors)) == Paths(0, sectors);
    assert FreeSet(b) == FreeSet(a);
    GrowsKept(b, y, ino);
    if success {
      AllThere(y, ino, 0, sectors);
      Conservation(b, y, ino, Paths(0, sectors));
      GotThem(b, y, ino, Paths(0, sectors), Paths(0, sectors));
    } else {
      var p :| 0 <= p < sectors && Resolve(y.view, y.hdrs[ino], Data(p)) == UNUSED;
      PathsHave(0, sectors, p);
      RanOut(b, y, ino, Paths(0, sectors), Data(p));
    }
  }

  lemma CreateTookFree(a: Sys, b: Sys, y: Sys, z: Sys, ino: nat, nodes: set<Node>)
    requires Inv(a) && b.words == a.words && b.view == a.view && b.owner == a.owner[ino := Header] && Booked(b, y, ino, nodes)
    requires |z.view| == |y.view| && z.words == y.words && z.owner == y.owner
    ensures TookFree(a, z, ino)
  {
    hide BM.BitsOf, Wf, HeadersOk, CacheOk, MountOk;
  }
}
