/** The block allocator of threads/malloc.c on values: arenas carved into blocks of one size, free
    lists of block addresses, big blocks of whole pages, and the invariant every call keeps.

    Pages are numbered by address: page p holds the addresses from PGSIZE * p. */
module Arenas {
  import opened Bitmap
  import Arithmetic

  const PGSIZE := 4096
  const HEADER := 12        // sizeof (struct arena)
  const DESC_CNT := 7       // block sizes 16, 32, .., 1024

  /** The block size of a descriptor. */
  function Size(d: nat): nat
    requires d < DESC_CNT
  {
    [16, 32, 64, 128, 256, 512, 1024][d]
  }

  function PerArena(d: nat): nat
    requires d < DESC_CNT
  {
    (PGSIZE - HEADER) / Size(d)
  }

  /** The header of an arena: a page of blocks of one descriptor with its count of free ones, or a big
      block with its count of pages. */
  datatype Arena = Small(desc: nat, freeCnt: nat) | Big(pages: nat)

  function Span(a: Arena): nat {
    if a.Small? then 1 else a.pages
  }

  /** start and bits are the page pool; live gives for each block handed out and not freed since the size it was asked for. */
  datatype State = State(start: nat, bits: seq<bool>, arenas: map<nat, Arena>, free: seq<seq<nat>>, live: map<nat, nat>)

  /** The pool's bitmap, whose bit 0 is for page start. */
  predicate InUse(st: State, p: nat) {
    st.start <= p < st.start + |st.bits| && st.bits[p - st.start]
  }

  // ---------- Address arithmetic ----------

  /** arena_to_block. */
  function BlockAt(p: nat, d: nat, i: nat): nat
    requires d < DESC_CNT
  {
    PGSIZE * p + HEADER + i * Size(d)
  }

  /** The page of block_to_arena. */
  function PageOf(a: nat): nat { a / PGSIZE }

  function IndexOf(a: nat, d: nat): int
    requires d < DESC_CNT
  {
    (a % PGSIZE - HEADER) / Size(d)
  }

  /** The assertions of block_to_arena for a block of descriptor d. */
  predicate Placed(a: nat, d: nat)
    requires d < DESC_CNT
  {
    a % PGSIZE >= HEADER && (a % PGSIZE - HEADER) % Size(d) == 0 && IndexOf(a, d) < PerArena(d)
  }

  /** As many blocks as fit a page behind the header. */
  lemma PerArenaFits(d: nat)
    requires d < DESC_CNT
    ensures HEADER + PerArena(d) * Size(d) <= PGSIZE < HEADER + (PerArena(d) + 1) * Size(d)
  {
  }

  lemma BlockFits(d: nat, i: nat)
    requires d < DESC_CNT && i < PerArena(d)
    ensures HEADER + i * Size(d) + Size(d) <= PGSIZE
  {
    assert (i + 1) * Size(d) <= PerArena(d) * Size(d);
    assert PerArena(d) * Size(d) <= PGSIZE - HEADER;
  }

  lemma Quotient(p: nat, r: nat)
    requires r < PGSIZE
    ensures (PGSIZE * p + r) / PGSIZE == p && (PGSIZE * p + r) % PGSIZE == r
  {
  }

  lemma MultipleOf(i: nat, s: nat)
    requires s > 0
    ensures (i * s) / s == i && (i * s) % s == 0
  {
    Arithmetic.QuotientIs(i * s, s, i, 0);
  }

  /** block_to_arena undoes arena_to_block. */
  lemma BlockRoundTrip(p: nat, d: nat, i: nat)
    requires d < DESC_CNT && i < PerArena(d)
    ensures var a := BlockAt(p, d, i);
            PageOf(a) == p && a % PGSIZE == HEADER + i * Size(d) && Placed(a, d) && IndexOf(a, d) == i
  {
    BlockFits(d, i);
    Quotient(p, HEADER + i * Size(d));
    MultipleOf(i, Size(d));
  }

  lemma AddressRoundTrip(a: nat, d: nat)
    requires d < DESC_CNT && Placed(a, d)
    ensures BlockAt(PageOf(a), d, IndexOf(a, d)) == a
  {
    var r := a % PGSIZE - HEADER;
    assert r == Size(d) * (r / Size(d)) + r % Size(d);
  }

  /** Two blocks of an arena do not overlap, nor do they reach the next page. */
  lemma BlocksApart(p: nat, d: nat, i: nat, j: nat)
    requires d < DESC_CNT && i < j < PerArena(d)
    ensures BlockAt(p, d, i) + Size(d) <= BlockAt(p, d, j)
  {
    assert (i + 1) * Size(d) <= j * Size(d);
    assert (i + 1) * Size(d) == i * Size(d) + Size(d);
  }

  // ---------- The invariant ----------

  predicate Distinct(q: seq<nat>) {
    forall i, j :: 0 <= i < j < |q| ==> q[i] != q[j]
  }

  /** a is a place for a block in an arena of descriptor d. */
  predicate IsBlock(arenas: map<nat, Arena>, a: nat, d: nat) {
    d < DESC_CNT && PageOf(a) in arenas && arenas[PageOf(a)].Small? && arenas[PageOf(a)].desc == d && Placed(a, d)
  }

  /** q is one of the pages of an arena. */
  ghost predicate Covered(arenas: map<nat, Arena>, q: nat) {
    exists p :: p in arenas && p <= q < p + Span(arenas[p])
  }

  /** Arenas stand on used pages and do not overlap, and every used page is an arena's. */
  ghost predicate PagesApart(st: State) {
    && (forall p :: p in st.arenas ==> ArenaShape(st.arenas[p]))
    && (forall p, q :: p in st.arenas && p <= q < p + Span(st.arenas[p]) ==> InUse(st, q))
    && (forall p, q :: p in st.arenas && q in st.arenas && p < q ==> p + Span(st.arenas[p]) <= q)
    && (forall q :: InUse(st, q) ==> Covered(st.arenas, q))
  }

  predicate ArenaShape(a: Arena) {
    match a
    case Small(d, _) => d < DESC_CNT
    case Big(n) => n >= 1
  }

  /** The free list of a descriptor holds blocks of its arenas, each at most once. */
  ghost predicate FreeList(arenas: map<nat, Arena>, q: seq<nat>, d: nat) {
    Distinct(q) && forall a :: a in q ==> IsBlock(arenas, a, d)
  }

  ghost predicate FreeLists(st: State) {
    |st.free| == DESC_CNT && forall d :: 0 <= d < DESC_CNT ==> FreeList(st.arenas, st.free[d], d)
  }

  ghost function FreeOn(q: seq<nat>, p: nat): set<nat> {
    set a | a in q && PageOf(a) == p
  }

  /** free_cnt counts the arena's blocks on the free list. */
  ghost predicate Counted(st: State, p: nat)
    requires p in st.arenas
  {
    st.arenas[p].Small? ==>
      st.arenas[p].desc < |st.free| && st.arenas[p].freeCnt == |FreeOn(st.free[st.arenas[p].desc], p)|
  }

  /** The places that are not free: blocks off the free list, and the blocks of big arenas. */
  ghost predicate Taken(st: State, a: nat) {
    && PageOf(a) in st.arenas
    && match st.arenas[PageOf(a)]
       case Small(d, _) => d < DESC_CNT && d < |st.free| && Placed(a, d) && a !in st.free[d]
       case Big(_) => a % PGSIZE == HEADER
  }

  /** The bytes a taken block may use. */
  function Capacity(st: State, a: nat): nat
    requires PageOf(a) in st.arenas && ArenaShape(st.arenas[PageOf(a)])
  {
    match st.arenas[PageOf(a)]
    case Small(d, _) => Size(d)
    case Big(n) => PGSIZE * n - HEADER
  }

  /** The live blocks are the taken ones, each with room for what was asked. */
  ghost predicate Lives(st: State) {
    && (forall a :: a in st.live <==> Taken(st, a))
    && (forall a :: a in st.live ==> Roomy(st, a))
  }

  ghost predicate Roomy(st: State, a: nat)
    requires a in st.live
  {
    PageOf(a) in st.arenas && ArenaShape(st.arenas[PageOf(a)]) && 0 < st.live[a] <= Capacity(st, a)
  }

  /** The invariant within a call, while an arena may be entirely free. */
  ghost predicate Sound(st: State) {
    PagesApart(st) && FreeLists(st) && (forall p :: p in st.arenas ==> Counted(st, p)) && Lives(st)
  }

  /** Between calls every arena of blocks has a live one: its page goes back with the last. */
  ghost predicate NoIdleArena(st: State) {
    forall p :: p in st.arenas && st.arenas[p].Small? && st.arenas[p].desc < DESC_CNT ==>
      st.arenas[p].freeCnt < PerArena(st.arenas[p].desc)
  }

  ghost predicate Inv(st: State) {
    Sound(st) && NoIdleArena(st)
  }

  // ---------- What the invariant means ----------

  lemma TakenEnds(st: State, a: nat)
    requires Sound(st) && a in st.live
    ensures PageOf(a) in st.arenas && ArenaShape(st.arenas[PageOf(a)])
    ensures PGSIZE * PageOf(a) + HEADER <= a && a + Capacity(st, a) <= PGSIZE * (PageOf(a) + Span(st.arenas[PageOf(a)]))
  {
    assert Taken(st, a);
    hide FreeLists, Counted, Lives;
    var p := PageOf(a);
    assert a == PGSIZE * p + a % PGSIZE;
    match st.arenas[p]
    case Small(d, _) =>
      AddressRoundTrip(a, d);
      BlockFits(d, IndexOf(a, d));
    case Big(n) =>
  }

  /** Live blocks are pairwise disjoint. */
  lemma LiveDisjoint(st: State, a: nat, b: nat)
    requires Sound(st) && a in st.live && b in st.live && a < b
    ensures PageOf(a) in st.arenas && ArenaShape(st.arenas[PageOf(a)]) && a + Capacity(st, a) <= b
  {
    TakenEnds(st, a);
    TakenEnds(st, b);
    assert Taken(st, a) && Taken(st, b);
    hide FreeLists, Counted, Lives;
    var p: nat, q: nat := PageOf(a), PageOf(b);
    assert a == PGSIZE * p + a % PGSIZE && b == PGSIZE * q + b % PGSIZE;
    if p == q {
      if st.arenas[p].Small? {
        var d := st.arenas[p].desc;
        AddressRoundTrip(a, d);
        AddressRoundTrip(b, d);
        IndexOrder(a, b, d);
        BlocksApart(p, d, IndexOf(a, d), IndexOf(b, d));
      }
    } else {
      assert p < q;
      assert p + Span(st.arenas[p]) <= q;
    }
  }

  lemma IndexOrder(a: nat, b: nat, d: nat)
    requires d < DESC_CNT && Placed(a, d) && Placed(b, d) && PageOf(a) == PageOf(b) && a < b
    ensures IndexOf(a, d) < IndexOf(b, d)
  {
    AddressRoundTrip(a, d);
    AddressRoundTrip(b, d);
    var i, j := IndexOf(a, d), IndexOf(b, d);
    assert i * Size(d) < j * Size(d);
  }

  // ---------- The blocks of an arena ----------

  /** The first n blocks of an arena, in order. */
  function Blocks(p: nat, d: nat, n: nat): seq<nat>
    requires d < DESC_CNT
  {
    if n == 0 then [] else Blocks(p, d, n - 1) + [BlockAt(p, d, n - 1)]
  }

  lemma {:induction false} BlocksAre(p: nat, d: nat, n: nat)
    requires d < DESC_CNT && n <= PerArena(d)
    ensures |Blocks(p, d, n)| == n && forall i :: 0 <= i < n ==> Blocks(p, d, n)[i] == BlockAt(p, d, i)
    ensures forall a :: a in Blocks(p, d, n) <==> PageOf(a) == p && Placed(a, d) && IndexOf(a, d) < n
    ensures Distinct(Blocks(p, d, n))
  {
    if n > 0 {
      var before, last := Blocks(p, d, n - 1), BlockAt(p, d, n - 1);
      BlocksAre(p, d, n - 1);
      BlockRoundTrip(p, d, n - 1);
      hide Placed, IndexOf, PageOf, BlockAt;
      Push(before, last);
      forall a | PageOf(a) == p && Placed(a, d) && IndexOf(a, d) == n - 1 ensures a == last {
        AddressRoundTrip(a, d);
      }
      forall a | Placed(a, d) ensures IndexOf(a, d) >= 0 { IndexIsNatural(a, d); }
    }
  }

  lemma IndexIsNatural(a: nat, d: nat)
    requires d < DESC_CNT && Placed(a, d)
    ensures IndexOf(a, d) >= 0
  {
  }

  lemma Push(q: seq<nat>, a: nat)
    requires Distinct(q) && a !in q
    ensures Distinct(q + [a]) && Distinct([a] + q)
    ensures forall x :: x in q + [a] <==> x in q || x == a
    ensures forall x :: x in [a] + q <==> x in q || x == a
  {
    assert (q + [a])[|q|] == a && ([a] + q)[0] == a;
    assert ([a] + q)[1..] == q;
  }

  lemma Pop(q: seq<nat>)
    requires Distinct(q) && q != []
    ensures Distinct(q[1..]) && forall x :: x in q[1..] <==> x in q && x != q[0]
  {
    assert q == [q[0]] + q[1..];
  }

  lemma Join(a: seq<nat>, b: seq<nat>)
    requires Distinct(a) && Distinct(b) && forall x :: x in a ==> x !in b
    ensures Distinct(a + b) && forall x :: x in a + b <==> x in a || x in b
  {
    forall i, j | 0 <= i < j < |a + b| ensures (a + b)[i] != (a + b)[j] {
      if i < |a| <= j { assert a[i] in a && b[j - |a|] in b; }
    }
  }

  ghost function Elements(q: seq<nat>): set<nat> {
    set a | a in q
  }

  lemma {:induction false} CountOf(q: seq<nat>)
    requires Distinct(q)
    ensures |Elements(q)| == |q|
  {
    if q != [] {
      Pop(q);
      CountOf(q[1..]);
      assert Elements(q) == Elements(q[1..]) + {q[0]} && q[0] !in Elements(q[1..]);
    }
  }

  /** An arena has as many blocks as blocks_per_arena says: the count is full exactly when all its blocks
      are on the free list. */
  lemma AllFree(arenas: map<nat, Arena>, q: seq<nat>, p: nat, d: nat)
    requires d < DESC_CNT && FreeList(arenas, q, d)
    ensures |FreeOn(q, p)| <= PerArena(d)
    ensures |FreeOn(q, p)| == PerArena(d) <==> forall a :: PageOf(a) == p && Placed(a, d) ==> a in q
  {
    var all := Elements(Blocks(p, d, PerArena(d)));
    BlocksAre(p, d, PerArena(d));
    CountOf(Blocks(p, d, PerArena(d)));
    hide Placed, IndexOf, PageOf, Blocks, PerArena;
    assert FreeOn(q, p) <= all by {
      forall a | a in FreeOn(q, p) ensures a in all {
        assert IsBlock(arenas, a, d);
        PlacedIndex(a, d);
      }
    }
    Subset(FreeOn(q, p), all);
    if |FreeOn(q, p)| == PerArena(d) {
      forall a | PageOf(a) == p && Placed(a, d) ensures a in q {
        PlacedIndex(a, d);
        assert a in all && a in FreeOn(q, p);
      }
    }
    if forall a :: PageOf(a) == p && Placed(a, d) ==> a in q {
      assert all <= FreeOn(q, p);
      Subset(all, FreeOn(q, p));
    }
  }

  lemma PlacedIndex(a: nat, d: nat)
    requires d < DESC_CNT && Placed(a, d)
    ensures IndexOf(a, d) < PerArena(d)
  {
  }

  lemma Subset(a: set<nat>, b: set<nat>)
    requires a <= b
    ensures |a| <= |b| && (|a| == |b| ==> a == b)
  {
    assert b == a + (b - a);
    assert |b| == |a| + |b - a|;
  }

  // ---------- The steps of malloc and free ----------

  /** A new arena on a page just obtained, with all its blocks at the back of the free list. */
  function AddArena(st: State, p: nat, d: nat): State
    requires d < DESC_CNT && |st.free| == DESC_CNT && st.start <= p < st.start + |st.bits|
  {
    st.(bits := SetBits(st.bits, p - st.start, 1, true), arenas := st.arenas[p := Small(d, PerArena(d))],
        free := st.free[d := st.free[d] + Blocks(p, d, PerArena(d))])
  }

  /** The first free block of a descriptor handed out. */
  function TakeBlock(st: State, d: nat, size: nat): State
    requires d < |st.free| && st.free[d] != [] && PageOf(st.free[d][0]) in st.arenas
    requires st.arenas[PageOf(st.free[d][0])].Small? && st.arenas[PageOf(st.free[d][0])].freeCnt > 0
  {
    var a := st.free[d][0];
    var p := PageOf(a);
    st.(free := st.free[d := st.free[d][1..]], arenas := st.arenas[p := Small(d, st.arenas[p].freeCnt - 1)],
        live := st.live[a := size])
  }

  /** A block put at the front of its free list. */
  function GiveBlock(st: State, a: nat): State
    requires PageOf(a) in st.arenas && st.arenas[PageOf(a)].Small? && st.arenas[PageOf(a)].desc < |st.free|
  {
    var p := PageOf(a);
    var d := st.arenas[p].desc;
    st.(free := st.free[d := [a] + st.free[d]], arenas := st.arenas[p := Small(d, st.arenas[p].freeCnt + 1)],
        live := st.live - {a})
  }

  /** The blocks of other pages, in order. */
  function OffPage(q: seq<nat>, p: nat): seq<nat> {
    if q == [] then [] else if PageOf(q[0]) == p then OffPage(q[1..], p) else [q[0]] + OffPage(q[1..], p)
  }

  /** An entirely free arena taken apart, and its page returned. */
  function DropArena(st: State, p: nat): State
    requires p in st.arenas && st.arenas[p].Small? && st.arenas[p].desc < |st.free|
    requires st.start <= p < st.start + |st.bits|
  {
    var d := st.arenas[p].desc;
    st.(bits := SetBits(st.bits, p - st.start, 1, false), arenas := st.arenas - {p}, free := st.free[d := OffPage(st.free[d], p)])
  }

  function AddBig(st: State, p: nat, n: nat, size: nat): State
    requires st.start <= p && p + n <= st.start + |st.bits|
  {
    st.(bits := SetBits(st.bits, p - st.start, n, true), arenas := st.arenas[p := Big(n)],
        live := st.live[PGSIZE * p + HEADER := size])
  }

  function DropBig(st: State, a: nat): State
    requires PageOf(a) in st.arenas && st.arenas[PageOf(a)].Big?
    requires st.start <= PageOf(a) && PageOf(a) + st.arenas[PageOf(a)].pages <= st.start + |st.bits|
  {
    var p := PageOf(a);
    st.(bits := SetBits(st.bits, p - st.start, st.arenas[p].pages, false), arenas := st.arenas - {p}, live := st.live - {a})
  }

  // ---------- They keep the invariant ----------

  /** A page that is not in use is in no arena. */
  lemma FreshPage(st: State, p: nat, q: nat)
    requires PagesApart(st) && !InUse(st, p) && q in st.arenas
    ensures q != p && (q < p ==> q + Span(st.arenas[q]) <= p)
  {
    assert ArenaShape(st.arenas[q]);
    assert q <= p < q + Span(st.arenas[q]) ==> InUse(st, p);
  }

  lemma NoArenaYet(st: State, p: nat)
    requires PagesApart(st) && !InUse(st, p)
    ensures p !in st.arenas
  {
    if p in st.arenas { FreshPage(st, p, p); }
  }

  lemma AddPages(st: State, b: State, p: nat, x: Arena)
    requires PagesApart(st) && ArenaShape(x) && st.start <= p && p + Span(x) <= st.start + |st.bits|
    requires forall q :: p <= q < p + Span(x) ==> !InUse(st, q)
    requires b.start == st.start && b.bits == SetBits(st.bits, p - st.start, Span(x), true) && b.arenas == st.arenas[p := x]
    ensures PagesApart(b)
  {
    assert !InUse(st, p);
    forall q | q in st.arenas ensures q != p && (q < p ==> q + Span(st.arenas[q]) <= p) && (p < q ==> p + Span(x) <= q) {
      FreshPage(st, p, q);
      assert p <= q < p + Span(x) ==> !InUse(st, q);
      assert ArenaShape(st.arenas[q]);
      assert q <= q < q + Span(st.arenas[q]);
    }
    forall q, r | q in b.arenas && q <= r < q + Span(b.arenas[q]) ensures InUse(b, r) {
      assert q != p ==> InUse(st, r);
    }
    forall r: nat | InUse(b, r) ensures Covered(b.arenas, r) {
      if p <= r < p + Span(x) {
        assert b.arenas[p] == x;
      } else {
        assert InUse(st, r);
        var q: nat :| q in st.arenas && q <= r < q + Span(st.arenas[q]);
        assert q in b.arenas && b.arenas[q] == st.arenas[q];
      }
    }
  }

  /** b is st without the arena on page p. */
  ghost predicate WithoutArena(st: State, b: State, p: nat) {
    && p in st.arenas && st.start <= p && p + Span(st.arenas[p]) <= st.start + |st.bits|
    && b.start == st.start && b.bits == SetBits(st.bits, p - st.start, Span(st.arenas[p]), false) && b.arenas == st.arenas - {p}
  }

  lemma DropUsed(st: State, b: State, p: nat, q: nat, r: nat)
    requires PagesApart(st) && WithoutArena(st, b, p) && q in b.arenas && q <= r < q + Span(b.arenas[q])
    ensures InUse(b, r)
  {
    hide Covered;
    assert InUse(st, r);
    assert q < p ==> q + Span(st.arenas[q]) <= p;
    assert p < q ==> p + Span(st.arenas[p]) <= q;
  }

  lemma DropCovered(st: State, b: State, p: nat, r: nat)
    requires WithoutArena(st, b, p) && InUse(b, r) && Covered(st.arenas, r)
    ensures Covered(b.arenas, r)
  {
    var q: nat :| q in st.arenas && q <= r < q + Span(st.arenas[q]);
    assert q in b.arenas;
  }

  lemma DropPages(st: State, b: State, p: nat)
    requires PagesApart(st) && WithoutArena(st, b, p)
    ensures PagesApart(b)
  {
    forall q: nat, r: nat | q in b.arenas && q <= r < q + Span(b.arenas[q]) ensures InUse(b, r) {
      DropUsed(st, b, p, q, r);
    }
    forall r: nat | InUse(b, r) ensures Covered(b.arenas, r) {
      assert InUse(st, r);
      DropCovered(st, b, p, r);
    }
    hide InUse, Covered, SetBits;
  }

  lemma ArenaInPool(st: State, p: nat)
    requires PagesApart(st) && p in st.arenas
    ensures st.start <= p && p + Span(st.arenas[p]) <= st.start + |st.bits| && Span(st.arenas[p]) >= 1
    ensures forall q :: p <= q < p + Span(st.arenas[p]) ==> InUse(st, q)
  {
    assert ArenaShape(st.arenas[p]);
    var last := p + Span(st.arenas[p]) - 1;
    assert InUse(st, p) && InUse(st, last);
  }

  /** Blocks of old arenas stay blocks when an arena is added on a fresh page. */
  lemma FreeListGrows(arenas: map<nat, Arena>, q: seq<nat>, d: nat, p: nat, x: Arena)
    requires FreeList(arenas, q, d) && p !in arenas
    ensures FreeList(arenas[p := x], q, d) && forall a :: a in q ==> PageOf(a) != p
  {
    hide Distinct, Placed;
    forall a | a in q ensures IsBlock(arenas[p := x], a, d) && PageOf(a) != p {
      assert IsBlock(arenas, a, d);
    }
  }

  lemma AddArenaList(st: State, p: nat, d: nat)
    requires d < DESC_CNT && FreeLists(st) && p !in st.arenas && st.start <= p < st.start + |st.bits|
    ensures FreeLists(AddArena(st, p, d))
  {
    var b, added := AddArena(st, p, d), Blocks(p, d, PerArena(d));
    BlocksAre(p, d, PerArena(d));
    hide Distinct, Placed, PageOf, IndexOf, Blocks, PerArena;
    forall e | 0 <= e < DESC_CNT ensures FreeList(b.arenas, b.free[e], e) {
      FreeListGrows(st.arenas, st.free[e], e, p, Small(d, PerArena(d)));
      if e == d { Join(st.free[d], added); }
    }
  }

  lemma AddArenaCounts(st: State, p: nat, d: nat, q: nat)
    requires d < DESC_CNT && FreeLists(st) && p !in st.arenas && st.start <= p < st.start + |st.bits|
    requires q in AddArena(st, p, d).arenas && (q in st.arenas ==> Counted(st, q))
    ensures Counted(AddArena(st, p, d), q)
  {
    var b, added := AddArena(st, p, d), Blocks(p, d, PerArena(d));
    BlocksAre(p, d, PerArena(d));
    CountOf(added);
    FreeListGrows(st.arenas, st.free[d], d, p, Small(d, PerArena(d)));
    hide FreeList, Distinct, Placed, PageOf, IndexOf, Blocks, PerArena;
    if q == p {
      assert FreeOn(b.free[d], p) == Elements(added);
    } else if st.arenas[q].Small? && st.arenas[q].desc == d {
      assert FreeOn(b.free[d], q) == FreeOn(st.free[d], q);
    }
  }

  lemma AddArenaTaken(st: State, p: nat, d: nat, a: nat)
    requires d < DESC_CNT && FreeLists(st) && p !in st.arenas && st.start <= p < st.start + |st.bits|
    ensures Taken(AddArena(st, p, d), a) <==> Taken(st, a)
  {
    BlocksAre(p, d, PerArena(d));
    hide FreeList, Distinct, Blocks, PageOf, IndexOf, PerArena;
    if Placed(a, d) { PlacedIndex(a, d); }
    hide Placed;
  }

  lemma AddArenaSound(st: State, p: nat, d: nat)
    requires Sound(st) && d < DESC_CNT && st.start <= p < st.start + |st.bits| && !InUse(st, p)
    ensures Sound(AddArena(st, p, d)) && p !in st.arenas
  {
    NoArenaYet(st, p);
    AddPages(st, AddArena(st, p, d), p, Small(d, PerArena(d)));
    hide PagesApart, FreeList, Counted, Taken, Placed, PageOf, IndexOf, Blocks, PerArena, Size;
    AddArenaList(st, p, d);
    forall q | q in AddArena(st, p, d).arenas ensures Counted(AddArena(st, p, d), q) { AddArenaCounts(st, p, d, q); }
    forall a ensures Taken(AddArena(st, p, d), a) <==> Taken(st, a) { AddArenaTaken(st, p, d, a); }
    forall a | a in AddArena(st, p, d).live ensures Roomy(AddArena(st, p, d), a) {
      assert Roomy(st, a);
      RoomyStays(st, AddArena(st, p, d), a);
    }
  }

  /** A block has the same room wherever its own arena keeps its kind. */
  lemma RoomyStays(st: State, b: State, a: nat)
    requires a in st.live && Roomy(st, a) && a in b.live && b.live[a] == st.live[a]
    requires PageOf(a) in b.arenas
    requires b.arenas[PageOf(a)] == st.arenas[PageOf(a)]
             || (b.arenas[PageOf(a)].Small? && st.arenas[PageOf(a)].Small? && b.arenas[PageOf(a)].desc == st.arenas[PageOf(a)].desc)
    ensures Roomy(b, a)
  {
    hide PageOf, Size;
  }

  // malloc of a block

  lemma FirstFree(st: State, d: nat)
    requires FreeLists(st) && (forall p :: p in st.arenas ==> Counted(st, p)) && d < DESC_CNT && st.free[d] != []
    ensures var a := st.free[d][0];
            IsBlock(st.arenas, a, d) && st.arenas[PageOf(a)].freeCnt > 0
  {
    hide Placed, PageOf, Distinct;
    var a := st.free[d][0];
    assert FreeList(st.arenas, st.free[d], d) && a in st.free[d];
    assert Counted(st, PageOf(a));
    assert a in FreeOn(st.free[d], PageOf(a));
  }

  /** Changing an arena's free count changes no block's place. */
  lemma FreeListRecount(arenas: map<nat, Arena>, q: seq<nat>, e: nat, p: nat, d: nat, n: nat)
    requires FreeList(arenas, q, e) && p in arenas && arenas[p].Small? && arenas[p].desc == d
    ensures FreeList(arenas[p := Small(d, n)], q, e)
  {
    hide Distinct, Placed, PageOf;
    forall a | a in q ensures IsBlock(arenas[p := Small(d, n)], a, e) {
      assert IsBlock(arenas, a, e);
    }
  }

  lemma TakeList(st: State, d: nat, size: nat)
    requires FreeLists(st) && d < DESC_CNT && st.free[d] != []
    requires IsBlock(st.arenas, st.free[d][0], d) && st.arenas[PageOf(st.free[d][0])].freeCnt > 0
    ensures FreeLists(TakeBlock(st, d, size))
  {
    var b, p := TakeBlock(st, d, size), PageOf(st.free[d][0]);
    hide Distinct, Placed, PageOf;
    forall e | 0 <= e < DESC_CNT ensures FreeList(b.arenas, b.free[e], e) {
      FreeListRecount(st.arenas, st.free[e], e, p, d, st.arenas[p].freeCnt - 1);
      if e == d { Pop(st.free[d]); }
    }
  }

  lemma FreeOnPop(q: seq<nat>, p: nat)
    requires Distinct(q) && q != []
    ensures |FreeOn(q, p)| == |FreeOn(q[1..], p)| + if PageOf(q[0]) == p then 1 else 0
  {
    Pop(q);
    hide PageOf, Distinct;
    if PageOf(q[0]) == p {
      assert FreeOn(q, p) == FreeOn(q[1..], p) + {q[0]} && q[0] !in FreeOn(q[1..], p);
    } else {
      assert FreeOn(q, p) == FreeOn(q[1..], p);
    }
  }

  lemma TakeCounts(st: State, d: nat, size: nat, q: nat)
    requires FreeLists(st) && d < DESC_CNT && st.free[d] != [] && q in st.arenas && Counted(st, q)
    requires IsBlock(st.arenas, st.free[d][0], d) && st.arenas[PageOf(st.free[d][0])].freeCnt > 0
    ensures Counted(TakeBlock(st, d, size), q)
  {
    assert FreeList(st.arenas, st.free[d], d);
    hide Distinct, Placed, PageOf, FreeOn, FreeLists;
    FreeOnPop(st.free[d], q);
  }

  lemma TakeTaken(st: State, d: nat, size: nat, x: nat)
    requires FreeLists(st) && d < DESC_CNT && st.free[d] != []
    requires IsBlock(st.arenas, st.free[d][0], d) && st.arenas[PageOf(st.free[d][0])].freeCnt > 0
    ensures Taken(TakeBlock(st, d, size), x) <==> Taken(st, x) || x == st.free[d][0]
    ensures !Taken(st, st.free[d][0])
  {
    assert FreeList(st.arenas, st.free[d], d);
    Pop(st.free[d]);
    hide FreeList, Distinct, Placed, PageOf;
  }

  /** A block handed out was nobody's, and is big enough. */
  lemma TakeSound(st: State, d: nat, size: nat)
    requires Sound(st) && d < DESC_CNT && st.free[d] != [] && 0 < size <= Size(d)
    requires IsBlock(st.arenas, st.free[d][0], d) && st.arenas[PageOf(st.free[d][0])].freeCnt > 0
    ensures Sound(TakeBlock(st, d, size)) && st.free[d][0] !in st.live
  {
    hide PagesApart, FreeList, Counted, Taken, Placed, PageOf, Size;
    var b, a := TakeBlock(st, d, size), st.free[d][0];
    RecountPages(st, b, PageOf(a), d, st.arenas[PageOf(a)].freeCnt - 1);
    TakeList(st, d, size);
    forall q | q in b.arenas ensures Counted(b, q) { TakeCounts(st, d, size, q); }
    forall x ensures Taken(b, x) <==> Taken(st, x) || x == a { TakeTaken(st, d, size, x); }
    TakeTaken(st, d, size, a);
    assert Roomy(b, a) by { assert b.arenas[PageOf(a)] == Small(d, st.arenas[PageOf(a)].freeCnt - 1); }
    hide Roomy;
    forall x | x in b.live ensures Roomy(b, x) {
      if x != a {
        assert Roomy(st, x);
        RoomyHasArena(st, x);
        RoomyStays(st, b, x);
      }
    }
  }

  lemma RoomyHasArena(st: State, a: nat)
    requires a in st.live && Roomy(st, a)
    ensures PageOf(a) in st.arenas && ArenaShape(st.arenas[PageOf(a)])
  {
  }

  lemma RecountPages(st: State, b: State, p: nat, d: nat, n: nat)
    requires PagesApart(st) && p in st.arenas && st.arenas[p].Small? && st.arenas[p].desc == d
    requires b.start == st.start && b.bits == st.bits && b.arenas == st.arenas[p := Small(d, n)]
    ensures PagesApart(b)
  {
    assert ArenaShape(st.arenas[p]);
    forall q | q in b.arenas ensures Span(b.arenas[q]) == Span(st.arenas[q]) && ArenaShape(b.arenas[q]) {
      assert ArenaShape(st.arenas[q]);
    }
    forall q, r | q in b.arenas && q <= r < q + Span(b.arenas[q]) ensures InUse(b, r) {
      assert InUse(st, r);
    }
    forall r: nat | InUse(b, r) ensures Covered(b.arenas, r) {
      assert InUse(st, r);
      var q: nat :| q in st.arenas && q <= r < q + Span(st.arenas[q]);
      assert q in b.arenas;
    }
  }

  // free of a block

  lemma LiveBlock(st: State, a: nat)
    requires Sound(st) && a in st.live
    ensures Taken(st, a) && PageOf(a) in st.arenas && ArenaShape(st.arenas[PageOf(a)])
    ensures st.arenas[PageOf(a)].Small? ==>
              IsBlock(st.arenas, a, st.arenas[PageOf(a)].desc) && a !in st.free[st.arenas[PageOf(a)].desc]
    ensures st.arenas[PageOf(a)].Big? ==> a == PGSIZE * PageOf(a) + HEADER
  {
    hide PagesApart, FreeLists, Counted, Placed;
    assert Roomy(st, a);
  }

  lemma GiveList(st: State, a: nat, d: nat)
    requires FreeLists(st) && IsBlock(st.arenas, a, d) && a !in st.free[d]
    ensures FreeLists(GiveBlock(st, a))
  {
    var b, p := GiveBlock(st, a), PageOf(a);
    hide Distinct, Placed, PageOf;
    forall e | 0 <= e < DESC_CNT ensures FreeList(b.arenas, b.free[e], e) {
      FreeListRecount(st.arenas, st.free[e], e, p, d, st.arenas[p].freeCnt + 1);
      if e == d { Push(st.free[d], a); }
    }
  }

  lemma GiveCounts(st: State, a: nat, d: nat, q: nat)
    requires FreeLists(st) && IsBlock(st.arenas, a, d) && a !in st.free[d] && q in st.arenas && Counted(st, q)
    ensures Counted(GiveBlock(st, a), q)
  {
    assert FreeList(st.arenas, st.free[d], d);
    Push(st.free[d], a);
    assert ([a] + st.free[d])[1..] == st.free[d];
    hide Distinct, Placed, PageOf, FreeOn, FreeLists;
    FreeOnPop([a] + st.free[d], q);
  }

  lemma GiveTaken(st: State, a: nat, d: nat, x: nat)
    requires FreeLists(st) && IsBlock(st.arenas, a, d) && a !in st.free[d]
    ensures Taken(GiveBlock(st, a), x) <==> Taken(st, x) && x != a
  {
    assert FreeList(st.arenas, st.free[d], d);
    Push(st.free[d], a);
    hide FreeList, Distinct, Placed, PageOf;
  }

  lemma GiveSound(st: State, a: nat, d: nat)
    requires Sound(st) && a in st.live && IsBlock(st.arenas, a, d) && a !in st.free[d]
    ensures Sound(GiveBlock(st, a))
  {
    hide PagesApart, FreeList, Counted, Taken, Placed, PageOf, Roomy;
    var b := GiveBlock(st, a);
    RecountPages(st, b, PageOf(a), d, st.arenas[PageOf(a)].freeCnt + 1);
    GiveList(st, a, d);
    forall q | q in b.arenas ensures Counted(b, q) { GiveCounts(st, a, d, q); }
    forall x ensures Taken(b, x) <==> Taken(st, x) && x != a { GiveTaken(st, a, d, x); }
    forall x | x in b.live ensures Roomy(b, x) {
      assert Roomy(st, x);
      RoomyHasArena(st, x);
      RoomyStays(st, b, x);
    }
  }

  lemma EmptyIsDistinct()
    ensures Distinct([])
  {
  }

  lemma {:induction false} OffPageIs(q: seq<nat>, p: nat)
    requires Distinct(q)
    ensures Distinct(OffPage(q, p)) && forall a :: a in OffPage(q, p) <==> a in q && PageOf(a) != p
  {
    hide PageOf, Distinct;
    if q != [] {
      Pop(q);
      OffPageIs(q[1..], p);
      assert q[0] in q;
      var r := OffPage(q[1..], p);
      assert OffPage(q, p) == if PageOf(q[0]) == p then r else [q[0]] + r;
      hide OffPage;
      if PageOf(q[0]) != p { Push(r, q[0]); }
    } else {
      EmptyIsDistinct();
    }
  }

  lemma DropList(st: State, p: nat, d: nat)
    requires FreeLists(st) && p in st.arenas && st.arenas[p].Small? && st.arenas[p].desc == d < DESC_CNT
    requires st.start <= p < st.start + |st.bits|
    ensures FreeLists(DropArena(st, p))
  {
    var b := DropArena(st, p);
    hide Distinct, Placed, PageOf, OffPage;
    forall e | 0 <= e < DESC_CNT ensures FreeList(b.arenas, b.free[e], e) {
      assert FreeList(st.arenas, st.free[e], e);
      OffPageIs(st.free[e], p);
      forall a | a in b.free[e] ensures IsBlock(b.arenas, a, e) {
        assert IsBlock(st.arenas, a, e);
      }
    }
  }

  lemma DropCounts(st: State, p: nat, d: nat, q: nat)
    requires FreeLists(st) && p in st.arenas && st.arenas[p].Small? && st.arenas[p].desc == d < DESC_CNT
    requires st.start <= p < st.start + |st.bits| && q in st.arenas && q != p && Counted(st, q)
    ensures Counted(DropArena(st, p), q)
  {
    assert FreeList(st.arenas, st.free[d], d);
    OffPageIs(st.free[d], p);
    hide Distinct, Placed, PageOf, OffPage, FreeLists;
    assert FreeOn(OffPage(st.free[d], p), q) == FreeOn(st.free[d], q);
  }

  lemma DropTaken(st: State, p: nat, d: nat, x: nat)
    requires FreeLists(st) && p in st.arenas && st.arenas[p].Small? && st.arenas[p].desc == d < DESC_CNT
    requires st.start <= p < st.start + |st.bits| && Counted(st, p) && st.arenas[p].freeCnt == PerArena(d)
    ensures Taken(DropArena(st, p), x) <==> Taken(st, x)
    ensures Taken(st, x) ==> PageOf(x) != p
  {
    assert FreeList(st.arenas, st.free[d], d);
    AllFree(st.arenas, st.free[d], p, d);
    OffPageIs(st.free[d], p);
    hide FreeList, Distinct, Placed, PageOf, OffPage, FreeOn;
  }

  /** An arena whose blocks are all free holds no live block, so its page can go. */
  lemma DropSound(st: State, p: nat, d: nat)
    requires Sound(st) && p in st.arenas && st.arenas[p].Small? && st.arenas[p].desc == d < DESC_CNT
    requires st.start <= p < st.start + |st.bits| && st.arenas[p].freeCnt == PerArena(d)
    ensures Sound(DropArena(st, p))
  {
    var b := DropArena(st, p);
    DropPages(st, b, p);
    hide PagesApart, FreeList, Counted, Taken, Placed, PageOf, Roomy, PerArena, OffPage;
    DropList(st, p, d);
    forall q | q in b.arenas ensures Counted(b, q) { DropCounts(st, p, d, q); }
    forall x ensures (Taken(b, x) <==> Taken(st, x)) && (Taken(st, x) ==> PageOf(x) != p) { DropTaken(st, p, d, x); }
    forall x | x in b.live ensures Roomy(b, x) {
      assert Roomy(st, x);
      RoomyHasArena(st, x);
      RoomyStays(st, b, x);
    }
  }

  // Big blocks

  lemma BigTaken(st: State, p: nat, n: nat, size: nat, x: nat)
    requires p !in st.arenas && st.start <= p && p + n <= st.start + |st.bits|
    ensures Taken(AddBig(st, p, n, size), x) <==> Taken(st, x) || x == PGSIZE * p + HEADER
    ensures !Taken(st, PGSIZE * p + HEADER)
  {
    Quotient(p, HEADER);
    hide Placed;
    assert x == PGSIZE * PageOf(x) + x % PGSIZE;
  }

  lemma FreeListKeeps(arenas: map<nat, Arena>, q: seq<nat>, d: nat, p: nat)
    requires FreeList(arenas, q, d) && p in arenas && arenas[p].Big?
    ensures FreeList(arenas - {p}, q, d)
  {
    hide Distinct, Placed, PageOf;
    forall a | a in q ensures IsBlock(arenas - {p}, a, d) {
      assert IsBlock(arenas, a, d);
    }
  }

  lemma AddBigLists(st: State, p: nat, n: nat, size: nat)
    requires FreeLists(st) && p !in st.arenas && st.start <= p && p + n <= st.start + |st.bits|
    ensures FreeLists(AddBig(st, p, n, size))
  {
    hide FreeList, PageOf;
    forall e | 0 <= e < DESC_CNT ensures FreeList(st.arenas[p := Big(n)], st.free[e], e) {
      FreeListGrows(st.arenas, st.free[e], e, p, Big(n));
    }
  }

  lemma AddBigSound(st: State, p: nat, n: nat, size: nat)
    requires Sound(st) && n >= 1 && st.start <= p && p + n <= st.start + |st.bits|
    requires forall q :: p <= q < p + n ==> !InUse(st, q)
    requires 0 < size <= PGSIZE * n - HEADER
    ensures Sound(AddBig(st, p, n, size)) && PGSIZE * p + HEADER !in st.live
  {
    var b, a := AddBig(st, p, n, size), PGSIZE * p + HEADER;
    Quotient(p, HEADER);
    assert PageOf(a) == p;
    hide PagesApart, FreeList, Counted, Taken, Placed, PageOf;
    assert !InUse(st, p);
    NoArenaYet(st, p);
    AddPages(st, b, p, Big(n));
    AddBigLists(st, p, n, size);
    forall q | q in b.arenas ensures Counted(b, q) { BigCounts(st, b, p, q); }
    forall x ensures (Taken(b, x) <==> Taken(st, x) || x == a) && !Taken(st, a) { BigTaken(st, p, n, size, x); }
    assert Roomy(b, a);
    hide Roomy;
    forall x | x in b.live ensures Roomy(b, x) {
      if x != a {
        assert Roomy(st, x);
        RoomyHasArena(st, x);
        RoomyStays(st, b, x);
      }
    }
  }

  lemma BigCounts(st: State, b: State, p: nat, q: nat)
    requires q in b.arenas && b.free == st.free
    requires q == p ==> b.arenas[q].Big?
    requires q != p ==> q in st.arenas && b.arenas[q] == st.arenas[q] && Counted(st, q)
    ensures Counted(b, q)
  {
  }

  lemma DropBigTaken(st: State, a: nat, x: nat)
    requires PageOf(a) in st.arenas && st.arenas[PageOf(a)].Big? && a == PGSIZE * PageOf(a) + HEADER
    requires st.start <= PageOf(a) && PageOf(a) + st.arenas[PageOf(a)].pages <= st.start + |st.bits|
    ensures Taken(DropBig(st, a), x) <==> Taken(st, x) && x != a
    ensures Taken(st, x) && PageOf(x) == PageOf(a) ==> x == a
  {
    hide Placed;
    assert x == PGSIZE * PageOf(x) + x % PGSIZE;
  }

  lemma DropBigSound(st: State, a: nat)
    requires Sound(st) && a in st.live && PageOf(a) in st.arenas && st.arenas[PageOf(a)].Big?
    requires a == PGSIZE * PageOf(a) + HEADER
    requires st.start <= PageOf(a) && PageOf(a) + st.arenas[PageOf(a)].pages <= st.start + |st.bits|
    ensures Sound(DropBig(st, a))
  {
    var b, p := DropBig(st, a), PageOf(a);
    DropPages(st, b, p);
    hide PagesApart, FreeList, Counted, Taken, Placed, PageOf, Roomy;
    forall e | 0 <= e < DESC_CNT ensures FreeList(b.arenas, b.free[e], e) {
      FreeListKeeps(st.arenas, st.free[e], e, p);
    }
    forall q | q in b.arenas ensures Counted(b, q) { BigCounts(st, b, p, q); }
    forall x ensures (Taken(b, x) <==> Taken(st, x) && x != a) && (Taken(st, x) && PageOf(x) == p ==> x == a) {
      DropBigTaken(st, a, x);
    }
    forall x | x in b.live ensures Roomy(b, x) {
      assert Roomy(st, x);
      RoomyHasArena(st, x);
      RoomyStays(st, b, x);
    }
  }

  // ---------- Whole calls ----------

  /** malloc from a free list that has a block. */
  lemma MallocKeepsInv(st: State, d: nat, size: nat)
    requires Inv(st) && d < DESC_CNT && st.free[d] != [] && 0 < size <= Size(d)
    requires IsBlock(st.arenas, st.free[d][0], d) && st.arenas[PageOf(st.free[d][0])].freeCnt > 0
    ensures Inv(TakeBlock(st, d, size)) && st.free[d][0] !in st.live
  {
    hide Sound, Placed, PageOf, Size, PerArena;
    TakeSound(st, d, size);
  }

  /** malloc from a new arena: its first block is the one handed out. */
  lemma MallocNewKeepsInv(st: State, p: nat, d: nat, size: nat)
    requires Inv(st) && d < DESC_CNT && st.free[d] == [] && 0 < size <= Size(d)
    requires st.start <= p < st.start + |st.bits| && !InUse(st, p)
    ensures var b, a := AddArena(st, p, d), BlockAt(p, d, 0);
            && b.free[d] != [] && b.free[d][0] == a && PageOf(a) == p && IsBlock(b.arenas, a, d)
            && b.arenas[p].Small? && b.arenas[p].freeCnt > 0
            && a !in st.live && Inv(TakeBlock(b, d, size))
  {
    BlocksAre(p, d, PerArena(d));
    assert PerArena(d) >= 3;
    BlockRoundTrip(p, d, 0);
    AddArenaSound(st, p, d);
    hide Sound, Placed, PageOf, Size, PerArena, Blocks, BlockAt;
    assert [] + Blocks(p, d, PerArena(d)) == Blocks(p, d, PerArena(d));
    TakeSound(AddArena(st, p, d), d, size);
  }

  /** free of a block whose arena keeps another live one. */
  lemma FreeKeepsInv(st: State, a: nat, d: nat)
    requires Inv(st) && a in st.live && IsBlock(st.arenas, a, d) && a !in st.free[d]
    requires st.arenas[PageOf(a)].freeCnt + 1 < PerArena(d)
    ensures Inv(GiveBlock(st, a))
  {
    hide Sound, Placed, PageOf, PerArena;
    GiveSound(st, a, d);
  }

  /** free of the last live block of an arena, which returns the page. */
  lemma FreeLastKeepsInv(st: State, a: nat, d: nat)
    requires Inv(st) && a in st.live && IsBlock(st.arenas, a, d) && a !in st.free[d]
    requires st.arenas[PageOf(a)].freeCnt + 1 >= PerArena(d)
    ensures var b, p := GiveBlock(st, a), PageOf(a);
            && st.start <= p < st.start + |st.bits| && InUse(st, p) && p in b.arenas && b.arenas[p] == Small(d, PerArena(d))
            && Inv(DropArena(b, p))
  {
    ArenaInPool(st, PageOf(a));
    GiveSound(st, a, d);
    hide Sound, Placed, PageOf, PerArena;
    DropSound(GiveBlock(st, a), PageOf(a), d);
  }

  /** What is freed last is handed out next, if its arena stays. */
  lemma FreedIsNext(st: State, a: nat, d: nat, size: nat)
    requires Inv(st) && a in st.live && IsBlock(st.arenas, a, d) && |st.free| == DESC_CNT
    ensures var b := GiveBlock(st, a);
            && b.free[d] != [] && b.free[d][0] == a && b.arenas[PageOf(a)].freeCnt > 0
            && TakeBlock(b, d, size) == st.(live := st.live[a := size])
  {
    hide Inv, Placed, PageOf, Size, PerArena;
    var b := GiveBlock(st, a);
    assert ([a] + st.free[d])[1..] == st.free[d];
    assert st.live - {a} + map[a := size] == st.live[a := size];
  }

  lemma MallocBigKeepsInv(st: State, p: nat, n: nat, size: nat)
    requires Inv(st) && n >= 1 && st.start <= p && p + n <= st.start + |st.bits|
    requires forall q :: p <= q < p + n ==> !InUse(st, q)
    requires 0 < size <= PGSIZE * n - HEADER
    ensures Inv(AddBig(st, p, n, size)) && PGSIZE * p + HEADER !in st.live
  {
    hide Sound, PerArena;
    AddBigSound(st, p, n, size);
  }

  lemma FreeBigKeepsInv(st: State, a: nat)
    requires Inv(st) && a in st.live && PageOf(a) in st.arenas && st.arenas[PageOf(a)].Big?
    ensures a == PGSIZE * PageOf(a) + HEADER
    ensures st.start <= PageOf(a) && PageOf(a) + st.arenas[PageOf(a)].pages <= st.start + |st.bits|
    ensures forall q :: PageOf(a) <= q < PageOf(a) + st.arenas[PageOf(a)].pages ==> InUse(st, q)
    ensures Inv(DropBig(st, a))
  {
    LiveBlock(st, a);
    ArenaInPool(st, PageOf(a));
    hide Sound, PerArena, PageOf;
    DropBigSound(st, a);
  }

  /** The bytes of a live block are apart from those of every other arena's pages. */
  lemma PageApart(st: State, p: nat, x: nat)
    requires Sound(st) && x in st.live && p in st.arenas && PageOf(x) != p
    ensures PageOf(x) in st.arenas && ArenaShape(st.arenas[PageOf(x)])
    ensures x + Capacity(st, x) <= PGSIZE * p || PGSIZE * (p + Span(st.arenas[p])) <= x
  {
    TakenEnds(st, x);
    hide FreeLists, Counted, Lives;
    var q := PageOf(x);
    assert q < p ==> q + Span(st.arenas[q]) <= p;
    assert p < q ==> p + Span(st.arenas[p]) <= q;
  }

  /** The page count of a big block in 32-bit arithmetic. */
  const WORD := 0x1_0000_0000

  function PageCount(size: nat): nat {
    ((size + HEADER) % WORD + PGSIZE - 1) % WORD / PGSIZE
  }

  /** What a request gets: itself, or one page less the header when the sum with the header wraps. */
  function Granted(size: nat): nat {
    if size + HEADER < WORD then size else PGSIZE - HEADER
  }

  /** The pages are enough for the request, and no more than it takes, exactly when the request and the header
      fit 32 bits together; otherwise their number is nought (and malloc fails) or one, which is too small. */
  lemma PageCountEnough(size: nat)
    requires 0 < size < WORD && PageCount(size) > 0
    ensures PGSIZE * PageCount(size) >= size + HEADER <==> size + HEADER < WORD
    ensures 0 < Granted(size) <= PGSIZE * PageCount(size) - HEADER
    ensures if size + HEADER < WORD then PGSIZE * (PageCount(size) - 1) < size + HEADER else PageCount(size) == 1
  {
  }

  lemma PageCountTooSmall()
    ensures PageCount(0xffff_fff5) == 1 && PGSIZE * PageCount(0xffff_fff5) < 0xffff_fff5
  {
  }

  /** Block a stands on page q or its big arena reaches over q. */
  ghost predicate Reaches(st: State, a: nat, q: nat) {
    PageOf(a) in st.arenas && PageOf(a) <= q < PageOf(a) + Span(st.arenas[PageOf(a)])
  }

  /** A page of the pool is in use exactly as long as a live block reaches it: it is obtained for the
      first block and returned with the last. */
  lemma PagesHaveLive(st: State, q: nat)
    requires Inv(st)
    ensures InUse(st, q) <==> exists a :: a in st.live && Reaches(st, a, q)
  {
    if InUse(st, q) {
      assert Covered(st.arenas, q);
      var p: nat :| p in st.arenas && p <= q < p + Span(st.arenas[p]);
      var a := LiveOn(st, p);
      assert Reaches(st, a, q);
    }
  }

  /** Every arena has a live block. */
  lemma LiveOn(st: State, p: nat) returns (a: nat)
    requires Inv(st) && p in st.arenas
    ensures a in st.live && PageOf(a) == p
  {
    if st.arenas[p].Small? {
      var d := st.arenas[p].desc;
      assert ArenaShape(st.arenas[p]) && Counted(st, p) && FreeList(st.arenas, st.free[d], d);
      a := SomeBlockTaken(st.arenas, st.free[d], p, d);
    } else {
      a := PGSIZE * p + HEADER;
      Quotient(p, HEADER);
    }
    assert Taken(st, a);
  }

  lemma SomeBlockTaken(arenas: map<nat, Arena>, q: seq<nat>, p: nat, d: nat) returns (a: nat)
    requires d < DESC_CNT && FreeList(arenas, q, d) && |FreeOn(q, p)| < PerArena(d)
    ensures PageOf(a) == p && Placed(a, d) && a !in q
  {
    var all := Elements(Blocks(p, d, PerArena(d)));
    BlocksAre(p, d, PerArena(d));
    CountOf(Blocks(p, d, PerArena(d)));
    hide Placed, IndexOf, PageOf, Blocks, PerArena, FreeList;
    assert !(all <= FreeOn(q, p)) by { if all <= FreeOn(q, p) { Subset(all, FreeOn(q, p)); } }
    a :| a in all && a !in FreeOn(q, p);
  }
}
