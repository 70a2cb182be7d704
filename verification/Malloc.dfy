/** malloc, free and realloc (threads/malloc.c) over the page allocator (threads/palloc.c), which keeps
    its pages in a bitmap.  Free-list links and arena headers, which the kernel keeps inside the pages,
    are fields here; the bytes of the pages are an array. */
module Malloc {
  import opened Words
  import opened Arenas
  import B = Bitmap

  /** list_remove of a block from a free list. */
  function Except(q: seq<nat>, a: nat): seq<nat> {
    if q == [] then [] else if q[0] == a then Except(q[1..], a) else [q[0]] + Except(q[1..], a)
  }

  /** A free list without the first n blocks of the arena on page p. */
  function Cut(q: seq<nat>, p: nat, d: nat, n: nat): seq<nat>
    requires d < DESC_CNT
  {
    if q == [] then []
    else if PageOf(q[0]) == p && IndexOf(q[0], d) < n then Cut(q[1..], p, d, n)
    else [q[0]] + Cut(q[1..], p, d, n)
  }

  lemma {:induction false} CutNone(q: seq<nat>, p: nat, d: nat)
    requires d < DESC_CNT && forall a :: a in q ==> Placed(a, d)
    ensures Cut(q, p, d, 0) == q
  {
    if q != [] {
      assert q[0] in q;
      IndexIsNatural(q[0], d);
      CutNone(q[1..], p, d);
    }
  }

  lemma {:induction false} CutNext(q: seq<nat>, p: nat, d: nat, n: nat)
    requires d < DESC_CNT && n < PerArena(d) && forall a :: a in q ==> Placed(a, d)
    ensures Except(Cut(q, p, d, n), BlockAt(p, d, n)) == Cut(q, p, d, n + 1)
  {
    if q != [] {
      var a := q[0];
      assert a in q;
      CutNext(q[1..], p, d, n);
      BlockRoundTrip(p, d, n);
      AddressRoundTrip(a, d);
      hide Placed, PageOf, IndexOf, BlockAt, PerArena;
      if !(PageOf(a) == p && IndexOf(a, d) < n) {
        assert Cut(q, p, d, n) == [a] + Cut(q[1..], p, d, n);
        assert ([a] + Cut(q[1..], p, d, n))[1..] == Cut(q[1..], p, d, n);
      }
    }
  }

  lemma {:induction false} CutAll(q: seq<nat>, p: nat, d: nat)
    requires d < DESC_CNT && forall a :: a in q ==> Placed(a, d)
    ensures Cut(q, p, d, PerArena(d)) == OffPage(q, p)
  {
    if q != [] {
      assert q[0] in q;
      PlacedIndex(q[0], d);
      CutAll(q[1..], p, d);
    }
  }

  lemma GroupPrefix(bs: seq<bool>, k: nat, n: nat, v: bool)
    requires k <= |bs|
    ensures forall i :: 0 <= i && i + n <= k ==> (B.Group(bs[..k], i, n, v) <==> B.Group(bs, i, n, v))
  {
    forall i | 0 <= i && i + n <= k ensures B.Group(bs[..k], i, n, v) <==> B.Group(bs, i, n, v) {
      assert forall j :: i <= j < i + n ==> bs[..k][j] == bs[j];
    }
  }

  lemma SetBitsPrefix(bs: seq<bool>, k: nat, i: nat, n: nat, v: bool)
    requires i + n <= k <= |bs|
    ensures B.SetBits(bs, i, n, v)[..k] == B.SetBits(bs[..k], i, n, v)
  {
  }

  /** n pages from the i-th on are free now, and no other page changed. */
  ghost predicate Returned(before: seq<bool>, after: seq<bool>, i: int, n: nat) {
    |after| == |before| && forall k :: 0 <= k < |before| ==> after[k] == (before[k] && !(i <= k < i + n))
  }

  /** Whether the pool has n free pages in a row. */
  ghost predicate HasRun(bits: seq<bool>, n: nat) {
    exists i: nat :: B.Group(bits, i, n, false)
  }

  /** The smallest descriptor for a request, DESC_CNT if there is none. */
  function DescFor(size: nat): (d: nat)
    ensures d <= DESC_CNT && (d < DESC_CNT ==> size <= Size(d)) && (forall e :: 0 <= e < d ==> Size(e) < size)
  {
    if size <= 16 then 0 else if size <= 32 then 1 else if size <= 64 then 2 else if size <= 128 then 3
    else if size <= 256 then 4 else if size <= 512 then 5 else if size <= 1024 then 6 else 7
  }

  /** When malloc succeeds. */
  ghost predicate Satisfiable(st: State, size: nat)
    requires |st.free| == DESC_CNT
  {
    && size > 0
    && if DescFor(size) < DESC_CNT then st.free[DescFor(size)] != [] || HasRun(st.bits, 1)
       else PageCount(size) > 0 && HasRun(st.bits, PageCount(size))
  }

  class Malloc {
    const start: nat             // the number of the pool's first page
    const pool: B.Bitmap
    const ram: array<byte>       // the bytes of the pool's pages
    var blockSize: seq<nat>      // the descriptors
    var blocksPerArena: seq<nat>
    var arenas: map<nat, Arena>
    var free: seq<seq<nat>>
    ghost var live: map<nat, nat>

    ghost function Bits(): seq<bool>
      requires pool.Valid()
      reads pool.words
    {
      pool.Contents()[..pool.bitCnt]
    }

    ghost function Value(): State
      requires pool.Valid()
      reads this, pool.words
    {
      State(start, Bits(), arenas, free, live)
    }

    ghost predicate Tables()
      reads this
    {
      && pool.Valid() && ram.Length == PGSIZE * pool.bitCnt
      && |blockSize| == DESC_CNT == |blocksPerArena|
      && forall d :: 0 <= d < DESC_CNT ==> blockSize[d] == Size(d) && blocksPerArena[d] == PerArena(d)
    }

    ghost predicate Valid()
      reads this, pool.words
    {
      Tables() && Inv(Value())
    }

    /** init_pool, for a pool of cnt pages from page start on, and malloc_init. */
    constructor (start: nat, cnt: nat)
      ensures Valid() && fresh(pool.words) && fresh(ram) && live == map[] && pool.bitCnt == cnt && this.start == start
      ensures B.Group(Bits(), 0, cnt, false)
    {
      this.start := start;
      pool := new B.Bitmap(cnt);
      ram := new byte[PGSIZE * cnt];
      arenas, free, live := map[], [], map[];
      blockSize, blocksPerArena := [], [];
      new;
      GroupPrefix(pool.Contents(), cnt, cnt, false);
      MallocInit();
    }

    method MallocInit()
      requires pool.Valid() && ram.Length == PGSIZE * pool.bitCnt
      requires arenas == map[] && live == map[] && free == [] && blockSize == [] && blocksPerArena == []
      requires B.Group(Bits(), 0, pool.bitCnt, false)
      modifies this`free, this`blockSize, this`blocksPerArena
      ensures Valid()
    {
      var size := 16;
      while size < PGSIZE / 2
        invariant |blockSize| == |blocksPerArena| == |free| <= DESC_CNT
        invariant size == if |blockSize| < DESC_CNT then Size(|blockSize|) else 2048
        invariant forall d :: 0 <= d < |blockSize| ==> blockSize[d] == Size(d) && blocksPerArena[d] == PerArena(d)
        invariant forall d :: 0 <= d < |free| ==> free[d] == []
        decreases DESC_CNT - |blockSize|
      {
        blockSize := blockSize + [size];
        blocksPerArena := blocksPerArena + [(PGSIZE - HEADER) / size];
        free := free + [[]];
        size := size * 2;
      }
    }

    /** palloc_get_multiple, from one pool. */
    method PallocGet(n: nat) returns (found: bool, p: nat)
      requires pool.Valid()
      modifies pool.words
      ensures found ==> n > 0 && start <= p && p + n <= start + pool.bitCnt && old(B.Group(Bits(), p - start, n, false))
      ensures found ==> forall j :: 0 <= j < p - start ==> !old(B.Group(Bits(), j, n, false))
      ensures found ==> Bits() == B.SetBits(old(Bits()), p - start, n, true)
      ensures !found ==> Bits() == old(Bits())
      ensures found <==> n > 0 && old(HasRun(Bits(), n))
    {
      if n == 0 {
        return false, 0;
      }
      var idx;
      found, idx := pool.ScanAndFlip(0, n, false);
      p := start + idx;
      GroupPrefix(old(pool.Contents()), pool.bitCnt, n, false);
      if found {
        SetBitsPrefix(old(pool.Contents()), pool.bitCnt, idx, n, true);
      }
    }

    /** memset of n bytes from address lo. */
    method Fill(lo: nat, n: nat, v: byte)
      requires PGSIZE * start <= lo && lo + n <= PGSIZE * start + ram.Length
      modifies ram
      ensures forall i :: 0 <= i < ram.Length ==>
                ram[i] == if lo <= PGSIZE * start + i < lo + n then v else old(ram[i])
    {
      for k := 0 to n
        invariant forall i :: 0 <= i < ram.Length ==>
                    ram[i] == if lo <= PGSIZE * start + i < lo + k then v else old(ram[i])
      {
        ram[lo - PGSIZE * start + k] := v;
      }
    }

    /** palloc_free_multiple; freeing a page that is not in use is an assertion failure. */
    method PallocFree(p: nat, n: nat)
      requires pool.Valid() && ram.Length == PGSIZE * pool.bitCnt
      requires start <= p && p + n <= start + pool.bitCnt && B.Group(Bits(), p - start, n, true)
      modifies pool.words, ram
      ensures Bits() == B.SetBits(old(Bits()), p - start, n, false)
      ensures forall i :: 0 <= i < ram.Length ==>
                ram[i] == if PGSIZE * p <= PGSIZE * start + i < PGSIZE * (p + n) then 0xcc else old(ram[i])
    {
      Fill(PGSIZE * p, PGSIZE * n, 0xcc);
      SetBitsPrefix(pool.Contents(), pool.bitCnt, p - start, n, false);
      pool.SetMultiple(p - start, n, false);
    }

    /** The search for the smallest descriptor that is big enough. */
    method FindDesc(size: nat) returns (d: nat)
      requires Tables()
      ensures d == DescFor(size)
    {
      d := 0;
      while d < DESC_CNT && blockSize[d] < size
        invariant d <= DESC_CNT && forall e :: 0 <= e < d ==> Size(e) < size
      {
        d := d + 1;
      }
    }
  
    /** malloc of a request too big for the descriptors. */
    method MallocBig(size: nat) returns (ok: bool, a: nat)
      requires Valid() && DescFor(size) == DESC_CNT && size < WORD
      modifies this`arenas, this`live, pool.words
      ensures Valid() && (ok <==> Satisfiable(old(Value()), size))
      ensures ok ==> a !in old(live) && live == old(live)[a := Granted(size)]
      ensures ok ==> PageOf(a) !in old(arenas) && arenas == old(arenas)[PageOf(a) := Big(PageCount(size))]
      ensures !ok ==> Value() == old(Value())
    {
      hide Inv, HasRun, PageCount;
      ghost var v := Value();
      var pageCnt := PageCount(size);
      var p;
      ok, p := PallocGet(pageCnt);
      if !ok {
        return false, 0;
      }
      PageCountEnough(size);
      FreePages(v, p, pageCnt);
      MallocBigKeepsInv(v, p, pageCnt, Granted(size));
      NoArenaOn(v, p);
      Quotient(p, HEADER);
      arenas := arenas[p := Big(pageCnt)];
      a := PGSIZE * p + HEADER;
      live := live[a := Granted(size)];
      assert Value() == AddBig(v, p, pageCnt, Granted(size));
    }

    /** A new arena for a descriptor, on a new page. */
    method NewArena(d: nat) returns (ok: bool, p: nat)
      requires Tables() && |free| == DESC_CNT && d < DESC_CNT && free[d] == []
      modifies this`arenas, this`free, pool.words
      ensures Tables() && (ok <==> old(HasRun(Bits(), 1)))
      ensures ok ==> start <= p < start + |Bits()| && !old(InUse(Value(), p)) && Value() == AddArena(old(Value()), p, d)
      ensures !ok ==> Value() == old(Value())
    {
      hide Size, PerArena, BlockAt, HasRun, Blocks;
      ok, p := PallocGet(1);
      if !ok {
        return false, 0;
      }
      ghost var v := old(Value());
      FreePages(v, p, 1);
      arenas := arenas[p := Small(d, blocksPerArena[d])];
      Carve(p, d);
    }

    /** The blocks of a new arena, one by one at the back of the free list. */
    method Carve(p: nat, d: nat)
      requires Tables() && |free| == DESC_CNT && d < DESC_CNT
      modifies this`free
      ensures free == old(free)[d := old(free[d]) + Blocks(p, d, PerArena(d))]
    {
      hide Size, PerArena, BlockAt, Blocks;
      NoBlocks(p, d);
      ghost var q := free[d];
      assert q + [] == q;
      var i := 0;
      while i < blocksPerArena[d]
        invariant i <= PerArena(d) && |free| == DESC_CNT && free == old(free)[d := q + Blocks(p, d, i)]
      {
        NextBlock(p, d, i);
        assert q + Blocks(p, d, i) + [BlockAt(p, d, i)] == q + (Blocks(p, d, i) + [BlockAt(p, d, i)]);
        free := free[d := free[d] + [BlockAt(p, d, i)]];
        i := i + 1;
      }
    }

    /** The first block of a free list handed out. */
    method TakeFirst(d: nat, size: nat) returns (a: nat)
      requires Tables() && |free| == DESC_CNT && d < DESC_CNT && free[d] != []
      requires IsBlock(arenas, free[d][0], d) && arenas[PageOf(free[d][0])].freeCnt > 0
      modifies this`arenas, this`free, this`live
      ensures Tables() && a == old(free[d][0]) && Value() == TakeBlock(old(Value()), d, size)
    {
      hide Size, PerArena, Placed;
      a := free[d][0];
      free := free[d := free[d][1..]];
      var p := PageOf(a);
      arenas := arenas[p := arenas[p].(freeCnt := arenas[p].freeCnt - 1)];
      live := live[a := size];
    }

    /** malloc of a request that a descriptor serves. */
    method MallocSmall(d: nat, size: nat) returns (ok: bool, a: nat)
      requires Valid() && 0 < size && d == DescFor(size) < DESC_CNT
      modifies this`arenas, this`free, this`live, pool.words
      ensures Valid() && (ok <==> Satisfiable(old(Value()), size))
      ensures ok ==> a !in old(live) && live == old(live)[a := size]
      ensures !ok ==> Value() == old(Value())
    {
      ghost var v := Value();
      hide Inv, Size, PerArena, Placed, HasRun, PageCount, PageOf;
      SevenLists(v);
      if free[d] == [] {
        var p;
        ok, p := NewArena(d);
        if !ok {
          return false, 0;
        }
        MallocNewKeepsInv(v, p, d, size);
      } else {
        ok := true;
        FirstFreeInv(v, d);
        MallocKeepsInv(v, d, size);
      }
      a := TakeFirst(d, size);
    }

    /** malloc: a block nobody else has, with room for the request (unless the request is within the
        header's size of 2^32), or nothing exactly when the free list and the pool cannot serve it. */
    method Malloc(size: nat) returns (ok: bool, a: nat)
      requires Valid() && size < WORD
      modifies this`arenas, this`free, this`live, pool.words
      ensures Valid() && PoolExact(Value()) && (ok <==> Satisfiable(old(Value()), size))
      ensures ok ==> a !in old(live) && live == old(live)[a := Granted(size)]
      ensures !ok ==> Value() == old(Value())
    {
      SevenLists(Value());
      PoolIsExact(Value());
      if size == 0 {
        return false, 0;
      }
      var d := FindDesc(size);
      hide Inv, Satisfiable, PoolExact;
      if d == DESC_CNT {
        ok, a := MallocBig(size);
      } else {
        ok, a := MallocSmall(d, size);
      }
      PoolIsExact(Value());
    }

    /** block_size. */
    method BlockSize(a: nat) returns (n: nat)
      requires Valid() && a in live
      ensures PageOf(a) in arenas && ArenaShape(arenas[PageOf(a)]) && n == Capacity(Value(), a) && live[a] <= n
    {
      hide PagesApart, FreeLists, Counted;
      LiveBlock(Value(), a);
      assert Roomy(Value(), a);
      var x := arenas[PageOf(a)];
      n := if x.Small? then blockSize[x.desc] else PGSIZE * x.pages - a % PGSIZE;
    }

    /** The blocks of an entirely free arena leave the free list one by one. */
    method Dismantle(p: nat, d: nat)
      requires Tables() && |free| == DESC_CNT && d < DESC_CNT && FreeList(arenas, free[d], d)
      modifies this`free
      ensures free == old(free)[d := OffPage(old(free[d]), p)]
    {
      ghost var q := free[d];
      assert forall a :: a in q ==> IsBlock(arenas, a, d);
      CutNone(q, p, d);
      CutAll(q, p, d);
      hide Size, PerArena, BlockAt, Placed, IndexOf, PageOf, Cut, OffPage, Except;
      var i := 0;
      while i < blocksPerArena[d]
        invariant i <= PerArena(d) && |free| == DESC_CNT && free == old(free)[d := Cut(q, p, d, i)]
      {
        CutNext(q, p, d, i);
        free := free[d := Except(free[d], BlockAt(p, d, i))];
        i := i + 1;
      }
    }

    /** A block back at the front of its free list. */
    method PutFirst(a: nat, d: nat)
      requires Tables() && |free| == DESC_CNT && d < DESC_CNT && IsBlock(arenas, a, d)
      modifies this`arenas, this`free, this`live
      ensures Value() == GiveBlock(old(Value()), a)
    {
      hide Size, PerArena, Placed;
      var p := PageOf(a);
      free := free[d := [a] + free[d]];
      arenas := arenas[p := arenas[p].(freeCnt := arenas[p].freeCnt + 1)];
      live := live - {a};
    }

    /** free of a block of an arena: the block goes to the free list, and with the last live block of
        its arena the page goes back. */
    method FreeSmall(a: nat)
      requires Valid() && a in live && PageOf(a) in arenas && arenas[PageOf(a)].Small?
      modifies this`arenas, this`free, this`live, pool.words, ram
      ensures Valid() && live == old(live) - {a}
      ensures PageOf(a) in arenas <==> Shared(live, PageOf(a))
      ensures PageOf(a) in arenas ==> Bits() == old(Bits())
      ensures PageOf(a) !in arenas ==> Returned(old(Bits()), Bits(), PageOf(a) - start, 1)
      ensures OthersKeep(old(Value()), old(ram[..]), ram[..], a)
      ensures old(ArenaShape(arenas[PageOf(a)])) && Wiped(start, ram[..], a, old(Capacity(Value(), a)))
    {
      hide Inv, Sound, Size, PerArena, Placed, PageOf, Capacity, OthersKeep, Returned, Shared, Wiped;
      ghost var v := Value();
      var p := PageOf(a);
      var d := arenas[p].desc;
      SevenLists(v);
      SmallFacts(v, a);
      Wipe(v, a, d);
      ghost var mid := ram[..];
      PutFirst(a, d);
      if arenas[p].freeCnt >= blocksPerArena[d] {
        ReturnArena(v, a, d);
        KeepTwice(v, old(ram[..]), mid, ram[..], a);
        StillWiped(start, mid, ram[..], a, blockSize[d]);
      } else {
        FreeKeepsInv(v, a, d);
      }
      ArenaIsShared(Value(), p);
    }

    /** The bytes of a block overwritten before it is freed. */
    method Wipe(ghost v: State, a: nat, d: nat)
      requires Tables() && v == Value() && Sound(v) && d < DESC_CNT && a in live && PageOf(a) in arenas && ArenaShape(arenas[PageOf(a)])
      requires Capacity(v, a) == Size(d) && PGSIZE * start <= a && a + Size(d) <= PGSIZE * start + ram.Length
      modifies ram
      ensures OthersKeep(v, old(ram[..]), ram[..], a) && Wiped(start, ram[..], a, Size(d))
    {
      hide Sound, Size, PageOf, Capacity;
      Fill(a, blockSize[d], 0xcc);
      WriteApart(v, old(ram[..]), ram[..], a);
    }

    /** The page of an arena that has just become entirely free goes back. */
    method ReturnArena(ghost v: State, a: nat, d: nat)
      requires Tables() && Inv(v) && a in v.live && IsBlock(v.arenas, a, d) && |v.free| == DESC_CNT && a !in v.free[d]
      requires v.arenas[PageOf(a)].freeCnt + 1 >= PerArena(d) && Value() == GiveBlock(v, a)
      modifies this`arenas, this`free, pool.words, ram
      ensures Valid() && PageOf(a) !in arenas && live == v.live - {a}
      ensures Returned(v.bits, Bits(), PageOf(a) - start, 1) && OthersKeep(v, old(ram[..]), ram[..], a)
      ensures forall i :: 0 <= i < ram.Length ==> ram[i] == old(ram[i]) || ram[i] == 0xcc
    {
      var p := PageOf(a);
      hide Inv, Sound, Size, PerArena, Placed, PageOf, Capacity, OffPage, FreeList;
      InvIsSound(v);
      FreeLastKeepsInv(v, a, d);
      LastAlone(v, a, d);
      Dismantle(p, d);
      GroupOf(v, p, 1);
      PallocFree(p, 1);
      arenas := arenas - {p};
      PagesWriteApart(v, old(ram[..]), ram[..], a, p);
    }

    /** free of a big block: all its pages go back. */
    method FreeBig(a: nat)
      requires Valid() && a in live && PageOf(a) in arenas && arenas[PageOf(a)].Big?
      modifies this`arenas, this`live, pool.words, ram
      ensures Valid() && live == old(live) - {a} && !Shared(live, PageOf(a))
      ensures Returned(old(Bits()), Bits(), PageOf(a) - start, old(arenas[PageOf(a)].pages))
      ensures OthersKeep(old(Value()), old(ram[..]), ram[..], a)
      ensures old(ArenaShape(arenas[PageOf(a)])) && Wiped(start, ram[..], a, old(Capacity(Value(), a)))
    {
      hide Inv, Sound, OthersKeep, PageOf, Capacity;
      ghost var v := Value();
      var p := PageOf(a);
      var n := arenas[p].pages;
      BlockWithin(v, a);
      FreeBigKeepsInv(v, a);
      BigAlone(v, a);
      GroupOf(v, p, n);
      PallocFree(p, n);
      arenas := arenas - {p};
      live := live - {a};
      assert Value() == DropBig(v, a);
      PagesWriteApart(v, old(ram[..]), ram[..], a, p);
    }

    /** free; freeing null does nothing.  The pages of the block's arena go back exactly with its last
        live block, and no other page. */
    method Free(a: nat)
      requires Valid() && (a == 0 || a in live)
      modifies this`arenas, this`free, this`live, pool.words, ram
      ensures Valid() && PoolExact(Value()) && live == old(live) - {a}
      ensures a == 0 || Shared(live, PageOf(a)) ==> Bits() == old(Bits())
      ensures a != 0 && !Shared(live, PageOf(a)) ==>
                PageOf(a) in old(arenas) && Returned(old(Bits()), Bits(), PageOf(a) - start, Span(old(arenas[PageOf(a)])))
      ensures OthersKeep(old(Value()), old(ram[..]), ram[..], a)
      ensures a != 0 ==> PageOf(a) in old(arenas) && ArenaShape(old(arenas)[PageOf(a)])
                         && Wiped(start, ram[..], a, Capacity(old(Value()), a))
    {
      ghost var v := Value();
      hide Inv, Sound, PageOf, Capacity, PoolExact, Wiped;
      NullIsNotLive(v);
      PoolIsExact(v);
      if a == 0 {
        NothingWritten(v, ram[..], a);
        return;
      }
      LiveArena(v, a);
      if arenas[PageOf(a)].Small? {
        FreeSmall(a);
      } else {
        FreeBig(a);
      }
      PoolIsExact(Value());
    }

    /** memcpy of n bytes between two places that do not overlap. */
    method Copy(to: nat, from: nat, n: nat)
      requires PGSIZE * start <= to && to + n <= PGSIZE * start + ram.Length
      requires PGSIZE * start <= from && from + n <= PGSIZE * start + ram.Length
      requires to + n <= from || from + n <= to
      modifies ram
      ensures forall i :: 0 <= i < ram.Length && !(to <= PGSIZE * start + i < to + n) ==> ram[i] == old(ram[i])
      ensures Carried(start, old(ram[..]), ram[..], from, to, n)
    {
      var x, y := to - PGSIZE * start, from - PGSIZE * start;
      for k := 0 to n
        invariant forall i :: 0 <= i < ram.Length && !(x <= i < x + n) ==> ram[i] == old(ram[i])
        invariant ram[x..x + k] == old(ram[y..y + k])
      {
        ram[x + k] := ram[y + k];
        assert ram[x..x + k + 1] == ram[x..x + k] + [ram[x + k]];
        assert old(ram[y..y + k + 1]) == old(ram[y..y + k]) + [old(ram[y + k])];
      }
      assert ram[..][x..x + n] == ram[x..x + n];
      assert old(ram[..])[y..y + n] == old(ram[y..y + n]);
    }

    /** The move of realloc from block a to the new block b. */
    method MoveTo(a: nat, b: nat, size: nat)
      requires Valid() && a in live && b in live && a != b && a != 0 && live[b] == size
      modifies this`arenas, this`free, this`live, pool.words, ram
      ensures Valid() && PoolExact(Value()) && live == old(live) - {a}
      ensures Carried(start, old(ram[..]), ram[..], a, b, Min(old(live)[a], size))
      ensures RequestedKeep(old(live) - {b}, start, old(ram[..]), ram[..], a)
    {
      hide Inv, Sound, PageOf, Capacity, PoolExact, OthersKeep, RequestedKeep, Carried, Returned, Shared;
      ghost var v, m0 := Value(), ram[..];
      MoveFacts(v, a, b);
      var n := BlockSize(a);
      var m := Min(size, n);
      Copy(b, a, m);
      ghost var m1 := ram[..];
      WriteApart(v, m0, m1, b);
      KeptAsAsked(v, m0, m1, b);
      Free(a);
      KeptAsAsked(v, m1, ram[..], a);
      CarriedOn(v.live, start, m0, m1, ram[..], a, b, m);
    }

    /** realloc: a request for nought frees; otherwise the block moves to a new one, with as many of
        its bytes as both have room for, and every other block keeps its own. */
    method Realloc(a: nat, size: nat) returns (ok: bool, b: nat)
      requires Valid() && (a == 0 || a in live) && size < WORD && (size + HEADER < WORD || a == 0)
      modifies this`arenas, this`free, this`live, pool.words, ram
      ensures Valid() && PoolExact(Value())
      ensures size == 0 ==> !ok && live == old(live) - {a}
      ensures size > 0 ==> (ok <==> Satisfiable(old(Value()), size))
      ensures size > 0 && !ok ==> Value() == old(Value()) && ram[..] == old(ram[..])
      ensures size > 0 && ok ==> b !in old(live) && live == (old(live) - {a})[b := Granted(size)]
      ensures size > 0 && ok && a != 0 ==> Carried(start, old(ram[..]), ram[..], a, b, Min(old(live)[a], size))
      ensures RequestedKeep(old(live), start, old(ram[..]), ram[..], a)
    {
      ghost var v := Value();
      hide Inv, Sound, PageOf, Capacity, Satisfiable, RequestedKeep, OthersKeep, Carried, PoolExact;
      SevenLists(v);
      NullIsNotLive(v);
      if size == 0 {
        Free(a);
        ok, b := false, 0;
        KeptAsAsked(v, old(ram[..]), ram[..], a);
        return;
      }
      ok, b := Malloc(size);
      NothingWritten(v, ram[..], a);
      KeptAsAsked(v, ram[..], ram[..], a);
      if ok {
        Replaced(v.live, a, b, Granted(size));
        if a != 0 {
          MoveTo(a, b, size);
        }
      }
    }

  }

  /** The pool's pages in use are those of the live blocks. */
  ghost predicate PoolExact(st: State) {
    forall q :: InUse(st, q) <==> exists a :: a in st.live && Reaches(st, a, q)
  }

  lemma PoolIsExact(st: State)
    requires Inv(st)
    ensures PoolExact(st)
  {
    hide Inv, Reaches, InUse;
    forall q: nat ensures InUse(st, q) <==> exists a :: a in st.live && Reaches(st, a, q) {
      PagesHaveLive(st, q);
    }
  }

  /** There is a live block on page p. */
  ghost predicate Shared(live: map<nat, nat>, p: nat) {
    exists x :: x in live && PageOf(x) == p
  }

  lemma ArenaIsShared(st: State, p: nat)
    requires Inv(st)
    ensures p in st.arenas <==> Shared(st.live, p)
  {
    if p in st.arenas {
      var a := LiveOn(st, p);
    }
    hide Inv, PageOf;
    if Shared(st.live, p) {
      var a: nat :| a in st.live && PageOf(a) == p;
      LiveArena(st, a);
    }
  }

  lemma NoArenaOn(st: State, p: nat)
    requires Inv(st) && !InUse(st, p)
    ensures p !in st.arenas
  {
    NoArenaYet(st, p);
  }

  /** The bytes of a live block are the same in two states of the memory. */
  ghost predicate SameBytes(start: nat, before: seq<byte>, after: seq<byte>, a: nat, n: nat) {
    && PGSIZE * start <= a && a + n <= PGSIZE * start + |before| && |after| == |before|
    && forall i :: 0 <= i < |before| && a <= PGSIZE * start + i < a + n ==> after[i] == before[i]
  }

  /** The n bytes from a on are 0xcc. */
  ghost predicate Wiped(start: nat, ram: seq<byte>, a: nat, n: nat) {
    forall i :: 0 <= i < |ram| && a <= PGSIZE * start + i < a + n ==> ram[i] == 0xcc
  }

  /** Every live block but one keeps its bytes. */
  ghost predicate OthersKeep(st: State, before: seq<byte>, after: seq<byte>, a: nat) {
    forall x :: x in st.live && x != a && PageOf(x) in st.arenas && ArenaShape(st.arenas[PageOf(x)]) ==>
      SameBytes(st.start, before, after, x, Capacity(st, x))
  }

  /** A live block lies within the memory of the pool. */
  lemma LiveInRam(st: State, x: nat)
    requires Sound(st) && x in st.live
    ensures PageOf(x) in st.arenas && ArenaShape(st.arenas[PageOf(x)])
    ensures PGSIZE * st.start <= x && x + Capacity(st, x) <= PGSIZE * st.start + PGSIZE * |st.bits|
  {
    TakenEnds(st, x);
    ArenaInPool(st, PageOf(x));
    hide Sound, PageOf, Capacity;
  }

  /** Bytes written inside one live block are nobody else's. */
  lemma WriteApart(st: State, before: seq<byte>, after: seq<byte>, a: nat)
    requires Sound(st) && a in st.live && |before| == PGSIZE * |st.bits| == |after|
    requires PageOf(a) in st.arenas && ArenaShape(st.arenas[PageOf(a)])
    requires forall i :: 0 <= i < |before| && !(a <= PGSIZE * st.start + i < a + Capacity(st, a)) ==> after[i] == before[i]
    ensures OthersKeep(st, before, after, a)
  {
    hide Sound, PageOf, Capacity;
    forall x | x in st.live && x != a && PageOf(x) in st.arenas && ArenaShape(st.arenas[PageOf(x)])
      ensures SameBytes(st.start, before, after, x, Capacity(st, x))
    {
      LiveInRam(st, x);
      if x < a { LiveDisjoint(st, x, a); } else { LiveDisjoint(st, a, x); }
    }
  }

  /** Nor are the bytes of the pages of an arena with no other live block. */
  lemma PagesWriteApart(st: State, before: seq<byte>, after: seq<byte>, a: nat, p: nat)
    requires Sound(st) && p in st.arenas && |before| == PGSIZE * |st.bits| == |after|
    requires forall x :: x in st.live && x != a ==> PageOf(x) != p
    requires forall i :: 0 <= i < |before| && !(PGSIZE * p <= PGSIZE * st.start + i < PGSIZE * (p + Span(st.arenas[p]))) ==>
               after[i] == before[i]
    ensures OthersKeep(st, before, after, a)
  {
    hide Sound, PageOf, Capacity;
    forall x | x in st.live && x != a && PageOf(x) in st.arenas && ArenaShape(st.arenas[PageOf(x)])
      ensures SameBytes(st.start, before, after, x, Capacity(st, x))
    {
      LiveInRam(st, x);
      PageApart(st, p, x);
    }
  }

  lemma KeepTwice(st: State, b0: seq<byte>, b1: seq<byte>, b2: seq<byte>, a: nat)
    requires OthersKeep(st, b0, b1, a) && OthersKeep(st, b1, b2, a)
    ensures OthersKeep(st, b0, b2, a)
  {
    hide PageOf, Capacity;
  }

  lemma StillWiped(start: nat, before: seq<byte>, after: seq<byte>, a: nat, n: nat)
    requires |after| == |before| && Wiped(start, before, a, n)
    requires forall i :: 0 <= i < |before| ==> after[i] == before[i] || after[i] == 0xcc
    ensures Wiped(start, after, a, n)
  {
  }

  lemma BlockWithin(st: State, a: nat)
    requires Inv(st) && a in st.live
    ensures PageOf(a) in st.arenas && ArenaShape(st.arenas[PageOf(a)])
    ensures PGSIZE * PageOf(a) <= a && a + Capacity(st, a) <= PGSIZE * (PageOf(a) + Span(st.arenas[PageOf(a)]))
  {
    InvIsSound(st);
    hide Inv, Sound, Capacity;
    TakenEnds(st, a);
  }

  lemma InvIsSound(st: State)
    requires Inv(st)
    ensures Sound(st)
  {
  }

  /** A big arena holds one live block. */
  lemma BigAlone(st: State, a: nat)
    requires Inv(st) && a in st.live && PageOf(a) in st.arenas && st.arenas[PageOf(a)].Big?
    ensures Sound(st) && forall x :: x in st.live && x != a ==> PageOf(x) != PageOf(a)
  {
    hide PagesApart, FreeLists, Counted;
    LiveBlock(st, a);
    forall x | x in st.live && PageOf(x) == PageOf(a) ensures x == a {
      LiveBlock(st, x);
    }
  }

  lemma NullIsNotLive(st: State)
    requires Inv(st)
    ensures 0 !in st.live
  {
    hide PagesApart, FreeLists, Counted;
    assert !Taken(st, 0);
  }

  lemma NothingWritten(st: State, ram: seq<byte>, a: nat)
    requires Inv(st) && |ram| == PGSIZE * |st.bits|
    ensures OthersKeep(st, ram, ram, a)
  {
    InvIsSound(st);
    hide Inv, Sound, PageOf, Capacity;
    forall x | x in st.live && x != a && PageOf(x) in st.arenas && ArenaShape(st.arenas[PageOf(x)])
      ensures SameBytes(st.start, ram, ram, x, Capacity(st, x))
    {
      LiveInRam(st, x);
    }
  }

  lemma LiveArena(st: State, a: nat)
    requires Inv(st) && a in st.live
    ensures PageOf(a) in st.arenas && ArenaShape(st.arenas[PageOf(a)])
  {
    LiveBlock(st, a);
  }

  /** Every block but one keeps as many bytes as were asked for. */
  ghost predicate RequestedKeep(live: map<nat, nat>, start: nat, before: seq<byte>, after: seq<byte>, a: nat) {
    forall x :: x in live && x != a ==> SameBytes(start, before, after, x, live[x])
  }

  lemma KeptAsAsked(st: State, before: seq<byte>, after: seq<byte>, a: nat)
    requires Inv(st) && OthersKeep(st, before, after, a)
    ensures RequestedKeep(st.live, st.start, before, after, a)
  {
    hide PagesApart, FreeLists, Counted, PageOf, Capacity;
    forall x | x in st.live && x != a ensures SameBytes(st.start, before, after, x, st.live[x]) {
      assert Roomy(st, x);
    }
  }

  function Min(x: nat, y: nat): nat { if x < y then x else y }

  /** The n bytes at b are those that were at a. */
  ghost predicate Carried(start: nat, before: seq<byte>, after: seq<byte>, a: nat, b: nat, n: nat) {
    && PGSIZE * start <= a && a + n <= PGSIZE * start + |before|
    && PGSIZE * start <= b && b + n <= PGSIZE * start + |after|
    && after[b - PGSIZE * start..b - PGSIZE * start + n] == before[a - PGSIZE * start..a - PGSIZE * start + n]
  }

  lemma CarriedOn(live: map<nat, nat>, start: nat, m0: seq<byte>, m1: seq<byte>, m2: seq<byte>, a: nat, b: nat, m: nat)
    requires a in live && b in live && a != b && Min(live[a], live[b]) <= m <= live[b]
    requires Carried(start, m0, m1, a, b, m)
    requires RequestedKeep(live, start, m0, m1, b) && RequestedKeep(live, start, m1, m2, a)
    ensures Carried(start, m0, m2, a, b, Min(live[a], live[b])) && RequestedKeep(live - {b}, start, m0, m2, a)
  {
    var x, y, n := b - PGSIZE * start, a - PGSIZE * start, Min(live[a], live[b]);
    assert SameBytes(start, m1, m2, b, live[b]);
    assert m2[x..x + n] == m1[x..x + n];
    assert m1[x..x + n] == m1[x..x + m][..n] && m0[y..y + n] == m0[y..y + m][..n];
  }

  lemma MoveFacts(st: State, a: nat, b: nat)
    requires Inv(st) && a in st.live && b in st.live && a != b
    ensures Sound(st)
    ensures PageOf(a) in st.arenas && ArenaShape(st.arenas[PageOf(a)]) && PageOf(b) in st.arenas && ArenaShape(st.arenas[PageOf(b)])
    ensures PGSIZE * st.start <= a && a + Capacity(st, a) <= PGSIZE * st.start + PGSIZE * |st.bits|
    ensures PGSIZE * st.start <= b && b + Capacity(st, b) <= PGSIZE * st.start + PGSIZE * |st.bits|
    ensures a + Capacity(st, a) <= b || b + Capacity(st, b) <= a
    ensures st.live[a] <= Capacity(st, a) && st.live[b] <= Capacity(st, b)
  {
    assert Roomy(st, a) && Roomy(st, b);
    InvIsSound(st);
    hide Inv, Sound, PageOf, Capacity;
    LiveInRam(st, a);
    LiveInRam(st, b);
    if a < b { LiveDisjoint(st, a, b); } else { LiveDisjoint(st, b, a); }
  }

  lemma Replaced(live: map<nat, nat>, a: nat, b: nat, size: nat)
    requires b !in live && 0 !in live && (a == 0 || a in live)
    ensures live[b := size] - {b} == live
    ensures a != 0 ==> live[b := size] - {a} == (live - {a})[b := size]
    ensures a == 0 ==> live - {a} == live
  {
  }

  lemma SmallFacts(st: State, a: nat)
    requires Inv(st) && a in st.live && PageOf(a) in st.arenas && st.arenas[PageOf(a)].Small? && |st.free| == DESC_CNT
    ensures var d := st.arenas[PageOf(a)].desc;
            && Sound(st) && ArenaShape(st.arenas[PageOf(a)]) && IsBlock(st.arenas, a, d) && a !in st.free[d]
            && Capacity(st, a) == Size(d)
            && PGSIZE * st.start <= a && a + Size(d) <= PGSIZE * st.start + PGSIZE * |st.bits|
  {
    LiveBlock(st, a);
    LiveInRam(st, a);
  }

  /** With the block that brings the count to its full value, no other block of the arena is live. */
  lemma LastAlone(st: State, a: nat, d: nat)
    requires Inv(st) && a in st.live && IsBlock(st.arenas, a, d) && a !in st.free[d]
    requires st.arenas[PageOf(a)].freeCnt + 1 >= PerArena(d)
    ensures forall x :: x in st.live && x != a ==> PageOf(x) != PageOf(a)
    ensures FreeList(GiveBlock(st, a).arenas, GiveBlock(st, a).free[d], d)
  {
    var b := GiveBlock(st, a);
    hide PerArena, Placed;
    GiveSound(st, a, d);
    FreeLastKeepsInv(st, a, d);
    assert FreeLists(b) && Counted(b, PageOf(a));
    forall x | x in st.live && x != a ensures PageOf(x) != PageOf(a) {
      assert x in b.live && Taken(b, x);
      DropTaken(b, PageOf(a), d, x);
    }
  }

  lemma GroupOf(st: State, p: nat, n: nat)
    requires st.start <= p && p + n <= st.start + |st.bits| && forall q :: p <= q < p + n ==> InUse(st, q)
    ensures B.Group(st.bits, p - st.start, n, true)
  {
    forall i | p - st.start <= i < p - st.start + n ensures st.bits[i] {
      assert InUse(st, st.start + i);
    }
  }

  lemma SevenLists(st: State)
    requires Inv(st)
    ensures |st.free| == DESC_CNT
  {
  }

  lemma FirstFreeInv(st: State, d: nat)
    requires Inv(st) && d < DESC_CNT && |st.free| == DESC_CNT && st.free[d] != []
    ensures IsBlock(st.arenas, st.free[d][0], d) && st.arenas[PageOf(st.free[d][0])].freeCnt > 0
  {
    hide Counted, FreeList, PagesApart, Lives, PageOf, Placed;
    FirstFree(st, d);
  }

  lemma NoBlocks(p: nat, d: nat)
    requires d < DESC_CNT
    ensures Blocks(p, d, 0) == []
  {
  }

  lemma NextBlock(p: nat, d: nat, i: nat)
    requires d < DESC_CNT
    ensures Blocks(p, d, i + 1) == Blocks(p, d, i) + [BlockAt(p, d, i)]
  {
  }

  lemma FreePages(st: State, p: nat, n: nat)
    requires st.start <= p && B.Group(st.bits, p - st.start, n, false)
    ensures forall q :: p <= q < p + n ==> !InUse(st, q)
  {
  }
}
