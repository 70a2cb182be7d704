/** The file system of filesys/inode.c and filesys/free-map.c: growable files behind the
    buffer cache, over a free map that is itself stored as a file.

    A kernel panic is an outcome (a false flag) rather than a precondition: allocate_block
    hands back UNUSED when the disk is full, and using that as a sector number panics. */
module FileSystem {
  import opened Words
  import opened FileStore
  import opened BufferCache
  import opened FileSysState
  import opened FileEdit
  import opened FileFree
  import opened FileLife
  import opened FileCount
  import BM = Bitmap
  import Bits

  class FileSystem {
    const cache: CacheTable
    const freeMap: BM.Bitmap
    var open: map<nat, OpenInode>
    var mounted: bool                    // free_map_file != NULL
    ghost var hdrs: map<nat, InodeDisk>
    ghost var owner: map<nat, Role>
    ghost var busy: set<nat>
    ghost var loaded: bool               // false until free_map_open has read the map of a disk formatted before
    ghost var stored: seq<word>          // that map

    ghost function Y(): Sys
      reads this, cache, freeMap.words
    {
      Sys(cache.view, if loaded then freeMap.words[..] else stored, cache.Cached(), open, mounted, hdrs, owner, busy)
    }

    ghost predicate Built()
      reads cache
    {
      cache.Consistent() && freeMap.Valid() && freeMap.bitCnt == |cache.disk|
    }

    ghost predicate Parts()
      reads cache
    {
      Built() && cache.Live()
    }

    /** filesys_init up to do_format: an empty cache and a free map with the two system sectors
        marked. */
    constructor (sectors: seq<Sector>)
      requires 2 <= |sectors| < UNUSED
      ensures Idle() && fresh(cache) && fresh(freeMap) && fresh(freeMap.words)
      ensures hdrs == map[] && owner == map[] && busy == {} && open == map[] && !mounted && loaded
      ensures cache.view == sectors && cache.list == []
      ensures forall s :: 0 <= s < |sectors| ==> freeMap.Contents()[s] == (s < 2)
    {
      cache := new CacheTable(sectors);
      freeMap := new BM.Bitmap(|sectors|);
      open, mounted := map[], false;
      hdrs, owner, busy, loaded, stored := map[], map[], {}, true, [];
      new;
      freeMap.Mark(0);
      freeMap.Mark(1);
    }

    /** free_map_allocate of one sector. */
    method FreeMapAllocate() returns (ok: bool, sector: word)
      requires Parts() && Ready(Y()) && loaded
      modifies this`open, this`hdrs, this`owner, this`busy, cache, freeMap.words
      ensures Parts() && Ready(Y()) && Quiet(old(Y()), Y())
      ensures ok ==> sector < |cache.view| && !old(freeMap.Contents())[sector]
      ensures ok ==> freeMap.Contents() == old(freeMap.Contents())[sector := true]
      ensures !ok ==> Y() == old(Y()) && DiskFull(Y())
      decreases 2
    {
      hide SameNodes, SameBytes, Inv, Content, BitsAgree, BM.BitsOf;
      InvFacts(Y());
      QuietReflexive(Y());
      var idx: nat;
      ok, idx := freeMap.ScanAndFlip(0, 1, false);
      if !ok {
        sector := UNUSED;
        forall s | 0 <= s < freeMap.bitCnt ensures freeMap.Contents()[s] {
          assert !BM.Group(freeMap.Contents(), s, 1, false);
        }
        assert |cache.view| == freeMap.bitCnt;
        assert freeMap.Contents() == BM.BitsOf(Y().words);
        return;
      }
      sector := idx;
      assert BM.Group(old(freeMap.Contents()), idx, 1, false);
      assert freeMap.Contents() == old(freeMap.Contents())[idx := true];
      ghost var marked := Y();
      MarkKeeps(old(Y()), marked, idx);
      if mounted {
        BitmapWrite();
        QuietTransitive(old(Y()), marked, Y());
      }
    }

    /** bitmap_write of the free map into its file. */
    method BitmapWrite()
      requires Parts() && Inv(Y()) && mounted && loaded && FREE_MAP !in busy
      modifies this`open, this`hdrs, this`owner, this`busy, cache, freeMap.words
      ensures Parts() && InStep(Y()) && Quiet(old(Y()), Y()) && Confined(old(Y()), Y(), FREE_MAP)
      ensures freeMap.words[..] == old(freeMap.words[..])
      ensures SomeBlockCached(Y(), FREE_MAP)
      decreases 1, 2
    {
      hide Quiet, Content, BitsAgree, Resolve;
      var image := BytesOf(freeMap.words[..]);
      var n, ok := InodeWriteAt(FREE_MAP, image, 0);
      WholeFileWritten(old(Y()), Y(), image);
    }

    /** Stores the pointer to node n, in the header or in its index sector, and fills the sector. */
    method Install(ghost ino: nat, data0: InodeDisk, n: Node, parent: word, sector: word) returns (data: InodeDisk)
      requires Parts() && Ready(Y()) && CanLink(St(Y()), ino, n, sector) && ino in busy && hdrs[ino] == data0
      requires !InHeader(n) ==> parent == Resolve(cache.view, data0, Parent(n))
      modifies this`hdrs, this`owner, cache
      ensures Parts() && Ready(Y()) && ino in hdrs && hdrs[ino] == data
      ensures Y() == LinkSys(old(Y()), ino, n, sector, cache.Cached())
    {
      hide Inv, Resolve, Content, BitsAgree, LinkSys, Link, PointTo, Fill, Splice, BM.BitsOf, WordBytes;
      hide OwnedAreUsed, OwnersMatch, ZeroTails;
      ghost var y := Y();
      data := data0;
      if InHeader(n) {
        data := SetHeaderSlot(data, n, sector);
        hdrs := hdrs[ino := data];
      } else {
        cache.Write(WordBytes(sector), parent, 4 * Slot(n));
      }
      owner := owner[sector := Own(ino, n)];
      SpliceAll(cache.view[sector], Fill(n));
      cache.Write(Fill(n), sector, 0);
      LinkSysShape(y, ino, n, sector, cache.Cached());
      LinkKeepsInv(y, ino, n, sector, cache.Cached());
    }

    /** The steps allocate_block takes for each missing sector: allocate it, store the pointer to
        it, fill it. */
    method NewNode(ghost ino: nat, data0: InodeDisk, n: Node, parent: word) returns (data: InodeDisk, sector: word)
      requires Parts() && Ready(Y()) && loaded && ino in hdrs && ino in busy && hdrs[ino] == data0
      requires Resolve(cache.view, data0, n) == UNUSED
      requires !InHeader(n) ==> parent == Resolve(cache.view, data0, Parent(n)) < |cache.view| && Slot(n) < WORDS_PER_SECTOR
      modifies this`open, this`hdrs, this`owner, this`busy, cache, freeMap.words
      ensures Parts() && Ready(Y()) && Grows(old(Y()), Y(), ino) && hdrs[ino] == data
      ensures Resolve(cache.view, data, n) == sector
      ensures forall m :: m != n ==> Resolve(cache.view, data, m) == Resolve(old(cache.view), data0, m)
      ensures sector == UNUSED ==> DiskFull(Y())
      ensures Booked(old(Y()), Y(), ino, {n})
      decreases 3, 0
    {
      hide SameBytes, Grows, Inv, DiskFull, Resolve, Content, BitsAgree, LinkSys, CanLink, BM.BitsOf, Booked;
      data := data0;
      var ok;
      ok, sector := FreeMapAllocate();
      QuietGrows(old(Y()), Y(), ino);
      if !ok {
        BookedSame(Y(), Y(), ino, {n});
        sector := UNUSED;
        return;
      }
      ghost var y := Y();
      AllocatedCanLink(old(Y()), y, ino, n, sector);
      data := Install(ino, data, n, parent, sector);
      LinkGrows(y, ino, n, sector, cache.Cached());
      GrowsTransitive(old(Y()), y, Y(), ino);
      BookedLink(old(Y()), y, Y(), ino, n, sector);
    }

    /** A word of an index sector, through the cache. */
    method ReadPointer(sector: word, k: nat) returns (ptr: word)
      requires Parts() && Inv(Y()) && sector in owner && !owner[sector].Header? && k < WORDS_PER_SECTOR && sector < |cache.view|
      modifies cache
      ensures Parts() && Inv(Y()) && (old(Ready(Y())) ==> Ready(Y()))
      ensures cache.view == old(cache.view) && ptr == PtrAt(cache.view, sector, k)
    {
      hide Inv, Ready;
      var bytes := cache.Read(sector, 4 * k, 4);
      ptr := WordAt(bytes, 0);
      CacheKeeps(old(Y()), Y(), sector);
    }

    /** The step allocate_block takes at each index sector: read the pointer to node n, and if there
        is none provide the node. */
    method NodeBelow(ghost ino: nat, data0: InodeDisk, n: Node, parent: word, k: nat) returns (data: InodeDisk, sector: word)
      requires Parts() && Inv(Y()) && ino in hdrs && ino in busy && hdrs[ino] == data0
      requires !InHeader(n) && parent == Resolve(cache.view, data0, Parent(n)) < |cache.view| && k == Slot(n) < WORDS_PER_SECTOR
      requires Resolve(cache.view, data0, n) == UNUSED ==> Ready(Y()) && loaded
      modifies this`open, this`hdrs, this`owner, this`busy, cache, freeMap.words
      ensures Parts() && Inv(Y()) && (old(Ready(Y())) ==> Ready(Y())) && Grows(old(Y()), Y(), ino) && hdrs[ino] == data
      ensures sector == Resolve(cache.view, data, n) && (sector == UNUSED ==> DiskFull(Y()))
      ensures forall m :: m != n ==> Resolve(cache.view, data, m) == Resolve(old(cache.view), data0, m)
      ensures old(Resolve(cache.view, data0, n)) != UNUSED ==> Y() == old(Y()).(cached := cache.Cached())
      ensures Booked(old(Y()), Y(), ino, {n})
      decreases if Resolve(cache.view, data0, n) == UNUSED then 3 else 0, 1
    {
      hide Inv, Ready, Grows, DiskFull, Booked, Resolve;
      InvFacts(Y());
      PointerOwned(Y(), ino, Parent(n));
      ResolveBelow(cache.view, data0, n);
      data := data0;
      sector := ReadPointer(parent, k);
      ghost var c := Y();
      GrowsReflexive(old(Y()), c, ino);
      BookedSame(old(Y()), c, ino, {n});
      if sector == UNUSED {
        data, sector := NewNode(ino, data, n, parent);
        ReadyIsInv(Y());
        GrowsTransitive(old(Y()), c, Y(), ino);
        BookedThen(old(Y()), c, Y(), ino, {n}, {n}, {n});
      }
    }

    /** allocate_block: the sector of block pos, allocated together with the index sectors on the
        way to it if it is not there yet; UNUSED if the disk is full. */
    method AllocateBlock(ghost ino: nat, data0: InodeDisk, pos: nat) returns (data: InodeDisk, block: word)
      requires Parts() && Inv(Y()) && ino in hdrs && ino in busy && hdrs[ino] == data0 && pos < MAX_BLOCKS
      requires Resolve(cache.view, data0, Data(pos)) == UNUSED ==> Ready(Y()) && loaded
      modifies this`open, this`hdrs, this`owner, this`busy, cache, freeMap.words
      ensures Parts() && Placed(old(Y()), Y(), ino, pos, block) && hdrs[ino] == data && Booked(old(Y()), Y(), ino, Path(pos))
      decreases if Resolve(cache.view, data0, Data(pos)) == UNUSED then 3 else 0, 4
    {
      hide Inv, Grows, DiskFull, Content, BitsAgree, Booked;
      if pos < DIRECT_MAX {
        GrowsReflexive(Y(), Y(), ino);
        BookedSame(Y(), Y(), ino, Path(pos));
        data := data0;
        block := data.direct[pos];
        if block == UNUSED {
          data, block := NewNode(ino, data, Data(pos), UNUSED);
          BookedWiden(old(Y()), Y(), ino, {Data(pos)}, Path(pos));
        }
      } else if pos < DIRECT_MAX + WORDS_PER_SECTOR {
        data, block := AllocateIndirect(ino, data0, pos);
      } else {
        data, block := AllocateDouble(ino, data0, pos);
      }
    }

    /** The indirect branch of allocate_block. */
    method AllocateIndirect(ghost ino: nat, data0: InodeDisk, pos: nat) returns (data: InodeDisk, block: word)
      requires Parts() && Inv(Y()) && ino in hdrs && ino in busy && hdrs[ino] == data0
      requires DIRECT_MAX <= pos < DIRECT_MAX + WORDS_PER_SECTOR
      requires Resolve(cache.view, data0, Data(pos)) == UNUSED ==> Ready(Y()) && loaded
      modifies this`open, this`hdrs, this`owner, this`busy, cache, freeMap.words
      ensures Parts() && Placed(old(Y()), Y(), ino, pos, block) && hdrs[ino] == data && Booked(old(Y()), Y(), ino, Path(pos))
      decreases if Resolve(cache.view, data0, Data(pos)) == UNUSED then 3 else 0, 3
    {
      hide Inv, Ready, Grows, DiskFull, Resolve, Booked, Path;
      InvFacts(Y());
      PathHas(pos);
      data := data0;
      ghost var a := Y();
      GrowsReflexive(a, a, ino);
      BookedSame(a, a, ino, {Ind});
      ResolveThrough(cache.view, data, pos);
      if data.indirect == UNUSED {
        data, block := NewNode(ino, data, Ind, UNUSED);
        ReadyIsInv(Y());
        if block == UNUSED {
          BookedWiden(a, Y(), ino, {Ind}, Path(pos));
          return;
        }
        ResolveThrough(cache.view, data, pos);
      }
      ghost var b := Y();
      GrowsFacts(a, b, ino);
      PointerOwned(b, ino, Ind);
      data, block := NodeBelow(ino, data, Data(pos), data.indirect, pos - DIRECT_MAX);
      GrowsTransitive(a, b, Y(), ino);
      BookedThen(a, b, Y(), ino, {Ind}, {Data(pos)}, Path(pos));
    }

    /** The second-level index sector for block pos, on the double-indirect branch. */
    method AllocateSecond(ghost ino: nat, data0: InodeDisk, pos: nat) returns (data: InodeDisk, indirect: word)
      requires Parts() && Inv(Y()) && ino in hdrs && ino in busy && hdrs[ino] == data0
      requires DIRECT_MAX + WORDS_PER_SECTOR <= pos < MAX_BLOCKS
      requires Resolve(cache.view, data0, Data(pos)) == UNUSED ==> Ready(Y()) && loaded
      modifies this`open, this`hdrs, this`owner, this`busy, cache, freeMap.words
      ensures Parts() && Reached(old(Y()), Y(), ino, pos, indirect) && hdrs[ino] == data && Booked(old(Y()), Y(), ino, Path(pos))
      decreases if Resolve(cache.view, data0, Data(pos)) == UNUSED then 3 else 0, 2
    {
      hide Inv, Ready, Grows, DiskFull, Resolve, Booked, Path;
      InvFacts(Y());
      PathHas(pos);
      data := data0;
      ghost var a := Y();
      GrowsReflexive(a, a, ino);
      BookedSame(a, a, ino, {Dbl});
      var ioffset := (pos - DIRECT_MAX - WORDS_PER_SECTOR) / WORDS_PER_SECTOR;
      ResolveThrough(cache.view, data, pos);
      if data.dbl == UNUSED {
        data, indirect := NewNode(ino, data, Dbl, UNUSED);
        ResolveThrough(cache.view, data, pos);
        ReadyIsInv(Y());
        if indirect == UNUSED {
          BookedWiden(a, Y(), ino, {Dbl}, Path(pos));
          return;
        }
      }
      ghost var b := Y();
      GrowsFacts(a, b, ino);
      PointerOwned(b, ino, Dbl);
      data, indirect := NodeBelow(ino, data, Snd(ioffset), data.dbl, ioffset);
      GrowsTransitive(a, b, Y(), ino);
      BookedThen(a, b, Y(), ino, {Dbl}, {Snd(ioffset)}, Path(pos));
    }

    /** The double-indirect branch of allocate_block. */
    method AllocateDouble(ghost ino: nat, data0: InodeDisk, pos: nat) returns (data: InodeDisk, block: word)
      requires Parts() && Inv(Y()) && ino in hdrs && ino in busy && hdrs[ino] == data0
      requires DIRECT_MAX + WORDS_PER_SECTOR <= pos < MAX_BLOCKS
      requires Resolve(cache.view, data0, Data(pos)) == UNUSED ==> Ready(Y()) && loaded
      modifies this`open, this`hdrs, this`owner, this`busy, cache, freeMap.words
      ensures Parts() && Placed(old(Y()), Y(), ino, pos, block) && hdrs[ino] == data && Booked(old(Y()), Y(), ino, Path(pos))
      decreases if Resolve(cache.view, data0, Data(pos)) == UNUSED then 3 else 0, 3
    {
      hide Inv, Ready, Grows, DiskFull, Resolve, Booked, Path;
      InvFacts(Y());
      PathHas(pos);
      ghost var a := Y();
      var indirect;
      data, indirect := AllocateSecond(ino, data0, pos);
      ghost var b := Y();
      InvFacts(b);
      GrowsFacts(a, b, ino);
      ResolveThrough(cache.view, data, pos);
      if indirect == UNUSED {
        block := UNUSED;
        return;
      }
      PointerOwned(b, ino, SecondOf(pos));
      data, block := NodeBelow(ino, data, Data(pos), indirect, (pos - DIRECT_MAX - WORDS_PER_SECTOR) % WORDS_PER_SECTOR);
      GrowsTransitive(a, b, Y(), ino);
      BookedThen(a, b, Y(), ino, Path(pos), {Data(pos)}, Path(pos));
    }

    /** One turn of the loop of inode_write_at: the part of buffer from n on that falls into one
        block.  Relative to the state a on entry. */
    method WriteChunk(ghost a: Sys, ghost fixed: bool, ino: nat, data0: InodeDisk, buffer: seq<byte>, offset: nat, n: nat)
      returns (data: InodeDisk, chunk: nat, ok: bool)
      requires Parts() && n < |buffer| && offset + |buffer| <= data0.length && offset + |buffer| <= MAX_BYTES
      requires Editing(a, Y(), ino, data0.length, buffer[..n], offset, fixed) && ino in hdrs && hdrs[ino] == data0
      requires Booked(a, Y(), ino, Touched(offset, |buffer|)) && There(cache.view, data0, offset, n)
      requires if fixed then Mapped(a.view, a.hdrs[ino], offset, offset + |buffer|) else Ready(a) && loaded
      modifies this`open, this`hdrs, this`owner, this`busy, cache, freeMap.words
      ensures Parts() && n + chunk <= |buffer| && data.length == data0.length && ino in hdrs && hdrs[ino] == data
      ensures Editing(a, Y(), ino, data.length, buffer[..n + chunk], offset, fixed)
      ensures Booked(a, Y(), ino, Touched(offset, |buffer|)) && There(cache.view, data, offset, n + chunk)
      ensures ok ==> chunk > 0 && SomeBlockCached(Y(), ino)
      ensures !ok ==> chunk == 0 && DiskFull(Y()) && !fixed && Resolve(cache.view, data, Data((offset + n) / SECTOR_SIZE)) == UNUSED
      decreases if fixed then 0 else 3, 5
    {
      hide Editing, Grows, Inv, Ready, Resolve, DiskFull, Booked, Touched, Path, There, Splice, BM.BitsOf;
      ghost var y := Y();
      var pos := (offset + n) / SECTOR_SIZE;
      assert fixed ==> offset / SECTOR_SIZE <= pos && pos * SECTOR_SIZE < offset + |buffer|;
      EditFacts(a, y, ino, data0.length, buffer[..n], offset, fixed, pos);
      var block;
      data, block := AllocateBlock(ino, data0, pos);
      EditAllocate(a, y, Y(), ino, data0.length, buffer[..n], offset, fixed);
      ChunkPlaced(a, y, Y(), ino, offset, |buffer|, n);
      y := Y();
      EditFacts(a, y, ino, data0.length, buffer[..n], offset, fixed, pos);
      ok, chunk := block != UNUSED, 0;
      if ok {
        chunk := PutChunk(a, fixed, ino, data, buffer, offset, n, block);
      }
    }

    /** The part of a turn that copies bytes, once the block is known. */
    method PutChunk(ghost a: Sys, ghost fixed: bool, ghost ino: nat, ghost data: InodeDisk, buffer: seq<byte>, offset: nat,
                    n: nat, block: word)
      returns (chunk: nat)
      requires Parts() && Inv(Y()) && n < |buffer| && offset + |buffer| <= data.length && ino in hdrs && hdrs[ino] == data
      requires Editing(a, Y(), ino, data.length, buffer[..n], offset, fixed)
      requires Booked(a, Y(), ino, Touched(offset, |buffer|)) && There(cache.view, data, offset, n)
      requires block == Resolve(cache.view, data, Data((offset + n) / SECTOR_SIZE)) != UNUSED
      modifies cache
      ensures Parts() && 0 < chunk && n + chunk <= |buffer| && SomeBlockCached(Y(), ino)
      ensures Editing(a, Y(), ino, data.length, buffer[..n + chunk], offset, fixed)
      ensures Booked(a, Y(), ino, Touched(offset, |buffer|)) && There(cache.view, data, offset, n + chunk)
    {
      hide Editing, Inv, Resolve, Booked, Touched, There, Splice, BM.BitsOf;
      ghost var y := Y();
      ghost var pos := (offset + n) / SECTOR_SIZE;
      PointerOwned(y, ino, Data(pos));
      var sectorOfs := (offset + n) % SECTOR_SIZE;
      chunk := if |buffer| - n < SECTOR_SIZE - sectorOfs then |buffer| - n else SECTOR_SIZE - sectorOfs;
      var more := buffer[n..n + chunk];
      cache.Write(more, block, sectorOfs);
      EditPoke(a, y, Y(), ino, data.length, buffer[..n], offset, fixed, pos, sectorOfs, more);
      ChunkPoked(a, y, Y(), ino, offset, |buffer|, n, chunk);
      assert buffer[..n] + more == buffer[..n + chunk];
      assert Resolve(cache.view, hdrs[ino], Data(pos)) in cache.Cached();
    }

    /** The loop of inode_write_at. */
    method WriteAll(ghost a: Sys, ghost fixed: bool, ino: nat, data0: InodeDisk, buffer: seq<byte>, offset: nat)
      returns (data: InodeDisk, n: nat, ok: bool)
      requires Parts() && offset + |buffer| <= data0.length && offset + |buffer| <= MAX_BYTES
      requires Editing(a, Y(), ino, data0.length, [], offset, fixed) && ino in hdrs && hdrs[ino] == data0
      requires Booked(a, Y(), ino, Touched(offset, |buffer|))
      requires if fixed then Mapped(a.view, a.hdrs[ino], offset, offset + |buffer|) else Ready(a) && loaded
      modifies this`open, this`hdrs, this`owner, this`busy, cache, freeMap.words
      ensures Parts() && n <= |buffer| && data.length == data0.length && ino in hdrs && hdrs[ino] == data
      ensures Editing(a, Y(), ino, data.length, buffer[..n], offset, fixed)
      ensures ok ==> n == |buffer| && (n > 0 ==> SomeBlockCached(Y(), ino))
      ensures Booked(a, Y(), ino, Touched(offset, |buffer|)) && There(cache.view, data, offset, n)
      ensures !ok ==> DiskFull(Y()) && !fixed && n < |buffer| && Resolve(cache.view, data, Data((offset + n) / SECTOR_SIZE)) == UNUSED
      decreases if fixed then 0 else 3, 6
    {
      hide Editing, Ready, Mapped, AllMarked, SomeBlockCached, Booked, Touched, Resolve;
      data, n, ok := data0, 0, true;
      assert buffer[..0] == [];
      while ok && n < |buffer|
        invariant n <= |buffer| && Parts() && data.length == data0.length && ino in hdrs && hdrs[ino] == data
        invariant Editing(a, Y(), ino, data.length, buffer[..n], offset, fixed)
        invariant Booked(a, Y(), ino, Touched(offset, |buffer|)) && There(cache.view, data, offset, n)
        invariant ok && n > 0 ==> SomeBlockCached(Y(), ino)
        invariant !ok ==> DiskFull(Y()) && !fixed && n < |buffer| && Resolve(cache.view, data, Data((offset + n) / SECTOR_SIZE)) == UNUSED
        decreases ok, |buffer| - n
      {
        var chunk;
        data, chunk, ok := WriteChunk(a, fixed, ino, data, buffer, offset, n);
        n := n + chunk;
      }
    }

    /** inode_write_at. */
    method InodeWriteAt(ino: nat, buffer: seq<byte>, offset: nat) returns (n: nat, ok: bool)
      requires Parts() && Inv(Y()) && ino in open && ino in hdrs && ino !in busy && offset + |buffer| <= MAX_BYTES
      requires InPlace(Y(), ino, offset, |buffer|) || (Ready(Y()) && loaded && (mounted ==> ino != FREE_MAP))
      modifies this`open, this`hdrs, this`owner, this`busy, cache, freeMap.words
      ensures Parts() && Carried(old(Y()), Y(), ino) && busy == old(busy)
      ensures open == old(open)[ino := old(open)[ino].(data := hdrs[ino])]
      ensures old(InPlace(Y(), ino, offset, |buffer|)) ==> ok && Stationary(old(Y()), Y(), ino) && open == old(open)
      ensures old(open)[ino].denyWriteCnt > 0 ==> ok && n == 0 && Y() == old(Y())
      ensures old(open)[ino].denyWriteCnt == 0 && ok ==>
                && n == |buffer|
                && hdrs[ino].length == Max(old(hdrs)[ino].length, offset + n)
                && BytesWritten(old(Y()), Y(), ino, buffer, offset)
                && Spent(old(Y()), Y(), ino, Touched(offset, |buffer|))
      ensures ok && n > 0 ==> SomeBlockCached(Y(), ino)
      ensures ok <==> old(open)[ino].denyWriteCnt > 0 || old(Fits(Y(), ino, Touched(offset, |buffer|)))
      ensures !ok ==> DiskFull(Y())
      decreases if InPlace(Y(), ino, offset, |buffer|) then 1 else 4, 1
    {
      hide Carried, Inv, Ready, BytesWritten, Stationary, InPlace, DiskFull, SomeBlockCached, Touched, Fits, Spent;
      InvFacts(Y());
      CarriedReflexive(Y(), ino);
      n, ok := 0, true;
      if open[ino].denyWriteCnt == 0 {
        n, ok := WriteUndenied(ino, buffer, offset);
      }
    }

    /** inode_write_at once it is known that writes are not denied. */
    method WriteUndenied(ino: nat, buffer: seq<byte>, offset: nat) returns (n: nat, ok: bool)
      requires Parts() && Inv(Y()) && ino in open && ino in hdrs && ino !in busy && offset + |buffer| <= MAX_BYTES
      requires InPlace(Y(), ino, offset, |buffer|) || (Ready(Y()) && loaded && (mounted ==> ino != FREE_MAP))
      modifies this`open, this`hdrs, this`owner, this`busy, cache, freeMap.words
      ensures Parts() && Carried(old(Y()), Y(), ino) && busy == old(busy)
      ensures open == old(open)[ino := old(open)[ino].(data := hdrs[ino])]
      ensures old(InPlace(Y(), ino, offset, |buffer|)) ==> ok && Stationary(old(Y()), Y(), ino) && open == old(open)
      ensures ok ==>
                && n == |buffer|
                && hdrs[ino].length == Max(old(hdrs)[ino].length, offset + n)
                && BytesWritten(old(Y()), Y(), ino, buffer, offset)
                && Spent(old(Y()), Y(), ino, Touched(offset, |buffer|))
      ensures ok && n > 0 ==> SomeBlockCached(Y(), ino)
      ensures ok <==> old(Fits(Y(), ino, Touched(offset, |buffer|)))
      ensures !ok ==> DiskFull(Y())
      decreases if InPlace(Y(), ino, offset, |buffer|) then 1 else 4, 0
    {
      hide Editing, Carried, Inv, Ready, BytesWritten, Stationary, Resolve, AllMarked, Mapped, There;
      hide BM.BitsOf, Booked, Touched, Fits, Wf, NoLimbo, Kept, Spent;
      ghost var a := Y();
      ghost var fixed := InPlace(a, ino, offset, |buffer|);
      InvFacts(a);
      var data: InodeDisk := open[ino].data;
      if data.length < offset + |buffer| {
        data := data.(length := offset + |buffer|);
      }
      busy, hdrs := busy + {ino}, hdrs[ino := data];
      EditStart(a, Y(), ino, data.length, offset, fixed);
      BookedSame(a, Y(), ino, Touched(offset, |buffer|));
      data, n, ok := WriteAll(a, fixed, ino, data, buffer, offset);
      ghost var y := Y();
      EditOpen(a, y, ino, data.length, buffer[..n], offset, fixed);
      open := open[ino := open[ino].(data := data)];
      busy := a.busy;
      WriteFinished(a, y, Y(), ino, data.length, buffer, offset, n, fixed, ok);
    }

    /** One turn of the loop of inode_read_at, which asks for the block before it looks at the length.
        An empty chunk ends the loop; using a block that could not be had panics. */
    method ReadChunk(ghost a: Sys, ghost fixed: bool, ino: nat, data0: InodeDisk, size: nat, offset: nat)
      returns (data: InodeDisk, chunk: seq<byte>, ok: bool)
      requires Parts() && 0 < size && offset < MAX_BYTES
      requires Editing(a, Y(), ino, data0.length, [], 0, fixed) && ino in hdrs && hdrs[ino] == data0 && ino in a.hdrs
      requires if fixed then Mapped(a.view, a.hdrs[ino], offset, offset + size) else Ready(a) && loaded
      modifies this`open, this`hdrs, this`owner, this`busy, cache, freeMap.words
      ensures Parts() && data.length == data0.length && ino in hdrs && hdrs[ino] == data
      ensures Editing(a, Y(), ino, data.length, [], 0, fixed)
      ensures |chunk| <= size && (ok ==> (chunk == [] <==> data.length <= offset))
      ensures (chunk != [] ==> offset + |chunk| <= data.length) && BytesAt(a.view, a.hdrs[ino], offset, chunk)
      ensures Booked(old(Y()), Y(), ino, Path(offset / SECTOR_SIZE)) && Kept(old(Y()), Y(), ino)
      ensures chunk != [] ==> Resolve(cache.view, data, Data(offset / SECTOR_SIZE)) != UNUSED
      ensures Resolve(cache.view, data, Data(offset / SECTOR_SIZE)) == UNUSED ==> DiskFull(Y())
      ensures offset % SECTOR_SIZE + |chunk| <= SECTOR_SIZE
      ensures !ok ==>
                && DiskFull(Y()) && !fixed && chunk == [] && offset < data.length
                && Resolve(cache.view, data, Data(offset / SECTOR_SIZE)) == UNUSED
    {
      hide Editing, Grows, Inv, Ready, DiskFull, Resolve, Byte, Booked, Path, BM.BitsOf;
      ghost var y := Y();
      var pos := offset / SECTOR_SIZE;
      EditFacts(a, y, ino, data0.length, [], 0, fixed, pos);
      var block;
      data, block := AllocateBlock(ino, data0, pos);
      EditAllocate(a, y, Y(), ino, data0.length, [], 0, fixed);
      GrowsKept(y, Y(), ino);
      y := Y();
      EditFacts(a, y, ino, data0.length, [], 0, fixed, pos);
      chunk, ok := [], true;
      var sectorOfs := offset % SECTOR_SIZE;
      var inodeLeft := data.length - offset;
      var sectorLeft := SECTOR_SIZE - sectorOfs;
      var minLeft := if inodeLeft < sectorLeft then inodeLeft else sectorLeft;
      var chunkSize := if size < minLeft then size else minLeft;
      if chunkSize <= 0 {
        return;
      }
      if block == UNUSED {
        ok := false;
        return;
      }
      chunk := GetChunk(a, fixed, ino, data, offset, block, chunkSize);
      BookedSame(y, Y(), ino, {});
      BookedThen(old(Y()), y, Y(), ino, Path(pos), {}, Path(pos));
    }

    /** The part of a turn that copies bytes, once the block is known. */
    method GetChunk(ghost a: Sys, ghost fixed: bool, ghost ino: nat, ghost data: InodeDisk, offset: nat, block: word, size: nat)
      returns (chunk: seq<byte>)
      requires Parts() && Inv(Y()) && ino in hdrs && hdrs[ino] == data && ino in a.hdrs
      requires Editing(a, Y(), ino, data.length, [], 0, fixed) && offset % SECTOR_SIZE + size <= SECTOR_SIZE
      requires block == Resolve(cache.view, data, Data(offset / SECTOR_SIZE)) != UNUSED
      modifies cache
      ensures Parts() && Inv(Y()) && Editing(a, Y(), ino, data.length, [], 0, fixed) && cache.view == old(cache.view)
      ensures |chunk| == size && BytesAt(a.view, a.hdrs[ino], offset, chunk)
    {
      hide Editing, Inv, Resolve, Byte, BM.BitsOf, BytesAt;
      ghost var y := Y();
      PointerOwned(y, ino, Data(offset / SECTOR_SIZE));
      chunk := cache.Read(block, offset % SECTOR_SIZE, size);
      CacheKeeps(y, Y(), block);
      EditRead(a, y, Y(), ino, data.length, fixed, offset, chunk);
    }

    /** The loop of inode_read_at. */
    method ReadAll(ghost a: Sys, ghost fixed: bool, ino: nat, data0: InodeDisk, size: nat, offset: nat)
      returns (data: InodeDisk, buffer: seq<byte>, ok: bool)
      requires Parts() && InReach(data0.length, offset, size)
      requires Editing(a, Y(), ino, data0.length, [], 0, fixed) && ino in hdrs && hdrs[ino] == data0
      requires Booked(a, Y(), ino, Touched(offset, Clip(data0.length, offset, size)))
      requires ino in a.hdrs && a.hdrs[ino].length == data0.length
      requires if fixed then Mapped(a.view, a.hdrs[ino], offset, offset + size) else Ready(a) && loaded
      modifies this`open, this`hdrs, this`owner, this`busy, cache, freeMap.words
      ensures Parts() && data.length == data0.length && ino in hdrs && hdrs[ino] == data
      ensures Editing(a, Y(), ino, data.length, [], 0, fixed)
      ensures ok ==>
                && buffer == ReadSlice(Content(a.view, a.hdrs[ino]), offset, size)
                && Booked(a, Y(), ino, Touched(offset, Asked(data0.length, offset, size)))
                && There(cache.view, data, offset, Clip(data0.length, offset, size))
                && (There(cache.view, data, offset, Asked(data0.length, offset, size)) || DiskFull(Y()))
      ensures !ok ==>
                && DiskFull(Y()) && !fixed && |buffer| < Clip(data0.length, offset, size)
                && Booked(a, Y(), ino, Touched(offset, Clip(data0.length, offset, size)))
                && Resolve(cache.view, data, Data((offset + |buffer|) / SECTOR_SIZE)) == UNUSED
    {
      hide Editing, Ready, AllMarked, Mapped, BytesAt, Booked, Touched, Path, Kept, Resolve, There, Content, ReadSlice;
      NothingThere(cache.view, data0, offset);
      NoBytesAt(a.view, a.hdrs[ino], offset);
      data, buffer, ok := data0, [], true;
      var done := false;
      while !done && |buffer| < size
        invariant |buffer| <= size && Parts() && ino in hdrs && hdrs[ino] == data && data.length == data0.length
        invariant Editing(a, Y(), ino, data.length, [], 0, fixed)
        invariant (buffer != [] ==> offset + |buffer| <= data.length) && BytesAt(a.view, a.hdrs[ino], offset, buffer)
        invariant done && ok ==> data.length <= offset + |buffer|
        invariant !ok ==> done && DiskFull(Y()) && !fixed && |buffer| < Clip(data0.length, offset, size)
        invariant !ok ==> Resolve(cache.view, data, Data((offset + |buffer|) / SECTOR_SIZE)) == UNUSED
        invariant Booked(a, Y(), ino, Touched(offset, if done && ok then Asked(data0.length, offset, size)
                                                      else Clip(data0.length, offset, size)))
        invariant done && ok ==> There(cache.view, data, offset, Asked(data0.length, offset, size)) || DiskFull(Y())
        invariant There(cache.view, data, offset, |buffer|)
        decreases !done, size - |buffer|
      {
        var chunk;
        ghost var y := Y();
        MappedTail(a.view, a.hdrs[ino], offset, offset + |buffer|, offset + size);
        data, chunk, ok := ReadChunk(a, fixed, ino, data, size - |buffer|, offset + |buffer|);
        ReadBooked(a, y, Y(), ino, offset, Clip(data0.length, offset, size), |buffer|);
        ReadThere(y, Y(), ino, offset, |buffer|, |chunk|);
        if !ok || chunk == [] {
          if ok && Resolve(cache.view, data, Data((offset + |buffer|) / SECTOR_SIZE)) != UNUSED {
            EndThere(y, Y(), ino, offset, |buffer|);
          }
          done := true;
        } else {
          BytesAtAppend(a.view, a.hdrs[ino], offset, buffer, chunk);
          buffer := buffer + chunk;
        }
      }
      if ok {
        SliceRead(a.view, a.hdrs[ino], offset, size, buffer);
      }
    }

    /** inode_read_at. */
    method InodeReadAt(ino: nat, size: nat, offset: nat) returns (buffer: seq<byte>, ok: bool)
      requires Parts() && Inv(Y()) && ino in open && ino in hdrs && ino !in busy && InReach(hdrs[ino].length, offset, size)
      requires InPlace(Y(), ino, offset, size) || (Ready(Y()) && loaded && (mounted ==> ino != FREE_MAP))
      modifies this`open, this`hdrs, this`owner, this`busy, cache, freeMap.words
      ensures Parts() && Carried(old(Y()), Y(), ino) && busy == old(busy)
      ensures open == old(open)[ino := old(open)[ino].(data := hdrs[ino])]
      ensures old(InPlace(Y(), ino, offset, size)) ==> ok && Stationary(old(Y()), Y(), ino) && open == old(open)
      ensures BytesWritten(old(Y()), Y(), ino, [], 0) && hdrs[ino].length == old(hdrs)[ino].length
      ensures ok ==> buffer == ReadSlice(Content(old(cache.view), old(hdrs)[ino]), offset, size)
      ensures ok <==> old(Fits(Y(), ino, Touched(offset, Clip(hdrs[ino].length, offset, size))))
      ensures ok ==> SpentOrAll(old(Y()), Y(), ino, Touched(offset, Asked(old(hdrs)[ino].length, offset, size)))
      ensures !ok ==> DiskFull(Y())
    {
      hide Editing, Carried, Inv, Ready, BytesWritten, Stationary, Resolve, AllMarked, Mapped, Byte, Content, ReadSlice;
      hide Booked, Touched, Fits, Wf, NoLimbo, Kept, There, SpentOrAll;
      ghost var a := Y();
      ghost var fixed := InPlace(a, ino, offset, size);
      InvFacts(a);
      var data := open[ino].data;
      busy, hdrs := busy + {ino}, hdrs[ino := data];
      EditStart(a, Y(), ino, data.length, 0, fixed);
      ghost var clip := Clip(data.length, offset, size);
      BookedSame(a, Y(), ino, Touched(offset, clip));
      data, buffer, ok := ReadAll(a, fixed, ino, data, size, offset);
      ghost var y := Y();
      EditOpen(a, y, ino, data.length, [], 0, fixed);
      open := open[ino := open[ino].(data := data)];
      busy := a.busy;
      EditEnd(a, y, Y(), ino, data.length, [], 0, fixed);
      StationaryWords(a, Y(), ino);
      ReadDecided(a, y, Y(), ino, offset, Asked(data.length, offset, size), clip, |buffer|, fixed, ok);
    }

    /** free_map_release of one sector, which no live file may be using. */
    method FreeMapRelease(sector: nat)
      requires Parts() && Ready(Y()) && mounted && loaded
      requires sector < freeMap.bitCnt && sector < |freeMap.Contents()| && freeMap.Contents()[sector]
      requires sector in owner ==> owner[sector].Doomed?
      modifies this`open, this`hdrs, this`owner, this`busy, cache, freeMap.words
      ensures Parts() && Cleared(old(Y()), Y(), sector) && SomeBlockCached(Y(), FREE_MAP)
      ensures sector !in old(owner) ==> Ready(Y()) && Freed(old(Y()), Y(), {sector})
    {
      hide Quiet, Cleared, Freed, Inv, Confined, BM.BitsOf, Content, BitsAgree;
      ghost var a := Y();
      freeMap.SetMultiple(sector, 1, false);
      assert freeMap.Contents() == old(freeMap.Contents())[sector := false];
      if sector in owner {
        owner := owner[sector := Limbo];
      }
      ghost var m := Y();
      ClearKeepsInv(a, m, sector);
      BitmapWrite();
      ReleaseClears(a, m, Y(), sector);
      if sector !in a.owner {
        ClearedUnowned(a, Y(), sector);
      }
    }

    /** free_map_release followed by free_cache, for node n of the file being freed. */
    method ReleaseNode(ghost a: Sys, ghost ino: nat, ghost h: InodeDisk, ghost n: Node, ghost freed: set<nat>, sector: nat)
      requires Parts() && Ready(Y()) && mounted && loaded && Dying(a, ino, h) && Freed(a, Y(), freed)
      requires sector == Resolve(a.view, h, n) != UNUSED && sector !in freed
      modifies this`open, this`hdrs, this`owner, this`busy, cache, freeMap.words
      ensures Parts() && Ready(Y()) && mounted && Freed(a, Y(), freed + {sector})
    {
      hide Cleared, Freed, Inv, Dying, Resolve, BM.BitsOf, Content, BitsAgree;
      ghost var b := Y();
      Survivor(a, b, ino, h, freed, n);
      FreeMapRelease(sector);
      ghost var y := Y();
      ClearedFacts(b, y, sector);
      OtherSectorCached(y, sector);
      cache.FreeCache(sector);
      owner := owner - {sector};
      ClearedUncached(b, y, Y(), sector);
      FreedMore(a, b, Y(), freed, {sector});
      FreedFacts(a, Y(), freed + {sector});
    }

    /** A pointer of the file being freed, read from an index sector not given back yet. */
    method ReadDyingPointer(ghost a: Sys, ghost ino: nat, ghost h: InodeDisk, ghost n: Node, ghost freed: set<nat>, sector: word, k: nat)
      returns (ptr: word)
      requires Parts() && Ready(Y()) && mounted && Dying(a, ino, h) && Freed(a, Y(), freed)
      requires sector == Resolve(a.view, h, n) != UNUSED && sector !in freed && k < WORDS_PER_SECTOR
      modifies cache
      ensures Parts() && Ready(Y()) && Freed(a, Y(), freed)
      ensures ptr == PtrAt(a.view, sector, k)
    {
      hide Freed, Inv, Dying, Resolve, BM.BitsOf, Content, BitsAgree, WordAt;
      ghost var y := Y();
      Survivor(a, y, ino, h, freed, n);
      DyingBound(a, ino, h, n);
      ptr := ReadPointer(sector, k);
      FreedCached(a, y, Y(), freed);
    }

    /** free_blocks at a position reached through the indirect sector. */
    method FreeIndirectAt(ghost a: Sys, ghost ino: nat, h: InodeDisk, pos: nat, ghost hi: nat) returns (ok: bool)
      requires Parts() && Ready(Y()) && mounted && loaded && Dying(a, ino, h) && DIRECT_MAX <= pos < DIRECT_MAX + WORDS_PER_SECTOR && pos < hi
      requires Freed(a, Y(), OwnedBetween(a.owner, ino, pos + 1, hi))
      modifies this`open, this`hdrs, this`owner, this`busy, cache, freeMap.words
      ensures ok <==> h.indirect != UNUSED
      ensures ok ==> Parts() && Ready(Y()) && mounted && Freed(a, Y(), OwnedBetween(a.owner, ino, pos, hi))
    {
      hide Freed, Inv, Dying, Resolve, OwnedBetween, Content, BitsAgree, WordAt;
      ok := h.indirect != UNUSED;
      if !ok {
        return;
      }
      ghost var freed: set<nat> := OwnedBetween(a.owner, ino, pos + 1, hi);
      ResolveThrough(a.view, h, pos);
      OwnedBetweenStep(a, ino, h, pos, hi);
      NotYetFreed(a, ino, h, Ind, pos, hi);
      var block := ReadDyingPointer(a, ino, h, Ind, freed, h.indirect, pos - DIRECT_MAX);
      if block != UNUSED {
        NotYetFreed(a, ino, h, Data(pos), pos, hi);
        DyingDistinct(a, ino, h, Data(pos), Ind);
        ReleaseNode(a, ino, h, Data(pos), freed, block);
        freed := freed + {block};
      }
      if pos == DIRECT_MAX {
        ReleaseNode(a, ino, h, Ind, freed, h.indirect);
        freed := freed + {h.indirect};
      }
      assert freed == OwnedBetween(a.owner, ino, pos + 1, hi) + GivenUpAt(a.view, h, pos);
    }

    /** free_blocks at a position reached through the double-indirect sector. */
    method FreeDoubleAt(ghost a: Sys, ghost ino: nat, h: InodeDisk, pos: nat, ghost hi: nat) returns (ok: bool)
      requires Parts() && Ready(Y()) && mounted && loaded && Dying(a, ino, h)
      requires DIRECT_MAX + WORDS_PER_SECTOR <= pos < MAX_BLOCKS && pos < hi
      requires Freed(a, Y(), OwnedBetween(a.owner, ino, pos + 1, hi))
      modifies this`open, this`hdrs, this`owner, this`busy, cache, freeMap.words
      ensures ok <==> h.dbl != UNUSED
      ensures ok ==> Parts() && Ready(Y()) && mounted && Freed(a, Y(), OwnedBetween(a.owner, ino, pos, hi))
    {
      hide Freed, Inv, Dying, Resolve, OwnedBetween, Content, BitsAgree, WordAt;
      ok := h.dbl != UNUSED;
      if !ok {
        return;
      }
      ghost var freed: set<nat> := OwnedBetween(a.owner, ino, pos + 1, hi);
      ghost var second := SecondOf(pos);
      var ioffset := (pos - DIRECT_MAX - WORDS_PER_SECTOR) / WORDS_PER_SECTOR;
      var doffset := (pos - DIRECT_MAX - WORDS_PER_SECTOR) % WORDS_PER_SECTOR;
      ResolveThrough(a.view, h, pos);
      OwnedBetweenStep(a, ino, h, pos, hi);
      DyingBound(a, ino, h, Dbl);
      NotYetFreed(a, ino, h, Dbl, pos, hi);
      var indirect := ReadDyingPointer(a, ino, h, Dbl, freed, h.dbl, ioffset);
      if indirect != UNUSED {
        NotYetFreed(a, ino, h, second, pos, hi);
        DyingDistinct(a, ino, h, second, Dbl);
        var block := ReadDyingPointer(a, ino, h, second, freed, indirect, doffset);
        if block != UNUSED {
          NotYetFreed(a, ino, h, Data(pos), pos, hi);
          DyingDistinct(a, ino, h, Data(pos), Dbl);
          DyingDistinct(a, ino, h, Data(pos), second);
          ReleaseNode(a, ino, h, Data(pos), freed, block);
          freed := freed + {block};
        }
        if doffset == 0 {
          ReleaseNode(a, ino, h, second, freed, indirect);
          freed := freed + {indirect};
        }
      }
      if ioffset == 0 && doffset == 0 {
        ReleaseNode(a, ino, h, Dbl, freed, h.dbl);
        freed := freed + {h.dbl};
      }
      assert freed == OwnedBetween(a.owner, ino, pos + 1, hi) + GivenUpAt(a.view, h, pos);
    }

    /** free_blocks, for the header h of a file already taken out of the table. */
    method FreeBlocks(ghost ino: nat, h: InodeDisk) returns (ok: bool)
      requires Parts() && Ready(Y()) && mounted && loaded && Dying(Y(), ino, h) && h.length <= MAX_BYTES
      modifies this`open, this`hdrs, this`owner, this`busy, cache, freeMap.words
      ensures ok <==> Freeable(h)
      ensures ok ==> Parts() && Ready(Y()) && mounted && Freed(old(Y()), Y(), OwnedBetween(old(owner), ino, 0, SectorCount(h)))
    {
      hide Freed, Inv, Dying, Resolve, OwnedBetween, Content, BitsAgree;
      ghost var a := Y();
      var sectors := SectorCount(h);
      var pos: nat := sectors;
      ok := true;
      NothingBetween(a.owner, ino, sectors);
      FreedNothing(a);
      while pos > 0
        invariant pos <= sectors && Parts() && Ready(Y()) && mounted
        invariant Freed(a, Y(), OwnedBetween(a.owner, ino, pos, sectors))
        invariant forall p :: pos <= p < sectors && p < DIRECT_MAX ==> h.direct[p] != UNUSED
        invariant sectors > DIRECT_MAX && pos <= DIRECT_MAX ==> h.indirect != UNUSED
        invariant sectors > DIRECT_MAX + WORDS_PER_SECTOR && pos <= DIRECT_MAX + WORDS_PER_SECTOR ==> h.dbl != UNUSED
      {
        pos := pos - 1;
        if pos < DIRECT_MAX {
          ok := h.direct[pos] != UNUSED;
          if ok {
            OwnedBetweenStep(a, ino, h, pos, sectors);
            DirectGivenUp(a.view, h, pos);
            NotYetFreed(a, ino, h, Data(pos), pos, sectors);
            ReleaseNode(a, ino, h, Data(pos), OwnedBetween(a.owner, ino, pos + 1, sectors), h.direct[pos]);
          }
        } else if pos < DIRECT_MAX + WORDS_PER_SECTOR {
          ok := FreeIndirectAt(a, ino, h, pos, sectors);
        } else {
          ok := FreeDoubleAt(a, ino, h, pos, sectors);
        }
        if !ok {
          return;
        }
      }
    }

    /** Nothing is half done. */
    ghost predicate Still()
      reads this, cache, freeMap.words
    {
      Built() && Ready(Y()) && NoDoomed(Y()) && busy == {}
    }

    /** Between calls. */
    ghost predicate Idle()
      reads this, cache, freeMap.words
    {
      Still() && cache.Live()
    }

    /** inode_open: a second open shares the inode of the first; otherwise the header is read from its
        sector. */
    method InodeOpen(sector: nat)
      requires Idle() && sector in hdrs
      requires mounted ==> sector != FREE_MAP
      modifies this`open
      ensures Idle() && Y() == old(Y()).(open := open) && Files(Y()) == old(Files(Y()))
      ensures sector in open && open == old(open)[sector := open[sector]] && open[sector].data == hdrs[sector]
      ensures sector in old(open) ==> open[sector] == old(open)[sector].(openCnt := old(open)[sector].openCnt + 1)
      ensures sector !in old(open) ==> open[sector] == OpenInode(1, false, 0, hdrs[sector])
    {
      hide Inv, DecodeInode, BM.BitsOf, Content, BitsAgree;
      ghost var a := Y();
      HeaderFacts(a, sector);
      var inode;
      if sector in open {
        inode := open[sector].(openCnt := open[sector].openCnt + 1);
      } else {
        var bytes := cache.DiskRead(sector);
        inode := OpenInode(1, false, 0, DecodeInode(bytes));
      }
      open := open[sector := inode];
      OpenReadsBack(a, Y(), sector, inode);
    }

    /** inode_remove: only marks the file; the last close frees it. */
    method InodeRemove(ino: nat)
      requires Idle() && ino in open && (mounted ==> ino != FREE_MAP)
      modifies this`open
      ensures Idle() && Files(Y()) == old(Files(Y()))
      ensures open == old(open)[ino := old(open)[ino].(removed := true)]
    {
      hide Inv, BM.BitsOf, Content, BitsAgree;
      ghost var a := Y();
      HeaderFacts(a, ino);
      open := open[ino := open[ino].(removed := true)];
      OpenReadsBack(a, Y(), ino, open[ino]);
    }

    /** inode_deny_write; the assertion in it is a precondition here. */
    method InodeDenyWrite(ino: nat)
      requires Idle() && ino in open && (mounted ==> ino != FREE_MAP) && open[ino].denyWriteCnt < open[ino].openCnt
      modifies this`open
      ensures Idle() && Files(Y()) == old(Files(Y()))
      ensures open == old(open)[ino := old(open)[ino].(denyWriteCnt := old(open)[ino].denyWriteCnt + 1)]
    {
      hide Inv, BM.BitsOf, Content, BitsAgree;
      ghost var a := Y();
      HeaderFacts(a, ino);
      open := open[ino := open[ino].(denyWriteCnt := open[ino].denyWriteCnt + 1)];
      OpenReadsBack(a, Y(), ino, open[ino]);
    }

    /** inode_allow_write, with its assertions as preconditions. */
    method InodeAllowWrite(ino: nat)
      requires Idle() && ino in open && (mounted ==> ino != FREE_MAP) && 0 < open[ino].denyWriteCnt <= open[ino].openCnt
      modifies this`open
      ensures Idle() && Files(Y()) == old(Files(Y()))
      ensures open == old(open)[ino := old(open)[ino].(denyWriteCnt := old(open)[ino].denyWriteCnt - 1)]
    {
      hide Inv, BM.BitsOf, Content, BitsAgree;
      ghost var a := Y();
      HeaderFacts(a, ino);
      open := open[ino := open[ino].(denyWriteCnt := open[ino].denyWriteCnt - 1)];
      OpenReadsBack(a, Y(), ino, open[ino]);
    }

    /** The last inode_close of a removed file: its header sector and its blocks are given back.
        Fails (panics) exactly when free_blocks does. */
    method FreeRemoved(ino: nat, data: InodeDisk) returns (ok: bool)
      requires Idle() && mounted && loaded && ino in hdrs && hdrs[ino] == data && ino != FREE_MAP
      modifies this`open, this`hdrs, this`owner, this`busy, cache, freeMap.words
      ensures ok <==> Freeable(data)
      ensures ok ==> Idle() && Files(Y()) == old(Files(Y())) - {ino} && open == old(open) - {ino} && mounted && hdrs == old(hdrs) - {ino}
      ensures ok ==> GaveBack(old(Y()), Y(), ino, SectorCount(data))
    {
      hide Inv, Freed, Dying, Files, BM.BitsOf, Content, BitsAgree, GaveBack;
      ghost var a := Y();
      HeaderFacts(a, ino);
      open := open - {ino};
      hdrs, owner := hdrs - {ino}, Doom(owner, ino);
      ghost var b := Y();
      assert busy - {ino} == busy;
      DropHeader(a, b, ino);
      FilesDropped(a, b, ino);
      FreeMapRelease(ino);
      ghost var c := Y();
      FilesFreed(b, c, {ino});
      FreedFacts(b, c, {ino});
      DyingStays(b, c, ino, data);
      ok := FreeBlocks(ino, data);
      if ok {
        ghost var d := Y();
        FilesFreed(c, d, OwnedBetween(c.owner, ino, 0, SectorCount(data)));
        FreedMore(b, c, d, {ino}, OwnedBetween(c.owner, ino, 0, SectorCount(data)));
        FreedFacts(b, d, {ino} + OwnedBetween(c.owner, ino, 0, SectorCount(data)));
        owner := Leak(owner);
        LeakRest(d, Y());
        GaveBackHolds(a, b, c, d, Y(), ino, SectorCount(data));
      }
    }

    /** inode_close.  Only the freeing of a removed file goes through the cache. */
    method InodeClose(ino: nat) returns (ok: bool)
      requires Still() && ino in open && (mounted ==> ino != FREE_MAP)
      requires open[ino].openCnt == 1 && open[ino].removed ==> mounted && loaded && cache.Live()
      modifies this`open, this`hdrs, this`owner, this`busy, cache, freeMap.words
      ensures ok <==> !(old(open)[ino].openCnt == 1 && old(open)[ino].removed) || Freeable(old(hdrs)[ino])
      ensures ok ==> Still() && (old(cache.Live()) ==> cache.Live())
      ensures ok && old(open)[ino].openCnt > 1 ==>
                && Y() == old(Y()).(open := old(open)[ino := old(open)[ino].(openCnt := old(open)[ino].openCnt - 1)])
                && Files(Y()) == old(Files(Y()))
      ensures old(open)[ino].openCnt == 1 && !old(open)[ino].removed ==>
                && ino in old(hdrs) && ino < old(|cache.view|)
                && Y() == old(Y()).(open := old(open) - {ino}, view := old(cache.view)[ino := EncodeInode(old(hdrs)[ino])])
                && Files(Y()) == old(Files(Y()))
      ensures ok && old(open)[ino].openCnt == 1 && old(open)[ino].removed ==>
                && open == old(open) - {ino} && Files(Y()) == old(Files(Y())) - {ino} && hdrs == old(hdrs) - {ino}
                && GaveBack(old(Y()), Y(), ino, SectorCount(old(hdrs)[ino]))
    {
      hide Inv, Files, BM.BitsOf, Content, BitsAgree, EncodeInode, GaveBack;
      ghost var a := Y();
      HeaderFacts(a, ino);
      ok := true;
      var inode := open[ino];
      if inode.openCnt > 1 {
        open := open[ino := inode.(openCnt := inode.openCnt - 1)];
        OpenReadsBack(a, Y(), ino, open[ino]);
      } else if inode.removed {
        ok := FreeRemoved(ino, inode.data);
      } else {
        open := open - {ino};
        cache.DiskWrite(ino, EncodeInode(inode.data));
        assert busy - {ino} == busy;
        CloseWritesBack(a, Y(), ino);
      }
    }

    /** The loop of inode_create, which goes on allocating after a failure. */
    method CreateBlocks(ghost b: Sys, ghost ino: nat, data0: InodeDisk, sectors: nat) returns (data: InodeDisk, success: bool)
      requires Parts() && Ready(Y()) && loaded && Y() == b && ino in hdrs && hdrs[ino] == data0 && ino in busy && sectors <= MAX_BLOCKS
      modifies this`open, this`hdrs, this`owner, this`busy, cache, freeMap.words
      ensures Parts() && Ready(Y()) && Grows(b, Y(), ino) && hdrs[ino] == data
      ensures success == FirstBlocks(Y(), ino, sectors) && Booked(b, Y(), ino, Paths(0, sectors))
      ensures !success ==> DiskFull(Y())
    {
      hide Inv, Content, BitsAgree, Resolve, SameBytes, NoBitCleared, AllMarked, Booked, Paths, Path;
      data, success := data0, true;
      GrowsReflexive(b, b, ino);
      BookedSame(b, b, ino, Paths(0, 0));
      var i := 0;
      while i < sectors
        invariant i <= sectors && Parts() && Ready(Y()) && Grows(b, Y(), ino) && hdrs[ino] == data && ino in busy
        invariant success == FirstBlocks(Y(), ino, i) && Booked(b, Y(), ino, Paths(0, i))
        invariant !success ==> DiskFull(Y())
      {
        ghost var y := Y();
        var block;
        data, block := AllocateBlock(ino, data, i);
        GrowsTransitive(b, y, Y(), ino);
        CreateBooked(b, y, Y(), ino, i);
        if success && block != UNUSED {
          FirstBlocksGrow(y, Y(), ino, i);
        } else if !success {
          DiskStaysFull(y, Y());
          InvIsWf(y);
          InvIsWf(Y());
          StillLacking(y, Y(), ino, i, i);
        }
        success := success && block != UNUSED;
        i := i + 1;
      }
    }

    /** inode_create when every block could be had: the header goes to its sector. */
    method FinishCreate(sector: nat, data: InodeDisk)
      requires Parts() && Ready(Y()) && NoDoomed(Y()) && busy == {sector} && sector in hdrs && hdrs[sector] == data && sector !in open
      requires mounted ==> sector != FREE_MAP
      modifies this`busy, cache
      ensures Y().words == old(Y().words)
      ensures Idle() && |cache.view| == old(|cache.view|) && Files(Y()) == old(Files(Y())) && cache.Cached() == old(cache.Cached())
      ensures forall n :: old(FirstBlocks(Y(), sector, n)) ==> FirstBlocks(Y(), sector, n)
    {
      hide Inv, Content, BitsAgree, Resolve, Files, BM.BitsOf, EncodeInode, FirstBlocks;
      ghost var y := Y();
      HeaderFacts(y, sector);
      cache.DiskWrite(sector, EncodeInode(data));
      busy := {};
      assert y.open - {sector} == y.open;
      CloseWritesBack(y, Y(), sector);
      forall n | FirstBlocks(y, sector, n) ensures FirstBlocks(Y(), sector, n) {
        FirstBlocksAfterClose(y, Y(), sector, n);
      }
    }

    /** inode_create when the disk was full: the blocks allocated so far are lost. */
    ghost method AbandonCreate(sector: nat)
      requires Parts() && Ready(Y()) && NoDoomed(Y()) && busy == {sector} && sector in hdrs && sector !in open
      requires mounted ==> sector != FREE_MAP
      modifies this`hdrs, this`owner, this`busy
      ensures Idle() && hdrs == old(hdrs) - {sector} && sector !in owner && Files(Y()) == old(Files(Y())) - {sector}
    {
      hide Inv, Content, BitsAgree, Resolve, Files, BM.BitsOf, Doom, Leak;
      var y := Y();
      hdrs, owner, busy := hdrs - {sector}, Doom(owner, sector), {};
      assert y.open - {sector} == y.open;
      var d := Y();
      DropHeader(y, d, sector);
      FilesDropped(y, d, sector);
      owner := Leak(owner);
      LeakRest(d, Y());
      LeakKeys(d.owner);
    }

    /** inode_create in a sector obtained from the free map. */
    method InodeCreate(sector: nat, length: word, isDir: word, parent: word) returns (success: bool)
      requires Idle() && sector < |cache.view| && sector < |freeMap.Contents()| && freeMap.Contents()[sector] && sector !in owner
      requires length <= MAX_BYTES && loaded
      modifies this`open, this`hdrs, this`owner, this`busy, cache, freeMap.words
      ensures Idle() && open == old(open) && mounted == old(mounted) && |cache.view| == old(|cache.view|)
      ensures success <==> |Paths(0, Sectors(length))| <= |old(FreeSet(Y()))|
      ensures success ==> FreeSet(Y()) <= old(FreeSet(Y())) && |FreeSet(Y())| == |old(FreeSet(Y()))| - |Paths(0, Sectors(length))|
      ensures success ==> TookFree(old(Y()), Y(), sector)
      ensures success ==> sector in hdrs && hdrs[sector].length == length && FirstBlocks(Y(), sector, SectorCount(hdrs[sector]))
      ensures success ==> hdrs == old(hdrs)[sector := hdrs[sector]] && hdrs[sector].isDir == isDir && hdrs[sector].parent == parent
      ensures success && sector != FREE_MAP ==> Files(Y()) == old(Files(Y()))[sector := seq(length, _ => 0)]
      ensures success && sector == FREE_MAP ==> Files(Y()) == old(Files(Y()))
      ensures !success ==> Files(Y()) == old(Files(Y())) && hdrs == old(hdrs) && DiskFull(Y()) && sector !in owner
    {
      hide Inv, Content, BitsAgree, Resolve, Files, AllMarked, SameBytes, BM.BitsOf, Grows, Byte, FirstBlocks, NoDoomed;
      hide Booked, Paths, FreeSet, Wf, TookFree;
      ghost var a := Y();
      var data := EmptyInode(length, isDir, parent);
      hdrs, owner, busy := hdrs[sector := data], owner[sector := Header], {sector};
      ghost var b := Y();
      Register(a, b, sector, length, isDir, parent);
      NotFreeMap(a, sector);
      data, success := CreateBlocks(b, sector, data, SectorCount(data));
      ghost var y := Y();
      GrowsFacts(b, y, sector);
      FilesCreated(a, b, y, sector, length);
      CreateTable(a, b, y, sector);
      InvIsWf(b);
      InvIsWf(y);
      CreateDecided(a, b, y, sector, SectorCount(b.hdrs[sector]), success);
      if success {
        FinishCreate(sector, data);
        SameFree(y, Y());
        CreateTookFree(a, b, y, Y(), sector, Paths(0, SectorCount(b.hdrs[sector])));
      } else {
        AbandonCreate(sector);
      }
    }

    /** free_map_create: makes the free-map file, opens it and writes the map.  Fails (panics) exactly
        if there are not enough free sectors for the file. */
    method FreeMapCreate() returns (ok: bool)
      requires Idle() && loaded && !mounted && FREE_MAP !in owner && 4 * freeMap.words.Length <= MAX_BYTES && freeMap.Contents()[FREE_MAP]
      modifies this`mounted, this`open, this`hdrs, this`owner, this`busy, cache, freeMap.words
      ensures ok <==> |Paths(0, Sectors(4 * freeMap.words.Length))| <= |old(FreeSet(Y()))|
      ensures ok ==>
                && Idle() && mounted && Files(Y()) == old(Files(Y())) && |cache.view| == old(|cache.view|)
                && FREE_MAP in hdrs && open == old(open)[FREE_MAP := OpenInode(1, false, 0, hdrs[FREE_MAP])]
                && hdrs == old(hdrs)[FREE_MAP := hdrs[FREE_MAP]] && AttrOf(hdrs[FREE_MAP]) == Attr(0, UNUSED)
                && TookFree(old(Y()), Y(), FREE_MAP)
                && |FreeSet(Y())| == |old(FreeSet(Y()))| - |Paths(0, Sectors(4 * freeMap.words.Length))|
    {
      hide Inv, Content, BitsAgree, Resolve, Files, AllMarked, BM.BitsOf, HasBlocks, Quiet, Paths, FreeSet;
      InvFacts(Y());
      NotFreeMap(Y(), FREE_MAP);
      ghost var before := Y();
      ok := InodeCreate(FREE_MAP, 4 * freeMap.words.Length, 0, UNUSED);
      if !ok {
        return;
      }
      ghost var made := Y();
      OpenIsKnown(before, FREE_MAP);
      InodeOpen(FREE_MAP);
      ghost var a := Y();
      mounted := true;
      Mount(a, Y());
      ghost var b := Y();
      BitmapWrite();
      QuietFiles(b, Y());
      QuietOpen(b, Y());
      SameFree(made, Y());
    }

    /** free_map_close. */
    method FreeMapClose() returns (ok: bool)
      requires Still() && mounted
      modifies this`mounted, this`open, this`hdrs, this`owner, this`busy, cache, freeMap.words
      ensures ok && Still() && (old(cache.Live()) ==> cache.Live()) && !mounted && MapStored(Y()) && Files(Y()) == old(Files(Y()))
      ensures FREE_MAP in old(hdrs) && 0 < old(|cache.view|)
      ensures Y() == old(Y()).(mounted := false, open := old(open) - {FREE_MAP},
                               view := old(cache.view)[FREE_MAP := EncodeInode(old(hdrs)[FREE_MAP])])
    {
      hide Inv, Content, BitsAgree, Resolve, Files, BM.BitsOf, HasBlocks, EncodeInode, MapStored;
      ghost var a := Y();
      mounted := false;
      Unmount(a, Y());
      ok := InodeClose(FREE_MAP);
      MapClosed(a, Y());
    }

    /** free_map_open.  The map comes from the disk, whatever is in memory: just after formatting that
        is the map itself, on a disk formatted before it is the fresh map of free_map_init. */
    method FreeMapOpen()
      requires Idle() && !mounted && MapStored(Y())
      modifies this`mounted, this`loaded, this`open, this`hdrs, this`owner, this`busy, cache, freeMap.words
      ensures Idle() && mounted && loaded && Files(Y()) == old(Files(Y())) && hdrs == old(hdrs) && owner == old(owner)
      ensures FREE_MAP in hdrs && open == old(open)[FREE_MAP := OpenInode(1, false, 0, hdrs[FREE_MAP])]
      ensures |cache.view| == old(|cache.view|) <= |freeMap.Contents()|
      ensures forall s :: 0 <= s < |cache.view| ==> s < |old(BM.BitsOf(Y().words))| && freeMap.Contents()[s] == old(BM.BitsOf(Y().words))[s]
    {
      hide Inv, Resolve, Files, BM.BitsOf, HasBlocks, Carried, BytesWritten, Stationary, WordAt, Bits.Bit;
      hide Content, BitsAgree, ReadSlice, Fits, Touched, Mapped, NoLimbo;
      InodeOpen(FREE_MAP);
      ghost var a := Y();
      mounted := true;
      Mount(a, Y());
      ghost var b := Y();
      InvFacts(b);
      WordsCover(b);
      var size := 4 * freeMap.words.Length;
      var image, ok := InodeReadAt(FREE_MAP, size, 0);
      ghost var c := Y();
      SliceOfAll(Content(b.view, b.hdrs[FREE_MAP]));
      ReadInPlace(b, c, FREE_MAP);
      freeMap.LoadImage(image);
      loaded := true;
      Loaded(image, freeMap.words[..], freeMap.bitCnt);
      Reload(c, Y());
    }

    /** The disk was formatted and shut down before: the sectors are those of y. */
    ghost method Adopt(y: Sys)
      requires Built() && AtRest(y) && y.view == cache.view && cache.list == [] && open == map[] && !mounted && busy == {}
      modifies this`hdrs, this`owner, this`loaded, this`stored
      ensures Built() && Y() == y
    {
      hide Inv, BM.BitsOf, Content, BitsAgree, HasBlocks, MapStored, NoDoomed, NoLimbo;
      assert cache.Cached() == {};
      hdrs, owner, loaded, stored := y.hdrs, y.owner, false, y.words;
    }
  }
}
