/** The write-back buffer cache of filesys/cache.c over a raw disk.

    `view` is the contents the rest of the file system sees: cached bytes where a sector is
    cached, disk bytes elsewhere.  Every operation is specified by what it does to the view;
    lookup, fill, eviction and flushing leave it alone.  The flush thread takes the cache
    lock between other operations, so each operation starts with a possible flush. */
module BufferCache {
  import opened Words

  const CACHE_TABLE_MAX_SIZE := 64

  datatype Entry = Entry(block: nat, vaddr: Sector)

  /** The sectors that have an entry. */
  function Blocks(list: seq<Entry>): (bs: set<nat>)
  {
    set k | 0 <= k < |list| :: list[k].block
  }

  ghost predicate DistinctBlocks(list: seq<Entry>) {
    forall j, k :: 0 <= j < k < |list| ==> list[j].block != list[k].block
  }

  /** "Cached bytes if cached, else disk bytes." */
  ghost predicate IsView(view: seq<Sector>, disk: seq<Sector>, list: seq<Entry>) {
    && |view| == |disk|
    && (forall k :: 0 <= k < |list| ==> list[k].block < |disk| && view[list[k].block] == list[k].vaddr)
    && (forall s :: 0 <= s < |disk| && s !in Blocks(list) ==> view[s] == disk[s])
  }

  /** The list after a miss: at the size limit the oldest entry leaves, and the new one goes last. */
  function AfterMiss(list: seq<Entry>, size: int, e: Entry): (r: seq<Entry>)
    requires size == CACHE_TABLE_MAX_SIZE ==> list != []
  {
    (if size == CACHE_TABLE_MAX_SIZE then list[1..] else list) + [e]
  }

  /** The disk after a miss: the evicted entry is written back. */
  function WriteBack(disk: seq<Sector>, list: seq<Entry>, size: int): (r: seq<Sector>)
    requires size == CACHE_TABLE_MAX_SIZE ==> list != [] && list[0].block < |disk|
    ensures |r| == |disk|
  {
    if size == CACHE_TABLE_MAX_SIZE then disk[list[0].block := list[0].vaddr] else disk
  }

  /** The view is a function of disk and list: the definition of IsView leaves no freedom. */
  lemma ViewIsDetermined(v: seq<Sector>, w: seq<Sector>, disk: seq<Sector>, list: seq<Entry>)
    requires IsView(v, disk, list) && IsView(w, disk, list)
    ensures v == w
  {
    forall s | 0 <= s < |v| ensures v[s] == w[s] {
      if s in Blocks(list) {
        var k :| 0 <= k < |list| && list[k].block == s;
      }
    }
  }

  /** Writing the oldest entry back before dropping it leaves the view as it was. */
  lemma EvictKeepsView(view: seq<Sector>, disk: seq<Sector>, list: seq<Entry>)
    requires IsView(view, disk, list) && DistinctBlocks(list) && list != []
    ensures IsView(view, disk[list[0].block := list[0].vaddr], list[1..])
    ensures DistinctBlocks(list[1..]) && Blocks(list[1..]) <= Blocks(list)
  {
    var rest := list[1..];
    forall s | s in Blocks(list) ensures s in Blocks(rest) || s == list[0].block {
      var k :| 0 <= k < |list| && list[k].block == s;
      if k > 0 {
        assert rest[k - 1].block == s;
      }
    }
  }

  /** Appending an entry filled from disk leaves the view as it was. */
  lemma FillKeepsView(view: seq<Sector>, disk: seq<Sector>, list: seq<Entry>, block: nat)
    requires IsView(view, disk, list) && DistinctBlocks(list)
    requires block < |disk| && block !in Blocks(list)
    ensures disk[block] == view[block]
    ensures var list' := list + [Entry(block, view[block])];
            IsView(view, disk, list') && DistinctBlocks(list') && Blocks(list') == Blocks(list) + {block}
  {
    var list' := list + [Entry(block, view[block])];
    assert list'[|list|].block == block;
    assert forall k :: 0 <= k < |list| ==> list'[k] == list[k];
    assert Blocks(list') == Blocks(list) + {block};
  }

  /** A miss followed by the disk read that fills the new entry leaves the view as it was. */
  lemma MissKeepsView(view: seq<Sector>, disk: seq<Sector>, list: seq<Entry>, size: int, block: nat)
    requires IsView(view, disk, list) && DistinctBlocks(list)
    requires block < |disk| && block !in Blocks(list)
    requires size == CACHE_TABLE_MAX_SIZE ==> list != []
    ensures WriteBack(disk, list, size)[block] == view[block]
    ensures var list' := AfterMiss(list, size, Entry(block, view[block]));
            && IsView(view, WriteBack(disk, list, size), list')
            && DistinctBlocks(list')
            && Blocks(list') <= Blocks(list) + {block}
  {
    if size == CACHE_TABLE_MAX_SIZE {
      EvictKeepsView(view, disk, list);
      FillKeepsView(view, WriteBack(disk, list, size), list[1..], block);
    } else {
      FillKeepsView(view, disk, list, block);
    }
  }

  /** Bytes put into a cached entry show in its sector and in no other. */
  lemma PutKeepsView(view: seq<Sector>, disk: seq<Sector>, list: seq<Entry>, k: nat, bytes: Sector)
    requires IsView(view, disk, list) && DistinctBlocks(list) && k < |list|
    ensures list[k].block < |view| && view[list[k].block] == list[k].vaddr && list[k].block in Blocks(list)
    ensures var list' := list[k := Entry(list[k].block, bytes)];
            IsView(view[list[k].block := bytes], disk, list') && DistinctBlocks(list') && Blocks(list') == Blocks(list)
  {
    var list' := list[k := Entry(list[k].block, bytes)];
    assert forall j :: 0 <= j < |list| ==> list'[j].block == list[j].block;
    assert Blocks(list') == Blocks(list);
  }

  /** Dropping one entry uncovers the disk contents of that sector and of no other. */
  lemma DropKeepsOthers(view: seq<Sector>, disk: seq<Sector>, list: seq<Entry>, k: nat)
    requires IsView(view, disk, list) && DistinctBlocks(list) && k < |list|
    ensures var block, list' := list[k].block, list[..k] + list[k + 1..];
            IsView(view[block := disk[block]], disk, list') && DistinctBlocks(list') && Blocks(list') == Blocks(list) - {block}
  {
    var block, list' := list[k].block, list[..k] + list[k + 1..];
    DropBlocks(list, k);
    hide Blocks;
    assert forall j :: 0 <= j < |list'| ==> list'[j] == list[if j < k then j else j + 1];
  }

  lemma DropBlocks(list: seq<Entry>, k: nat)
    requires DistinctBlocks(list) && k < |list|
    ensures Blocks(list[..k] + list[k + 1..]) == Blocks(list) - {list[k].block}
    ensures forall j :: 0 <= j < |list| ==> list[j].block in Blocks(list)
  {
    var block, list' := list[k].block, list[..k] + list[k + 1..];
    assert forall j :: 0 <= j < |list'| ==> list'[j] == list[if j < k then j else j + 1];
    forall b | b in Blocks(list) && b != block ensures b in Blocks(list') {
      var j :| 0 <= j < |list| && list[j].block == b;
      assert list'[if j < k then j else j - 1].block == b;
    }
    forall b | b in Blocks(list') ensures b in Blocks(list) && b != block {
      var j :| 0 <= j < |list'| && list'[j].block == b;
    }
  }

  /** A hit leaves the list alone; a miss puts the sector last, at the size limit in place of the first. */
  ghost predicate Brought(before: seq<Entry>, size: int, sector: nat, view: seq<Sector>, list: seq<Entry>) {
    if sector in Blocks(before) then list == before
    else
      && sector < |view| && (size == CACHE_TABLE_MAX_SIZE ==> before != [])
      && list == (if size == CACHE_TABLE_MAX_SIZE then before[1..] else before) + [Entry(sector, view[sector])]
  }

  class CacheTable {
    var disk: seq<Sector>
    var list: seq<Entry>
    var size: int
    ghost var view: seq<Sector>

    /** Disk and list show the view.  free_cache takes an entry out without lowering size, so size
        only bounds the number of entries. */
    ghost predicate Consistent()
      reads this
    {
      IsView(view, disk, list) && DistinctBlocks(list) && |list| <= size <= CACHE_TABLE_MAX_SIZE
    }

    /** What keeps list_pop_front in allocate_cache away from an empty list.  It ends with
        cache_table_destroy, after which the cache is not used. */
    ghost predicate Live()
      reads this
    {
      size > 0 ==> list != []
    }

    ghost predicate Valid()
      reads this
    {
      Consistent() && Live()
    }

    function Cached(): (bs: set<nat>)
      reads this
    {
      Blocks(list)
    }

    constructor (sectors: seq<Sector>)
      ensures Valid() && disk == sectors && view == sectors && list == [] && size == 0
    {
      disk, list, size := sectors, [], 0;
      view := sectors;
    }

    /** cache_table_find: position of the entry for block, or the list length. */
    method Find(block: nat) returns (k: nat)
      ensures k <= |list|
      ensures k < |list| ==> list[k].block == block
      ensures k == |list| <==> block !in Cached()
    {
      k := 0;
      while k < |list| && list[k].block != block
        invariant k <= |list|
        invariant forall j :: 0 <= j < k ==> list[j].block != block
      {
        k := k + 1;
      }
    }

    /** allocate_cache: makes room if the table is at its limit and appends an entry whose
        buffer still holds whatever malloc returned. */
    method AllocateCache(block: nat, fresh_buffer: Sector)
      requires Valid() && block !in Cached()
      modifies this`disk, this`list, this`size
      ensures list == AfterMiss(old(list), old(size), Entry(block, fresh_buffer))
      ensures disk == WriteBack(old(disk), old(list), old(size))
      ensures old(size) == CACHE_TABLE_MAX_SIZE ==>
                list == old(list)[1..] + [Entry(block, fresh_buffer)] && disk == old(disk)[old(list)[0].block := old(list)[0].vaddr]
      ensures old(size) < CACHE_TABLE_MAX_SIZE ==> list == old(list) + [Entry(block, fresh_buffer)] && disk == old(disk)
      ensures size == if old(size) == CACHE_TABLE_MAX_SIZE then old(size) else old(size) + 1
      ensures |list| <= size <= CACHE_TABLE_MAX_SIZE && list != []
    {
      if size == CACHE_TABLE_MAX_SIZE {
        var victim := list[0];
        list := list[1..];
        disk := disk[victim.block := victim.vaddr];
        size := size - 1;
      }
      list := list + [Entry(block, fresh_buffer)];
      size := size + 1;
    }

    /** The part cache_table_read and cache_table_write share: the entry for sector, brought in
        from disk if it is not there. */
    method Load(sector: nat) returns (k: nat)
      requires Valid() && sector < |disk|
      modifies this`disk, this`list, this`size
      ensures Valid()
      ensures k < |list| && list[k].block == sector && Brought(old(list), old(size), sector, view, list)
      ensures Cached() <= old(Cached()) + {sector}
      ensures size == if sector in old(Cached()) || old(size) == CACHE_TABLE_MAX_SIZE then old(size) else old(size) + 1
      ensures old(size) == CACHE_TABLE_MAX_SIZE ==> |list| == old(|list|)
    {
      k := Find(sector);
      if k == |list| {
        MissKeepsView(view, disk, list, size, sector);
        AllocateCache(sector, Zeros());
        k := |list| - 1;
        list := list[k := Entry(sector, disk[sector])];
        assert list == AfterMiss(old(list), old(size), Entry(sector, view[sector]));
      }
    }

    /** The flush thread runs, or does not. */
    method MayFlush()
      requires Valid()
      modifies this`disk
      ensures Valid()
    {
      if * {
        Flush();
      }
    }

    /** cache_table_read. */
    method Read(sector: nat, offset: nat, size_: nat) returns (buffer: seq<byte>)
      requires Valid() && sector < |disk| && offset + size_ <= SECTOR_SIZE
      modifies this`disk, this`list, this`size
      ensures Valid()
      ensures buffer == view[sector][offset..offset + size_]
      ensures sector in Cached() && Cached() <= old(Cached()) + {sector}
      ensures old(size) <= size && (old(size) == CACHE_TABLE_MAX_SIZE ==> |list| == old(|list|))
    {
      hide Brought;
      MayFlush();
      var k := Load(sector);
      buffer := list[k].vaddr[offset..offset + size_];
    }

    /** cache_table_write. */
    method Write(buffer: seq<byte>, sector: nat, offset: nat)
      requires Valid() && sector < |disk| && offset + |buffer| <= SECTOR_SIZE
      modifies this
      ensures Valid()
      ensures view == old(view)[sector := Splice(old(view)[sector], offset, buffer)]
      ensures sector in Cached() && Cached() <= old(Cached()) + {sector}
      ensures old(size) <= size && (old(size) == CACHE_TABLE_MAX_SIZE ==> |list| == old(|list|))
    {
      hide Brought;
      MayFlush();
      var k := Load(sector);
      hide IsView, DistinctBlocks, Blocks;
      var bytes := Splice(list[k].vaddr, offset, buffer);
      PutKeepsView(view, disk, list, k, bytes);
      list := list[k := Entry(sector, bytes)];
      view := view[sector := bytes];
    }

    /** cache_table_flush: afterwards the raw disk is the view. */
    method Flush()
      requires Valid()
      modifies this`disk
      ensures Valid() && disk == view
    {
      var k := 0;
      while k < |list|
        invariant k <= |list|
        invariant IsView(view, disk, list)
        invariant forall j :: 0 <= j < k ==> disk[list[j].block] == list[j].vaddr
      {
        disk := disk[list[k].block := list[k].vaddr];
        k := k + 1;
      }
      forall s | 0 <= s < |disk| ensures disk[s] == view[s] {
        if s in Blocks(list) {
          var j :| 0 <= j < |list| && list[j].block == s;
        }
      }
    }

    /** free_cache: drops the entry for block without writing it back and without lowering
        size.  Callers must leave some other entry in the table: see Valid. */
    method FreeCache(block: nat)
      requires Valid()
      requires exists b :: b in Cached() && b != block
      modifies this
      ensures Valid() && size == old(size)
      ensures Cached() == old(Cached()) - {block}
      ensures |list| == old(|list|) - if block in old(Cached()) then 1 else 0
      ensures |view| == old(|view|) && forall s :: 0 <= s < |view| && s != block ==> view[s] == old(view)[s]
    {
      MayFlush();
      var k := Find(block);
      if k < |list| {
        DropKeepsOthers(view, disk, list, k);
        list := list[..k] + list[k + 1..];
        view := view[block := disk[block]];
      }
    }

    /** cache_table_destroy: flush, then drop every entry. */
    method Destroy()
      requires Valid()
      modifies this
      ensures Consistent() && disk == view == old(view) && list == []
    {
      Flush();
      while list != []
        invariant disk == view == old(view) && |list| <= size <= CACHE_TABLE_MAX_SIZE
        decreases |list|
      {
        list := list[1..];
      }
    }

    /** disk_read of a sector that bypasses the cache. */
    method DiskRead(sector: nat) returns (bytes: Sector)
      requires Consistent() && sector < |disk| && sector !in Cached()
      ensures bytes == view[sector]
    {
      bytes := disk[sector];
    }

    /** disk_write of a sector that bypasses the cache. */
    method DiskWrite(sector: nat, bytes: Sector)
      requires Consistent() && sector < |disk| && sector !in Cached()
      modifies this`disk, this`view
      ensures Consistent() && view == old(view)[sector := bytes]
    {
      disk := disk[sector := bytes];
      view := view[sector := bytes];
    }
  }
}
