/** Starting and stopping the file system (filesys/filesys.c): what was in the files at shutdown is in
    them after the next boot, from the raw sectors alone. */
module FileBoot {
  import opened Words
  import opened FileStore
  import opened FileSysState
  import opened FileEdit
  import opened FileFree
  import opened FileLife
  import opened FileCount
  import opened FileSystem
  import opened FileRuns
  import BM = Bitmap

  const ROOT_DIR: nat := 1
  const ROOT_BYTES: nat := 16 * 20   // 16 entries: a sector number, a name of 15 bytes and a flag

  /** The sectors the free-map file of a disk of this size takes, and the one of the root directory. */
  ghost function FormatCost(size: nat): nat {
    |Paths(0, Sectors(4 * BM.ElemCnt(size)))| + |Paths(0, Sectors(ROOT_BYTES))|
  }

  /** do_format: the free-map file, then the root directory, then free_map_close.  Fails (panics)
      exactly when the free sectors do not suffice for these two. */
  method Format(fs: FileSystem) returns (ok: bool)
    requires fs.Idle() && fs.loaded && !fs.mounted && fs.open == map[] && fs.hdrs == map[] && fs.owner == map[]
    requires 4 * fs.freeMap.words.Length <= MAX_BYTES && 2 <= |fs.cache.view|
    requires fs.freeMap.Contents()[FREE_MAP] && fs.freeMap.Contents()[ROOT_DIR]
    modifies fs`mounted, fs`open, fs`hdrs, fs`owner, fs`busy, fs.cache, fs.freeMap.words
    ensures ok <==> FormatCost(|old(fs.cache.view)|) <= |old(FreeSet(fs.Y()))|
    ensures ok ==> fs.Idle() && !fs.mounted && fs.open == map[] && MapStored(fs.Y())
    ensures ok ==> Files(fs.Y()) == map[ROOT_DIR := seq(ROOT_BYTES, _ => 0)] && Attrs(fs.Y()) == map[ROOT_DIR := Attr(1, UNUSED)]
  {
    hide Inv, NoDoomed, BM.BitsOf, Content, MapStored, FreeSet, Paths, BitsAgree, NoLimbo;
    assert Files(fs.Y()) == map[];
    ghost var a := fs.Y();
    InvFacts(a);
    WordsCover(a);
    ok := fs.FreeMapCreate();
    if ok {
      ghost var b := fs.Y();
      RootIsFree(a, b);
      ok := fs.InodeCreate(ROOT_DIR, ROOT_BYTES, 1, UNUSED);
      if ok {
        RootAttrs(fs.Y());
        ok := fs.FreeMapClose();
      }
    }
  }

  lemma RootAttrs(y: Sys)
    requires y.hdrs.Keys == {FREE_MAP, ROOT_DIR} && AttrOf(y.hdrs[ROOT_DIR]) == Attr(1, UNUSED)
    ensures Attrs(y) == map[ROOT_DIR := Attr(1, UNUSED)]
  {
  }

  /** The root directory's sector is marked but nobody's after the free-map file has been made. */
  lemma RootIsFree(a: Sys, b: Sys)
    requires TookFree(a, b, FREE_MAP) && ROOT_DIR !in a.owner && ROOT_DIR < |a.view| <= |BM.BitsOf(a.words)| && BM.BitsOf(a.words)[ROOT_DIR]
    ensures ROOT_DIR !in b.owner && BM.BitsOf(b.words)[ROOT_DIR]
  {
    hide BM.BitsOf;
  }

  /** filesys_init with format. */
  method InitFormatted(sectors: seq<Sector>) returns (fs: FileSystem, ok: bool)
    requires 2 <= |sectors| < UNUSED && 4 * BM.ElemCnt(|sectors|) <= MAX_BYTES
    ensures fresh(fs) && fresh(fs.cache) && fresh(fs.freeMap.words)
    ensures ok <==> FormatCost(|sectors|) <= |sectors| - 2
    ensures ok ==> Up(fs) && Files(fs.Y()) == map[ROOT_DIR := seq(ROOT_BYTES, _ => 0)] && fs.open.Keys == {FREE_MAP}
    ensures ok ==> Attrs(fs.Y()) == map[ROOT_DIR := Attr(1, UNUSED)]
  {
    hide Ready, NoDoomed, BM.BitsOf, Files, MapStored, FreeSet, FormatCost;
    fs := new FileSystem(sectors);
    assert BM.BitsOf(fs.Y().words) == fs.freeMap.Contents();
    FreshFree(fs.Y(), |sectors|);
    ok := Format(fs);
    if ok {
      fs.FreeMapOpen();
    }
  }

  /** filesys_init without format, on the sectors an earlier shutdown left in state y. */
  method InitFromDisk(sectors: seq<Sector>, ghost y: Sys) returns (fs: FileSystem)
    requires 2 <= |sectors| < UNUSED && AtRest(y) && y.view == sectors
    ensures fresh(fs) && fresh(fs.cache) && fresh(fs.freeMap.words) && Up(fs)
    ensures Files(fs.Y()) == Files(y) && fs.hdrs == y.hdrs && fs.open.Keys == {FREE_MAP} && FreeSet(fs.Y()) == FreeSet(y)
  {
    hide Inv, NoDoomed, NoLimbo, BM.BitsOf, Files, MapStored, BitsAgree, Content, FreeSet;
    fs := new FileSystem(sectors);
    InvFacts(y);
    fs.Adopt(y);
    fs.FreeMapOpen();
    SameBits(y, fs.Y());
  }

  /** At first all sectors but the two of the system are free. */
  lemma FreshFree(y: Sys, size: nat)
    requires 2 <= |y.view| == size <= |BM.BitsOf(y.words)| && forall s :: 0 <= s < size ==> BM.BitsOf(y.words)[s] == (s < 2)
    ensures |FreeSet(y)| == size - 2
  {
    hide BM.BitsOf;
    Interval(FreeSet(y), 2, size);
  }

  lemma {:induction false} Interval(f: set<nat>, lo: nat, hi: nat)
    requires lo <= hi && forall s :: s in f <==> lo <= s < hi
    ensures |f| == hi - lo
    decreases hi
  {
    if lo < hi {
      Interval(f - {hi - 1}, lo, hi - 1);
    } else {
      assert f == {};
    }
  }

  /** filesys_done.  The raw disk then holds every closed file, found from its header sector, and the free
      map; in the header sector of a file still open is what was there before. */
  method FilesysDone(fs: FileSystem)
    requires Up(fs)
    modifies fs, fs.cache, fs.freeMap.words
    ensures fs.Still() && fs.cache.disk == fs.Y().view && (old(fs.open).Keys == {FREE_MAP} ==> AtRest(fs.Y()))
    ensures Files(fs.Y()) == old(Files(fs.Y())) && fs.hdrs == old(fs.hdrs) && fs.Y().words == old(fs.Y().words)
    ensures FREE_MAP in old(fs.hdrs) && old(|fs.cache.view|) > 0
    ensures fs.cache.disk == old(fs.cache.view)[FREE_MAP := EncodeInode(old(fs.hdrs)[FREE_MAP])]
    ensures forall i :: i in old(Files(fs.Y())) && i !in old(fs.open) ==>
              i < |fs.cache.disk| && Content(fs.cache.disk, DecodeInode(fs.cache.disk[i])) == old(Files(fs.Y()))[i]
    ensures forall i :: i in old(fs.hdrs) && i !in old(fs.open) ==>
              i < |fs.cache.disk| && DecodeInode(fs.cache.disk[i]) == old(fs.hdrs)[i]
    ensures BitsAgree(Content(fs.cache.disk, DecodeInode(fs.cache.disk[FREE_MAP])), old(fs.Y().words), |fs.cache.disk|)
  {
    hide Inv, BM.BitsOf, Files, MapStored, BitsAgree, Content, NoLimbo, EncodeInode, DecodeInode;
    ghost var a := fs.Y();
    fs.cache.Destroy();
    Uncached(a, fs.Y());
    var ok := fs.FreeMapClose();
    ShutdownPersists(fs.Y(), fs.cache.disk);
    if a.open.Keys == {FREE_MAP} {
      assert a.open - {FREE_MAP} == map[];
    }
  }

  lemma Uncached(a: Sys, b: Sys)
    requires Ready(a) && b == a.(cached := {})
    ensures Ready(b) && Files(b) == Files(a)
  {
    hide Wf, Content, BitsAgree;
  }

  /** Shutdown and boot from the sectors that are left: the same files with the same bytes, no open
      handles, and the same sectors free. */
  method Restart(fs: FileSystem) returns (next: FileSystem)
    requires Up(fs) && fs.open.Keys == {FREE_MAP}
    modifies fs, fs.cache, fs.freeMap.words
    ensures fresh(next) && fresh(next.cache) && fresh(next.freeMap.words) && Up(next)
    ensures TableOf(next.Y()) == old(TableOf(fs.Y())) && next.hdrs == old(fs.hdrs)
    ensures FreeSet(next.Y()) == old(FreeSet(fs.Y()))
  {
    hide AtRest, Ready, NoDoomed, BM.BitsOf, Files, FreeSet, EncodeInode, DecodeInode, Content, BitsAgree;
    ghost var a := fs.Y();
    FilesysDone(fs);
    ghost var y := fs.Y();
    RestFits(y);
    SameFree(a, y);
    next := InitFromDisk(fs.cache.disk, y);
    assert TableOf(next.Y()).handles == TableOf(a).handles;
  }

  /** A disk with a free-map file has a sector for its header and one for its first block. */
  lemma RestFits(y: Sys)
    requires AtRest(y)
    ensures 2 <= |y.view| < UNUSED
  {
    hide Content, BitsAgree, Resolve, BM.BitsOf, ZeroTails;
    PointerOwned(y, FREE_MAP, Data(0));
  }

  lemma SameBits(a: Sys, b: Sys)
    requires |b.view| == |a.view| <= |BM.BitsOf(a.words)| && |b.view| <= |BM.BitsOf(b.words)|
    requires forall s :: 0 <= s < |a.view| ==> BM.BitsOf(b.words)[s] == BM.BitsOf(a.words)[s]
    ensures FreeSet(b) == FreeSet(a)
  {
    hide BM.BitsOf;
  }
}
