/** Runs of file-system calls.  Whatever calls are made in whatever order, the file system behaves
    as a table of flat byte arrays with open counts: every call is a step of that table. */
module FileRuns {
  import opened Words
  import opened FileStore
  import opened FileSysState
  import opened FileEdit
  import opened FileFree
  import opened FileLife
  import opened FileCount
  import opened FileSystem
  import BM = Bitmap
  import BC = BufferCache

  datatype Handle = Handle(openCnt: nat, removed: bool, denyWriteCnt: nat)

  /** What a user of the file system can know: the bytes of each file, whether it is a directory and of
      what parent, and who has it open. */
  datatype Table = Table(files: map<nat, seq<byte>>, attrs: map<nat, Attr>, handles: map<nat, Handle>)

  datatype Call =
    | Create(length: word, attr: Attr)
    | Open(ino: nat)
    | Close(ino: nat)
    | Remove(ino: nat)
    | DenyWrite(ino: nat)
    | AllowWrite(ino: nat)
    | Read(ino: nat, size: nat, offset: nat)
    | Write(ino: nat, bytes: seq<byte>, offset: nat)
    | Flush

  datatype Reply = Done | Made(ino: nat) | Failed | Bytes(bytes: seq<byte>) | Count(n: nat) | Skipped | Panic

  ghost function TableOf(y: Sys): Table {
    Table(Files(y), Attrs(y), map i | i in y.open && i != FREE_MAP :: HandleOf(y.open[i]))
  }

  function HandleOf(o: OpenInode): Handle {
    Handle(o.openCnt, o.removed, o.denyWriteCnt)
  }

  /** A call its caller may make: the handle is open, the blocks it asks for are below the largest file
      size, and the assertions in the code hold. */
  predicate Allowed(t: Table, c: Call) {
    match c
    case Create(length, _) => length <= MAX_BYTES
    case Open(i) => i in t.files
    case Close(i) => i in t.handles
    case Remove(i) => i in t.handles
    case DenyWrite(i) => i in t.handles && t.handles[i].denyWriteCnt < t.handles[i].openCnt
    case AllowWrite(i) => i in t.handles && 0 < t.handles[i].denyWriteCnt <= t.handles[i].openCnt
    case Read(i, size, offset) => i in t.handles && i in t.files && InReach(|t.files[i]|, offset, size)
    case Write(i, bytes, offset) => i in t.handles && offset + |bytes| <= MAX_BYTES
    case Flush => true
  }

  /** One call, on flat byte arrays. */
  ghost predicate Step(t: Table, c: Call, r: Reply, u: Table) {
    if !Allowed(t, c) then r == Skipped && u == t
    else
      match c
      case Create(length, attr) =>
        || (&& r.Made? && r.ino !in t.files
            && u == t.(files := t.files[r.ino := seq(length, _ => 0)], attrs := t.attrs[r.ino := attr]))
        || (r.Failed? && u == t)
      case Open(i) =>
        && r.Done?
        && u == t.(handles := t.handles[i := if i in t.handles then t.handles[i].(openCnt := t.handles[i].openCnt + 1)
                                             else Handle(1, false, 0)])
      case Close(i) =>
        && r.Done?
        && u == if t.handles[i].openCnt > 1 then
                  t.(handles := t.handles[i := t.handles[i].(openCnt := t.handles[i].openCnt - 1)])
                else
                  Table(if t.handles[i].removed then t.files - {i} else t.files,
                        if t.handles[i].removed then t.attrs - {i} else t.attrs, t.handles - {i})
      case Remove(i) => r.Done? && u == t.(handles := t.handles[i := t.handles[i].(removed := true)])
      case DenyWrite(i) =>
        r.Done? && u == t.(handles := t.handles[i := t.handles[i].(denyWriteCnt := t.handles[i].denyWriteCnt + 1)])
      case AllowWrite(i) =>
        r.Done? && u == t.(handles := t.handles[i := t.handles[i].(denyWriteCnt := t.handles[i].denyWriteCnt - 1)])
      case Read(i, size, offset) => i in t.files && r == Bytes(ReadSlice(t.files[i], offset, size)) && u == t
      case Write(i, bytes, offset) =>
        && i in t.files
        && if t.handles[i].denyWriteCnt > 0 then r == Count(0) && u == t
           else r == Count(|bytes|) && u == t.(files := t.files[i := Overwrite(t.files[i], offset, bytes)])
      case Flush => r.Done? && u == t
  }

  /** Exactly when an allowed call panics: a read or write lacks free sectors for the blocks and index
      sectors it has to provide, or the last close of a removed file comes to a hole among its direct
      blocks or a missing index sector. */
  ghost predicate Panics(y: Sys, c: Call) {
    match c
    case Read(i, size, offset) => i in y.hdrs && !Fits(y, i, Touched(offset, Clip(y.hdrs[i].length, offset, size)))
    case Write(i, bytes, offset) => i in y.open && y.open[i].denyWriteCnt == 0 && !Fits(y, i, Touched(offset, |bytes|))
    case Close(i) => LastOfRemoved(y, i) && i in y.hdrs && !Freeable(y.hdrs[i])
    case _ => false
  }

  ghost predicate LastOfRemoved(y: Sys, i: nat) {
    i in y.open && y.open[i].openCnt == 1 && y.open[i].removed
  }

  /** Exactly when a creation fails: there must be free sectors for the header and for all nodes. */
  ghost predicate CreateFails(y: Sys, length: word) {
    |FreeSet(y)| < 1 + |Paths(0, Sectors(length))|
  }

  /** Whether a call is made, panics or fails is decided by the state before it. */
  ghost predicate Answered(y: Sys, c: Call, r: Reply) {
    if !Allowed(TableOf(y), c) then r.Skipped?
    else (r.Panic? <==> Panics(y, c)) && (r.Failed? <==> c.Create? && CreateFails(y, c.length))
  }

  /** Where the free sectors go: one for each node a write adds or a new file has, one for each a read asks
      for, its end of file included, as far as they go, back from a removed file with its last close,
      and never otherwise, but for the blocks a failed creation loses. */
  ghost predicate Accounted(y: Sys, c: Call, r: Reply, z: Sys) {
    match c
    case Read(i, size, offset) =>
      if i in y.hdrs && !r.Skipped? then SpentOrAll(y, z, i, Touched(offset, Asked(y.hdrs[i].length, offset, size)))
      else FreeSet(z) == FreeSet(y)
    case Write(i, bytes, offset) =>
      if i in y.open && y.open[i].denyWriteCnt == 0 && !r.Skipped? then Spent(y, z, i, Touched(offset, |bytes|))
      else FreeSet(z) == FreeSet(y)
    case Create(length, _) =>
      if r.Made? then |FreeSet(z)| == |FreeSet(y)| - 1 - |Paths(0, Sectors(length))|
      else if r.Failed? then |FreeSet(z)| == if FreeSet(y) == {} then 0 else 1
      else FreeSet(z) == FreeSet(y)
    case Close(i) =>
      if LastOfRemoved(y, i) && i in y.hdrs && !r.Skipped? then GaveBack(y, z, i, SectorCount(y.hdrs[i])) else FreeSet(z) == FreeSet(y)
    case _ => FreeSet(z) == FreeSet(y)
  }

  /** The file system is mounted and between calls. */
  ghost predicate Up(fs: FileSystem)
    reads fs, fs.cache, fs.freeMap.words
  {
    fs.Idle() && fs.mounted && fs.loaded
  }

  method DoRead(fs: FileSystem, i: nat, size: nat, offset: nat) returns (r: Reply)
    requires Up(fs) && Allowed(TableOf(fs.Y()), Read(i, size, offset))
    modifies fs, fs.cache, fs.freeMap.words
    ensures r.Panic? <==> old(Panics(fs.Y(), Read(i, size, offset)))
    ensures !r.Panic? ==> Up(fs) && Step(old(TableOf(fs.Y())), Read(i, size, offset), r, TableOf(fs.Y()))
    ensures !r.Panic? ==> Accounted(old(fs.Y()), Read(i, size, offset), r, fs.Y()) && !r.Failed?
  {
    hide Inv, Carried, BytesWritten, Content, Byte, ReadSlice, AllMarked, BitsAgree, Resolve, BM.BitsOf, Stationary, InPlace;
    hide Fits, Touched, FreeSet, SpentOrAll, Attrs;
    ghost var a := fs.Y();
    InvFacts(a);
    var bytes, ok := fs.InodeReadAt(i, size, offset);
    if !ok {
      return Panic;
    }
    r := Bytes(bytes);
    FilesRead(a, fs.Y(), i);
    CarriedFacts(a, fs.Y(), i);
    AttrsCarried(a, fs.Y(), i);
  }

  method DoWrite(fs: FileSystem, i: nat, bytes: seq<byte>, offset: nat) returns (r: Reply)
    requires Up(fs) && Allowed(TableOf(fs.Y()), Write(i, bytes, offset))
    modifies fs, fs.cache, fs.freeMap.words
    ensures r.Panic? <==> old(Panics(fs.Y(), Write(i, bytes, offset)))
    ensures !r.Panic? ==> Up(fs) && Step(old(TableOf(fs.Y())), Write(i, bytes, offset), r, TableOf(fs.Y()))
    ensures !r.Panic? ==> Accounted(old(fs.Y()), Write(i, bytes, offset), r, fs.Y()) && !r.Failed?
  {
    hide Inv, Carried, BytesWritten, Content, Byte, Overwrite, AllMarked, BitsAgree, Resolve, BM.BitsOf, Stationary, InPlace;
    hide Fits, Touched, FreeSet, Spent, Attrs;
    ghost var a := fs.Y();
    InvFacts(a);
    var n, ok := fs.InodeWriteAt(i, bytes, offset);
    if !ok {
      return Panic;
    }
    r := Count(n);
    CarriedFacts(a, fs.Y(), i);
    AttrsCarried(a, fs.Y(), i);
    if a.open[i].denyWriteCnt == 0 {
      FilesWritten(a, fs.Y(), i, bytes, offset);
    }
  }

  lemma AttrsCarried(a: Sys, y: Sys, ino: nat)
    requires Carried(a, y, ino)
    ensures Attrs(y) == Attrs(a)
  {
    hide Inv, Ready, Resolve, SameBytes;
  }

  lemma AttrsAdded(a: Sys, y: Sys, i: nat)
    requires i in y.hdrs && y.hdrs == a.hdrs[i := y.hdrs[i]] && i != FREE_MAP
    ensures Attrs(y) == Attrs(a)[i := AttrOf(y.hdrs[i])]
  {
  }

  lemma AttrsGone(a: Sys, y: Sys, i: nat)
    requires y.hdrs == a.hdrs - {i}
    ensures Attrs(y) == Attrs(a) - {i}
  {
  }

  lemma FreeSectorUnowned(a: Sys, s: nat)
    requires Ready(a) && s < |a.view| && s < |BM.BitsOf(a.words)| && !BM.BitsOf(a.words)[s]
    ensures s !in a.owner
  {
    hide BM.BitsOf, OwnersMatch, ZeroTails;
  }

  /** filesys_create without the directory entry: a sector for the header, then inode_create; if that
      fails the header sector goes back. */
  method DoCreate(fs: FileSystem, length: word, attr: Attr) returns (r: Reply)
    requires Up(fs) && length <= MAX_BYTES
    modifies fs, fs.cache, fs.freeMap.words
    ensures Up(fs) && Step(old(TableOf(fs.Y())), Create(length, attr), r, TableOf(fs.Y()))
    ensures r.Made? || r.Failed?
    ensures r.Failed? <==> old(CreateFails(fs.Y(), length))
    ensures Accounted(old(fs.Y()), Create(length, attr), r, fs.Y())
  {
    hide Inv, Files, Quiet, Freed, BM.BitsOf, BitsAgree, Content, HasBlocks, NoDoomed, FreeSet, Paths;
    ghost var a := fs.Y();
    InvFacts(a);
    var ok, sector := fs.FreeMapAllocate();
    ghost var b := fs.Y();
    QuietFiles(a, b);
    QuietOpen(a, b);
    if !ok {
      FullHasNone(a);
      return Failed;
    }
    OneLess(a, b, sector);
    FreeSectorUnowned(a, sector);
    NotFreeMap(b, sector);
    InvFacts(b);
    ok := fs.InodeCreate(sector, length, attr.isDir, attr.parent);
    if ok {
      AttrsAdded(a, fs.Y(), sector);
      return Made(sector);
    }
    ghost var c := fs.Y();
    InvFacts(c);
    fs.FreeMapRelease(sector);
    FilesFreed(c, fs.Y(), {sector});
    FreedFacts(c, fs.Y(), {sector});
    FreedOwner(c, fs.Y(), sector);
    OneMore(c, fs.Y(), sector);
    return Failed;
  }

  lemma OneLess(a: Sys, b: Sys, s: nat)
    requires |b.view| == |a.view| <= |BM.BitsOf(a.words)| && s < |a.view| && !BM.BitsOf(a.words)[s]
    requires BM.BitsOf(b.words) == BM.BitsOf(a.words)[s := true]
    ensures s in FreeSet(a) && FreeSet(b) == FreeSet(a) - {s}
  {
    hide BM.BitsOf;
  }

  lemma OneMore(a: Sys, b: Sys, s: nat)
    requires DiskFull(a) && Freed(a, b, {s}) && s < |a.view|
    ensures FreeSet(b) == {s}
  {
    hide BM.BitsOf, SameNodes, SameBytes;
  }

  lemma OpenCounts(y: Sys)
    requires Ready(y)
    ensures forall i :: i in y.open ==> y.open[i].openCnt > 0
  {
    hide BM.BitsOf, OwnersMatch, ZeroTails;
  }

  lemma FreedOwner(a: Sys, b: Sys, s: nat)
    requires Freed(a, b, {s}) && NoDoomed(a)
    ensures NoDoomed(b)
  {
    hide SameNodes, SameBytes, BM.BitsOf;
  }

  method DoClose(fs: FileSystem, i: nat) returns (r: Reply)
    requires Up(fs) && Allowed(TableOf(fs.Y()), Close(i))
    modifies fs, fs.cache, fs.freeMap.words
    ensures r.Panic? <==> old(Panics(fs.Y(), Close(i)))
    ensures !r.Panic? ==> Up(fs) && Step(old(TableOf(fs.Y())), Close(i), r, TableOf(fs.Y()))
    ensures !r.Panic? ==> Accounted(old(fs.Y()), Close(i), r, fs.Y()) && !r.Failed?
  {
    hide Inv, Files, BM.BitsOf, BitsAgree, Content, FreeSet, GaveBack, Freeable, EncodeInode;
    ghost var a := fs.Y();
    InvFacts(a);
    OpenCounts(a);
    var ok := fs.InodeClose(i);
    r := if ok then Done else Panic;
    if ok {
      if !LastOfRemoved(a, i) {
        SameFree(a, fs.Y());
      }
      if a.open[i].openCnt > 1 {
        HandleSet(a, fs.Y(), i);
      } else {
        HandleGone(a, fs.Y(), i);
        if a.open[i].removed {
          AttrsGone(a, fs.Y(), i);
        }
      }
    }
  }

  lemma HandleGone(y: Sys, z: Sys, i: nat)
    requires z.open == y.open - {i}
    ensures TableOf(z).handles == TableOf(y).handles - {i}
  {
    hide Files;
  }

  /** The calls that only change the list of open inodes, and the flush. */
  method DoSimple(fs: FileSystem, c: Call) returns (r: Reply)
    requires Up(fs) && Allowed(TableOf(fs.Y()), c)
    requires c.Open? || c.Remove? || c.DenyWrite? || c.AllowWrite? || c.Flush?
    modifies fs, fs.cache
    ensures Up(fs) && r.Done? && Step(old(TableOf(fs.Y())), c, r, TableOf(fs.Y())) && Accounted(old(fs.Y()), c, r, fs.Y())
  {
    hide Inv, BM.BitsOf, BitsAgree, Content, NoDoomed, FreeSet, EncodeInode;
    r := Done;
    ghost var a := fs.Y();
    match c {
      case Open(i) => fs.InodeOpen(i);
      case Remove(i) => fs.InodeRemove(i);
      case DenyWrite(i) => fs.InodeDenyWrite(i);
      case AllowWrite(i) => fs.InodeAllowWrite(i);
      case Flush => fs.cache.Flush();
    }
    SameFree(a, fs.Y());
    if !c.Flush? {
      HandleSet(a, fs.Y(), c.ino);
    }
  }

  lemma HandleSet(y: Sys, z: Sys, i: nat)
    requires i in z.open && z.open == y.open[i := z.open[i]] && Files(z) == Files(y) && z.hdrs == y.hdrs && i != FREE_MAP
    ensures TableOf(z) == TableOf(y).(handles := TableOf(y).handles[i := HandleOf(z.open[i])])
  {
    hide Files;
  }

  /** One call of a run. */
  method Do(fs: FileSystem, c: Call) returns (r: Reply)
    requires Up(fs) && Allowed(TableOf(fs.Y()), c)
    modifies fs, fs.cache, fs.freeMap.words
    ensures Answered(old(fs.Y()), c, r)
    ensures !r.Panic? ==> Up(fs) && Step(old(TableOf(fs.Y())), c, r, TableOf(fs.Y())) && Accounted(old(fs.Y()), c, r, fs.Y())
  {
    hide Up, TableOf, Step, Allowed, Panics, CreateFails, Accounted;
    AllowedLength(TableOf(fs.Y()), c);
    NeverPanics(fs.Y(), c);
    match c
    case Create(length, attr) => r := DoCreate(fs, length, attr);
    case Read(i, size, offset) => r := DoRead(fs, i, size, offset);
    case Write(i, bytes, offset) => r := DoWrite(fs, i, bytes, offset);
    case Close(i) => r := DoClose(fs, i);
    case _ => r := DoSimple(fs, c);
  }

  lemma NeverPanics(y: Sys, c: Call)
    ensures !c.Read? && !c.Write? && !c.Close? ==> !Panics(y, c)
  {
  }

  lemma AllowedLength(t: Table, c: Call)
    requires Allowed(t, c)
    ensures c.Create? ==> c.length <= MAX_BYTES
  {
  }

  /** Can this call be made now?  names are the inode numbers of the files there are. */
  method MayCall(fs: FileSystem, names: set<nat>, c: Call) returns (allowed: bool)
    requires Up(fs) && names == TableOf(fs.Y()).files.Keys
    ensures allowed == Allowed(TableOf(fs.Y()), c)
  {
    hide Inv, NoDoomed, Content, BM.BitsOf, BitsAgree;
    InvFacts(fs.Y());
    match c
    case Create(length, _) => allowed := length <= MAX_BYTES;
    case Open(i) => allowed := i in names;
    case Close(i) => allowed := i in fs.open && i != FREE_MAP;
    case Remove(i) => allowed := i in fs.open && i != FREE_MAP;
    case DenyWrite(i) => allowed := i in fs.open && i != FREE_MAP && fs.open[i].denyWriteCnt < fs.open[i].openCnt;
    case AllowWrite(i) => allowed := i in fs.open && i != FREE_MAP && 0 < fs.open[i].denyWriteCnt <= fs.open[i].openCnt;
    case Read(i, size, offset) => allowed := i in fs.open && i != FREE_MAP && InReach(fs.open[i].data.length, offset, size);
    case Write(i, bytes, offset) => allowed := i in fs.open && i != FREE_MAP && offset + |bytes| <= MAX_BYTES;
    case Flush => allowed := true;
  }

  /** Mounted, and no call half done. */
  ghost predicate Resting(y: Sys) {
    Ready(y) && NoDoomed(y) && y.busy == {} && y.mounted
  }

  /** The states between the calls: every call takes one state to the next as a step of the table of
      byte arrays, is answered as the state before it says, and accounts for the sectors. */
  ghost predicate IsRun(states: seq<Sys>, calls: seq<Call>, replies: seq<Reply>) {
    && |states| == |replies| + 1 && |replies| <= |calls|
    && (forall k :: 0 <= k < |states| ==> Resting(states[k]))
    && forall k :: 0 <= k < |replies| ==> Turned(states[k], calls[k], replies[k], states[k + 1])
  }

  ghost predicate Turned(y: Sys, c: Call, r: Reply, z: Sys) {
    Step(TableOf(y), c, r, TableOf(z)) && Answered(y, c, r) && Accounted(y, c, r, z)
  }

  /** Makes a call if it may be made, and keeps track of the names. */
  method Turn(fs: FileSystem, names: set<nat>, c: Call) returns (r: Reply, names': set<nat>)
    requires Up(fs) && names == TableOf(fs.Y()).files.Keys
    modifies fs, fs.cache, fs.freeMap.words
    ensures Answered(old(fs.Y()), c, r)
    ensures !r.Panic? ==> Up(fs) && names' == TableOf(fs.Y()).files.Keys && Turned(old(fs.Y()), c, r, fs.Y())
  {
    hide Ready, NoDoomed, Files, ReadSlice, Overwrite, Panics, CreateFails, Accounted;
    names' := names;
    var allowed := MayCall(fs, names, c);
    if !allowed {
      SkippedCosts(fs.Y(), c);
      return Skipped, names;
    }
    OpenCounts(fs.Y());
    var gone := c.Close? && fs.open[c.ino].openCnt == 1 && fs.open[c.ino].removed;
    r := Do(fs, c);
    if gone {
      names' := names - {c.ino};
    } else if r.Made? {
      names' := names + {r.ino};
    }
  }

  lemma SkippedCosts(y: Sys, c: Call)
    ensures Accounted(y, c, Skipped, y)
  {
  }

  /** Any sequence of calls on a mounted file system is, reply by reply, a run of the table of flat
      byte arrays, up to the call that panics if one does; and the state before a call decides
      whether it does. */
  method Run(fs: FileSystem, calls: seq<Call>, names0: set<nat>) returns (replies: seq<Reply>, ok: bool, ghost states: seq<Sys>)
    requires Up(fs) && names0 == TableOf(fs.Y()).files.Keys
    modifies fs, fs.cache, fs.freeMap.words
    ensures IsRun(states, calls, replies) && states[0] == old(fs.Y())
    ensures ok ==> |replies| == |calls| && Up(fs) && states[|replies|] == fs.Y()
    ensures !ok ==>
              && |replies| < |calls|
              && Allowed(TableOf(states[|replies|]), calls[|replies|]) && Panics(states[|replies|], calls[|replies|])
  {
    hide TableOf, Step, Panics, Allowed, Ready, NoDoomed, CreateFails, Turned;
    replies, ok := [], true;
    states := [fs.Y()];
    var names := names0;
    while |replies| < |calls|
      invariant Up(fs) && names == TableOf(fs.Y()).files.Keys && ok
      invariant IsRun(states, calls, replies) && states[0] == old(fs.Y()) && states[|replies|] == fs.Y()
      decreases |calls| - |replies|
    {
      var r;
      r, names := Turn(fs, names, calls[|replies|]);
      if r.Panic? {
        ok := false;
        return;
      }
      replies, states := replies + [r], states + [fs.Y()];
    }
  }

  lemma CarriedFacts(a: Sys, y: Sys, ino: nat)
    requires Carried(a, y, ino) && Ready(a) && (a.mounted ==> ino != FREE_MAP)
    ensures Ready(y) && y.mounted == a.mounted && (NoDoomed(a) ==> NoDoomed(y)) && |y.view| == |a.view|
  {
    hide Inv, Resolve, SameBytes, BM.BitsOf;
  }

  /** What holds between the calls of every run.  Cached sectors are distinct, marked used and never
      headers, and the cache is not empty when its counter is positive. */
  lemma CacheBetweenCalls(fs: FileSystem)
    requires Up(fs)
    ensures BC.DistinctBlocks(fs.cache.list) && |fs.cache.list| <= fs.cache.size <= BC.CACHE_TABLE_MAX_SIZE
    ensures fs.cache.size > 0 ==> fs.cache.list != []
    ensures forall b :: b in fs.cache.Cached() ==>
              b < |fs.cache.view| && b < |fs.freeMap.Contents()| && fs.freeMap.Contents()[b] && b !in fs.hdrs
  {
    hide OwnersMatch, ZeroTails, HeadersOk, MountOk, BitsAgree, Content, BM.BitsOf, Resolve;
    assert Wf(St(fs.Y()));
  }

  /** Sectors of different files, or of different nodes of one file, are different and marked used, and
      the free-map file holds the free map. */
  lemma SectorsBetweenCalls(fs: FileSystem, i: nat, m: Node, j: nat, n: Node)
    requires Up(fs) && i in fs.hdrs && j in fs.hdrs
    requires Resolve(fs.cache.view, fs.hdrs[i], m) != UNUSED && Resolve(fs.cache.view, fs.hdrs[j], n) != UNUSED
    ensures var s := Resolve(fs.cache.view, fs.hdrs[i], m);
            && s < |fs.freeMap.Contents()| && fs.freeMap.Contents()[s] && s !in fs.hdrs
            && (s == Resolve(fs.cache.view, fs.hdrs[j], n) ==> i == j && m == n)
    ensures BitsAgree(Content(fs.cache.view, fs.hdrs[FREE_MAP]), fs.freeMap.words[..], |fs.cache.view|)
  {
    hide ZeroTails, HeadersOk, CacheOk, BitsAgree, Content, BM.BitsOf, Resolve;
    if (i, m) != (j, n) { DistinctSectors(St(fs.Y()), i, m, j, n); }
  }
}
