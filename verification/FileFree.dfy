/** Giving sectors back (free_map_release, free_cache, free_blocks, inode_close of a removed file). */
module FileFree {
  import opened Words
  import opened FileStore
  import opened FileSysState
  import opened FileEdit
  import BM = Bitmap

  /** The block position at which free_blocks gives node n up: an index sector goes with the first
      block it leads to. */
  function NodePos(n: Node): nat {
    match n
    case Data(p) => p
    case Ind => DIRECT_MAX
    case Dbl => DIRECT_MAX + WORDS_PER_SECTOR
    case Snd(k) => DIRECT_MAX + WORDS_PER_SECTOR + WORDS_PER_SECTOR * k
  }

  /** The sectors file ino owns for nodes given up at positions lo to hi. */
  function OwnedBetween(owner: map<nat, Role>, ino: nat, lo: nat, hi: nat): set<nat> {
    set s | s in owner && owner[s].Doomed? && owner[s].ino == ino && lo <= NodePos(owner[s].node) < hi
  }

  /** Exactly the sectors in `freed` have been given back: their bits are cleared, nobody owns them,
      and everything else, the sectors of files that are being freed included, is as it was. */
  ghost predicate Freed(a: Sys, y: Sys, freed: set<nat>) {
    && Sized(St(a)) && Sized(St(y)) && |y.view| == |a.view| && |y.words| == |a.words|
    && y.open == a.open && y.mounted == a.mounted && y.busy == a.busy && y.hdrs == a.hdrs
    && y.owner == a.owner - freed
    && (forall s :: 0 <= s < |a.view| ==> BM.BitsOf(y.words)[s] == (BM.BitsOf(a.words)[s] && s !in freed))
    && (forall i :: i in a.hdrs ==> SameNodes(a, y, i))
    && (forall i :: i in a.hdrs && i != FREE_MAP ==> SameBytes(a, y, i))
    && (forall s :: s in y.owner && y.owner[s].Doomed? && s < |a.view| ==> y.view[s] == a.view[s])
  }

  lemma FreedNothing(a: Sys)
    requires Inv(a)
    ensures Freed(a, a, {})
  {
    hide Resolve, Byte, BM.BitsOf;
    assert a.owner - {} == a.owner;
    assert forall i :: i in a.hdrs ==> SameNodes(a, a, i) && SameBytes(a, a, i);
  }

  lemma FreedMore(a: Sys, y: Sys, z: Sys, freed: set<nat>, more: set<nat>)
    requires Freed(a, y, freed) && Freed(y, z, more)
    ensures Freed(a, z, freed + more)
  {
    hide Resolve, Byte, BM.BitsOf;
    assert a.owner - freed - more == a.owner - (freed + more);
    forall i | i in a.hdrs ensures SameNodes(a, z, i) {
      assert SameNodes(a, y, i) && SameNodes(y, z, i);
    }
    forall i | i in a.hdrs && i != FREE_MAP ensures SameBytes(a, z, i) {
      assert SameBytes(a, y, i) && SameBytes(y, z, i);
    }
  }

  /** Clearing the bit of a sector no live file uses.  If the sector had an owner it is in limbo until
      it has left the cache. */
  lemma ClearKeepsInv(a: Sys, b: Sys, s: nat)
    requires Inv(a) && s < |a.view| && |b.words| == |a.words|
    requires b == a.(words := b.words, owner := if s in a.owner then a.owner[s := Limbo] else a.owner)
    requires BM.BitsOf(b.words) == BM.BitsOf(a.words)[s := false]
    requires s in a.owner ==> a.owner[s].Doomed?
    ensures Inv(b)
    ensures forall i :: i in a.hdrs ==> SameNodes(a, b, i) && SameBytes(a, b, i)
  {
    hide Resolve, Byte, BM.BitsOf, EncodeInode, OwnersMatch, ZeroTails, Mapped;
    assert Wf(St(b)) by { ClearKeepsWf(a, b, s); }
    hide OwnedAreUsed;
  }

  lemma ClearKeepsWf(a: Sys, b: Sys, s: nat)
    requires Inv(a) && s < |a.view| && |b.words| == |a.words|
    requires b == a.(words := b.words, owner := if s in a.owner then a.owner[s := Limbo] else a.owner)
    requires BM.BitsOf(b.words) == BM.BitsOf(a.words)[s := false]
    requires s in a.owner ==> a.owner[s].Doomed?
    ensures Wf(St(b))
  {
    hide Resolve, Byte, BM.BitsOf, EncodeInode, HeadersOk, CacheOk, MountOk;
    assert OwnersMatch(St(b));
    assert ZeroTails(St(b));
  }

  /** After the map is written out and the sector has left the cache, nobody owns it. */
  lemma LeaveLimbo(y: Sys, z: Sys, s: nat)
    requires InStep(y) && s < |y.view| && |z.view| == |y.view| && (s in y.owner ==> y.owner[s].Limbo?)
    requires forall t :: t in y.owner && t != s ==> !y.owner[t].Limbo?
    requires z == y.(view := z.view, cached := z.cached, owner := y.owner - {s})
    requires z.cached == y.cached - {s} && forall t :: 0 <= t < |y.view| && t != s ==> z.view[t] == y.view[t]
    ensures Ready(z)
    ensures forall i :: i in y.hdrs ==> SameNodes(y, z, i) && SameBytes(y, z, i)
  {
    assert z.view == y.view[s := z.view[s]];
    LeaveLimboNodes(y, z, s);
    LeaveLimboInv(y, z, s);
    if z.mounted {
      ContentKept(y, z, FREE_MAP);
    }
  }

  lemma LeaveLimboNodes(y: Sys, z: Sys, s: nat)
    requires Inv(y) && s < |y.view| && (s in y.owner ==> y.owner[s].Limbo?) && z.hdrs == y.hdrs && z.words == y.words
    requires |z.view| == |y.view| && z.view == y.view[s := z.view[s]]
    ensures forall i :: i in y.hdrs ==> SameNodes(y, z, i) && SameBytes(y, z, i)
  {
    hide Resolve, BM.BitsOf, HeadersOk, MountOk, CacheOk, ZeroTails;
    forall i | i in y.hdrs ensures SameNodes(y, z, i) && SameBytes(y, z, i) {
      forall n: Node ensures Resolve(z.view, z.hdrs[i], n) == Resolve(y.view, y.hdrs[i], n) {
        SetSectorResolve(St(y), s, z.view[s], i, n);
      }
      forall j: nat ensures Byte(z.view, z.hdrs[i], j) == Byte(y.view, y.hdrs[i], j) {
        var q := Resolve(y.view, y.hdrs[i], Data(j / SECTOR_SIZE));
        assert q != UNUSED ==> q in y.owner && y.owner[q].Own?;
      }
    }
  }

  /** z is y with sector s out of the cache and nobody's. */
  ghost predicate LimboLeft(y: Sys, z: Sys, s: nat) {
    && Inv(y) && s < |y.view| && (s in y.owner ==> y.owner[s].Limbo?)
    && |z.view| == |y.view| && z == y.(view := y.view[s := z.view[s]], cached := y.cached - {s}, owner := y.owner - {s})
    && forall i :: i in y.hdrs ==> SameNodes(y, z, i) && SameBytes(y, z, i)
  }

  lemma LeaveLimboInv(y: Sys, z: Sys, s: nat)
    requires LimboLeft(y, z, s)
    ensures Inv(z)
  {
    hide Resolve, Byte, BM.BitsOf, EncodeInode, OwnersMatch, ZeroTails;
    assert Wf(St(z)) by { LeaveLimboWf(y, z, s); }
    assert CacheOk(z);
    assert HeadersOk(z) by { assert forall i :: i in y.hdrs ==> i in y.owner && y.owner[i].Header?; }
    if z.mounted { assert SameNodes(y, z, FREE_MAP); }
  }

  lemma LeaveLimboWf(y: Sys, z: Sys, s: nat)
    requires LimboLeft(y, z, s)
    ensures Wf(St(z))
  {
    hide Resolve, Byte, BM.BitsOf, EncodeInode, HeadersOk, MountOk, CacheOk;
    forall i, n | i in y.hdrs ensures Resolve(z.view, z.hdrs[i], n) == Resolve(y.view, y.hdrs[i], n) {
      assert SameNodes(y, z, i);
    }
    assert OwnersMatch(St(z));
    forall i, j | i in z.hdrs && z.hdrs[i].length <= j ensures Byte(z.view, z.hdrs[i], j) == 0 {
      assert SameBytes(y, z, i);
    }
  }

  /** Between free_map_release and free_cache of sector s. */
  ghost predicate Cleared(a: Sys, y: Sys, s: nat) {
    && InStep(y) && Sized(St(a)) && |y.view| == |a.view| && |y.words| == |a.words|
    && y.open == a.open && y.mounted == a.mounted && y.busy == a.busy && y.hdrs == a.hdrs
    && y.owner == (if s in a.owner then a.owner[s := Limbo] else a.owner)
    && s < |a.view| && BM.BitsOf(y.words) == BM.BitsOf(a.words)[s := false]
    && (forall i :: i in a.hdrs ==> SameNodes(a, y, i))
    && (forall i :: i in a.hdrs && i != FREE_MAP ==> SameBytes(a, y, i))
    && (forall t :: 0 <= t < |a.view| && t in a.owner && a.owner[t].Doomed? ==> y.view[t] == a.view[t])
  }

  /** free_map_release: clear the bit, then write the map to its file. */
  lemma ReleaseClears(a: Sys, m: Sys, y: Sys, s: nat)
    requires Inv(a) && a.mounted && s < |a.view| && |m.words| == |a.words|
    requires m == a.(words := m.words, owner := if s in a.owner then a.owner[s := Limbo] else a.owner)
    requires BM.BitsOf(m.words) == BM.BitsOf(a.words)[s := false]
    requires s in a.owner ==> a.owner[s].Doomed?
    requires Inv(m) && InStep(y) && Quiet(m, y) && Confined(m, y, FREE_MAP) && y.words == m.words
    requires forall i :: i in a.hdrs ==> SameNodes(a, m, i) && SameBytes(a, m, i)
    ensures Cleared(a, y, s)
  {
    hide Resolve, Byte, BM.BitsOf, OwnedAreUsed, OwnersMatch, ZeroTails, HeadersOk, CacheOk, Content;
    forall i | i in a.hdrs ensures SameNodes(a, y, i) {
      assert SameNodes(a, m, i) && SameNodes(m, y, i);
    }
    forall i | i in a.hdrs && i != FREE_MAP ensures SameBytes(a, y, i) {
      assert SameBytes(a, m, i) && SameBytes(m, y, i);
    }
  }

  lemma ClearedFacts(a: Sys, y: Sys, s: nat)
    requires Cleared(a, y, s)
    ensures Inv(y) && y.mounted == a.mounted && (s in y.owner ==> s in a.owner && y.owner[s].Limbo?)
    ensures |y.view| == |a.view|
  {
    hide Inv, BM.BitsOf;
  }

  lemma FreedFacts(a: Sys, y: Sys, freed: set<nat>)
    requires Freed(a, y, freed)
    ensures y.open == a.open && y.mounted == a.mounted && y.busy == a.busy && y.hdrs == a.hdrs && |y.view| == |a.view|
  {
    hide BM.BitsOf;
  }

  lemma ClearedUnowned(a: Sys, y: Sys, s: nat)
    requires Cleared(a, y, s) && s !in a.owner && NoLimbo(a)
    ensures Freed(a, y, {s}) && Ready(y)
  {
    hide Resolve, Byte, BM.BitsOf, SameNodes, SameBytes;
    assert a.owner - {s} == a.owner;
  }

  lemma ClearedUncached(a: Sys, y: Sys, z: Sys, s: nat)
    requires Cleared(a, y, s) && NoLimbo(a) && |z.view| == |y.view|
    requires z == y.(view := z.view, cached := z.cached, owner := y.owner - {s})
    requires z.cached == y.cached - {s} && forall t :: 0 <= t < |y.view| && t != s ==> z.view[t] == y.view[t]
    ensures Freed(a, z, {s}) && Ready(z)
  {
    hide Resolve, Byte, BM.BitsOf, Wf, HeadersOk, CacheOk, MountOk, Content;
    LeaveLimbo(y, z, s);
    assert a.owner - {s} == z.owner;
    forall i | i in a.hdrs ensures SameNodes(a, z, i) {
      assert SameNodes(a, y, i) && SameNodes(y, z, i);
    }
    forall i | i in a.hdrs && i != FREE_MAP ensures SameBytes(a, z, i) {
      assert SameBytes(a, y, i) && SameBytes(y, z, i);
    }
  }

  /** A block of the free-map file in the cache is not the sector being released. */
  lemma OtherSectorCached(y: Sys, s: nat)
    requires Inv(y) && SomeBlockCached(y, FREE_MAP) && (s in y.owner ==> y.owner[s].Limbo?)
    ensures exists b :: b in y.cached && b != s
  {
    hide Resolve, BM.BitsOf, ZeroTails, HeadersOk, MountOk;
    var p :| Resolve(y.view, y.hdrs[FREE_MAP], Data(p)) in y.cached;
    var b := Resolve(y.view, y.hdrs[FREE_MAP], Data(p));
    assert b in y.owner;
    InvFacts(y);
  }

  // free_blocks.

  /** The sectors h leads to are the doomed sectors of file ino. */
  ghost predicate Dying(a: Sys, ino: nat, h: InodeDisk) {
    && |a.view| < UNUSED
    && (forall n :: Resolve(a.view, h, n) != UNUSED ==>
          var s := Resolve(a.view, h, n);
          s < |a.view| && s in a.owner && a.owner[s] == Doomed(ino, n))
    && (forall s :: s in a.owner && a.owner[s].Doomed? && a.owner[s].ino == ino ==>
          s < |a.view| && Resolve(a.view, h, a.owner[s].node) == s)
  }

  /** A sector of the dying file that has not been given back yet still holds what it held. */
  lemma Survivor(a: Sys, y: Sys, ino: nat, h: InodeDisk, freed: set<nat>, n: Node)
    requires Dying(a, ino, h) && Freed(a, y, freed) && Inv(y)
    requires Resolve(a.view, h, n) != UNUSED && Resolve(a.view, h, n) !in freed
    ensures var s := Resolve(a.view, h, n);
            && s < |y.view| && s in y.owner && y.owner[s] == Doomed(ino, n)
            && y.view[s] == a.view[s] && s < |BM.BitsOf(y.words)| && BM.BitsOf(y.words)[s]
  {
    hide Resolve, BM.BitsOf, OwnersMatch, ZeroTails, HeadersOk, MountOk, CacheOk, SameBytes, SameNodes;
  }

  /** Sectors of distinct nodes are distinct. */
  lemma DyingDistinct(a: Sys, ino: nat, h: InodeDisk, m: Node, n: Node)
    requires Dying(a, ino, h) && m != n && Resolve(a.view, h, m) != UNUSED
    ensures Resolve(a.view, h, m) != Resolve(a.view, h, n)
  {
    hide Resolve;
  }

  /** A node whose turn has not come is not among the sectors given back. */
  lemma NotYetFreed(a: Sys, ino: nat, h: InodeDisk, n: Node, pos: nat, hi: nat)
    requires Dying(a, ino, h) && Resolve(a.view, h, n) != UNUSED && NodePos(n) <= pos
    ensures Resolve(a.view, h, n) !in OwnedBetween(a.owner, ino, pos + 1, hi)
  {
    hide Resolve;
  }

  /** bytes_to_sectors. */
  function Sectors(length: nat): nat {
    (length + SECTOR_SIZE - 1) / SECTOR_SIZE
  }

  /** The fewest sectors that hold this many bytes. */
  lemma SectorsSuffice(length: nat)
    ensures SECTOR_SIZE * Sectors(length) >= length && (length > 0 ==> SECTOR_SIZE * (Sectors(length) - 1) < length)
    ensures length == 0 ==> Sectors(length) == 0
  {
  }

  function SectorCount(h: InodeDisk): nat {
    Sectors(h.length)
  }

  /** Exactly when free_blocks gets through: every direct block below the length is there, and so are
      the indirect and double-indirect sectors if the length reaches them. */
  predicate Freeable(h: InodeDisk) {
    var n := SectorCount(h);
    && (forall p :: 0 <= p < n && p < DIRECT_MAX ==> h.direct[p] != UNUSED)
    && (n > DIRECT_MAX ==> h.indirect != UNUSED)
    && (n > DIRECT_MAX + WORDS_PER_SECTOR ==> h.dbl != UNUSED)
  }

  /** The sectors given up at one position, in the order free_blocks comes to them. */
  function GivenUpAt(v: seq<Sector>, h: InodeDisk, pos: nat): set<nat> {
    var data := Resolve(v, h, Data(pos));
    (if data != UNUSED then {data} else {})
    + (if pos == DIRECT_MAX && h.indirect != UNUSED then {h.indirect} else {})
    + (if IsSecondStart(pos) && Resolve(v, h, SecondOf(pos)) != UNUSED then {Resolve(v, h, SecondOf(pos))} else {})
    + (if pos == DIRECT_MAX + WORDS_PER_SECTOR && h.dbl != UNUSED then {h.dbl} else {})
  }

  predicate IsSecondStart(pos: nat) {
    DIRECT_MAX + WORDS_PER_SECTOR <= pos && (pos - DIRECT_MAX - WORDS_PER_SECTOR) % WORDS_PER_SECTOR == 0
  }

  lemma OwnedBetweenStep(a: Sys, ino: nat, h: InodeDisk, pos: nat, hi: nat)
    requires Dying(a, ino, h) && pos < hi
    ensures OwnedBetween(a.owner, ino, pos, hi) == OwnedBetween(a.owner, ino, pos + 1, hi) + GivenUpAt(a.view, h, pos)
  {
    hide Resolve;
    GivenUpIs(a.view, h, pos);
    forall s | s in OwnedBetween(a.owner, ino, pos, hi) && s !in OwnedBetween(a.owner, ino, pos + 1, hi)
      ensures s in GivenUpAt(a.view, h, pos)
    {
      assert NodePos(a.owner[s].node) == pos && Resolve(a.view, h, a.owner[s].node) == s;
    }
    forall s | s in GivenUpAt(a.view, h, pos) ensures s in OwnedBetween(a.owner, ino, pos, hi) {
      var n :| NodePos(n) == pos && Resolve(a.view, h, n) == s && s != UNUSED;
    }
  }

  /** GivenUpAt collects the sectors of exactly the nodes with this position. */
  lemma GivenUpIs(v: seq<Sector>, h: InodeDisk, pos: nat)
    ensures forall n :: NodePos(n) == pos && Resolve(v, h, n) != UNUSED ==> Resolve(v, h, n) in GivenUpAt(v, h, pos)
    ensures forall s :: s in GivenUpAt(v, h, pos) ==> s != UNUSED && exists n :: NodePos(n) == pos && Resolve(v, h, n) == s
  {
    hide PtrAt;
    assert Resolve(v, h, Ind) == h.indirect && Resolve(v, h, Dbl) == h.dbl;
    forall n | NodePos(n) == pos && Resolve(v, h, n) != UNUSED ensures Resolve(v, h, n) in GivenUpAt(v, h, pos) {
      if n.Snd? {
        assert n == SecondOf(pos);
      }
    }
    forall s | s in GivenUpAt(v, h, pos) ensures s != UNUSED && exists n :: NodePos(n) == pos && Resolve(v, h, n) == s {
      if s == Resolve(v, h, Data(pos)) {
        assert NodePos(Data(pos)) == pos;
      } else if pos == DIRECT_MAX && s == h.indirect {
        assert NodePos(Ind) == pos;
      } else if pos == DIRECT_MAX + WORDS_PER_SECTOR && s == h.dbl {
        assert NodePos(Dbl) == pos;
      } else {
        assert NodePos(SecondOf(pos)) == pos;
      }
    }
  }

  lemma DirectGivenUp(v: seq<Sector>, h: InodeDisk, pos: nat)
    requires pos < DIRECT_MAX && h.direct[pos] != UNUSED
    ensures GivenUpAt(v, h, pos) == {h.direct[pos]} && Resolve(v, h, Data(pos)) == h.direct[pos]
  {
  }

  lemma NothingBetween(owner: map<nat, Role>, ino: nat, hi: nat)
    ensures OwnedBetween(owner, ino, hi, hi) == {}
  {
  }

  lemma DyingBound(a: Sys, ino: nat, h: InodeDisk, n: Node)
    requires Dying(a, ino, h) && Resolve(a.view, h, n) != UNUSED
    ensures Resolve(a.view, h, n) < |a.view| < UNUSED
  {
    hide Resolve;
  }

  lemma FreedCached(a: Sys, y: Sys, z: Sys, freed: set<nat>)
    requires Freed(a, y, freed) && z == y.(cached := z.cached)
    ensures Freed(a, z, freed)
  {
    hide Resolve, Byte, BM.BitsOf;
    forall i | i in a.hdrs ensures SameNodes(a, z, i) {
      assert SameNodes(a, y, i);
    }
    forall i | i in a.hdrs && i != FREE_MAP ensures SameBytes(a, z, i) {
      assert SameBytes(a, y, i);
    }
  }
}
