/** What the sectors of the file system mean (filesys/inode.c): how a header reaches its data
    through index sectors, who owns each sector, and why the updates made by allocate_block
    and inode_write_at keep all of that. */
module FileStore {
  import opened Words

  const DIRECT_MAX := 12
  const MAX_BLOCKS := DIRECT_MAX + WORDS_PER_SECTOR + WORDS_PER_SECTOR * WORDS_PER_SECTOR
  const MAX_BYTES := MAX_BLOCKS * SECTOR_SIZE
  const UNUSED: word := WORD_LIMIT - 1
  const INODE_MAGIC: word := 0x494e4f44

  /** struct inode_disk. */
  datatype RawInode = InodeDisk(direct: seq<word>, indirect: word, dbl: word, isDir: word, parent: word, length: word)
  type InodeDisk = h: RawInode | |h.direct| == DIRECT_MAX
    witness InodeDisk(seq(DIRECT_MAX, _ => 0), 0, 0, 0, 0, 0)

  /** The things a header leads to: data blocks, the indirect and double-indirect sectors, and
      the second-level index sectors below the double-indirect one. */
  datatype Node = Data(pos: nat) | Ind | Dbl | Snd(k: nat)

  /** Does the pointer to n sit in the header itself? */
  predicate InHeader(n: Node) {
    n.Ind? || n.Dbl? || (n.Data? && n.pos < DIRECT_MAX)
  }

  /** Otherwise it sits in this index sector ... */
  function Parent(n: Node): (p: Node)
    requires !InHeader(n)
    ensures !p.Data? && Depth(p) < Depth(n)
  {
    match n
    case Snd(_) => Dbl
    case Data(pos) =>
      if pos < DIRECT_MAX + WORDS_PER_SECTOR then Ind
      else Snd((pos - DIRECT_MAX - WORDS_PER_SECTOR) / WORDS_PER_SECTOR)
  }

  /** ... at this word. */
  function Slot(n: Node): (k: nat)
    requires !InHeader(n)
  {
    match n
    case Snd(k) => k
    case Data(pos) =>
      if pos < DIRECT_MAX + WORDS_PER_SECTOR then pos - DIRECT_MAX
      else (pos - DIRECT_MAX - WORDS_PER_SECTOR) % WORDS_PER_SECTOR
  }

  function Depth(n: Node): nat {
    match n
    case Ind => 0
    case Dbl => 0
    case Snd(_) => 1
    case Data(_) => 2
  }

  lemma SlotIsInjective(m: Node, n: Node)
    requires !InHeader(m) && !InHeader(n) && Parent(m) == Parent(n) && Slot(m) == Slot(n)
    ensures m == n
  {
  }

  function HeaderSlot(h: InodeDisk, n: Node): word
    requires InHeader(n)
  {
    match n
    case Ind => h.indirect
    case Dbl => h.dbl
    case Data(pos) => h.direct[pos]
  }

  function SetHeaderSlot(h: InodeDisk, n: Node, s: word): InodeDisk
    requires InHeader(n)
  {
    match n
    case Ind => h.(indirect := s)
    case Dbl => h.(dbl := s)
    case Data(pos) => h.(direct := h.direct[pos := s])
  }

  /** Word k of sector s; UNUSED when there is no such sector or word. */
  function PtrAt(v: seq<Sector>, s: nat, k: nat): word {
    if s < |v| && k < WORDS_PER_SECTOR then WordAt(v[s], k) else UNUSED
  }

  /** The sector that holds node n of the file with header h, UNUSED if there is none. */
  function Resolve(v: seq<Sector>, h: InodeDisk, n: Node): word
    decreases Depth(n)
  {
    if InHeader(n) then HeaderSlot(h, n) else PtrAt(v, Resolve(v, h, Parent(n)), Slot(n))
  }

  lemma ResolveBelow(v: seq<Sector>, h: InodeDisk, n: Node)
    requires !InHeader(n)
    ensures Resolve(v, h, n) == PtrAt(v, Resolve(v, h, Parent(n)), Slot(n))
  {
  }

  /** How the blocks behind index sectors are reached. */
  lemma ResolveThrough(v: seq<Sector>, h: InodeDisk, pos: nat)
    requires DIRECT_MAX <= pos
    ensures Resolve(v, h, Ind) == h.indirect && Resolve(v, h, Dbl) == h.dbl
    ensures pos < DIRECT_MAX + WORDS_PER_SECTOR ==> Resolve(v, h, Data(pos)) == PtrAt(v, h.indirect, pos - DIRECT_MAX)
    ensures DIRECT_MAX + WORDS_PER_SECTOR <= pos ==>
              var k := (pos - DIRECT_MAX - WORDS_PER_SECTOR) / WORDS_PER_SECTOR;
              && Resolve(v, h, Snd(k)) == PtrAt(v, h.dbl, k)
              && Resolve(v, h, Data(pos)) ==
                 PtrAt(v, PtrAt(v, h.dbl, k), (pos - DIRECT_MAX - WORDS_PER_SECTOR) % WORDS_PER_SECTOR)
  {
    assert Resolve(v, h, Ind) == h.indirect && Resolve(v, h, Dbl) == h.dbl;
  }

  /** Byte j of a file, as if the file went on with zeros forever. */
  function Byte(v: seq<Sector>, h: InodeDisk, j: nat): byte
  {
    var s := Resolve(v, h, Data(j / SECTOR_SIZE));
    if s < |v| then v[s][j % SECTOR_SIZE] else 0
  }

  /** The file as an array of length bytes. */
  function Content(v: seq<Sector>, h: InodeDisk): (c: seq<byte>)
    ensures |c| == h.length
  {
    seq(h.length, j requires 0 <= j < h.length => Byte(v, h, j))
  }

  /** What a sector is for.  Doomed sectors belong to a file that is being freed; leaked sectors stay
      marked used but nothing leads to them; a sector in limbo has been released but may still be in
      the cache. */
  datatype Role = Header | Own(ino: nat, node: Node) | Doomed(ino: nat, node: Node) | Leaked | Limbo

  datatype Store = Store(view: seq<Sector>, used: seq<bool>, hdrs: map<nat, InodeDisk>, owner: map<nat, Role>)

  ghost predicate Sized(st: Store) {
    && |st.view| < UNUSED
    && |st.view| <= |st.used|
  }

  /** Owned sectors are on the disk and marked used; the headers are the sectors owned as headers. */
  ghost predicate OwnedAreUsed(st: Store)
    requires Sized(st)
  {
    && (forall s :: s in st.owner ==> s < |st.view| && (st.used[s] || st.owner[s].Limbo?))
    && (forall s :: s in st.owner && st.owner[s].Header? ==> s in st.hdrs)
    && (forall i :: i in st.hdrs ==> i in st.owner && st.owner[i].Header?)
  }

  /** Every pointer of every file leads to a sector owned for exactly that purpose, so no two
      pointers lead to the same sector; and every sector owned by a file is led to. */
  ghost predicate OwnersMatch(st: Store)
    requires Sized(st)
  {
    && (forall i, n :: i in st.hdrs && Resolve(st.view, st.hdrs[i], n) != UNUSED ==>
          var s := Resolve(st.view, st.hdrs[i], n);
          s in st.owner && st.owner[s] == Own(i, n))
    && (forall s :: s in st.owner && st.owner[s].Own? ==>
          st.owner[s].ino in st.hdrs && Resolve(st.view, st.hdrs[st.owner[s].ino], st.owner[s].node) == s)
  }

  /** Past its length a file holds zeros, which is what a later, longer length will uncover. */
  ghost predicate ZeroTails(st: Store)
    requires Sized(st)
  {
    forall i, j :: i in st.hdrs && st.hdrs[i].length <= j ==> Byte(st.view, st.hdrs[i], j) == 0
  }

  ghost predicate Wf(st: Store) {
    Sized(st) && OwnedAreUsed(st) && OwnersMatch(st) && ZeroTails(st)
  }

  /** Distinct (file, node) pairs never share a sector. */
  lemma DistinctSectors(st: Store, i: nat, m: Node, j: nat, n: Node)
    requires Wf(st) && i in st.hdrs && j in st.hdrs && (i, m) != (j, n)
    requires Resolve(st.view, st.hdrs[i], m) != UNUSED
    ensures Resolve(st.view, st.hdrs[i], m) != Resolve(st.view, st.hdrs[j], n)
    ensures Resolve(st.view, st.hdrs[i], m) !in st.hdrs
    ensures st.used[Resolve(st.view, st.hdrs[i], m)]
  {
  }

  /** Is s an index sector of a live file? */
  ghost predicate LiveIndex(st: Store, s: nat) {
    s in st.owner && st.owner[s].Own? && !st.owner[s].node.Data?
  }

  /** Writing any sector but a live index sector moves no pointer. */
  lemma {:induction false} SetSectorResolve(st: Store, s: nat, x: Sector, i: nat, n: Node)
    requires Wf(st) && s < |st.view| && !LiveIndex(st, s) && i in st.hdrs
    ensures Resolve(st.view[s := x], st.hdrs[i], n) == Resolve(st.view, st.hdrs[i], n)
    decreases Depth(n)
  {
    if !InHeader(n) {
      SetSectorResolve(st, s, x, i, Parent(n));
      var q := Resolve(st.view, st.hdrs[i], Parent(n));
      assert q != UNUSED ==> LiveIndex(st, q);
    }
  }

  /** The initial contents of a new sector. */
  function Fill(n: Node): Sector {
    if n.Data? then Zeros() else AllOnes()
  }

  /** The view after the pointer to n has been set to s. */
  function PointTo(v: seq<Sector>, h: InodeDisk, n: Node, s: word): (w: seq<Sector>)
    requires !InHeader(n) ==> Resolve(v, h, Parent(n)) < |v| && Slot(n) < WORDS_PER_SECTOR
    ensures |w| == |v|
  {
    if InHeader(n) then v
    else
      var q := Resolve(v, h, Parent(n));
      v[q := Splice(v[q], 4 * Slot(n), WordBytes(s))]
  }

  /** Installing sector s as node n of file i, freshly filled. */
  function Link(st: Store, i: nat, n: Node, s: word): Store
    requires Sized(st) && i in st.hdrs && s < |st.view|
    requires !InHeader(n) ==> Resolve(st.view, st.hdrs[i], Parent(n)) < |st.view| && Slot(n) < WORDS_PER_SECTOR
  {
    st.(view := PointTo(st.view, st.hdrs[i], n, s)[s := Fill(n)],
        hdrs := if InHeader(n) then st.hdrs[i := SetHeaderSlot(st.hdrs[i], n, s)] else st.hdrs,
        owner := st.owner[s := Own(i, n)])
  }

  ghost predicate CanLink(st: Store, i: nat, n: Node, s: word) {
    && Wf(st) && i in st.hdrs && s < |st.view| && s !in st.owner && st.used[s]
    && Resolve(st.view, st.hdrs[i], n) == UNUSED
    && (!InHeader(n) ==> Resolve(st.view, st.hdrs[i], Parent(n)) < |st.view| && Slot(n) < WORDS_PER_SECTOR)
  }

  /** Installing a node changes the pointer to that node and no other. */
  lemma {:induction false} LinkResolve(st: Store, i: nat, n: Node, s: word, j: nat, m: Node)
    requires CanLink(st, i, n, s) && j in st.hdrs
    ensures var st' := Link(st, i, n, s);
            Resolve(st'.view, st'.hdrs[j], m) == if j == i && m == n then s else Resolve(st.view, st.hdrs[j], m)
    decreases Depth(m)
  {
    hide ZeroTails, PtrAt, Splice, WordBytes;
    var st' := Link(st, i, n, s);
    if !InHeader(m) {
      LinkResolve(st, i, n, s, j, Parent(m));
      var q := Resolve(st.view, st.hdrs[j], Parent(m));
      if j == i && Parent(m) == n {
        assert q == UNUSED;
        assert st'.view[s] == AllOnes();
        FreshPtr(st'.view, s, Slot(m));
        NoPtr(st.view, Slot(m));
      } else if q == UNUSED {
        NoPtr(st.view, Slot(m));
        NoPtr(st'.view, Slot(m));
      } else {
        assert st.owner[q] == Own(j, Parent(m));
        LinkWord(st, i, n, s, q, Slot(m));
        if !InHeader(n) && j == i && Parent(m) == Parent(n) && Slot(m) == Slot(n) {
          SlotIsInjective(m, n);
        }
      }
    }
  }

  lemma FreshPtr(v: seq<Sector>, s: nat, k: nat)
    requires s < |v| && v[s] == AllOnes()
    ensures PtrAt(v, s, k) == UNUSED
  {
  }

  lemma NoPtr(v: seq<Sector>, k: nat)
    requires |v| < UNUSED
    ensures PtrAt(v, UNUSED, k) == UNUSED
  {
  }

  lemma LinkWord(st: Store, i: nat, n: Node, s: word, q: nat, k: nat)
    requires CanLink(st, i, n, s) && q < |st.view| && q != s
    ensures PtrAt(Link(st, i, n, s).view, q, k) ==
            if !InHeader(n) && q == Resolve(st.view, st.hdrs[i], Parent(n)) && k == Slot(n) then s
            else PtrAt(st.view, q, k)
  {
    if k < WORDS_PER_SECTOR && !InHeader(n) && q == Resolve(st.view, st.hdrs[i], Parent(n)) {
      WordAtSplice(st.view[q], Slot(n), s, k);
    }
  }

  /** Installing a node changes no byte of any file: a new data block reads as the zeros that
      stood for the hole before. */
  lemma LinkByte(st: Store, i: nat, n: Node, s: word, j: nat, b: nat)
    requires CanLink(st, i, n, s) && j in st.hdrs
    ensures var st' := Link(st, i, n, s);
            Byte(st'.view, st'.hdrs[j], b) == Byte(st.view, st.hdrs[j], b)
  {
    var st' := Link(st, i, n, s);
    var m := Data(b / SECTOR_SIZE);
    LinkResolve(st, i, n, s, j, m);
    var q := Resolve(st.view, st.hdrs[j], m);
    if q != UNUSED {
      assert st.owner[q] == Own(j, m);
      if !InHeader(n) {
        assert st.owner[Resolve(st.view, st.hdrs[i], Parent(n))] == Own(i, Parent(n));
      }
      assert st'.view[q] == st.view[q];
    }
  }

  lemma LinkKeepsWf(st: Store, i: nat, n: Node, s: word)
    requires CanLink(st, i, n, s)
    ensures Wf(Link(st, i, n, s))
  {
    var st' := Link(st, i, n, s);
    forall j, m | j in st'.hdrs && Resolve(st'.view, st'.hdrs[j], m) != UNUSED
      ensures var q := Resolve(st'.view, st'.hdrs[j], m); q in st'.owner && st'.owner[q] == Own(j, m)
    {
      LinkResolve(st, i, n, s, j, m);
    }
    forall q | q in st'.owner && st'.owner[q].Own?
      ensures st'.owner[q].ino in st'.hdrs && Resolve(st'.view, st'.hdrs[st'.owner[q].ino], st'.owner[q].node) == q
    {
      LinkResolve(st, i, n, s, st'.owner[q].ino, st'.owner[q].node);
    }
    forall j, b | j in st'.hdrs && st'.hdrs[j].length <= b ensures Byte(st'.view, st'.hdrs[j], b) == 0 {
      LinkByte(st, i, n, s, j, b);
    }
  }

  /** The store after buf has been written at offset o of data block p of file i. */
  function Poke(st: Store, i: nat, p: nat, o: nat, buf: seq<byte>): Store
    requires Sized(st) && i in st.hdrs && o + |buf| <= SECTOR_SIZE
    requires Resolve(st.view, st.hdrs[i], Data(p)) < |st.view|
  {
    var q := Resolve(st.view, st.hdrs[i], Data(p));
    st.(view := st.view[q := Splice(st.view[q], o, buf)])
  }

  /** A data write changes exactly the bytes it covers, of exactly one file. */
  lemma PokeByte(st: Store, i: nat, p: nat, o: nat, buf: seq<byte>, j: nat, b: nat)
    requires Wf(st) && i in st.hdrs && o + |buf| <= SECTOR_SIZE && j in st.hdrs
    requires Resolve(st.view, st.hdrs[i], Data(p)) < |st.view|
    ensures var st' := Poke(st, i, p, o, buf);
            var at := p * SECTOR_SIZE + o;
            Byte(st'.view, st'.hdrs[j], b) == if j == i && at <= b < at + |buf| then buf[b - at] else Byte(st.view, st.hdrs[j], b)
  {
    var q := Resolve(st.view, st.hdrs[i], Data(p));
    assert st.owner[q] == Own(i, Data(p));
    var m := Data(b / SECTOR_SIZE);
    SetSectorResolve(st, q, Splice(st.view[q], o, buf), j, m);
    var r := Resolve(st.view, st.hdrs[j], m);
    if r != UNUSED {
      assert st.owner[r] == Own(j, m);
    }
  }

  lemma PokeKeepsWf(st: Store, i: nat, p: nat, o: nat, buf: seq<byte>)
    requires Wf(st) && i in st.hdrs && o + |buf| <= SECTOR_SIZE
    requires Resolve(st.view, st.hdrs[i], Data(p)) < |st.view|
    requires p * SECTOR_SIZE + o + |buf| <= st.hdrs[i].length
    ensures var st' := Poke(st, i, p, o, buf);
            && Wf(st')
            && forall j, m :: j in st.hdrs ==> Resolve(st'.view, st.hdrs[j], m) == Resolve(st.view, st.hdrs[j], m)
  {
    var q := Resolve(st.view, st.hdrs[i], Data(p));
    assert st.owner[q] == Own(i, Data(p));
    var st' := Poke(st, i, p, o, buf);
    forall j, m | j in st.hdrs ensures Resolve(st'.view, st.hdrs[j], m) == Resolve(st.view, st.hdrs[j], m) {
      SetSectorResolve(st, q, Splice(st.view[q], o, buf), j, m);
    }
    forall j, b | j in st'.hdrs && st'.hdrs[j].length <= b ensures Byte(st'.view, st'.hdrs[j], b) == 0 {
      PokeByte(st, i, p, o, buf, j, b);
    }
  }

  // The on-disk form of a header.

  function InodeWords(h: InodeDisk): (ws: seq<word>)
    ensures |ws| == WORDS_PER_SECTOR
    ensures ws[..DIRECT_MAX] == h.direct
    ensures ws[12] == h.indirect && ws[13] == h.dbl && ws[14] == h.isDir && ws[15] == h.parent && ws[16] == h.length
    ensures ws[17] == INODE_MAGIC
  {
    h.direct + [h.indirect, h.dbl, h.isDir, h.parent, h.length, INODE_MAGIC] + seq(110, _ => 0)
  }

  function EncodeInode(h: InodeDisk): (s: Sector)
  {
    BytesOf(InodeWords(h))
  }

  function InodeOfWords(ws: seq<word>): (h: InodeDisk)
    requires |ws| == WORDS_PER_SECTOR
  {
    InodeDisk(ws[..DIRECT_MAX], ws[12], ws[13], ws[14], ws[15], ws[16])
  }

  function DecodeInode(s: Sector): (h: InodeDisk)
  {
    InodeOfWords(WordsOf(s))
  }

  /** A header written to its sector and read back is the same header. */
  lemma InodeRoundTrip(h: InodeDisk)
    ensures DecodeInode(EncodeInode(h)) == h
  {
    hide WordAt;
    WordsOfBytesOf(InodeWords(h));
    assert InodeOfWords(InodeWords(h)) == h;
  }
}
