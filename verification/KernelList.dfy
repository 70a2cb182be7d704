/** The intrusive doubly linked lists of lib/kernel/list.c, pointers and all.

    A list is the sequence of its elements from head to tail header; every operation is specified by
    what it does to that sequence. */
module KernelList {
  import opened MergeSort

  class Elem {
    var prev: Elem?
    var next: Elem?
    const id: nat   // stands for the structure the element is embedded in (list_entry)

    constructor (id: nat)
      ensures this.id == id && prev == null && next == null
    {
      this.id := id;
      prev, next := null, null;
    }
  }

  ghost predicate Distinct<T>(s: seq<T>) {
    forall i, j :: 0 <= i < j < |s| ==> s[i] != s[j]
  }

  /** s is a well-formed list, headers included. */
  ghost predicate Linked(s: seq<Elem>)
    reads s
  {
    && |s| >= 2 && Distinct(s)
    && s[0].prev == null && s[|s| - 1].next == null
    && (forall i {:trigger s[i].next} :: 0 <= i < |s| - 1 ==> s[i].next == s[i + 1])
    && (forall i {:trigger s[i].prev} :: 0 < i < |s| ==> s[i].prev == s[i - 1])
  }

  /** s with the elements at i up to j moved in front of the element at p. */
  ghost function Spliced<T>(s: seq<T>, p: nat, i: nat, j: nat): (t: seq<T>)
    requires p <= i <= j <= |s|
    ensures |t| == |s|
  {
    s[..p] + s[i..j] + s[p..i] + s[j..]
  }

  /** list_insert. */
  method ListInsert(before: Elem, elem: Elem, ghost s: seq<Elem>, ghost p: nat) returns (ghost t: seq<Elem>)
    requires Linked(s) && 0 < p < |s| && s[p] == before && elem !in s
    modifies s, elem
    ensures t == s[..p] + [elem] + s[p..] && Linked(t)
  {
    assert before.prev == s[p - 1];
    elem.prev := before.prev;
    elem.next := before;
    before.prev.next := elem;
    before.prev := elem;
    t := s[..p] + [elem] + s[p..];
    assert forall k :: 0 <= k < |t| ==> t[k] == if k < p then s[k] else if k == p then elem else s[k - 1];
  }

  /** list_remove: the removed element keeps its own links. */
  method ListRemove(elem: Elem, ghost s: seq<Elem>, ghost p: nat) returns (following: Elem, ghost t: seq<Elem>)
    requires Linked(s) && 0 < p < |s| - 1 && s[p] == elem
    modifies s
    ensures t == s[..p] + s[p + 1..] && Linked(t) && following == s[p + 1]
    ensures elem.next == s[p + 1] && elem.prev == s[p - 1]
  {
    assert elem.prev == s[p - 1] && elem.next == s[p + 1];
    elem.prev.next := elem.next;
    elem.next.prev := elem.prev;
    t := s[..p] + s[p + 1..];
    following := elem.next;
    assert forall k :: 0 <= k < |t| ==> t[k] == if k < p then s[k] else s[k + 1];
  }

  /** The links list_splice leaves behind. */
  ghost predicate SplicedLinks(s: seq<Elem>, p: nat, i: nat, j: nat)
    requires 0 < p < i < j < |s|
    reads s
  {
    && s[0].prev == null && s[|s| - 1].next == null
    && (forall k {:trigger s[k].next} :: 0 <= k < |s| - 1 ==>
          s[k].next == if k == p - 1 then s[i] else if k == j - 1 then s[p] else if k == i - 1 then s[j] else s[k + 1])
    && (forall k {:trigger s[k].prev} :: 0 < k < |s| ==>
          s[k].prev == if k == p then s[j - 1] else if k == i then s[p - 1] else if k == j then s[i - 1] else s[k - 1])
  }

  /** Where the element now at k came from. */
  function SplicedFrom(p: nat, i: nat, j: nat, k: nat): nat
    requires p <= i <= j
  {
    if k < p then k else if k < p + (j - i) then k - p + i else if k < j then k - (j - i) else k
  }

  lemma SplicedIs<T>(s: seq<T>, p: nat, i: nat, j: nat)
    requires p <= i <= j <= |s|
    ensures forall k :: 0 <= k < |s| ==> Spliced(s, p, i, j)[k] == s[SplicedFrom(p, i, j, k)]
  {
  }

  lemma SplicedLinked(s: seq<Elem>, p: nat, i: nat, j: nat)
    requires 0 < p < i < j < |s| && Distinct(s) && SplicedLinks(s, p, i, j)
    ensures Linked(Spliced(s, p, i, j))
  {
    hide Spliced;
    var t := Spliced(s, p, i, j);
    SplicedIs(s, p, i, j);
    assert Distinct(t);
    forall k | 0 <= k < |t| - 1 ensures t[k].next == t[k + 1] {
      assert t[k] == s[SplicedFrom(p, i, j, k)] && t[k + 1] == s[SplicedFrom(p, i, j, k + 1)];
    }
    forall k | 0 < k < |t| ensures t[k].prev == t[k - 1] {
      assert t[k] == s[SplicedFrom(p, i, j, k)] && t[k - 1] == s[SplicedFrom(p, i, j, k - 1)];
    }
  }

  /** list_splice within one list, moving elements towards the front. */
  method ListSplice(before: Elem, first: Elem, last0: Elem, ghost s: seq<Elem>, ghost p: nat, ghost i: nat, ghost j: nat)
    returns (ghost t: seq<Elem>)
    requires Linked(s) && 0 < p <= i <= j < |s| && s[p] == before && s[i] == first && s[j] == last0
    requires p == i ==> i == j
    modifies s
    ensures t == Spliced(s, p, i, j) && Linked(t)
  {
    if first == last0 {
      assert i == j;
      t := s;
      return;
    }
    var last := last0.prev;
    assert last == s[j - 1];
    assert first.prev == s[i - 1] && last.next == s[j] && before.prev == s[p - 1];
    first.prev.next := last.next;
    last.next.prev := first.prev;

    first.prev := before.prev;
    last.next := before;
    before.prev.next := first;
    before.prev := last;
    assert SplicedLinks(s, p, i, j);
    SplicedLinked(s, p, i, j);
    t := Spliced(s, p, i, j);
  }

  /** The elements of a list between its headers. */
  ghost function Interior<T>(s: seq<T>): (m: seq<T>)
    requires |s| >= 2
    ensures |m| == |s| - 2 && forall k :: 0 <= k < |m| ==> m[k] == s[k + 1]
  {
    s[1..|s| - 1]
  }

  /** find_end_of_run up to the end of the list. */
  method FindEndOfRun(a: Elem, b: Elem, less: (Elem, Elem) -> bool, ghost s: seq<Elem>, ghost i: nat) returns (e: Elem, ghost j: nat)
    requires Linked(s) && 0 < i < |s| - 1 && s[i] == a && s[|s| - 1] == b
    ensures e == s[RunEnd(less, Interior(s), i - 1) + 1]
    ensures i < j < |s| && s[j] == e && j - 1 == RunEnd(less, Interior(s), i - 1)
  {
    var cur := a;
    j := i;
    e := cur.next;
    while e != b && !less(e, e.prev)
      invariant i <= j < |s| - 1 && s[j] == cur && s[j + 1] == e
      invariant RunEnd(less, Interior(s), i - 1) == RunEnd(less, Interior(s), j - 1)
      decreases |s| - j
    {
      cur := e;
      e := cur.next;
      j := j + 1;
    }
    j := j + 1;
  }

  /** What is to become of t when its parts p to q and q to k are merged. */
  ghost function MergedAt<T>(less: (T, T) -> bool, t: seq<T>, p: nat, q: nat, k: nat): seq<T>
    requires p <= q <= k <= |t|
  {
    t[..p] + Merge(less, t[p..q], t[q..k]) + t[k..]
  }

  lemma MergeTakesLeft<T>(less: (T, T) -> bool, s: seq<T>, p: nat, q: nat, k: nat)
    requires p < q < k <= |s| && !less(s[q], s[p])
    ensures MergedAt(less, s, p, q, k) == MergedAt(less, s, p + 1, q, k)
  {
    var a, b := s[p..q], s[q..k];
    assert a[1..] == s[p + 1..q];
    assert Merge(less, a, b) == [a[0]] + Merge(less, a[1..], b);
    assert s[..p + 1] == s[..p] + [s[p]];
  }

  /** The parts of s once the element at q stands in front of the one at p. */
  lemma SplicedParts<T>(s: seq<T>, p: nat, q: nat, k: nat)
    requires p < q < k <= |s|
    ensures var t := Spliced(s, p, q, q + 1);
            && t[..p + 1] == s[..p] + [s[q]] && t[p + 1..q + 1] == s[p..q] && t[q + 1..k] == s[q + 1..k] && t[k..] == s[k..]
            && t[p + 1] == s[p] && (forall n :: q < n < |s| ==> t[n] == s[n])
  {
    SplicedIs(s, p, q, q + 1);
    hide Spliced;
  }

  lemma MergeTakesRight<T>(less: (T, T) -> bool, s: seq<T>, p: nat, q: nat, k: nat)
    requires p < q < k <= |s| && less(s[q], s[p])
    ensures var t := Spliced(s, p, q, q + 1);
            && MergedAt(less, t, p + 1, q + 1, k) == MergedAt(less, s, p, q, k)
            && t[p + 1] == s[p] && (forall n :: q < n < |s| ==> t[n] == s[n])
  {
    SplicedParts(s, p, q, k);
    hide Spliced;
    var a, b := s[p..q], s[q..k];
    assert b[0] == s[q] && b[1..] == s[q + 1..k];
    assert Merge(less, a, b) == [b[0]] + Merge(less, a, b[1..]);
    hide Merge;
    Shifted(s[..p], s[q], Merge(less, a, b[1..]), s[k..]);
  }

  lemma Shifted<T>(x: seq<T>, e: T, m: seq<T>, y: seq<T>)
    ensures x + [e] + m + y == x + ([e] + m) + y
  {
  }

  lemma SplicedSame<T>(s: seq<T>, p: nat, i: nat, j: nat, u: seq<T>)
    requires p <= i <= j <= |s| && forall k :: 0 <= k < |s| ==> s[k] in u
    ensures forall k :: 0 <= k < |s| ==> Spliced(s, p, i, j)[k] in u
  {
    SplicedIs(s, p, i, j);
  }

  /** inplace_merge. */
  method InplaceMerge(a0: Elem, a1b0: Elem, b1: Elem, less: (Elem, Elem) -> bool, ghost s: seq<Elem>, ghost i: nat, ghost j: nat, ghost k: nat)
    returns (ghost t: seq<Elem>)
    requires Linked(s) && 0 < i < j < k < |s| && s[i] == a0 && s[j] == a1b0 && s[k] == b1
    modifies s
    ensures Linked(t) && t == MergedAt(less, s, i, j, k)
  {
    hide MergedAt, Spliced, Distinct;
    var x, y := a0, a1b0;
    ghost var p, q := i, j;
    t := s;
    while x != y && y != b1
      invariant Linked(t) && |t| == |s| && (forall n :: 0 <= n < |t| ==> t[n] in s)
      invariant i <= p <= q <= k < |t| && t[p] == x && t[q] == y && t[k] == b1
      invariant MergedAt(less, t, p, q, k) == MergedAt(less, s, i, j, k)
      decreases k - p
    {
      if !less(y, x) {
        MergeTakesLeft(less, t, p, q, k);
        x := x.next;
        p := p + 1;
      } else {
        MergeTakesRight(less, t, p, q, k);
        SplicedSame(t, p, q, q + 1, s);
        y := y.next;
        t := ListSplice(x, y.prev, y, t, p, q, q + 1);
        p, q := p + 1, q + 1;
      }
    }
    SamePosition(t, p, q);
    SamePosition(t, q, k);
    MergeEnds(less, t, p, q, k);
  }

  lemma SamePosition(t: seq<Elem>, p: nat, q: nat)
    requires Linked(t) && p <= q < |t|
    ensures t[p] == t[q] ==> p == q
  {
  }

  lemma MergeEnds<T>(less: (T, T) -> bool, t: seq<T>, p: nat, q: nat, k: nat)
    requires p <= q <= k <= |t| && (p == q || q == k)
    ensures MergedAt(less, t, p, q, k) == t
  {
    assert t == t[..p] + t[p..q] + t[q..k] + t[k..];
  }

  /** A pass over m that has finished with the first n elements of the list as it stands, t. */
  ghost predicate PassDone<T>(less: (T, T) -> bool, m: seq<T>, t: seq<T>, n: nat, cnt: nat)
    requires n <= |t|
  {
    Pass(less, m) == t[..n] + Pass(less, t[n..]) && PassRuns(less, m) == cnt + PassRuns(less, t[n..])
  }

  /** The last run of an odd number of runs stays as it is. */
  lemma PassLast<T>(less: (T, T) -> bool, m: seq<T>, t: seq<T>, n: nat, cnt: nat)
    requires n < |t| && PassDone(less, m, t, n, cnt) && RunEnd(less, t, n) == |t|
    ensures Pass(less, m) == t && PassRuns(less, m) == cnt + 1
  {
    hide RunEnd;
    RunEndSuffix(less, t, n, 0);
    assert t == t[..n] + t[n..];
  }

  /** Two runs at n are merged; the pass goes on behind them. */
  lemma PassNext<T>(less: (T, T) -> bool, m: seq<T>, t: seq<T>, u: seq<T>, n: nat, cnt: nat)
    requires n < |t| && PassDone(less, m, t, n, cnt) && RunEnd(less, t, n) < |t|
    requires var e := RunEnd(less, t, n);
             var f := RunEnd(less, t, e);
             u == MergedAt(less, t, n, e, f)
    ensures |u| == |t| && PassDone(less, m, u, RunEnd(less, t, RunEnd(less, t, n)), cnt + 1)
  {
    hide RunEnd, Merge, Pass, PassRuns;
    var e := RunEnd(less, t, n);
    var f := RunEnd(less, t, e);
    RunEndSuffix(less, t, n, 0);
    RunEndSuffix(less, t, n, e - n);
    PassStep(less, t[n..]);
    SuffixParts(t, n, e, f);
    var merged := Merge(less, t[n..e], t[e..f]);
    ReplacedParts(t, u, merged, n, f);
    ConcatAssociates(t[..n], merged, Pass(less, t[f..]));
  }

  lemma SuffixParts<T>(t: seq<T>, n: nat, e: nat, f: nat)
    requires n <= e <= f <= |t|
    ensures t[n..][..e - n] == t[n..e] && t[n..][e - n..f - n] == t[e..f] && t[n..][f - n..] == t[f..]
  {
  }

  lemma ReplacedParts<T>(t: seq<T>, u: seq<T>, merged: seq<T>, n: nat, f: nat)
    requires n <= f <= |t| && |merged| == f - n && u == t[..n] + merged + t[f..]
    ensures |u| == |t| && u[..f] == t[..n] + merged && u[f..] == t[f..]
  {
  }

  lemma PassStep<T>(less: (T, T) -> bool, m: seq<T>)
    requires m != [] && RunEnd(less, m, 0) < |m|
    ensures var e := RunEnd(less, m, 0);
            var f := RunEnd(less, m, e);
            Pass(less, m) == Merge(less, m[..e], m[e..f]) + Pass(less, m[f..]) && PassRuns(less, m) == 1 + PassRuns(less, m[f..])
  {
    hide RunEnd, Merge;
  }

  /** t is a well-formed list of the elements of s between the same headers. */
  ghost predicate SameList(s: seq<Elem>, t: seq<Elem>)
    requires |s| >= 2
    reads t
  {
    Linked(t) && |t| == |s| && t[0] == s[0] && t[|t| - 1] == s[|s| - 1] && forall n :: 0 <= n < |t| ==> t[n] in s
  }

  /** One turn of the inner loop of list_sort: finds two runs and merges them, or comes to the end. */
  method MergeNextRuns(a0: Elem, tail: Elem, less: (Elem, Elem) -> bool, ghost m: seq<Elem>, ghost s: seq<Elem>, ghost n: nat, ghost cnt: nat)
    returns (b1: Elem, ghost t: seq<Elem>, ghost n': nat)
    requires Linked(s) && s[|s| - 1] == tail && n < |Interior(s)| && s[n + 1] == a0 && PassDone(less, m, Interior(s), n, cnt)
    modifies s
    ensures SameList(s, t) && n < n' <= |Interior(t)| && t[n' + 1] == b1 && PassDone(less, m, Interior(t), n', cnt + 1)
  {
    hide Merge, RunEnd, PassDone, Distinct, MergedAt;
    var a1b0, e := FindEndOfRun(a0, tail, less, s, n + 1);
    if a1b0 == tail {
      b1, t, n' := tail, s, |s| - 2;
      SamePosition(s, e, |s| - 1);
      PassLast(less, m, Interior(s), n, cnt);
      PassEmptyRest(less, m, Interior(s), cnt + 1);
    } else {
      ghost var f: nat;
      b1, f := FindEndOfRun(a1b0, tail, less, s, e);
      t := InplaceMerge(a0, a1b0, b1, less, s, n + 1, e, f);
      InteriorMerged(less, s, t, n + 1, e, f);
      PassNext(less, m, Interior(s), Interior(t), n, cnt);
      n' := f - 1;
    }
  }

  lemma PassEmptyRest<T>(less: (T, T) -> bool, m: seq<T>, t: seq<T>, cnt: nat)
    requires Pass(less, m) == t && PassRuns(less, m) == cnt
    ensures PassDone(less, m, t, |t|, cnt)
  {
    assert t[|t|..] == [] && t[..|t|] == t;
  }

  /** One pass of list_sort. */
  method SortPass(head: Elem, tail: Elem, less: (Elem, Elem) -> bool, ghost s: seq<Elem>) returns (cnt: nat, ghost t: seq<Elem>)
    requires Linked(s) && s[0] == head && s[|s| - 1] == tail
    modifies s
    ensures SameList(s, t) && Interior(t) == Pass(less, Interior(s)) && cnt == PassRuns(less, Interior(s))
  {
    hide PassDone, Pass, PassRuns;
    t, cnt := s, 0;
    var a0 := head.next;
    ghost var n := 0;
    ghost var m := Interior(s);
    PassStart(less, m);
    while a0 != tail
      invariant SameList(s, t) && n <= |m| && t[n + 1] == a0 && PassDone(less, m, Interior(t), n, cnt)
      decreases |m| - n
    {
      a0, t, n := MergeNextRuns(a0, tail, less, m, t, n, cnt);
      cnt := cnt + 1;
    }
    PassAll(less, m, Interior(t), cnt);
  }

  lemma PassStart<T>(less: (T, T) -> bool, m: seq<T>)
    ensures PassDone(less, m, m, 0, 0)
  {
    assert m[0..] == m;
  }

  lemma PassAll<T>(less: (T, T) -> bool, m: seq<T>, t: seq<T>, cnt: nat)
    requires PassDone(less, m, t, |t|, cnt)
    ensures Pass(less, m) == t && PassRuns(less, m) == cnt
  {
    assert t[|t|..] == [] && t[..|t|] == t;
  }

  /** Merging inside a list, seen between its headers. */
  lemma InteriorMerged(less: (Elem, Elem) -> bool, t: seq<Elem>, t': seq<Elem>, i: nat, j: nat, k: nat)
    requires 0 < i < j < k < |t| && t' == MergedAt(less, t, i, j, k)
    ensures |t'| == |t| && t'[0] == t[0] && t'[|t| - 1] == t[|t| - 1] && t'[k] == t[k]
    ensures forall n :: 0 <= n < |t| ==> t'[n] in t
    ensures Interior(t') == MergedAt(less, Interior(t), i - 1, j - 1, k - 1)
  {
    hide Merge;
    var u := Interior(t);
    var merged := Merge(less, t[i..j], t[j..k]);
    assert u[i - 1..j - 1] == t[i..j] && u[j - 1..k - 1] == t[j..k];
    assert Interior(t') == u[..i - 1] + merged + u[k - 1..];
    forall n | 0 <= n < |t| ensures t'[n] in t {
      if i <= n < k {
        MergeWithin(less, t[i..j], t[j..k], n - i);
        assert t'[n] == merged[n - i];
      }
    }
  }

  /** struct list. */
  class List {
    const head: Elem
    const tail: Elem
    ghost var elems: seq<Elem>

    ghost function Chain(): seq<Elem>
      reads this
    {
      [head] + elems + [tail]
    }

    ghost predicate Valid()
      reads this, Chain()
    {
      Linked(Chain())
    }

    /** list_init. */
    constructor ()
      ensures Valid() && elems == [] && fresh(head) && fresh(tail)
    {
      head := new Elem(0);
      tail := new Elem(0);
      elems := [];
      new;
      head.prev, head.next := null, tail;
      tail.prev, tail.next := head, null;
    }

    /** list_push_back. */
    method PushBack(e: Elem)
      requires Valid() && e !in Chain()
      modifies this, Chain(), e
      ensures Valid() && elems == old(elems) + [e]
    {
      ghost var s := Chain();
      ghost var t := ListInsert(tail, e, s, |s| - 1);
      elems := elems + [e];
      assert Chain() == t;
    }

    /** list_push_front. */
    method PushFront(e: Elem)
      requires Valid() && e !in Chain()
      modifies this, Chain(), e
      ensures Valid() && elems == [e] + old(elems)
    {
      ghost var s := Chain();
      assert head.next == s[1];
      ghost var t := ListInsert(head.next, e, s, 1);
      elems := [e] + elems;
      assert Chain() == t;
    }

    /** list_pop_front; popping an empty list is an assertion failure in the code. */
    method PopFront() returns (e: Elem)
      requires Valid() && elems != []
      modifies this, Chain()
      ensures Valid() && old(elems) == [e] + elems
    {
      ghost var s := Chain();
      e := head.next;
      assert e == s[1];
      ghost var t: seq<Elem>;
      var following;
      following, t := ListRemove(e, s, 1);
      elems := elems[1..];
      assert Chain() == t;
    }

    /** list_sort: the elements end up in the order of a stable sort. */
    method Sort(less: (Elem, Elem) -> bool, ghost universe: set<Elem>)
      requires Valid() && StrictWeak(less, universe) && Within(elems, universe)
      modifies this, Chain()
      ensures Valid() && elems == MergeSort.Sort(less, universe, old(elems))
      ensures StableSort(less, old(elems), elems)
    {
      hide MergeSort.Sort, StableSort, StrictWeak, Distinct;
      SortIsStableSort(less, universe, elems);
      assert Interior(Chain()) == elems;
      ghost var t := SortChain(head, tail, less, Chain(), universe);
      elems := Interior(t);
      assert Chain() == t;
    }
  }

  /** The outer loop of list_sort: every pass that puts out more than one run leaves fewer runs than it
      found. */
  method SortChain(head: Elem, tail: Elem, less: (Elem, Elem) -> bool, ghost s: seq<Elem>, ghost universe: set<Elem>) returns (ghost t: seq<Elem>)
    requires Linked(s) && s[0] == head && s[|s| - 1] == tail
    requires StrictWeak(less, universe) && Within(Interior(s), universe)
    modifies s
    ensures SameList(s, t) && Interior(t) == MergeSort.Sort(less, universe, Interior(s))
  {
    hide Pass, PassRuns, Runs, MergeSort.Sort, StrictWeak, Linked, Within, Interior;
    t := s;
    var more := true;
    while more
      invariant SameList(s, t) && Within(Interior(t), universe)
      invariant if more then MergeSort.Sort(less, universe, Interior(t)) == MergeSort.Sort(less, universe, Interior(s))
                else Interior(t) == MergeSort.Sort(less, universe, Interior(s))
      decreases more, if more then Runs(less, Interior(t)) else 0
    {
      PassRunsBound(less, universe, Interior(t));
      SortStep(less, universe, Interior(t));
      var cnt;
      cnt, t := SortPass(head, tail, less, t);
      more := cnt > 1;
    }
  }

  lemma SortStep<T>(less: (T, T) -> bool, s: set<T>, m: seq<T>)
    requires StrictWeak(less, s) && Within(m, s)
    ensures Within(Pass(less, m), s)
    ensures MergeSort.Sort(less, s, m) ==
            if PassRuns(less, m) > 1 then MergeSort.Sort(less, s, Pass(less, m)) else Pass(less, m)
  {
    PassWithin(less, s, m);
  }
}
