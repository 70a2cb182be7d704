/** The natural merge sort of lib/kernel/list.c on sequences: what list_sort leaves in the list, why
    that is a stable sort, and why it stops. */
module MergeSort {

  /** less is a strict weak order on the elements of s. */
  ghost predicate StrictWeak<T>(less: (T, T) -> bool, s: set<T>) {
    && (forall x :: x in s ==> !less(x, x))
    && (forall x, y :: x in s && y in s && less(x, y) ==> !less(y, x))
    && (forall x, y, z :: x in s && y in s && z in s && less(x, z) ==> less(x, y) || less(y, z))
  }

  ghost predicate Within<T>(m: seq<T>, s: set<T>) {
    forall i :: 0 <= i < |m| ==> m[i] in s
  }

  ghost predicate Sorted<T>(less: (T, T) -> bool, m: seq<T>) {
    forall i, j :: 0 <= i < j < |m| ==> !less(m[j], m[i])
  }

  ghost predicate Equivalent<T>(less: (T, T) -> bool, x: T, y: T) {
    !less(x, y) && !less(y, x)
  }

  /** The elements equivalent to g, in the order they stand in m. */
  ghost function Class<T>(less: (T, T) -> bool, g: T, m: seq<T>): seq<T> {
    if m == [] then [] else (if Equivalent(less, g, m[0]) then [m[0]] else []) + Class(less, g, m[1..])
  }

  /** r is m put in order without changing the order of equivalent elements. */
  ghost predicate StableSort<T>(less: (T, T) -> bool, m: seq<T>, r: seq<T>) {
    && multiset(r) == multiset(m)
    && Sorted(less, r)
    && forall g :: g in m ==> Class(less, g, r) == Class(less, g, m)
  }

  /** find_end_of_run: the end of the run of m that starts at i. */
  function RunEnd<T>(less: (T, T) -> bool, m: seq<T>, i: nat): (e: nat)
    requires i < |m|
    ensures i < e <= |m|
    decreases |m| - i
  {
    if i + 1 == |m| || Descent(less, m, i + 1) then i + 1 else RunEnd(less, m, i + 1)
  }

  /** Element k is below the one before it. */
  predicate Descent<T>(less: (T, T) -> bool, m: seq<T>, k: nat)
    requires 0 < k < |m|
  {
    less(m[k], m[k - 1])
  }

  /** A run has no descent inside and ends at a descent or at the end. */
  lemma {:induction false} RunIsMaximal<T>(less: (T, T) -> bool, m: seq<T>, i: nat)
    requires i < |m|
    ensures var e := RunEnd(less, m, i);
            && (forall k :: i < k < e ==> !Descent(less, m, k))
            && (e < |m| ==> Descent(less, m, e))
    decreases |m| - i
  {
    if i + 1 < |m| && !Descent(less, m, i + 1) {
      RunIsMaximal(less, m, i + 1);
    }
  }

  /** inplace_merge: on a tie the left one goes first. */
  function Merge<T>(less: (T, T) -> bool, a: seq<T>, b: seq<T>): (r: seq<T>)
    ensures |r| == |a| + |b|
    decreases |a| + |b|
  {
    if a == [] then b
    else if b == [] then a
    else if less(b[0], a[0]) then [b[0]] + Merge(less, a, b[1..])
    else [a[0]] + Merge(less, a[1..], b)
  }

  /** One pass of list_sort: adjacent runs merged two by two. */
  function Pass<T>(less: (T, T) -> bool, m: seq<T>): (r: seq<T>)
    ensures |r| == |m|
    decreases |m|
  {
    if m == [] then [] else
    var e := RunEnd(less, m, 0);
    if e == |m| then m else
    var f := RunEnd(less, m, e);
    Merge(less, m[..e], m[e..f]) + Pass(less, m[f..])
  }

  /** The number of runs a pass puts out. */
  function PassRuns<T>(less: (T, T) -> bool, m: seq<T>): (n: nat)
    ensures m != [] ==> n > 0
    decreases |m|
  {
    if m == [] then 0 else
    var e := RunEnd(less, m, 0);
    if e == |m| then 1 else 1 + PassRuns(less, m[RunEnd(less, m, e)..])
  }

  /** The number of maximal runs of m. */
  function Runs<T>(less: (T, T) -> bool, m: seq<T>): (n: nat)
    decreases |m|
  {
    if m == [] then 0 else 1 + Runs(less, m[RunEnd(less, m, 0)..])
  }

  // Permutation.

  lemma SplitElements<T>(m: seq<T>, k: nat)
    requires k <= |m|
    ensures multiset(m) == multiset(m[..k]) + multiset(m[k..])
  {
    assert m == m[..k] + m[k..];
  }

  lemma {:induction false} MergeElements<T>(less: (T, T) -> bool, a: seq<T>, b: seq<T>)
    ensures multiset(Merge(less, a, b)) == multiset(a) + multiset(b)
    decreases |a| + |b|
  {
    if a == [] || b == [] {
    } else if less(b[0], a[0]) {
      MergeElements(less, a, b[1..]);
      SplitElements(b, 1);
      SplitElements(Merge(less, a, b), 1);
      assert Merge(less, a, b)[1..] == Merge(less, a, b[1..]) && Merge(less, a, b)[..1] == b[..1];
    } else {
      MergeElements(less, a[1..], b);
      SplitElements(a, 1);
      SplitElements(Merge(less, a, b), 1);
      assert Merge(less, a, b)[1..] == Merge(less, a[1..], b) && Merge(less, a, b)[..1] == a[..1];
    }
  }

  lemma {:induction false} PassElements<T>(less: (T, T) -> bool, m: seq<T>)
    ensures multiset(Pass(less, m)) == multiset(m)
    decreases |m|
  {
    hide Merge, RunEnd;
    if m != [] {
      var e := RunEnd(less, m, 0);
      if e < |m| {
        var f := RunEnd(less, m, e);
        MergeElements(less, m[..e], m[e..f]);
        PassElements(less, m[f..]);
        SplitElements(m, f);
        SplitElements(m[..f], e);
        assert m[..f][..e] == m[..e] && m[..f][e..] == m[e..f];
      }
    }
  }

  // Order.

  /** A run is sorted: no descent between neighbours means no descent at all. */
  lemma {:induction false} NeighboursSorted<T>(less: (T, T) -> bool, s: set<T>, m: seq<T>, i: nat, j: nat)
    requires StrictWeak(less, s) && Within(m, s) && i < j < |m|
    requires forall k :: i < k <= j ==> !Descent(less, m, k)
    ensures !less(m[j], m[i])
  {
    assert !Descent(less, m, j);
    if i + 1 < j {
      NeighboursSorted(less, s, m, i, j - 1);
    }
  }

  lemma RunSorted<T>(less: (T, T) -> bool, s: set<T>, m: seq<T>, i: nat)
    requires StrictWeak(less, s) && Within(m, s) && i < |m|
    ensures Sorted(less, m[i..RunEnd(less, m, i)])
  {
    var e := RunEnd(less, m, i);
    RunIsMaximal(less, m, i);
    forall p, q | 0 <= p < q < e - i ensures !less(m[i..e][q], m[i..e][p]) {
      NeighboursSorted(less, s, m, i + p, i + q);
    }
  }

  lemma {:induction false} MergeWithin<T>(less: (T, T) -> bool, a: seq<T>, b: seq<T>, k: nat)
    requires k < |a| + |b|
    ensures Merge(less, a, b)[k] in a || Merge(less, a, b)[k] in b
    decreases |a| + |b|
  {
    if a != [] && b != [] && k > 0 {
      if less(b[0], a[0]) {
        MergeWithin(less, a, b[1..], k - 1);
      } else {
        MergeWithin(less, a[1..], b, k - 1);
      }
    }
  }

  /** Nothing in m is below x. */
  ghost predicate AtMost<T>(less: (T, T) -> bool, x: T, m: seq<T>) {
    forall k :: 0 <= k < |m| ==> !less(m[k], x)
  }

  lemma SortedCons<T>(less: (T, T) -> bool, x: T, m: seq<T>)
    requires Sorted(less, m) && AtMost(less, x, m)
    ensures Sorted(less, [x] + m)
  {
    forall i, j | 0 <= i < j < |m| + 1 ensures !less(([x] + m)[j], ([x] + m)[i]) {
      assert ([x] + m)[j] == m[j - 1];
    }
  }

  /** The head of a sorted sequence is at most everything in it and in any sequence above the head. */
  lemma HeadAtMost<T>(less: (T, T) -> bool, s: set<T>, x: T, m: seq<T>)
    requires StrictWeak(less, s) && Within(m, s) && x in s && Sorted(less, m)
    requires m != [] ==> !less(m[0], x)
    ensures AtMost(less, x, m)
  {
    forall k | 0 <= k < |m| ensures !less(m[k], x) {
      if k > 0 {
        assert !less(m[k], m[0]);
      }
    }
  }

  lemma AtMostMerge<T>(less: (T, T) -> bool, x: T, a: seq<T>, b: seq<T>)
    requires AtMost(less, x, a) && AtMost(less, x, b)
    ensures AtMost(less, x, Merge(less, a, b))
  {
    forall k | 0 <= k < |a| + |b| ensures !less(Merge(less, a, b)[k], x) {
      MergeWithin(less, a, b, k);
    }
  }

  lemma {:induction false} MergeSorted<T>(less: (T, T) -> bool, s: set<T>, a: seq<T>, b: seq<T>)
    requires StrictWeak(less, s) && Within(a, s) && Within(b, s) && Sorted(less, a) && Sorted(less, b)
    ensures Sorted(less, Merge(less, a, b))
    decreases |a| + |b|
  {
    if a != [] && b != [] {
      if less(b[0], a[0]) {
        MergeSorted(less, s, a, b[1..]);
        HeadAtMost(less, s, b[0], a);
        HeadAtMost(less, s, b[0], b);
        AtMostMerge(less, b[0], a, b[1..]);
        SortedCons(less, b[0], Merge(less, a, b[1..]));
      } else {
        MergeSorted(less, s, a[1..], b);
        HeadAtMost(less, s, a[0], a);
        HeadAtMost(less, s, a[0], b);
        AtMostMerge(less, a[0], a[1..], b);
        SortedCons(less, a[0], Merge(less, a[1..], b));
      }
    }
  }

  // Stability.

  lemma {:induction false} ClassConcat<T>(less: (T, T) -> bool, g: T, a: seq<T>, b: seq<T>)
    ensures Class(less, g, a + b) == Class(less, g, a) + Class(less, g, b)
  {
    if a == [] {
      assert a + b == b;
    } else {
      hide Class, Equivalent;
      ClassConcat(less, g, a[1..], b);
      ClassStep(less, g, a);
      ClassStep(less, g, a + b);
      TailConcat(a, b);
      ConcatAssociates(if Equivalent(less, g, a[0]) then [a[0]] else [], Class(less, g, a[1..]), Class(less, g, b));
    }
  }

  lemma TailConcat<T>(a: seq<T>, b: seq<T>)
    requires a != []
    ensures (a + b)[0] == a[0] && (a + b)[1..] == a[1..] + b
  {
  }

  lemma ConcatAssociates<T>(a: seq<T>, b: seq<T>, c: seq<T>)
    ensures a + (b + c) == (a + b) + c
  {
  }

  lemma ClassStep<T>(less: (T, T) -> bool, g: T, m: seq<T>)
    requires m != []
    ensures Class(less, g, m) == (if Equivalent(less, g, m[0]) then [m[0]] else []) + Class(less, g, m[1..])
  {
  }

  lemma {:induction false} ClassEmpty<T>(less: (T, T) -> bool, g: T, a: seq<T>)
    requires forall k :: 0 <= k < |a| ==> !Equivalent(less, g, a[k])
    ensures Class(less, g, a) == []
  {
    if a != [] {
      ClassEmpty(less, g, a[1..]);
    }
  }

  /** When b's head overtakes a, nothing equivalent to it is left in a. */
  lemma NoneEquivalent<T>(less: (T, T) -> bool, s: set<T>, g: T, a: seq<T>, y: T)
    requires StrictWeak(less, s) && Within(a, s) && y in s && g in s && Sorted(less, a)
    requires a != [] && less(y, a[0]) && Equivalent(less, g, y)
    ensures Class(less, g, a) == []
  {
    forall k | 0 <= k < |a| ensures !Equivalent(less, g, a[k]) {
      if k > 0 {
        assert !less(a[k], a[0]);
      }
      assert less(y, a[k]);
    }
    ClassEmpty(less, g, a);
  }

  lemma {:induction false} MergeStable<T>(less: (T, T) -> bool, s: set<T>, g: T, a: seq<T>, b: seq<T>)
    requires StrictWeak(less, s) && Within(a, s) && Within(b, s) && g in s && Sorted(less, a)
    ensures Class(less, g, Merge(less, a, b)) == Class(less, g, a) + Class(less, g, b)
    decreases |a| + |b|
  {
    if a == [] || b == [] {
    } else if less(b[0], a[0]) {
      MergeStable(less, s, g, a, b[1..]);
      ClassConcat(less, g, [b[0]], Merge(less, a, b[1..]));
      if Equivalent(less, g, b[0]) {
        NoneEquivalent(less, s, g, a, b[0]);
      }
    } else {
      MergeStable(less, s, g, a[1..], b);
      ClassConcat(less, g, [a[0]], Merge(less, a[1..], b));
    }
  }

  lemma ClassThree<T>(less: (T, T) -> bool, g: T, m: seq<T>, e: nat, f: nat)
    requires e <= f <= |m|
    ensures Class(less, g, m) == Class(less, g, m[..e]) + Class(less, g, m[e..f]) + Class(less, g, m[f..])
  {
    hide Class;
    ClassSplit(less, g, m, f);
    ClassSplit(less, g, m[..f], e);
    assert m[..f][..e] == m[..e] && m[..f][e..] == m[e..f];
  }

  lemma ClassSplit<T>(less: (T, T) -> bool, g: T, m: seq<T>, k: nat)
    requires k <= |m|
    ensures Class(less, g, m) == Class(less, g, m[..k]) + Class(less, g, m[k..])
  {
    hide Class;
    ClassConcat(less, g, m[..k], m[k..]);
    assert m == m[..k] + m[k..];
  }

  lemma {:induction false} PassStable<T>(less: (T, T) -> bool, s: set<T>, g: T, m: seq<T>)
    requires StrictWeak(less, s) && Within(m, s) && g in s
    ensures Class(less, g, Pass(less, m)) == Class(less, g, m)
    decreases |m|
  {
    hide Merge, RunEnd, Class, Sorted;
    if m != [] {
      var e := RunEnd(less, m, 0);
      if e < |m| {
        var f := RunEnd(less, m, e);
        RunSorted(less, s, m, 0);
        assert m[0..e] == m[..e];
        MergeStable(less, s, g, m[..e], m[e..f]);
        PassStable(less, s, g, m[f..]);
        ClassConcat(less, g, Merge(less, m[..e], m[e..f]), Pass(less, m[f..]));
        ClassThree(less, g, m, e, f);
      }
    }
  }

  // Termination: a pass puts out about half as many runs as it found, each of them sorted.

  /** Where the first run of a sorted sequence followed by another one ends. */
  lemma {:induction false} RunEndConcat<T>(less: (T, T) -> bool, a: seq<T>, b: seq<T>, i: nat)
    requires i < |a| && forall k :: i < k < |a| ==> !Descent(less, a, k)
    ensures b == [] ==> RunEnd(less, a + b, i) == |a|
    ensures b != [] && less(b[0], a[|a| - 1]) ==> RunEnd(less, a + b, i) == |a|
    ensures b != [] && !less(b[0], a[|a| - 1]) ==> RunEnd(less, a + b, i) == |a| + RunEnd(less, b, 0)
    decreases |a| - i
  {
    if i + 1 < |a| {
      assert !Descent(less, a, i + 1);
      assert !Descent(less, a + b, i + 1);
      RunEndConcat(less, a, b, i + 1);
    } else if b != [] {
      assert (a + b)[i + 1] == b[0];
      assert Descent(less, a + b, i + 1) == less(b[0], a[i]);
      if !less(b[0], a[i]) {
        RunEndShift(less, a, b, 0);
      }
    }
  }

  lemma {:induction false} RunEndShift<T>(less: (T, T) -> bool, a: seq<T>, b: seq<T>, i: nat)
    requires i < |b|
    ensures RunEnd(less, a + b, |a| + i) == |a| + RunEnd(less, b, i)
    decreases |b| - i
  {
    if i + 1 < |b| {
      assert Descent(less, a + b, |a| + i + 1) == Descent(less, b, i + 1);
      if !Descent(less, b, i + 1) {
        RunEndShift(less, a, b, i + 1);
      }
    }
  }

  /** Putting a sorted sequence in front adds at most one run. */
  lemma RunsConcat<T>(less: (T, T) -> bool, a: seq<T>, b: seq<T>)
    requires a != [] && Sorted(less, a)
    ensures Runs(less, a + b) <= 1 + Runs(less, b)
    ensures b == [] ==> Runs(less, a + b) == 1
  {
    hide RunEnd;
    forall k | 0 < k < |a| ensures !Descent(less, a, k) {
    }
    RunEndConcat(less, a, b, 0);
    if b == [] {
      assert (a + b)[|a|..] == [];
    } else if less(b[0], a[|a| - 1]) {
      assert (a + b)[|a|..] == b;
    } else {
      var e := RunEnd(less, b, 0);
      assert (a + b)[|a| + e..] == b[e..];
    }
  }

  lemma {:induction false} PassRunsBound<T>(less: (T, T) -> bool, s: set<T>, m: seq<T>)
    requires StrictWeak(less, s) && Within(m, s)
    ensures Runs(less, Pass(less, m)) <= PassRuns(less, m)
    ensures 2 * PassRuns(less, m) <= Runs(less, m) + 1
    decreases |m|
  {
    if m != [] {
      var e := RunEnd(less, m, 0);
      if e == |m| {
        assert m[e..] == [];
      } else {
        var f := RunEnd(less, m, e);
        PassRunsBound(less, s, m[f..]);
        RunSorted(less, s, m, 0);
        RunSorted(less, s, m, e);
        assert m[0..e] == m[..e];
        var merged := Merge(less, m[..e], m[e..f]);
        MergeSorted(less, s, m[..e], m[e..f]);
        RunsConcat(less, merged, Pass(less, m[f..]));
        TwoRuns(less, m, e, f);
      }
    }
  }

  lemma {:induction false} RunEndSuffix<T>(less: (T, T) -> bool, m: seq<T>, e: nat, i: nat)
    requires e + i < |m|
    ensures RunEnd(less, m[e..], i) == RunEnd(less, m, e + i) - e
    decreases |m| - i
  {
    if e + i + 1 < |m| {
      assert Descent(less, m[e..], i + 1) == Descent(less, m, e + i + 1);
      if !Descent(less, m, e + i + 1) {
        RunEndSuffix(less, m, e, i + 1);
      }
    }
  }

  lemma RunsStep<T>(less: (T, T) -> bool, m: seq<T>)
    requires m != []
    ensures Runs(less, m) == 1 + Runs(less, m[RunEnd(less, m, 0)..])
  {
  }

  lemma TwoRuns<T>(less: (T, T) -> bool, m: seq<T>, e: nat, f: nat)
    requires m != [] && e == RunEnd(less, m, 0) < |m| && f == RunEnd(less, m, e)
    ensures Runs(less, m) == 2 + Runs(less, m[f..])
  {
    hide RunEnd, Runs;
    RunEndSuffix(less, m, e, 0);
    RunsStep(less, m);
    RunsStep(less, m[e..]);
    assert m[e..][f - e..] == m[f..];
  }

  /** A pass that puts out a single run has sorted the sequence. */
  lemma OneRunSorted<T>(less: (T, T) -> bool, s: set<T>, m: seq<T>)
    requires StrictWeak(less, s) && Within(m, s) && PassRuns(less, m) <= 1
    ensures Sorted(less, Pass(less, m))
  {
    if m != [] {
      var e := RunEnd(less, m, 0);
      RunSorted(less, s, m, 0);
      assert m[0..e] == m[..e];
      if e < |m| {
        var f := RunEnd(less, m, e);
        RunSorted(less, s, m, e);
        MergeSorted(less, s, m[..e], m[e..f]);
        assert m[f..] == [];
      } else {
        assert m[..e] == m;
      }
    }
  }

  /** list_sort on a sequence: passes until one puts out at most one run. */
  ghost function Sort<T>(less: (T, T) -> bool, s: set<T>, m: seq<T>): (r: seq<T>)
    requires StrictWeak(less, s) && Within(m, s)
    decreases Runs(less, m)
  {
    PassRunsBound(less, s, m);
    PassWithin(less, s, m);
    if PassRuns(less, m) > 1 then Sort(less, s, Pass(less, m)) else Pass(less, m)
  }

  lemma PassWithin<T>(less: (T, T) -> bool, s: set<T>, m: seq<T>)
    requires Within(m, s)
    ensures Within(Pass(less, m), s)
  {
    PassElements(less, m);
    var r := Pass(less, m);
    forall i | 0 <= i < |r| ensures r[i] in s {
      assert r[i] in multiset(r);
      assert r[i] in multiset(m);
    }
  }

  /** list_sort is a stable sort, for every list and every strict weak order. */
  lemma {:induction false} SortIsStableSort<T>(less: (T, T) -> bool, s: set<T>, m: seq<T>)
    requires StrictWeak(less, s) && Within(m, s)
    ensures StableSort(less, m, Sort(less, s, m))
    decreases Runs(less, m)
  {
    PassRunsBound(less, s, m);
    PassWithin(less, s, m);
    PassElements(less, m);
    var p := Pass(less, m);
    forall g | g in m ensures g in p && Class(less, g, p) == Class(less, g, m) {
      PassStable(less, s, g, m);
      assert g in multiset(m);
    }
    if PassRuns(less, m) > 1 {
      SortIsStableSort(less, s, p);
    } else {
      OneRunSorted(less, s, m);
    }
  }

  /** Both have the same elements and, for each of them, the same equivalents in the same order. */
  ghost predicate SameClasses<T>(less: (T, T) -> bool, m: seq<T>, r: seq<T>) {
    multiset(r) == multiset(m) && forall g :: g in m ==> Class(less, g, r) == Class(less, g, m)
  }

  lemma FirstOfClass<T>(less: (T, T) -> bool, g: T, m: seq<T>)
    requires m != [] && Equivalent(less, g, m[0])
    ensures Class(less, g, m) != [] && Class(less, g, m)[0] == m[0]
  {
  }

  lemma SameFirst<T>(less: (T, T) -> bool, s: set<T>, m: seq<T>, r: seq<T>)
    requires StrictWeak(less, s) && Within(m, s) && Sorted(less, m) && Sorted(less, r) && SameClasses(less, m, r) && m != []
    ensures r != [] && r[0] == m[0]
  {
    assert m[0] in multiset(m) && |multiset(m)| == |m| && |multiset(r)| == |r|;
    var x, y := m[0], r[0];
    assert x in multiset(r) && y in multiset(r) && y in multiset(m);
    var i :| 0 <= i < |r| && r[i] == x;
    var j :| 0 <= j < |m| && m[j] == y;
    assert Equivalent(less, x, y) && Equivalent(less, x, x);
    assert x in m;
    FirstOfClass(less, x, m);
    FirstOfClass(less, x, r);
  }

  lemma TailsSame<T>(less: (T, T) -> bool, m: seq<T>, r: seq<T>)
    requires SameClasses(less, m, r) && m != [] && r != [] && r[0] == m[0]
    ensures SameClasses(less, m[1..], r[1..])
  {
    assert m == [m[0]] + m[1..] && r == [m[0]] + r[1..];
    assert multiset(m) == multiset{m[0]} + multiset(m[1..]) && multiset(r) == multiset{m[0]} + multiset(r[1..]);
    assert multiset(m[1..]) == multiset(m) - multiset{m[0]} && multiset(r[1..]) == multiset(r) - multiset{m[0]};
    forall g | g in m[1..] ensures Class(less, g, r[1..]) == Class(less, g, m[1..]) {
      assert g in m;
      ClassStep(less, g, m);
      ClassStep(less, g, r);
      hide Class;
      assert Class(less, g, r[1..]) == Class(less, g, r)[|Class(less, g, r)| - |Class(less, g, r[1..])|..];
      assert Class(less, g, m[1..]) == Class(less, g, m)[|Class(less, g, m)| - |Class(less, g, m[1..])|..];
    }
  }

  /** There is only one stable sort of a sequence, so that list_sort leaves no freedom. */
  lemma {:induction false} StableSortUnique<T>(less: (T, T) -> bool, s: set<T>, m: seq<T>, r: seq<T>)
    requires StrictWeak(less, s) && Within(m, s) && Sorted(less, m) && Sorted(less, r) && SameClasses(less, m, r)
    ensures r == m
    decreases |m|
  {
    if m == [] {
      assert |multiset(r)| == |multiset(m)|;
    } else {
      SameFirst(less, s, m, r);
      TailsSame(less, m, r);
      StableSortUnique(less, s, m[1..], r[1..]);
      assert m == [m[0]] + m[1..] && r == [m[0]] + r[1..];
    }
  }

  lemma SortUnique<T>(less: (T, T) -> bool, s: set<T>, m: seq<T>, r: seq<T>)
    requires StrictWeak(less, s) && Within(m, s) && StableSort(less, m, r)
    ensures r == Sort(less, s, m)
  {
    hide Class, Sort, Sorted, StrictWeak, Within;
    SortIsStableSort(less, s, m);
    var t := Sort(less, s, m);
    PermutedWithin(m, t, s);
    StableSortUnique(less, s, t, r);
  }

  lemma PermutedWithin<T>(m: seq<T>, t: seq<T>, s: set<T>)
    requires multiset(t) == multiset(m) && Within(m, s)
    ensures Within(t, s) && forall g :: g in t <==> g in m
  {
    forall g ensures g in t <==> g in m { assert g in multiset(t) <==> g in multiset(m); }
    forall i | 0 <= i < |t| ensures t[i] in s { assert t[i] in m; }
  }
}
