/** The self-resizing chained hash table of lib/kernel/hash.c: it refines a finite map from keys
    (elements that neither precede the other) to elements, whether or not resizing succeeds. */
module HashTable {
  import opened Bits

  datatype Option<T> = None | Some(value: T)

  // ---------- Powers of two ----------

  /** turn_off_least_1bit. */
  function TurnOffLeastBit(x: nat): nat
    requires x > 0
  {
    And(x, x - 1)
  }

  /** is_power_of_2. */
  predicate IsPowerOf2(x: nat) {
    x != 0 && TurnOffLeastBit(x) == 0
  }

  lemma {:induction false} AndSelf(x: nat)
    ensures And(x, x) == x
  {
    if x > 0 { AndSelf(x / 2); }
  }

  /** Halving: an odd number loses its last bit, an even one does as its half does. */
  lemma TurnOffHalves(x: nat)
    requires x > 0
    ensures TurnOffLeastBit(x) == if x % 2 == 1 then x - 1 else 2 * TurnOffLeastBit(x / 2)
  {
    if x % 2 == 1 {
      AndSelf(x / 2);
      assert (x - 1) / 2 == x / 2;
    } else {
      assert (x - 1) / 2 == x / 2 - 1 && (x - 1) % 2 == 1;
    }
  }

  /** The greatest power of two that is at most x. */
  function TopPower(x: nat): (p: nat)
    requires x > 0
    ensures 0 < p <= x < 2 * p
  {
    if x == 1 then 1 else 2 * TopPower(x / 2)
  }

  lemma {:induction false} TopIsPower(x: nat) returns (k: nat)
    requires x > 0
    ensures TopPower(x) == Pow2(k)
  {
    if x == 1 {
      k := 0;
    } else {
      k := TopIsPower(x / 2);
      k := k + 1;
    }
  }

  /** Turning off the lowest bit leaves the top one, unless that was the only one. */
  lemma {:induction false} TurnOffKeepsTop(x: nat)
    requires x > 0
    ensures TurnOffLeastBit(x) < x
    ensures IsPowerOf2(x) <==> x == TopPower(x)
    ensures !IsPowerOf2(x) ==> TurnOffLeastBit(x) > 0 && TopPower(TurnOffLeastBit(x)) == TopPower(x)
  {
    TurnOffHalves(x);
    if x > 1 {
      TurnOffKeepsTop(x / 2);
      if x % 2 == 1 { assert (x - 1) / 2 == x / 2; }
    }
  }

  /** The bucket count rehash wants: TopPower, found by turning off low bits. */
  method WantedBuckets(elemCnt: nat) returns (n: nat)
    ensures n == TopPower(if elemCnt / 2 < 4 then 4 else elemCnt / 2)
    ensures n >= 4 && IsPowerOf2(n) && elemCnt < 4 * n && (n == 4 || elemCnt >= 2 * n)
  {
    n := elemCnt / 2;
    if n < 4 {
      n := 4;
    }
    ghost var m := n;
    assert TopPower(4) == 4;
    while !IsPowerOf2(n)
      invariant n > 0 && TopPower(n) == TopPower(m)
      decreases n
    {
      TurnOffKeepsTop(n);
      n := TurnOffLeastBit(n);
    }
    TurnOffKeepsTop(n);
    TopGrows(m);
  }

  lemma {:induction false} TopGrows(x: nat)
    requires x >= 4
    ensures TopPower(x) >= 4
  {
    assert x / 2 >= 2 && TopPower(x / 2) >= 2;
  }

  /** The mask of find_bucket is a remainder. */
  lemma MaskIsRemainder(h: nat, x: nat)
    requires IsPowerOf2(x)
    ensures And(h, x - 1) == h % x
  {
    TurnOffKeepsTop(x);
    var k := TopIsPower(x);
    AndLowMask(h, k);
  }

  // ---------- Buckets ----------

  /** All elements, with how often each occurs. */
  ghost function All<E>(b: seq<seq<E>>): multiset<E> {
    if b == [] then multiset{} else All(b[..|b| - 1]) + multiset(b[|b| - 1])
  }

  lemma {:induction false} AllUpdate<E>(b: seq<seq<E>>, i: nat, q: seq<E>)
    requires i < |b|
    ensures All(b[i := q]) + multiset(b[i]) == All(b) + multiset(q)
  {
    var n := |b| - 1;
    assert All(b) == All(b[..n]) + multiset(b[n]);
    assert All(b[i := q]) == All(b[i := q][..n]) + multiset(b[i := q][n]);
    if i == n {
      assert b[i := q][..n] == b[..n];
    } else {
      AllUpdate(b[..n], i, q);
      assert b[i := q][..n] == b[..n][i := q] && b[..n][i] == b[i] && b[i := q][n] == b[n];
      hide All;
      Rearrange(All(b[..n][i := q]), All(b[..n]), multiset(b[i]), multiset(q), multiset(b[n]));
    }
  }

  lemma Rearrange<E>(a: multiset<E>, b: multiset<E>, x: multiset<E>, y: multiset<E>, m: multiset<E>)
    requires a + x == b + y
    ensures (a + m) + x == (b + m) + y
  {
    forall e ensures ((a + m) + x)[e] == ((b + m) + y)[e] {
      assert (a + x)[e] == (b + y)[e];
    }
  }

  lemma Cancel<E>(a: multiset<E>, b: multiset<E>, x: multiset<E>, y: multiset<E>)
    requires a + x == b + (y + x)
    ensures a == b + y
  {
    forall e ensures a[e] == (b + y)[e] {
      assert (a + x)[e] == (b + (y + x))[e];
    }
  }

  lemma Cancelled<E>(a: multiset<E>, b: multiset<E>, x: multiset<E>, y: multiset<E>)
    requires a + (x + y) == b + x
    ensures a + y == b
  {
    forall e ensures (a + y)[e] == b[e] {
      assert (a + (x + y))[e] == (b + x)[e];
    }
  }

  lemma AllPush<E>(b: seq<seq<E>>, i: nat, e: E)
    requires i < |b|
    ensures All(b[i := [e] + b[i]]) == All(b) + multiset{e}
  {
    hide All;
    AllUpdate(b, i, [e] + b[i]);
    assert multiset([e] + b[i]) == multiset{e} + multiset(b[i]);
    Cancel(All(b[i := [e] + b[i]]), All(b), multiset(b[i]), multiset{e});
  }

  lemma Pulled<E>(q: seq<E>, k: nat)
    requires k < |q|
    ensures multiset(q) == multiset(q[..k] + q[k + 1..]) + multiset{q[k]}
  {
    assert q == q[..k] + [q[k]] + q[k + 1..];
  }

  lemma AllRemove<E>(b: seq<seq<E>>, i: nat, k: nat)
    requires i < |b| && k < |b[i]|
    ensures All(b[i := b[i][..k] + b[i][k + 1..]]) + multiset{b[i][k]} == All(b)
  {
    hide All;
    var q := b[i][..k] + b[i][k + 1..];
    Pulled(b[i], k);
    AllUpdate(b, i, q);
    Cancelled(All(b[i := q]), All(b), multiset(q), multiset{b[i][k]});
  }

  lemma {:induction false} InAll<E>(b: seq<seq<E>>, e: E)
    ensures e in All(b) <==> exists i :: 0 <= i < |b| && e in b[i]
  {
    if b != [] {
      var n := |b| - 1;
      InAll(b[..n], e);
      assert forall i :: 0 <= i < n ==> b[..n][i] == b[i];
    }
  }

  lemma {:induction false} AllEmpty<E>(b: seq<seq<E>>)
    requires forall i :: 0 <= i < |b| ==> b[i] == []
    ensures All(b) == multiset{}
  {
    if b != [] { AllEmpty(b[..|b| - 1]); }
  }

  /** Elements neither of which precedes the other have the same key. */
  predicate Equal<E>(less: (E, E) -> bool, x: E, y: E) {
    !less(x, y) && !less(y, x)
  }

  /** What the table may rely on: equality of keys is an equivalence, and the hash respects it. */
  ghost predicate Consistent<E(!new)>(less: (E, E) -> bool, hash: E -> nat) {
    && (forall x :: Equal(less, x, x))
    && (forall x, y, z :: Equal(less, x, y) && Equal(less, y, z) ==> Equal(less, x, z))
    && (forall x, y :: Equal(less, x, y) ==> hash(x) == hash(y))
  }

  /** At most one element for a key. */
  ghost predicate Keyed<E>(less: (E, E) -> bool, m: multiset<E>) {
    && (forall x :: x in m ==> m[x] == 1)
    && (forall x, y :: x in m && y in m && Equal(less, x, y) ==> x == y)
  }

  /** Every element is in the bucket of its hash. */
  ghost predicate InPlace<E>(hash: E -> nat, b: seq<seq<E>>) {
    forall i, e :: 0 <= i < |b| && e in b[i] ==> And(hash(e), |b| - 1) == i
  }

  lemma KeyedInsert<E(!new)>(less: (E, E) -> bool, hash: E -> nat, m: multiset<E>, e: E)
    requires Consistent(less, hash) && Keyed(less, m) && forall x :: x in m ==> !Equal(less, x, e)
    ensures Keyed(less, m + multiset{e}) && |m + multiset{e}| == |m| + 1
  {
    assert e !in m;
    forall x, y | x in m + multiset{e} && y in m + multiset{e} && Equal(less, x, y) ensures x == y {
      assert Equal(less, y, x);
    }
  }

  lemma KeyedRemove<E>(less: (E, E) -> bool, m: multiset<E>, n: multiset<E>, e: E)
    requires Keyed(less, m) && n + multiset{e} == m
    ensures Keyed(less, n) && |n| + 1 == |m| && forall x :: x in n <==> x in m && x != e
  {
    assert |m| == |n| + |multiset{e}|;
    forall x ensures (x in n ==> n[x] == 1 && x in m) && (x in n <==> x in m && x != e) {
      assert (n + multiset{e})[x] == m[x];
      assert m[x] <= 1;
    }
  }

  lemma InPlacePush<E>(hash: E -> nat, b: seq<seq<E>>, i: nat, e: E)
    requires InPlace(hash, b) && i < |b| && And(hash(e), |b| - 1) == i
    ensures InPlace(hash, b[i := [e] + b[i]])
  {
  }

  lemma InPlaceRemove<E>(hash: E -> nat, b: seq<seq<E>>, i: nat, k: nat)
    requires InPlace(hash, b) && i < |b| && k < |b[i]|
    ensures InPlace(hash, b[i := b[i][..k] + b[i][k + 1..]])
  {
  }

  class HashTable<E(!new)> {
    const hash: E -> nat
    const less: (E, E) -> bool
    var elemCnt: nat
    var buckets: seq<seq<E>>    // bucket_cnt is their number

    /** What the table holds. */
    ghost function Contents(): multiset<E>
      reads this
    {
      All(buckets)
    }

    /** A power of two of buckets, at least four; every element in its own bucket; one element for a
        key; the count right. */
    ghost predicate Valid()
      reads this
    {
      && |buckets| >= 4 && IsPowerOf2(|buckets|) && InPlace(hash, buckets)
      && Keyed(less, Contents()) && elemCnt == |Contents()|
    }

    /** hash_init, when its allocation succeeds. */
    constructor (hash: E -> nat, less: (E, E) -> bool)
      ensures Valid() && Contents() == multiset{} && this.hash == hash && this.less == less
    {
      this.hash, this.less, elemCnt := hash, less, 0;
      buckets := [[], [], [], []];
      AllEmpty<E>([[], [], [], []]);
      assert IsPowerOf2(4);
    }

    /** find_bucket. */
    function Bucket(e: E): (i: nat)
      requires |buckets| >= 4 && IsPowerOf2(|buckets|)
      reads this
      ensures i < |buckets| && i == hash(e) % |buckets|
    {
      MaskIsRemainder(hash(e), |buckets|);
      And(hash(e), |buckets| - 1)
    }

    /** find_elem: the position in bucket i of an element with the key of e, or the bucket's length. */
    method FindElem(i: nat, e: E) returns (k: nat)
      requires i < |buckets|
      ensures k <= |buckets[i]| && (forall j :: 0 <= j < k ==> !Equal(less, buckets[i][j], e))
      ensures k < |buckets[i]| ==> Equal(less, buckets[i][k], e)
    {
      k := 0;
      while k < |buckets[i]| && !Equal(less, buckets[i][k], e)
        invariant k <= |buckets[i]| && forall j :: 0 <= j < k ==> !Equal(less, buckets[i][j], e)
      {
        k := k + 1;
      }
    }

    /** hash_find: the element with the key of e, if the table holds one. */
    method Find(e: E) returns (r: Option<E>)
      requires Valid() && Consistent(less, hash)
      ensures r.Some? ==> r.value in Contents() && Equal(less, r.value, e)
      ensures r.None? ==> forall x :: x in Contents() ==> !Equal(less, x, e)
    {
      var i := Bucket(e);
      var k := FindElem(i, e);
      SameBucket(e);
      if k < |buckets[i]| {
        InAll(buckets, buckets[i][k]);
        r := Some(buckets[i][k]);
      } else {
        r := None;
      }
    }

    /** An element with the key of e can only be in the bucket of e. */
    lemma SameBucket(e: E)
      requires Valid() && Consistent(less, hash)
      ensures forall x :: x in Contents() && Equal(less, x, e) ==> x in buckets[Bucket(e)]
    {
      forall x | x in Contents() && Equal(less, x, e) ensures x in buckets[Bucket(e)] {
        InAll(buckets, x);
      }
    }
  
    /** insert_elem, for an element whose key the table does not hold. */
    method InsertElem(i: nat, e: E)
      requires Valid() && i == Bucket(e) && (forall x :: x in Contents() ==> !Equal(less, x, e))
      requires Consistent(less, hash)
      modifies this
      ensures Valid() && Contents() == old(Contents()) + multiset{e}
    {
      hide All, Keyed, InPlace, IsPowerOf2, Consistent;
      AllPush(buckets, i, e);
      InPlacePush(hash, buckets, i, e);
      KeyedInsert(less, hash, Contents(), e);
      elemCnt := elemCnt + 1;
      buckets := buckets[i := [e] + buckets[i]];
    }

    /** remove_elem. */
    method RemoveElem(i: nat, k: nat)
      requires Valid() && i < |buckets| && k < |buckets[i]|
      modifies this
      ensures Valid() && |buckets| == |old(buckets)| && Contents() + multiset{old(buckets[i][k])} == old(Contents())
    {
      hide All, Keyed, InPlace, IsPowerOf2;
      AllRemove(buckets, i, k);
      InPlaceRemove(hash, buckets, i, k);
      KeyedRemove(less, Contents(), All(buckets[i := buckets[i][..k] + buckets[i][k + 1..]]), buckets[i][k]);
      elemCnt := elemCnt - 1;
      buckets := buckets[i := buckets[i][..k] + buckets[i][k + 1..]];
    }

    /** Moving the elements of one old bucket, in order, each to the front of its new bucket. */
    method MoveBucket(q: seq<E>)
      requires |buckets| >= 4 && IsPowerOf2(|buckets|) && InPlace(hash, buckets)
      modifies this`buckets
      ensures |buckets| == old(|buckets|) && InPlace(hash, buckets) && All(buckets) == old(All(buckets)) + multiset(q)
    {
      hide All, InPlace, IsPowerOf2;
      var k := 0;
      while k < |q|
        invariant k <= |q| && |buckets| == old(|buckets|) && InPlace(hash, buckets)
        invariant All(buckets) == old(All(buckets)) + multiset(q[..k])
      {
        var j := Bucket(q[k]);
        AllPush(buckets, j, q[k]);
        InPlacePush(hash, buckets, j, q[k]);
        NextOf(q, k);
        buckets := buckets[j := [q[k]] + buckets[j]];
        k := k + 1;
      }
      assert q[..k] == q;
    }

    method MoveAll(wanted: nat)
      requires Valid() && wanted >= 4 && IsPowerOf2(wanted)
      modifies this`buckets
      ensures Valid() && |buckets| == wanted && Contents() == old(Contents())
    {
      hide All, Keyed, InPlace, IsPowerOf2;
      var oldBuckets := buckets;
      buckets := seq(wanted, _ => []);
      EmptyBuckets<E>(hash, buckets);
      var i := 0;
      assert oldBuckets[..0] == [];
      while i < |oldBuckets|
        invariant i <= |oldBuckets| && |buckets| == wanted && InPlace(hash, buckets)
        invariant All(buckets) == All(oldBuckets[..i])
      {
        MoveBucket(oldBuckets[i]);
        NextBucket(oldBuckets, i);
        i := i + 1;
      }
      assert oldBuckets[..i] == oldBuckets;
    }

    /** As many buckets as rehash wants: fewer than four elements a bucket, and two at least unless there are
        only four buckets. */
    ghost predicate Balanced()
      reads this
    {
      elemCnt < 4 * |buckets| && (|buckets| == 4 || elemCnt >= 2 * |buckets|)
    }

    /** rehash; memory says whether its allocation succeeds, if it makes one.  Failure leaves the table as it
        is. */
    method Rehash(memory: bool)
      requires Valid()
      modifies this`buckets
      ensures Valid() && Contents() == old(Contents())
      ensures memory ==> Balanced()
      ensures !memory ==> buckets == old(buckets)
    {
      hide All, Keyed, InPlace, IsPowerOf2, TopPower;
      var wanted := WantedBuckets(elemCnt);
      if wanted != |buckets| && memory {
        MoveAll(wanted);
      }
    }

    /** hash_insert: nothing but the new element is added, and only if its key is new. */
    method Insert(e: E, memory: bool) returns (r: Option<E>)
      requires Valid() && Consistent(less, hash)
      modifies this
      ensures Valid() && (memory ==> Balanced())
      ensures r.Some? ==> r.value in old(Contents()) && Equal(less, r.value, e) && Contents() == old(Contents())
      ensures r.None? ==> (forall x :: x in old(Contents()) ==> !Equal(less, x, e))
                          && Contents() == old(Contents()) + multiset{e}
    {
      hide All, Keyed, InPlace, IsPowerOf2, Consistent;
      var i := Bucket(e);
      var k := FindElem(i, e);
      Located(i, e, k);
      if k < |buckets[i]| {
        r := Some(buckets[i][k]);
      } else {
        r := None;
        InsertElem(i, e);
      }
      Rehash(memory);
    }

    /** hash_replace: the new element is in, and with it went the one that had its key. */
    method Replace(e: E, memory: bool) returns (r: Option<E>)
      requires Valid() && Consistent(less, hash)
      modifies this
      ensures Valid() && (memory ==> Balanced())
      ensures r.Some? ==> r.value in old(Contents()) && Equal(less, r.value, e)
                          && Contents() + multiset{r.value} == old(Contents()) + multiset{e}
      ensures r.None? ==> (forall x :: x in old(Contents()) ==> !Equal(less, x, e))
                          && Contents() == old(Contents()) + multiset{e}
    {
      hide All, Keyed, InPlace, IsPowerOf2, Consistent;
      var i := Bucket(e);
      var k := FindElem(i, e);
      Located(i, e, k);
      if k < |buckets[i]| {
        r := Some(buckets[i][k]);
        KeyGone(less, hash, Contents(), buckets[i][k], e);
        RemoveElem(i, k);
      } else {
        r := None;
      }
      InsertElem(i, e);
      Rehash(memory);
    }

    /** hash_delete: the element with the key of e leaves, if there is one. */
    method Delete(e: E, memory: bool) returns (r: Option<E>)
      requires Valid() && Consistent(less, hash)
      modifies this
      ensures Valid() && (memory && r.Some? ==> Balanced())
      ensures r.Some? ==> Equal(less, r.value, e) && Contents() + multiset{r.value} == old(Contents())
      ensures r.None? ==> (forall x :: x in old(Contents()) ==> !Equal(less, x, e))
                          && buckets == old(buckets) && Contents() == old(Contents())
    {
      hide All, Keyed, InPlace, IsPowerOf2, Consistent;
      var i := Bucket(e);
      var k := FindElem(i, e);
      Located(i, e, k);
      if k < |buckets[i]| {
        r := Some(buckets[i][k]);
        RemoveElem(i, k);
        Rehash(memory);
      } else {
        r := None;
      }
    }

    /** What find_elem has found, for the whole table. */
    lemma Located(i: nat, e: E, k: nat)
      requires Valid() && Consistent(less, hash) && i == Bucket(e) && k <= |buckets[i]|
      requires forall j :: 0 <= j < k ==> !Equal(less, buckets[i][j], e)
      ensures k < |buckets[i]| ==> buckets[i][k] in Contents()
      ensures k == |buckets[i]| ==> forall x :: x in Contents() ==> !Equal(less, x, e)
    {
      SameBucket(e);
      if k < |buckets[i]| { InAll(buckets, buckets[i][k]); }
    }
  }

  /** Once the element with a key is out, no element has that key. */
  lemma KeyGone<E(!new)>(less: (E, E) -> bool, hash: E -> nat, m: multiset<E>, x: E, e: E)
    requires Consistent(less, hash) && Keyed(less, m) && x in m && Equal(less, x, e)
    ensures forall n: multiset<E> :: n + multiset{x} == m ==> forall y :: y in n ==> !Equal(less, y, e)
  {
    forall n: multiset<E>, y | n + multiset{x} == m && y in n ensures !Equal(less, y, e) {
      KeyedRemove(less, m, n, x);
      assert Equal(less, e, x);
    }
  }

  lemma EmptyBuckets<E>(hash: E -> nat, b: seq<seq<E>>)
    requires forall i :: 0 <= i < |b| ==> b[i] == []
    ensures InPlace(hash, b) && All(b) == All<E>([])
  {
    AllEmpty(b);
  }

  lemma NextOf<E>(q: seq<E>, k: nat)
    requires k < |q|
    ensures multiset(q[..k + 1]) == multiset(q[..k]) + multiset{q[k]}
  {
    assert q[..k + 1] == q[..k] + [q[k]];
  }

  lemma NextBucket<E>(b: seq<seq<E>>, i: nat)
    requires i < |b|
    ensures All(b[..i + 1]) == All(b[..i]) + multiset(b[i])
  {
    assert b[..i + 1][..i] == b[..i];
  }
}
