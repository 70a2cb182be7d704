/** Priority donation (threads/thread.c, with PROJECT_THREAD on): a thread runs at the highest
    priority among itself and the threads that wait, directly or through other holders, for a
    semaphore it holds. */
module Donation {

  const PRI_MIN := 0

  /** Who holds what and who waits for what: base priorities, each thread's semaList, each semaphore's
      waiters.  With mlfqs on nothing is donated. */
  datatype Graph = Graph(base: map<nat, int>, held: map<nat, seq<nat>>, waiters: map<nat, seq<nat>>, mlfqs: bool)

  /** No base priority is below PRI_MIN; if all those of a list were, PriorityBack would return a variable
      it never set. */
  ghost predicate Wf(g: Graph) {
    && (forall t :: t in g.base ==> PRI_MIN <= g.base[t] && t in g.held)
    && (forall t, i :: t in g.held && 0 <= i < |g.held[t]| ==> g.held[t][i] in g.waiters)
    && (forall s, i :: s in g.waiters && 0 <= i < |g.waiters[s]| ==> g.waiters[s][i] in g.base)
  }

  /** u waits for a semaphore t holds. */
  ghost predicate Donates(g: Graph, u: nat, t: nat) {
    t in g.held && exists i :: 0 <= i < |g.held[t]| && g.held[t][i] in g.waiters && u in g.waiters[g.held[t][i]]
  }

  /** Each thread on the path donates to the one before it. */
  ghost predicate IsPath(g: Graph, p: seq<nat>) {
    && p != []
    && (forall i :: 0 <= i < |p| ==> p[i] in g.base)
    && (forall i :: 0 < i < |p| ==> Donates(g, p[i], p[i - 1]))
  }

  /** u is t, or donates to it through some chain. */
  ghost predicate Reaches(g: Graph, t: nat, u: nat) {
    exists p :: IsPath(g, p) && p[0] == t && p[|p| - 1] == u
  }

  /** Nobody waits, through any chain, for a semaphore only it can release. */
  ghost predicate Acyclic(g: Graph) {
    forall p :: IsPath(g, p) && |p| > 1 ==> p[0] != p[|p| - 1]
  }

  ghost function Chain(g: Graph, t: nat): set<nat> {
    set u | u in g.base && Reaches(g, t, u)
  }

  /** p is the highest base priority among t and all who donate to it through any chain. */
  ghost predicate IsEffective(g: Graph, t: nat, p: int) {
    && (exists u :: u in Chain(g, t) && g.base[u] == p)
    && (forall u :: u in Chain(g, t) ==> g.base[u] <= p)
  }

  lemma EffectiveUnique(g: Graph, t: nat, p: int, q: int)
    requires IsEffective(g, t, p) && IsEffective(g, t, q)
    ensures p == q
  {
  }

  lemma ReachesSelf(g: Graph, t: nat)
    requires t in g.base
    ensures t in Chain(g, t)
  {
    assert IsPath(g, [t]);
  }

  /** A chain behind a donor is a chain behind the one it donates to. */
  lemma ReachesThrough(g: Graph, t: nat, u: nat, v: nat)
    requires t in g.base && Donates(g, u, t) && v in Chain(g, u)
    ensures v in Chain(g, t)
  {
    var p :| IsPath(g, p) && p[0] == u && p[|p| - 1] == v;
    var q := [t] + p;
    assert forall i :: 0 < i < |q| ==> Donates(g, q[i], q[i - 1]);
    assert IsPath(g, q) && q[|q| - 1] == v;
  }

  /** Everyone in a chain is its head or in the chain behind a direct donor. */
  lemma ReachesSplit(g: Graph, t: nat, v: nat)
    requires v in Chain(g, t) && v != t
    ensures exists u :: u in g.base && Donates(g, u, t) && v in Chain(g, u)
  {
    var p :| IsPath(g, p) && p[0] == t && p[|p| - 1] == v;
    var q := p[1..];
    assert Donates(g, p[1], p[0]);
    assert forall i :: 0 < i < |q| ==> q[i] == p[i + 1] && q[i - 1] == p[i];
    assert IsPath(g, q);
    assert q[|q| - 1] == v;
    assert v in Chain(g, q[0]);
  }

  lemma ClosesCycle(g: Graph, t: nat, u: nat)
    requires t in g.base && Donates(g, u, t) && t in Chain(g, u)
    ensures !Acyclic(g)
  {
    var p :| IsPath(g, p) && p[0] == u && p[|p| - 1] == t;
    var q := [t] + p;
    assert forall i :: 0 < i < |q| ==> Donates(g, q[i], q[i - 1]);
    assert IsPath(g, q);
    assert q[0] == q[|q| - 1];
  }

  /** Following donors shrinks the chain: this is why Priority terminates. */
  lemma ChainShrinks(g: Graph, t: nat, u: nat)
    requires Acyclic(g) && t in g.base && u in g.base && Donates(g, u, t)
    ensures |Chain(g, u)| < |Chain(g, t)|
  {
    forall v | v in Chain(g, u) ensures v in Chain(g, t) {
      ReachesThrough(g, t, u, v);
    }
    ReachesSelf(g, t);
    if t in Chain(g, u) {
      ClosesCycle(g, t, u);
    }
    SubsetSize(Chain(g, u), Chain(g, t), t);
  }

  lemma SubsetSize(a: set<nat>, b: set<nat>, x: nat)
    requires a <= b && x in b && x !in a
    ensures |a| < |b|
  {
    assert a + {x} <= b;
    Cardinality(a + {x}, b);
  }

  lemma Cardinality(a: set<nat>, b: set<nat>)
    requires a <= b
    ensures |a| <= |b|
  {
    if a != {} {
      var x :| x in a;
      Cardinality(a - {x}, b - {x});
    }
  }

  lemma HighestExists(g: Graph, s: set<nat>)
    requires s != {} && forall u :: u in s ==> u in g.base
    ensures exists v :: v in s && forall u :: u in s ==> g.base[u] <= g.base[v]
  {
    var x :| x in s;
    if s != {x} {
      var rest := s - {x};
      HighestExists(g, rest);
      var v :| v in rest && forall u :: u in rest ==> g.base[u] <= g.base[v];
      var w := if g.base[v] < g.base[x] then x else v;
      assert forall u :: u in s ==> u == x || u in rest;
      assert w in s && forall u :: u in s ==> g.base[u] <= g.base[w];
    }
  }

  /** The priority a thread runs at. */
  ghost function Pri(g: Graph, t: nat): (p: int)
    requires t in g.base
  {
    if g.mlfqs then g.base[t] else
    ReachesSelf(g, t);
    HighestExists(g, Chain(g, t));
    var v :| v in Chain(g, t) && forall u :: u in Chain(g, t) ==> g.base[u] <= g.base[v];
    g.base[v]
  }

  /** Without mlfqs that is the highest base priority of the chain; with mlfqs it is its own. */
  lemma PriIsEffective(g: Graph, t: nat)
    requires t in g.base
    ensures if g.mlfqs then Pri(g, t) == g.base[t] else IsEffective(g, t, Pri(g, t))
  {
    if !g.mlfqs {
      ReachesSelf(g, t);
      HighestExists(g, Chain(g, t));
      var p := Pri(g, t);
      assert exists v :: v in Chain(g, t) && g.base[v] == p && forall u :: u in Chain(g, t) ==> g.base[u] <= g.base[v];
    }
  }

  lemma PriInRange(g: Graph, t: nat)
    requires Wf(g) && t in g.base
    ensures PRI_MIN <= Pri(g, t)
  {
    hide Reaches, Pri;
    PriIsEffective(g, t);
  }

  /** A thread's priority is its own base priority or that of a direct donor, whichever is highest. */
  lemma PriFromDonors(g: Graph, t: nat, p: int)
    requires !g.mlfqs && t in g.base && g.base[t] <= p
    requires p == g.base[t] || exists u :: u in g.base && Donates(g, u, t) && Pri(g, u) == p
    requires forall u :: u in g.base && Donates(g, u, t) ==> Pri(g, u) <= p
    ensures Pri(g, t) == p
  {
    hide Pri;
    ReachesSelf(g, t);
    PriIsEffective(g, t);
    assert IsEffective(g, t, p) by {
      if p != g.base[t] {
        var u :| u in g.base && Donates(g, u, t) && Pri(g, u) == p;
        PriIsEffective(g, u);
        var v :| v in Chain(g, u) && g.base[v] == p;
        ReachesThrough(g, t, u, v);
      }
      forall v | v in Chain(g, t) ensures g.base[v] <= p {
        if v != t {
          ReachesSplit(g, t, v);
          var u :| u in g.base && Donates(g, u, t) && v in Chain(g, u);
          PriIsEffective(g, u);
        }
      }
    }
    EffectiveUnique(g, t, p, Pri(g, t));
  }

  /** Every thread on l has a chain smaller than n: the recursion may go there. */
  ghost predicate Below(g: Graph, l: seq<nat>, n: nat) {
    forall i :: 0 <= i < |l| ==> l[i] in g.base && |Chain(g, l[i])| < n
  }

  ghost predicate Known(g: Graph, l: seq<nat>) {
    forall i :: 0 <= i < |l| ==> l[i] in g.base
  }

  /** k is the last of the threads on l with the highest priority. */
  ghost predicate IsBack(g: Graph, l: seq<nat>, k: nat)
    requires Known(g, l)
  {
    && k < |l|
    && (forall i :: 0 <= i < |l| ==> Pri(g, l[i]) <= Pri(g, l[k]))
    && (forall i :: k < i < |l| ==> Pri(g, l[i]) < Pri(g, l[k]))
  }

  /** Priority. */
  method Priority(g: Graph, t: nat) returns (p: int)
    requires Wf(g) && Acyclic(g) && t in g.base
    ensures p == Pri(g, t)
    decreases |Chain(g, t)|, 3
  {
    p := g.base[t];
    if g.mlfqs {
      return;
    }
    hide Acyclic, Pri, IsEffective;
    var semas := g.held[t];
    ghost var n := |Chain(g, t)|;
    var i := 0;
    while i < |semas|
      invariant i <= |semas| && g.base[t] <= p
      invariant p == g.base[t] || exists u :: u in g.base && Donates(g, u, t) && Pri(g, u) == p
      invariant forall k, u :: 0 <= k < i && u in g.waiters[semas[k]] ==> u in g.base && Pri(g, u) <= p
    {
      WaitersBelow(g, t, i);
      var donated := DonatedPriority(g, semas[i], n);
      WaitersDonate(g, t, i);
      if p < donated {
        p := donated;
        assert g.waiters[semas[i]] != [] by {
          BaseInRange(g, t);
        }
      }
      i := i + 1;
    }
    forall u | u in g.base && Donates(g, u, t) ensures Pri(g, u) <= p {
      var k :| 0 <= k < |g.held[t]| && g.held[t][k] in g.waiters && u in g.waiters[g.held[t][k]];
    }
    PriFromDonors(g, t, p);
  }

  lemma BaseInRange(g: Graph, t: nat)
    requires Wf(g) && t in g.base
    ensures PRI_MIN <= g.base[t]
  {
  }

  lemma WaitersDonate(g: Graph, t: nat, i: nat)
    requires Wf(g) && t in g.base && i < |g.held[t]|
    ensures forall u :: u in g.waiters[g.held[t][i]] ==> u in g.base && Donates(g, u, t)
  {
  }

  lemma WaitersBelow(g: Graph, t: nat, i: nat)
    requires Wf(g) && Acyclic(g) && t in g.base && i < |g.held[t]|
    ensures Below(g, g.waiters[g.held[t][i]], |Chain(g, t)|)
  {
    var l := g.waiters[g.held[t][i]];
    WaitersDonate(g, t, i);
    forall k | 0 <= k < |l| ensures l[k] in g.base && |Chain(g, l[k])| < |Chain(g, t)| {
      assert l[k] in l;
      ChainShrinks(g, t, l[k]);
    }
  }

  /** DonatedPriority: what the waiters of a semaphore give its holder. */
  method DonatedPriority(g: Graph, s: nat, ghost n: nat) returns (p: int)
    requires Wf(g) && Acyclic(g) && s in g.waiters && !g.mlfqs && Below(g, g.waiters[s], n)
    ensures g.waiters[s] == [] ==> p == PRI_MIN
    ensures g.waiters[s] != [] ==> exists u :: u in g.waiters[s] && u in g.base && Pri(g, u) == p
    ensures forall u :: u in g.waiters[s] ==> u in g.base && Pri(g, u) <= p
    decreases n, 2
  {
    hide Acyclic, Pri, Wf;
    var l := g.waiters[s];
    if l == [] {
      return PRI_MIN;
    }
    var k := PriorityBack(g, l, n);
    p := Priority(g, l[k]);
    assert l[k] in l;
  }

  /** PriorityBack on a nonempty list: scans for the highest priority, later ones winning ties. */
  method PriorityBack(g: Graph, l: seq<nat>, ghost n: nat) returns (k: nat)
    requires Wf(g) && Acyclic(g) && l != [] && Below(g, l, n)
    ensures Known(g, l) && IsBack(g, l, k)
    decreases n, 1
  {
    hide Acyclic, Pri, Wf;
    var maxPriority := PRI_MIN;
    k := 0;
    var i := 0;
    while i < |l|
      invariant i <= |l| && k < |l|
      invariant i == 0 ==> maxPriority == PRI_MIN
      invariant i > 0 ==> k < i && maxPriority == Pri(g, l[k])
      invariant forall j :: 0 <= j < i ==> Pri(g, l[j]) <= maxPriority
      invariant forall j :: k < j < i ==> Pri(g, l[j]) < maxPriority
    {
      var p := Priority(g, l[i]);
      PriInRange(g, l[i]);
      if maxPriority <= p {
        maxPriority, k := p, i;
      }
      i := i + 1;
    }
  }

  ghost function ChainBound(g: Graph, l: seq<nat>): (n: nat)
    requires Known(g, l)
    ensures Below(g, l, n)
  {
    if l == [] then 0 else
    var n := ChainBound(g, l[1..]);
    var c := |Chain(g, l[0])| + 1;
    assert forall i :: 0 < i < |l| ==> l[i] == l[1..][i - 1];
    if n < c then c else n
  }

  /** PriorityPop on a nonempty list: whatever order the list is in, it takes out a thread of highest
      priority, and among those the one nearest the back. */
  method PriorityPop(g: Graph, l: seq<nat>) returns (t: nat, rest: seq<nat>, ghost k: nat)
    requires Wf(g) && Acyclic(g) && l != [] && Known(g, l)
    ensures t in l && t in g.base && (forall u :: u in l ==> u in g.base && Pri(g, u) <= Pri(g, t))
    ensures multiset(l) == multiset(rest) + multiset{t}
    ensures IsBack(g, l, k) && t == l[k] && rest == l[..k] + l[k + 1..]
  {
    hide Acyclic, Pri, Wf;
    var j := PriorityBack(g, l, ChainBound(g, l));
    k := j;
    t, rest := l[j], l[..j] + l[j + 1..];
    TakenOut(l, j);
  }

  lemma TakenOut(l: seq<nat>, j: nat)
    requires j < |l|
    ensures multiset(l) == multiset(l[..j] + l[j + 1..]) + multiset{l[j]}
  {
    assert l == l[..j] + [l[j]] + l[j + 1..];
  }

  /** PriorityPush: list_insert_ordered with PriorityCompare, which is <=, so a thread goes in front of
      the ones it ties with. */
  method PriorityPush(g: Graph, l: seq<nat>, t: nat) returns (l': seq<nat>, ghost k: nat)
    requires Wf(g) && Acyclic(g) && t in g.base && Known(g, l)
    ensures multiset(l') == multiset(l) + multiset{t}
    ensures k <= |l| && l' == l[..k] + [t] + l[k..]
    ensures forall i :: 0 <= i < k ==> Pri(g, l[i]) < Pri(g, t)
    ensures k < |l| ==> Pri(g, t) <= Pri(g, l[k])
  {
    hide Acyclic, Pri, Wf;
    var i := 0;
    while i < |l|
      invariant i <= |l|
      invariant forall j :: 0 <= j < i ==> Pri(g, l[j]) < Pri(g, t)
    {
      var pt := Priority(g, t);
      var pe := Priority(g, l[i]);
      if pt <= pe {
        break;
      }
      i := i + 1;
    }
    k := i;
    l' := l[..i] + [t] + l[i..];
    assert l == l[..i] + l[i..];
  }

  // With priorities that stay put, pushing and popping serves equals in the order they came.

  /** x stands in front of y: lower priority, or the same and younger. */
  ghost predicate InFront(g: Graph, arrived: map<nat, nat>, x: nat, y: nat) {
    && x in g.base && y in g.base && x in arrived && y in arrived
    && (Pri(g, x) < Pri(g, y) || (Pri(g, x) == Pri(g, y) && arrived[y] < arrived[x]))
  }

  /** Along l priorities never fall, and equals stand youngest first (arrived gives arrival times). */
  ghost predicate Queue(g: Graph, arrived: map<nat, nat>, l: seq<nat>) {
    && (forall i :: 0 <= i < |l| ==> l[i] in g.base && l[i] in arrived)
    && (forall i, j :: 0 <= i < j < |l| ==> InFront(g, arrived, l[i], l[j]))
  }

  /** A push at the place PriorityPush finds keeps the queue in order. */
  lemma PushKeepsQueue(g: Graph, arrived: map<nat, nat>, l: seq<nat>, t: nat, k: nat)
    requires t in g.base && Known(g, l) && Queue(g, arrived, l) && t in arrived && k <= |l|
    requires forall i :: 0 <= i < |l| ==> arrived[l[i]] < arrived[t]
    requires forall i :: 0 <= i < k ==> Pri(g, l[i]) < Pri(g, t)
    requires k < |l| ==> Pri(g, t) <= Pri(g, l[k])
    ensures Queue(g, arrived, l[..k] + [t] + l[k..])
  {
    hide Pri;
    forall i | 0 <= i < |l| ensures if i < k then InFront(g, arrived, l[i], t) else InFront(g, arrived, t, l[i]) {
      if k < i {
        assert InFront(g, arrived, l[k], l[i]);
      }
    }
    hide InFront;
    var m := l[..k] + [t] + l[k..];
    forall i, j | 0 <= i < j < |m| ensures InFront(g, arrived, m[i], m[j]) {
      assert m[i] == if i < k then l[i] else if i == k then t else l[i - 1];
      assert m[j] == if j < k then l[j] else if j == k then t else l[j - 1];
    }
  }

  /** What PriorityPop takes from such a queue is the oldest of the most urgent threads. */
  lemma PopIsOldestUrgent(g: Graph, arrived: map<nat, nat>, l: seq<nat>, k: nat)
    requires Known(g, l) && Queue(g, arrived, l) && IsBack(g, l, k)
    ensures forall i :: 0 <= i < |l| && i != k ==>
              Pri(g, l[i]) < Pri(g, l[k]) || (Pri(g, l[i]) == Pri(g, l[k]) && arrived[l[k]] < arrived[l[i]])
    ensures Queue(g, arrived, l[..k] + l[k + 1..])
  {
    hide Pri;
    assert k < |l| - 1 ==> InFront(g, arrived, l[k], l[|l| - 1]);
    assert k == |l| - 1;
    assert l[..k] + l[k + 1..] == l[..k];
  }
}
