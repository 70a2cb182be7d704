/** What holds over every interleaving of the synchronisation primitives: mutual exclusion, no lost
    wakeup, and the promises of condition variables. */
module SynchRuns {
  import opened Synch

  // ---------- Runs ----------

  /** A run: each event is allowed in the state the earlier ones lead to. */
  ghost predicate IsRun(st: State, es: seq<Event>)
    requires Inv(st)
    decreases |es|
  {
    es == [] || (Enabled(st, es[0]) && (StepKeepsInv(st, es[0]); IsRun(Step(st, es[0]), es[1..])))
  }

  ghost function Final(st: State, es: seq<Event>): (r: State)
    requires Inv(st) && IsRun(st, es)
    ensures Inv(r)
    decreases |es|
  {
    if es == [] then st else StepKeepsInv(st, es[0]); Final(Step(st, es[0]), es[1..])
  }

  /** A system at rest: threads outside every primitive or not there yet, nobody waiting, locks free. */
  predicate AtRest(st: State) {
    && Named(st)
    && (forall t :: t in st.pc ==> st.pc[t].Run? || st.pc[t].Gone?)
    && (forall x :: x in st.sema ==> st.sema[x].waiters == [] && (x.LockSema? ==> st.sema[x].value == 1))
    && (forall l :: l in st.holder ==> st.holder[l].None?)
    && (forall c :: c in st.cond ==> st.cond[c] == [])
  }

  lemma NobodyAnywhere(pc: map<nat, Pc>, k: Kind, x: SemaId)
    requires forall t :: t in pc ==> pc[t].Run? || pc[t].Gone?
    ensures Num(pc, k, x) == 0
  {
    assert Those(pc, k, x) == {};
  }

  lemma RestIsInv(st: State)
    requires AtRest(st)
    ensures Inv(st)
  {
    forall k, x ensures Num(st.pc, k, x) == 0 { NobodyAnywhere(st.pc, k, x); }
  }

  // ---------- Locks: mutual exclusion ----------

  /** The threads between a successful sema_down on the lock and the sema_up that gives it back. */
  ghost function Inside(st: State, l: nat): set<nat> {
    set t | t in st.pc && (Holds(st, t, l) || At(st.pc[t], TakingAt, LockSema(l)) || At(st.pc[t], RaisingAt, LockSema(l)))
  }

  lemma InsideParts(st: State, l: nat)
    requires Inv(st) && l in st.holder
    ensures Inside(st, l) == Those(st.pc, TakingAt, LockSema(l)) + Those(st.pc, RaisingAt, LockSema(l))
                             + (if st.holder[l].Some? then {st.holder[l].value} else {})
    ensures Those(st.pc, TakingAt, LockSema(l)) !! Those(st.pc, RaisingAt, LockSema(l))
  {
    hide Queues, Wakeups, Locks, Conds, PcShape;
  }

  lemma MutualExclusion(st: State, l: nat)
    requires Inv(st) && l in st.holder
    ensures |Inside(st, l)| + st.sema[LockSema(l)].value == 1
    ensures forall t: nat :: Holds(st, t, l) ==> Inside(st, l) == {t}
  {
    var taking, raising := Those(st.pc, TakingAt, LockSema(l)), Those(st.pc, RaisingAt, LockSema(l));
    InsideParts(st, l);
    assert LockBalance(st, l);
    assert |taking + raising| == |taking| + |raising|;
    assert st.holder[l].Some? ==> taking == {} && raising == {};
    assert st.holder[l].None? ==> Inside(st, l) == taking + raising;
  }

  /** Over every run from a system at rest: the threads inside a lock number one minus its value, and
      a semaphore with sleepers never has a unit that no woken thread is coming for. */
  lemma SafeOverRuns(st: State, es: seq<Event>)
    requires AtRest(st) && Inv(st) && IsRun(st, es)
    ensures forall l :: l in Final(st, es).holder ==>
              |Inside(Final(st, es), l)| + Final(st, es).sema[LockSema(l)].value == 1
    ensures forall x :: x in Final(st, es).sema && Final(st, es).sema[x].waiters != [] ==>
              Final(st, es).sema[x].value <= |set t | t in Final(st, es).pc && At(Final(st, es).pc[t], WokenAt, x)|
  {
    var b := Final(st, es);
    hide PcShape, Queues, Locks, Conds, Final, IsRun, AtRest;
    forall l | l in b.holder ensures |Inside(b, l)| + b.sema[LockSema(l)].value == 1 {
      MutualExclusion(b, l);
    }
    forall x | x in b.sema && b.sema[x].waiters != []
      ensures b.sema[x].value <= |set t | t in b.pc && At(b.pc[t], WokenAt, x)|
    {
      assert Promised(b, x);
      assert Those(b.pc, WokenAt, x) == set t | t in b.pc && At(b.pc[t], WokenAt, x);
    }
  }

  lemma SomeoneWoken(st: State, x: SemaId) returns (t: nat)
    requires Wakeups(st) && x in st.sema && st.sema[x].waiters != [] && st.sema[x].value > 0
    ensures t in st.pc && st.pc[t].Woken? && st.pc[t].sema == x
  {
    assert Promised(st, x);
    t :| t in Those(st.pc, WokenAt, x);
  }

  /** So a positive semaphore with sleepers has a woken thread whose next step takes a unit. */
  lemma WakeupGetsThrough(st: State, x: SemaId) returns (t: nat)
    requires Inv(st) && x in st.sema && st.sema[x].waiters != [] && st.sema[x].value > 0
    ensures t in st.pc && st.pc[t].Woken? && st.pc[t].sema == x && Enabled(st, By(t, Advance))
    ensures Step(st, By(t, Advance)).sema[x].value == st.sema[x].value - 1
  {
    hide Queues, Locks, Conds, Wakeups;
    t := SomeoneWoken(st, x);
    hide PcShape;
    assert Step(st, By(t, Advance)) == Test(st, t, x, st.pc[t].goal);
  }

  // ---------- Condition variables ----------

  lemma ThreadFacts(st: State, t: nat)
    requires Inv(st) && t in st.pc
    ensures Shape(st) && Named(st) && Queues(st) && PcShape(st, t, st.pc[t]) && HoldsAsNeeded(st, t, st.pc[t])
    ensures WaiterSema(t) in st.sema && SignalBalance(st, t)
    ensures Promised(st, WaiterSema(t)) && QueueOf(st, WaiterSema(t))
  {
  }

  /** The thread an event belongs to. */
  predicate ActsAs(e: Event, t: nat) {
    e.By? && e.thread == t
  }

  lemma OthersRaised(st: State, t: nat, x: SemaId, a: After, u: nat)
    requires x in st.sema && (st.sema[x].waiters != [] ==> Unblocks(st, x, st.sema[x].waiters[0])) && u in st.pc && u != t
    ensures u in Raised(st, t, x, a).pc
    ensures Raised(st, t, x, a).pc[u] == st.pc[u] || JustWoken(st.pc[u], Raised(st, t, x, a).pc[u])
  {
  }

  lemma OthersContinue(st: State, t: nat, u: nat)
    requires Inv(st) && t in st.pc && Midway(st.pc[t]) && u in st.pc && u != t
    ensures u in Continue(st, t).pc
    ensures Continue(st, t).pc[u] == st.pc[u] || JustWoken(st.pc[u], Continue(st, t).pc[u])
  {
    hide Wakeups, Locks, Conds, Raised;
    assert PcShape(st, t, st.pc[t]);
    if st.pc[t].Up? {
      var x := st.pc[t].sema;
      if st.sema[x].waiters != [] { UnblocksFirst(st, x); }
      OthersRaised(st, t, x, st.pc[t].after, u);
    }
  }

  lemma OthersCall(st: State, t: nat, a: Action, u: nat)
    requires Named(st) && Enabled(st, By(t, a)) && u in st.pc && u != t
    ensures a.StartDown? || a.TryDown? || a.StartUp? ==> u in SemaCall(st, t, a).pc && SemaCall(st, t, a).pc[u] == st.pc[u]
    ensures a.Acquire? || a.TryAcquire? || a.Release? ==> u in LockCall(st, t, a).pc && LockCall(st, t, a).pc[u] == st.pc[u]
    ensures a.Wait? || a.Signal? || a.Broadcast? ==> u in CondCall(st, t, a).pc && CondCall(st, t, a).pc[u] == st.pc[u]
    ensures a.Begin? || a.Exit? ==> u in LifeCall(st, t, a).pc && LifeCall(st, t, a).pc[u] == st.pc[u]
  {
  }

  /** A thread is moved only by its own steps, except that a sema_up may wake it. */
  lemma OthersMove(st: State, e: Event, u: nat)
    requires Inv(st) && Enabled(st, e) && u in st.pc && !ActsAs(e, u)
    ensures u in Step(st, e).pc
    ensures Step(st, e).pc[u] == st.pc[u] || JustWoken(st.pc[u], Step(st, e).pc[u])
  {
    hide PcShape, Wakeups, Locks, Conds, Continue, SemaCall, LockCall, CondCall, LifeCall;
    if e.By? {
      if e.action.Advance? { OthersContinue(st, e.thread, u); } else { OthersCall(st, e.thread, e.action, u); }
    } else if e.InterruptUp? && st.sema[User(e.n)].waiters != [] {
      UnblocksFirst(st, User(e.n));
    }
  }

  /** What one step does to a semaphore: nothing, a unit taken, a thread going to sleep at the back of
      the list because there is none, a unit added with the thread asleep longest woken, or the fresh
      start of a cond_wait. */
  predicate SemaStep(st: State, b: State, e: Event, x: SemaId)
    requires x in st.sema && x in b.sema
  {
    var m, n := st.sema[x], b.sema[x];
    || n == m
    || (m.value > 0 && n == Sema(m.value - 1, m.waiters))
    || (m.value == 0 && e.By? && n == Sema(0, m.waiters + [e.thread]) && BlockedOn(b.pc, e.thread, x))
    || (m.waiters == [] && n == Sema(m.value + 1, []))
    || (m.waiters != [] && n == Sema(m.value + 1, m.waiters[1..])
        && BlockedOn(st.pc, m.waiters[0], x) && m.waiters[0] in b.pc && b.pc[m.waiters[0]] == Woken(x, st.pc[m.waiters[0]].goal))
    || (e.By? && e.action.Wait? && x == WaiterSema(e.thread) && n == Sema(0, []))
  }

  lemma RaisedSema(st: State, t: nat, x: SemaId, a: After, y: SemaId)
    requires x in st.sema && t in st.pc && st.pc[t] == Up(x, a) && y in st.sema
    requires st.sema[x].waiters != [] ==> Unblocks(st, x, st.sema[x].waiters[0])
    ensures y in Raised(st, t, x, a).sema && SemaStep(st, Raised(st, t, x, a), By(t, Advance), y)
  {
  }

  lemma InterruptSema(st: State, n: nat, y: SemaId)
    requires User(n) in st.sema && y in st.sema
    requires st.sema[User(n)].waiters != [] ==> Unblocks(st, User(n), st.sema[User(n)].waiters[0])
    ensures y in SemaUp(st, User(n)).sema && SemaStep(st, SemaUp(st, User(n)), InterruptUp(n), y)
  {
  }

  lemma TestSema(st: State, t: nat, x: SemaId, g: Goal, y: SemaId)
    requires x in st.sema && t in st.pc && y in st.sema && (g.ForWait? ==> g.cond in st.lockOf)
    ensures y in Test(st, t, x, g).sema && SemaStep(st, Test(st, t, x, g), By(t, Advance), y)
  {
  }

  lemma ContinueSema(st: State, t: nat, y: SemaId)
    requires Inv(st) && t in st.pc && Midway(st.pc[t]) && y in st.sema
    ensures y in Continue(st, t).sema && SemaStep(st, Continue(st, t), By(t, Advance), y)
  {
    hide Inv, Shape, Queues, Test, Raised, SemaStep;
    ThreadFacts(st, t);
    var p := st.pc[t];
    if p.Down? || p.Woken? {
      TestSema(st, t, p.sema, p.goal, y);
    } else if p.Up? {
      if st.sema[p.sema].waiters != [] { UnblocksFirst(st, p.sema); }
      RaisedSema(st, t, p.sema, p.after, y);
    } else {
      SemaStays(st, Continue(st, t), By(t, Advance), y);
    }
  }

  lemma SemaStays(st: State, b: State, e: Event, y: SemaId)
    requires y in st.sema && b.sema == st.sema
    ensures SemaStep(st, b, e, y)
  {
  }

  lemma CallSema(st: State, t: nat, a: Action, y: SemaId)
    requires Named(st) && Enabled(st, By(t, a)) && y in st.sema
    ensures a.StartDown? || a.TryDown? || a.StartUp? ==>
              y in SemaCall(st, t, a).sema && SemaStep(st, SemaCall(st, t, a), By(t, a), y)
    ensures a.Acquire? || a.TryAcquire? || a.Release? ==>
              y in LockCall(st, t, a).sema && SemaStep(st, LockCall(st, t, a), By(t, a), y)
    ensures a.Wait? || a.Signal? || a.Broadcast? ==>
              y in CondCall(st, t, a).sema && SemaStep(st, CondCall(st, t, a), By(t, a), y)
    ensures a.Begin? || a.Exit? ==> y in LifeCall(st, t, a).sema && SemaStep(st, LifeCall(st, t, a), By(t, a), y)
  {
  }

  /** So sleepers are woken in the order they went to sleep, one for each unit added. */
  lemma SemasStep(st: State, e: Event, y: SemaId)
    requires Inv(st) && Enabled(st, e) && y in st.sema
    ensures y in Step(st, e).sema && SemaStep(st, Step(st, e), e, y)
  {
    hide Wakeups, Locks, Conds, Queues, PcShape, Continue, SemaCall, LockCall, CondCall, LifeCall, SemaUp;
    if e.By? {
      hide SemaStep;
      if e.action.Advance? { ContinueSema(st, e.thread, y); } else { CallSema(st, e.thread, e.action, y); }
    } else if e.InterruptUp? {
      hide SemaStep;
      if st.sema[User(e.n)].waiters != [] { UnblocksFirst(st, User(e.n)); }
      InterruptSema(st, e.n, y);
    }
  }

  /** What one step does to the queue of a condition variable: cond_wait joins at the back, a signal
      or a turn of cond_broadcast takes the first and goes on to wake it, nothing else touches it. */
  predicate QueueStep(st: State, b: State, e: Event, c: nat)
    requires c in st.cond && c in b.cond
  {
    || b.cond[c] == st.cond[c]
    || (e.By? && e.action == Wait(c) && b.cond[c] == st.cond[c] + [e.thread])
    || (&& e.By? && e.thread in st.pc && e.thread in b.pc
        && (e.action == Signal(c) || (e.action == Advance && st.pc[e.thread] == Broadcasting(c)))
        && st.cond[c] != [] && b.cond[c] == st.cond[c][1..]
        && b.pc[e.thread].Up? && b.pc[e.thread].sema == WaiterSema(st.cond[c][0]))
  }

  lemma TestCondSame(st: State, t: nat, x: SemaId, g: Goal)
    requires x in st.sema && (g.ForWait? ==> g.cond in st.lockOf)
    ensures Test(st, t, x, g).cond == st.cond
  {
  }

  lemma RaisedCondSame(st: State, t: nat, x: SemaId, a: After)
    requires x in st.sema && (st.sema[x].waiters != [] ==> Unblocks(st, x, st.sema[x].waiters[0]))
    ensures Raised(st, t, x, a).cond == st.cond
  {
  }

  lemma ContinueQueue(st: State, t: nat, c: nat)
    requires Inv(st) && t in st.pc && Midway(st.pc[t]) && c in st.cond
    ensures c in Continue(st, t).cond && QueueStep(st, Continue(st, t), By(t, Advance), c)
  {
    hide Wakeups, Locks, Conds, Queues, Test, Raised;
    assert PcShape(st, t, st.pc[t]);
    match st.pc[t]
    case Down(x, g) => TestCondSame(st, t, x, g);
    case Woken(x, g) => TestCondSame(st, t, x, g);
    case Up(x, a) =>
      if st.sema[x].waiters != [] { UnblocksFirst(st, x); }
      RaisedCondSame(st, t, x, a);
    case _ =>
  }

  lemma CallQueue(st: State, t: nat, a: Action, c: nat)
    requires Named(st) && Enabled(st, By(t, a)) && c in st.cond
    ensures a.StartDown? || a.TryDown? || a.StartUp? ==> SemaCall(st, t, a).cond == st.cond
    ensures a.Acquire? || a.TryAcquire? || a.Release? ==> LockCall(st, t, a).cond == st.cond
    ensures a.Wait? || a.Signal? || a.Broadcast? ==>
              c in CondCall(st, t, a).cond && QueueStep(st, CondCall(st, t, a), By(t, a), c)
    ensures a.Begin? || a.Exit? ==> LifeCall(st, t, a).cond == st.cond
  {
  }

  lemma QueuesStep(st: State, e: Event, c: nat)
    requires Inv(st) && Enabled(st, e) && c in st.cond
    ensures c in Step(st, e).cond && QueueStep(st, Step(st, e), e, c)
  {
    hide Wakeups, Locks, Conds, Queues, PcShape, Continue, SemaCall, LockCall, CondCall, LifeCall;
    if e.By? {
      if e.action.Advance? { ContinueQueue(st, e.thread, c); } else { CallQueue(st, e.thread, e.action, c); }
    } else if e.InterruptUp? && st.sema[User(e.n)].waiters != [] {
      UnblocksFirst(st, User(e.n));
    }
  }

  /** A waiting thread that a signal has taken off its queue. */
  predicate Released(st: State, t: nat) {
    t in st.pc && WaitingFor(st.pc[t]).Some?
    && WaitingFor(st.pc[t]).value in st.cond && t !in st.cond[WaitingFor(st.pc[t]).value]
  }

  /** cond_signal on a queue with waiters releases the oldest of them and no other thread. */
  lemma SignalReleasesOldest(st: State, t: nat, c: nat, u: nat)
    requires Inv(st) && Enabled(st, By(t, Signal(c))) && st.cond[c] != []
    ensures Released(Step(st, By(t, Signal(c))), u) <==> Released(st, u) || u == st.cond[c][0]
  {
    hide Wakeups, Locks, Queues, PcShape, SignalBalance;
    assert CondQueue(st, c);
    hide Conds;
    LeaveQueue(st.cond[c]);
    assert st.cond[c][0] in st.cond[c];
    assert Step(st, By(t, Signal(c))) == PopWaiter(st, t, c, Return);
  }

  /** How a waiting thread's own steps go: it stays a waiter of the same condition variable, or its
      sema_down succeeds, which takes a signal, and it goes on to reacquire the lock. */
  lemma WaiterContinues(st: State, t: nat, c: nat)
    requires Inv(st) && t in st.pc && !st.pc[t].Blocked? && WaitingFor(st.pc[t]) == Some(c)
    ensures t in Continue(st, t).pc && c in st.lockOf
    ensures || WaitingFor(Continue(st, t).pc[t]) == Some(c)
            || (Released(st, t) && Continue(st, t).pc[t] == Down(LockSema(st.lockOf[c]), ForLock(st.lockOf[c])))
  {
    hide Wakeups, Locks, Queues;
    assert PcShape(st, t, st.pc[t]);
    assert SignalBalance(st, t);
    hide Conds, Shape;
  }

  /** No waiter leaves unsignalled: it stays a waiter of the same condition variable until a step of
      its own that takes the signal that released it. */
  lemma WaiterStep(st: State, e: Event, t: nat, c: nat)
    requires Inv(st) && Enabled(st, e) && t in st.pc && WaitingFor(st.pc[t]) == Some(c)
    ensures t in Step(st, e).pc && c in st.lockOf
    ensures || WaitingFor(Step(st, e).pc[t]) == Some(c)
            || (ActsAs(e, t) && Released(st, t)
                && Step(st, e).pc[t] == Down(LockSema(st.lockOf[c]), ForLock(st.lockOf[c])))
  {
    hide Inv, Shape, Queues, Continue, SemaCall, LockCall, CondCall, LifeCall;
    ThreadFacts(st, t);
    if ActsAs(e, t) {
      assert e == By(t, Advance);
      WaiterContinues(st, t, c);
    } else {
      OthersMove(st, e, t);
    }
  }

  /** A signal is not lost, wherever between its lock_release and its sema_down the waiter is: a
      released waiter stays released until it leaves. */
  lemma ReleaseStays(st: State, e: Event, t: nat, c: nat)
    requires Inv(st) && Enabled(st, e) && Released(st, t) && WaitingFor(st.pc[t]) == Some(c)
    ensures t in Step(st, e).pc && (WaitingFor(Step(st, e).pc[t]) == Some(c) ==> Released(Step(st, e), t))
  {
    hide PcShape, Queues, Wakeups, Locks, Conds, Step;
    WaiterStep(st, e, t, c);
    QueuesStep(st, e, c);
  }

  /** What a released waiter can count on: its signal has arrived, and then it is not asleep, or one
      thread is about to deliver it. */
  lemma ReleasedIsServed(st: State, t: nat) returns (u: nat)
    requires Inv(st) && Released(st, t)
    ensures st.sema[WaiterSema(t)].value == 1 ==> !st.pc[t].Blocked?
    ensures st.sema[WaiterSema(t)].value != 1 ==>
              u in st.pc && st.pc[u].Up? && st.pc[u].sema == WaiterSema(t) && Enabled(st, By(u, Advance))
  {
    hide Inv, Shape, Queues, Promised, QueueOf;
    var x := WaiterSema(t);
    ThreadFacts(st, t);
    if st.sema[x].value == 1 {
      u := 0;
      ArrivedIsAwake(st, t);
    } else {
      assert Num(st.pc, RaisingAt, x) == 1;
      u :| u in Those(st.pc, RaisingAt, x);
    }
  }

  lemma ArrivedIsAwake(st: State, t: nat)
    requires Inv(st) && t in st.pc && WaiterSema(t) in st.sema && st.sema[WaiterSema(t)].value >= 1 && WaitingFor(st.pc[t]).Some?
    ensures !st.pc[t].Blocked?
  {
    var x := WaiterSema(t);
    hide Inv, Shape, Queues, HoldsAsNeeded, SignalBalance;
    ThreadFacts(st, t);
    forall w | w in Those(st.pc, WokenAt, x) ensures w == t {
      ThreadFacts(st, w);
    }
    hide PcShape;
    assert st.pc[t].Blocked? ==> Those(st.pc, WokenAt, x) == {};
  }

  /** A thread inside lock_acquire. */
  predicate Acquiring(p: Pc, l: nat) {
    || p == Down(LockSema(l), ForLock(l)) || p == Blocked(LockSema(l), ForLock(l)) || p == Woken(LockSema(l), ForLock(l))
    || p == TakeHolder(l)
  }

  lemma AcquiringContinues(st: State, t: nat, l: nat)
    requires Inv(st) && t in st.pc && !st.pc[t].Blocked? && Acquiring(st.pc[t], l)
    ensures t in Continue(st, t).pc
    ensures || Acquiring(Continue(st, t).pc[t], l)
            || (Continue(st, t).pc[t] == Run && Holds(Continue(st, t), t, l))
  {
    hide Inv, Shape, Queues;
    ThreadFacts(st, t);
  }

  /** lock_acquire returns only with the lock held. */
  lemma AcquiringStep(st: State, e: Event, t: nat, l: nat)
    requires Inv(st) && Enabled(st, e) && t in st.pc && Acquiring(st.pc[t], l)
    ensures t in Step(st, e).pc
    ensures Acquiring(Step(st, e).pc[t], l) || (Step(st, e).pc[t] == Run && Holds(Step(st, e), t, l))
  {
    hide Inv, Shape, Queues, Continue, SemaCall, LockCall, CondCall, LifeCall;
    ThreadFacts(st, t);
    if ActsAs(e, t) {
      assert e == By(t, Advance);
      AcquiringContinues(st, t, l);
    } else {
      OthersMove(st, e, t);
    }
  }

  /** The first time along a run that the thread is outside every primitive, it holds the lock and
      is on the queue of no condition variable. */
  ghost predicate BackHolding(st: State, es: seq<Event>, t: nat, l: nat)
    requires Inv(st) && IsRun(st, es)
    decreases |es|
  {
    if t in st.pc && st.pc[t].Run? then
      Holds(st, t, l) && forall c :: c in st.cond ==> t !in st.cond[c]
    else
      es == [] || (StepKeepsInv(st, es[0]); BackHolding(Step(st, es[0]), es[1..], t, l))
  }

  lemma RunningIsOnNoQueue(st: State, t: nat)
    requires Inv(st) && t in st.pc && st.pc[t].Run?
    ensures forall c :: c in st.cond ==> t !in st.cond[c]
  {
    hide PcShape, Queues, Wakeups, Locks, SignalBalance;
    forall c | c in st.cond ensures t !in st.cond[c] {
      assert CondQueue(st, c);
    }
  }

  lemma {:induction false} AcquireReturnsHolding(st: State, es: seq<Event>, t: nat, l: nat)
    requires Inv(st) && IsRun(st, es) && t in st.pc
    requires Acquiring(st.pc[t], l) || (st.pc[t].Run? && Holds(st, t, l))
    ensures BackHolding(st, es, t, l)
    decreases |es|
  {
    hide Inv, Shape, Queues, Step;
    if st.pc[t].Run? {
      RunningIsOnNoQueue(st, t);
    } else if es != [] {
      ThreadFacts(st, t);
      StepKeepsInv(st, es[0]);
      AcquiringStep(st, es[0], t, l);
      AcquireReturnsHolding(Step(st, es[0]), es[1..], t, l);
    }
  }

  lemma LockOfStays(st: State, e: Event)
    requires Inv(st) && Enabled(st, e)
    ensures Step(st, e).lockOf == st.lockOf
  {
    hide PcShape, Wakeups, Locks, Conds, Queues;
  }

  /** cond_wait, over every interleaving: it comes back holding the lock, with its stack element off
      the list. */
  lemma {:induction false} WaitReturnsHolding(st: State, es: seq<Event>, t: nat, c: nat)
    requires Inv(st) && IsRun(st, es) && t in st.pc && WaitingFor(st.pc[t]) == Some(c) && c in st.lockOf
    ensures BackHolding(st, es, t, st.lockOf[c])
    decreases |es|
  {
    hide Inv, Shape, Queues, Step;
    if es != [] {
      ThreadFacts(st, t);
      StepKeepsInv(st, es[0]);
      WaiterStep(st, es[0], t, c);
      LockOfStays(st, es[0]);
      var b := Step(st, es[0]);
      if WaitingFor(b.pc[t]) == Some(c) {
        WaitReturnsHolding(b, es[1..], t, c);
      } else {
        AcquireReturnsHolding(b, es[1..], t, st.lockOf[c]);
      }
    }
  }

  // ---------- cond_broadcast ----------

  predicate InBroadcast(p: Pc, c: nat) {
    p == Broadcasting(c) || (p.Up? && p.after == Again(c))
  }

  /** The steps a broadcasting thread has left, apart from the last. */
  function StepsLeft(st: State, t: nat, c: nat): nat
    requires t in st.pc && c in st.cond
  {
    2 * |st.cond[c]| + One(st.pc[t].Up?)
  }

  lemma BroadcastContinues(st: State, t: nat, c: nat)
    requires Inv(st) && t in st.pc && c in st.cond && InBroadcast(st.pc[t], c)
    ensures var b := Continue(st, t);
            && t in b.pc && c in b.cond
            && if StepsLeft(st, t, c) == 0 then b.pc[t].Run? && b.cond[c] == []
               else InBroadcast(b.pc[t], c) && StepsLeft(b, t, c) == StepsLeft(st, t, c) - 1
  {
    hide Inv, Shape, Queues;
    ThreadFacts(st, t);
    if st.pc[t].Up? {
      if st.sema[st.pc[t].sema].waiters != [] { UnblocksFirst(st, st.pc[t].sema); }
      RaisedCondSame(st, t, st.pc[t].sema, st.pc[t].after);
    }
  }

  /** Nobody else can join or leave the queue meanwhile, for want of the lock. */
  lemma BroadcastUndisturbed(st: State, e: Event, t: nat, c: nat)
    requires Inv(st) && Enabled(st, e) && t in st.pc && c in st.cond && InBroadcast(st.pc[t], c) && !ActsAs(e, t)
    ensures t in Step(st, e).pc && Step(st, e).pc[t] == st.pc[t]
    ensures c in Step(st, e).cond && Step(st, e).cond[c] == st.cond[c]
  {
    hide Inv, Shape, Queues, Step;
    ThreadFacts(st, t);
    OthersMove(st, e, t);
    QueuesStep(st, e, c);
    if e.By? { ThreadFacts(st, e.thread); }
  }

  function OwnSteps(es: seq<Event>, t: nat): nat {
    if es == [] then 0 else One(ActsAs(es[0], t)) + OwnSteps(es[1..], t)
  }

  /** Along the run the thread comes out of its primitive, and finds the queue empty when it does. */
  ghost predicate LeavesEmpty(st: State, es: seq<Event>, t: nat, c: nat)
    requires Inv(st) && IsRun(st, es)
    decreases |es|
  {
    if t in st.pc && st.pc[t].Run? then c in st.cond && st.cond[c] == []
    else es != [] && (StepKeepsInv(st, es[0]); LeavesEmpty(Step(st, es[0]), es[1..], t, c))
  }

  /** cond_broadcast ends, with everybody released, within two steps per waiter and one more, however
      the other threads' steps fall in between. */
  lemma {:induction false} BroadcastEnds(st: State, es: seq<Event>, t: nat, c: nat)
    requires Inv(st) && IsRun(st, es) && t in st.pc && c in st.cond && InBroadcast(st.pc[t], c)
    requires OwnSteps(es, t) > StepsLeft(st, t, c)
    ensures LeavesEmpty(st, es, t, c)
    decreases |es|
  {
    hide Inv, Shape, Queues, Step, InBroadcast;
    ThreadFacts(st, t);
    StepKeepsInv(st, es[0]);
    var b := Step(st, es[0]);
    assert !st.pc[t].Run? by { BroadcastIsInside(st.pc[t], c); }
    if ActsAs(es[0], t) {
      BroadcastOwnStep(st, es[0], t, c);
      if StepsLeft(st, t, c) > 0 { BroadcastEnds(b, es[1..], t, c); }
    } else {
      BroadcastUndisturbed(st, es[0], t, c);
      BroadcastEnds(b, es[1..], t, c);
    }
  }

  lemma BroadcastIsInside(p: Pc, c: nat)
    requires InBroadcast(p, c)
    ensures Midway(p)
  {
  }

  lemma BroadcastOwnStep(st: State, e: Event, t: nat, c: nat)
    requires Inv(st) && Enabled(st, e) && t in st.pc && c in st.cond && InBroadcast(st.pc[t], c) && ActsAs(e, t)
    ensures var b := Step(st, e);
            && t in b.pc && c in b.cond
            && if StepsLeft(st, t, c) == 0 then b.pc[t].Run? && b.cond[c] == []
               else InBroadcast(b.pc[t], c) && StepsLeft(b, t, c) == StepsLeft(st, t, c) - 1
  {
    hide Inv, Shape, Queues, Continue;
    ThreadFacts(st, t);
    assert e == By(t, Advance);
    BroadcastContinues(st, t, c);
  }
}
