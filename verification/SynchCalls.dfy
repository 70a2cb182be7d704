/** What each call of the synchronisation primitives does, from the call to its return and under every
    interleaving of other threads' steps, told by what others can see: the values and lists of
    semaphores, the holders of locks, the queues of condition variables. */
module SynchCalls {
  import opened Synch
  import opened SynchRuns

  /** Inside sema_down on x: a step of the thread's own that finds no unit puts it to sleep behind those
      already asleep; one that finds a unit takes it, and the thread goes on as g says.  Until then it
      has not returned. */
  ghost predicate Downs(st: State, es: seq<Event>, t: nat, x: SemaId, g: Goal)
    requires Inv(st) && IsRun(st, es)
    decreases |es|, 1
  {
    && t in st.pc && InPrimitive(st.pc[t]) && x in st.sema
    && (es == [] ||
        (StepKeepsInv(st, es[0]);
         var b := Step(st, es[0]);
         if !ActsAs(es[0], t) then Downs(b, es[1..], t, x, g)
         else
           && x in b.sema && t in b.pc
           && if st.sema[x].value == 0 then
                b.sema[x] == Sema(0, st.sema[x].waiters + [t]) && BlockedOn(b.pc, t, x) && Downs(b, es[1..], t, x, g)
              else
                b.sema[x] == Sema(st.sema[x].value - 1, st.sema[x].waiters) && GoesOn(b, es[1..], t, g)))
  }

  /** After the unit is taken: back, or on to become the holder, or on to reacquire the lock. */
  ghost predicate GoesOn(st: State, es: seq<Event>, t: nat, g: Goal)
    requires Inv(st) && IsRun(st, es)
    decreases |es|, 2
  {
    match g
    case Plain => t in st.pc && st.pc[t].Run?
    case ForLock(l) => TakesHold(st, es, t, l)
    case ForWait(c) => c in st.lockOf && Downs(st, es, t, LockSema(st.lockOf[c]), ForLock(st.lockOf[c]))
  }

  /** The next step of the thread's own makes it the holder, and it is back. */
  ghost predicate TakesHold(st: State, es: seq<Event>, t: nat, l: nat)
    requires Inv(st) && IsRun(st, es)
    decreases |es|, 0
  {
    && t in st.pc && InPrimitive(st.pc[t])
    && (es == [] ||
        (StepKeepsInv(st, es[0]);
         var b := Step(st, es[0]);
         if ActsAs(es[0], t) then t in b.pc && b.pc[t].Run? && Holds(b, t, l) else TakesHold(b, es[1..], t, l)))
  }

  /** Inside a primitive. */
  predicate InPrimitive(p: Pc) { !p.Run? && !p.Gone? }

  /** A unit is added to x, and the thread asleep there longest is woken. */
  predicate Added(st: State, b: State, x: SemaId) {
    && x in st.sema && x in b.sema && b.sema[x].value == st.sema[x].value + 1
    && if st.sema[x].waiters == [] then b.sema[x].waiters == []
       else
         var w := st.sema[x].waiters[0];
         b.sema[x].waiters == st.sema[x].waiters[1..] && BlockedOn(st.pc, w, x) && w in b.pc && Midway(b.pc[w])
  }

  /** The next step of the thread's own adds a unit to x, and it goes on as a says. */
  ghost predicate Ups(st: State, es: seq<Event>, t: nat, x: SemaId, a: After)
    requires Inv(st) && IsRun(st, es)
    decreases |es|, 0
  {
    && t in st.pc && InPrimitive(st.pc[t])
    && (es == [] ||
        (StepKeepsInv(st, es[0]);
         var b := Step(st, es[0]);
         if !ActsAs(es[0], t) then Ups(b, es[1..], t, x, a)
         else
           && Added(st, b, x) && t in b.pc
           && match a
              case Return => b.pc[t].Run?
              case Sleep(c) => Downs(b, es[1..], t, WaiterSema(t), ForWait(c))
              case Again(_) => InPrimitive(b.pc[t])))
  }

  /** The next step of the thread's own leaves the lock without a holder, the one after adds its unit. */
  ghost predicate LetsGo(st: State, es: seq<Event>, t: nat, l: nat, a: After)
    requires Inv(st) && IsRun(st, es)
    decreases |es|
  {
    && t in st.pc && InPrimitive(st.pc[t]) && Holds(st, t, l)
    && (es == [] ||
        (StepKeepsInv(st, es[0]);
         var b := Step(st, es[0]);
         if ActsAs(es[0], t) then l in b.holder && b.holder[l].None? && Ups(b, es[1..], t, LockSema(l), a)
         else LetsGo(b, es[1..], t, l, a)))
  }

  // ---------- From inside ----------

  lemma {:induction false} HoldTaken(st: State, es: seq<Event>, t: nat, l: nat)
    requires Inv(st) && IsRun(st, es) && t in st.pc && st.pc[t] == TakeHolder(l)
    ensures TakesHold(st, es, t, l)
    decreases |es|
  {
    hide Inv, Shape, Queues, Step;
    ThreadFacts(st, t);
    if es != [] {
      StepKeepsInv(st, es[0]);
      if ActsAs(es[0], t) {
        OwnStep(st, es[0], t);
        AcquiringContinues(st, t, l);
        HoldNow(st, t, l);
      } else {
        OthersMove(st, es[0], t);
        HoldTaken(Step(st, es[0]), es[1..], t, l);
      }
    }
  }

  lemma HoldNow(st: State, t: nat, l: nat)
    requires Shape(st) && Queues(st) && t in st.pc && st.pc[t] == TakeHolder(l) && l in st.holder
    ensures Continue(st, t).pc[t] == Run && Holds(Continue(st, t), t, l)
  {
    hide PcShape, Queues;
  }

  /** A step of a thread inside a primitive is its next one there. */
  lemma OwnStep(st: State, e: Event, t: nat)
    requires Inv(st) && Enabled(st, e) && ActsAs(e, t) && t in st.pc && InPrimitive(st.pc[t])
    ensures e == By(t, Advance) && Midway(st.pc[t]) && Step(st, e) == Continue(st, t)
  {
    hide Wakeups, Locks, Conds, Queues, PcShape, Continue;
  }

  predicate InDown(p: Pc, x: SemaId, g: Goal) {
    p == Down(x, g) || p == Blocked(x, g) || p == Woken(x, g)
  }

  lemma DownNow(st: State, t: nat, x: SemaId, g: Goal)
    requires Shape(st) && Queues(st) && t in st.pc && Midway(st.pc[t]) && InDown(st.pc[t], x, g) && x in st.sema
    requires g.ForWait? ==> g.cond in st.lockOf
    ensures var b := Continue(st, t);
            && x in b.sema && t in b.pc && b.lockOf == st.lockOf
            && if st.sema[x].value == 0 then b.sema[x] == Sema(0, st.sema[x].waiters + [t]) && b.pc[t] == Blocked(x, g)
               else b.sema[x] == Sema(st.sema[x].value - 1, st.sema[x].waiters) && b.pc[t] == AfterDown(st, g)
  {
    hide PcShape, Queues, Shape, Raised, HolderSet, HolderCleared, PopWaiter, AfterDown, Test;
    TestNow(st, t, x, g);
  }

  lemma TestNow(st: State, t: nat, x: SemaId, g: Goal)
    requires x in st.sema && (g.ForWait? ==> g.cond in st.lockOf)
    ensures var b := Test(st, t, x, g);
            && x in b.sema && t in b.pc && b.lockOf == st.lockOf
            && if st.sema[x].value == 0 then b.sema[x] == Sema(0, st.sema[x].waiters + [t]) && b.pc[t] == Blocked(x, g)
               else b.sema[x] == Sema(st.sema[x].value - 1, st.sema[x].waiters) && b.pc[t] == AfterDown(st, g)
  {
    hide AfterDown;
  }

  lemma {:induction false} DownRuns(st: State, es: seq<Event>, t: nat, x: SemaId, g: Goal)
    requires Inv(st) && IsRun(st, es) && t in st.pc && InDown(st.pc[t], x, g)
    ensures Downs(st, es, t, x, g)
    decreases |es|, if g.ForWait? then 1 else 0
  {
    hide Inv, Shape, Queues, Step;
    ThreadFacts(st, t);
    if es != [] {
      StepKeepsInv(st, es[0]);
      var b := Step(st, es[0]);
      if !ActsAs(es[0], t) {
        OthersMove(st, es[0], t);
        DownRuns(b, es[1..], t, x, g);
      } else {
        OwnStep(st, es[0], t);
        DownNow(st, t, x, g);
        if st.sema[x].value == 0 {
          DownRuns(b, es[1..], t, x, g);
        } else {
          match g
          case Plain =>
          case ForLock(l) => HoldTaken(b, es[1..], t, l);
          case ForWait(c) => DownRuns(b, es[1..], t, LockSema(st.lockOf[c]), ForLock(st.lockOf[c]));
        }
      }
    }
  }

  lemma UpNow(st: State, t: nat, x: SemaId, a: After)
    requires Inv(st) && t in st.pc && st.pc[t] == Up(x, a)
    ensures var b := Continue(st, t);
            Added(st, b, x) && t in b.pc && b.pc[t] == AfterUp(t, a)
  {
    hide Inv, Shape, Queues;
    ThreadFacts(st, t);
    if st.sema[x].waiters != [] { UnblocksFirst(st, x); }
    hide PcShape;
  }

  lemma {:induction false} UpRuns(st: State, es: seq<Event>, t: nat, x: SemaId, a: After)
    requires Inv(st) && IsRun(st, es) && t in st.pc && st.pc[t] == Up(x, a)
    ensures Ups(st, es, t, x, a)
    decreases |es|
  {
    hide Inv, Shape, Queues, Step, Added;
    ThreadFacts(st, t);
    if es != [] {
      StepKeepsInv(st, es[0]);
      var b := Step(st, es[0]);
      if !ActsAs(es[0], t) {
        OthersMove(st, es[0], t);
        UpRuns(b, es[1..], t, x, a);
      } else {
        OwnStep(st, es[0], t);
        UpNow(st, t, x, a);
        if a.Sleep? { DownRuns(b, es[1..], t, WaiterSema(t), ForWait(a.cond)); }
      }
    }
  }

  lemma DropNow(st: State, t: nat, l: nat, a: After)
    requires Shape(st) && Queues(st) && t in st.pc && st.pc[t] == DropHolder(l, a)
    ensures var b := Continue(st, t);
            l in b.holder && b.holder[l].None? && t in b.pc && b.pc[t] == Up(LockSema(l), a)
  {
    hide PcShape, Queues;
  }

  lemma {:induction false} LetGoRuns(st: State, es: seq<Event>, t: nat, l: nat, a: After)
    requires Inv(st) && IsRun(st, es) && t in st.pc && st.pc[t] == DropHolder(l, a)
    ensures LetsGo(st, es, t, l, a)
    decreases |es|
  {
    hide Inv, Shape, Queues, Step;
    ThreadFacts(st, t);
    if es != [] {
      StepKeepsInv(st, es[0]);
      var b := Step(st, es[0]);
      if ActsAs(es[0], t) {
        OwnStep(st, es[0], t);
        DropNow(st, t, l, a);
        UpRuns(b, es[1..], t, LockSema(l), a);
      } else {
        OthersMove(st, es[0], t);
        LetGoRuns(b, es[1..], t, l, a);
      }
    }
  }

  // ---------- From the call ----------

  /** The run begins with this call. */
  ghost predicate Calls(st: State, es: seq<Event>, t: nat, a: Action)
    requires Inv(st)
  {
    IsRun(st, es) && es != [] && es[0] == By(t, a)
  }

  lemma FirstStep(st: State, es: seq<Event>, t: nat, a: Action)
    requires Inv(st) && Calls(st, es, t, a)
    ensures Shape(st) && Queues(st) && Enabled(st, By(t, a)) && t in st.pc
    ensures Inv(Step(st, By(t, a))) && IsRun(Step(st, By(t, a)), es[1..])
  {
    hide Inv, Shape, Queues, Step;
    StepKeepsInv(st, es[0]);
    ThreadFacts(st, t);
  }

  /** Everything but where one thread is stays as it was. */
  predicate OnlyMoves(st: State, b: State, t: nat) {
    t in b.pc && b == st.(pc := st.pc[t := b.pc[t]])
  }

  /** sema_down returns only past a step of its own that took a unit; whenever it finds none it goes to
      sleep at the back of the list. */
  lemma DownCall(st: State, es: seq<Event>, t: nat, n: nat)
    requires Inv(st) && Calls(st, es, t, StartDown(n))
    ensures var b := Step(st, es[0]);
            Inv(b) && IsRun(b, es[1..]) && OnlyMoves(st, b, t) && Downs(b, es[1..], t, User(n), Plain)
  {
    hide Inv, Shape, Queues, Step;
    FirstStep(st, es, t, StartDown(n));
    SemaCallIs(st, t, StartDown(n));
    DownRuns(Step(st, es[0]), es[1..], t, User(n), Plain);
  }

  lemma SemaCallIs(st: State, t: nat, a: Action)
    requires Shape(st) && Queues(st) && Enabled(st, By(t, a)) && (a.StartDown? || a.StartUp?)
    ensures var b := Step(st, By(t, a));
            OnlyMoves(st, b, t) && b.pc[t] == if a.StartDown? then Down(User(a.n), Plain) else Up(User(a.n), Return)
  {
    hide PcShape, Queues;
  }

  /** sema_up adds one unit, wakes the thread asleep longest, and returns. */
  lemma UpCall(st: State, es: seq<Event>, t: nat, n: nat)
    requires Inv(st) && Calls(st, es, t, StartUp(n))
    ensures var b := Step(st, es[0]);
            Inv(b) && IsRun(b, es[1..]) && OnlyMoves(st, b, t) && Ups(b, es[1..], t, User(n), Return)
  {
    hide Inv, Shape, Queues, Step;
    FirstStep(st, es, t, StartUp(n));
    SemaCallIs(st, t, StartUp(n));
    UpRuns(Step(st, es[0]), es[1..], t, User(n), Return);
  }

  /** sema_up from an interrupt handler does it at once. */
  lemma InterruptUpCall(st: State, n: nat)
    requires Inv(st) && Enabled(st, InterruptUp(n))
    ensures Added(st, Step(st, InterruptUp(n)), User(n))
  {
    hide PcShape, Wakeups, Locks, Conds;
    if st.sema[User(n)].waiters != [] { UnblocksFirst(st, User(n)); }
    hide Queues;
  }

  /** sema_try_down, from a thread or an interrupt handler: a unit less if there is one, and nothing else. */
  lemma TryDownCall(st: State, e: Event, n: nat)
    requires Inv(st) && Enabled(st, e) && (e == InterruptTryDown(n) || (e.By? && e.action == TryDown(n)))
    ensures var m := st.sema[User(n)];
            Step(st, e) == if m.value == 0 then st else st.(sema := st.sema[User(n) := Sema(m.value - 1, m.waiters)])
  {
    hide PcShape, Wakeups, Locks, Conds, Queues;
  }

  /** lock_acquire returns only as the holder, past a step of its own that took the lock's unit. */
  lemma AcquireCall(st: State, es: seq<Event>, t: nat, l: nat)
    requires Inv(st) && Calls(st, es, t, Acquire(l))
    ensures var b := Step(st, es[0]);
            && Inv(b) && IsRun(b, es[1..]) && OnlyMoves(st, b, t)
            && Downs(b, es[1..], t, LockSema(l), ForLock(l)) && BackHolding(b, es[1..], t, l)
  {
    hide Inv, Shape, Queues, Step;
    FirstStep(st, es, t, Acquire(l));
    LockCallIs(st, t, Acquire(l));
    DownRuns(Step(st, es[0]), es[1..], t, LockSema(l), ForLock(l));
    AcquireReturnsHolding(Step(st, es[0]), es[1..], t, l);
  }

  lemma LockCallIs(st: State, t: nat, a: Action)
    requires Shape(st) && Queues(st) && Enabled(st, By(t, a)) && (a.Acquire? || a.Release?)
    ensures var b := Step(st, By(t, a));
            OnlyMoves(st, b, t) && b.pc[t] == if a.Acquire? then Down(LockSema(a.lock), ForLock(a.lock)) else DropHolder(a.lock, Return)
  {
    hide PcShape, Queues;
  }

  /** lock_release gives the lock up: no holder, then its unit back and the thread asleep longest woken. */
  lemma ReleaseCall(st: State, es: seq<Event>, t: nat, l: nat)
    requires Inv(st) && Calls(st, es, t, Release(l))
    ensures var b := Step(st, es[0]);
            Inv(b) && IsRun(b, es[1..]) && OnlyMoves(st, b, t) && LetsGo(b, es[1..], t, l, Return)
  {
    hide Inv, Shape, Queues, Step;
    FirstStep(st, es, t, Release(l));
    LockCallIs(st, t, Release(l));
    LetGoRuns(Step(st, es[0]), es[1..], t, l, Return);
  }

  /** lock_try_acquire fails, changing nothing, if the lock has no unit; otherwise it takes the unit and is the
      holder one step later. */
  lemma TryAcquireCall(st: State, es: seq<Event>, t: nat, l: nat)
    requires Inv(st) && Calls(st, es, t, TryAcquire(l))
    ensures var b, x := Step(st, es[0]), LockSema(l);
            && Inv(b) && IsRun(b, es[1..]) && x in st.sema
            && if st.sema[x].value == 0 then b == st
               else x in b.sema && b.sema[x] == Sema(st.sema[x].value - 1, st.sema[x].waiters) && TakesHold(b, es[1..], t, l)
  {
    hide Inv, Shape, Queues, Step;
    FirstStep(st, es, t, TryAcquire(l));
    TryAcquireIs(st, t, l);
    if st.sema[LockSema(l)].value > 0 { HoldTaken(Step(st, es[0]), es[1..], t, l); }
  }

  lemma TryAcquireIs(st: State, t: nat, l: nat)
    requires Shape(st) && Queues(st) && Enabled(st, By(t, TryAcquire(l)))
    ensures var b, x := Step(st, By(t, TryAcquire(l))), LockSema(l);
            && x in st.sema && x in b.sema && t in b.pc
            && if st.sema[x].value == 0 then b == st
               else b.sema[x] == Sema(st.sema[x].value - 1, st.sema[x].waiters) && b.pc[t] == TakeHolder(l)
  {
    hide PcShape, Queues;
  }

  /** In an interrupt handler the whole of it happens at once, for the thread interrupted. */
  lemma InterruptTryAcquireCall(st: State, t: nat, l: nat)
    requires Inv(st) && Enabled(st, InterruptTryAcquire(t, l))
    ensures var b, x := Step(st, InterruptTryAcquire(t, l)), LockSema(l);
            && x in st.sema && b.pc == st.pc
            && if st.sema[x].value == 0 then b == st
               else Holds(b, t, l) && x in b.sema && b.sema[x] == Sema(st.sema[x].value - 1, st.sema[x].waiters)
  {
    hide PcShape, Wakeups, Locks, Conds, Queues;
  }

  // ---------- Condition variables ----------

  /** The first time along the run that the thread is back it holds the lock and is on no queue, and it has left
      the queue of c before, which only a signal or a broadcast brings about (QueuesStep). */
  ghost predicate BackSignalled(st: State, es: seq<Event>, t: nat, c: nat, l: nat, signalled: bool)
    requires Inv(st) && IsRun(st, es)
    decreases |es|
  {
    if t in st.pc && st.pc[t].Run? then
      signalled && Holds(st, t, l) && forall d :: d in st.cond ==> t !in st.cond[d]
    else
      es == [] ||
      (StepKeepsInv(st, es[0]);
       var b := Step(st, es[0]);
       BackSignalled(b, es[1..], t, c, l, signalled || (c in st.cond && c in b.cond && t in st.cond[c] && t !in b.cond[c])))
  }

  lemma {:induction false} AcquiringSignalled(st: State, es: seq<Event>, t: nat, c: nat, l: nat)
    requires Inv(st) && IsRun(st, es) && t in st.pc
    requires Acquiring(st.pc[t], l) || (st.pc[t].Run? && Holds(st, t, l))
    ensures BackSignalled(st, es, t, c, l, true)
    decreases |es|
  {
    hide Inv, Shape, Queues, Step;
    if st.pc[t].Run? {
      RunningIsOnNoQueue(st, t);
    } else if es != [] {
      ThreadFacts(st, t);
      StepKeepsInv(st, es[0]);
      AcquiringStep(st, es[0], t, l);
      AcquiringSignalled(Step(st, es[0]), es[1..], t, c, l);
    }
  }

  lemma {:induction false} WaitingSignalled(st: State, es: seq<Event>, t: nat, c: nat, signalled: bool)
    requires Inv(st) && IsRun(st, es) && t in st.pc && WaitingFor(st.pc[t]) == Some(c) && c in st.lockOf && c in st.cond
    requires t in st.cond[c] || signalled
    ensures BackSignalled(st, es, t, c, st.lockOf[c], signalled)
    decreases |es|
  {
    hide Inv, Shape, Queues, Step;
    if es != [] {
      ThreadFacts(st, t);
      StepKeepsInv(st, es[0]);
      WaiterStep(st, es[0], t, c);
      QueuesStep(st, es[0], c);
      LockOfStays(st, es[0]);
      var b := Step(st, es[0]);
      if WaitingFor(b.pc[t]) == Some(c) {
        WaitingSignalled(b, es[1..], t, c, signalled || (t in st.cond[c] && t !in b.cond[c]));
      } else {
        AcquiringSignalled(b, es[1..], t, c, st.lockOf[c]);
      }
    }
  }

  /** cond_wait joins the queue at its back, gives the lock up, sleeps until its own semaphore has a unit,
      reacquires the lock, and returns only after it was taken off the queue by a signal. */
  lemma WaitCall(st: State, es: seq<Event>, t: nat, c: nat)
    requires Inv(st) && Calls(st, es, t, Wait(c))
    ensures var b := Step(st, es[0]);
            && Inv(b) && IsRun(b, es[1..]) && c in st.cond && c in st.lockOf && b.cond == st.cond[c := st.cond[c] + [t]]
            && LetsGo(b, es[1..], t, st.lockOf[c], Sleep(c)) && BackSignalled(b, es[1..], t, c, st.lockOf[c], false)
  {
    hide Inv, Shape, Queues, Step;
    FirstStep(st, es, t, Wait(c));
    WaitIs(st, t, c);
    var b := Step(st, es[0]);
    LetGoRuns(b, es[1..], t, st.lockOf[c], Sleep(c));
    assert b.cond[c][|st.cond[c]|] == t;
    WaitingSignalled(b, es[1..], t, c, false);
  }

  lemma WaitIs(st: State, t: nat, c: nat)
    requires Shape(st) && Queues(st) && Enabled(st, By(t, Wait(c)))
    ensures var b := Step(st, By(t, Wait(c)));
            && c in st.cond && c in st.lockOf && b.lockOf == st.lockOf && t in b.pc
            && b.cond == st.cond[c := st.cond[c] + [t]] && b.pc[t] == DropHolder(st.lockOf[c], Sleep(c))
  {
    hide PcShape, Queues;
  }

  /** cond_signal takes the oldest waiter off the queue and goes on to give it its unit; on an empty queue it
      does nothing. */
  lemma SignalCall(st: State, es: seq<Event>, t: nat, c: nat)
    requires Inv(st) && Calls(st, es, t, Signal(c))
    ensures var b := Step(st, es[0]);
            && Inv(b) && IsRun(b, es[1..]) && c in st.cond
            && if st.cond[c] == [] then b == st
               else b.cond == st.cond[c := st.cond[c][1..]] && Ups(b, es[1..], t, WaiterSema(st.cond[c][0]), Return)
  {
    hide Inv, Shape, Queues, Step;
    FirstStep(st, es, t, Signal(c));
    SignalIs(st, t, c);
    if st.cond[c] != [] { UpRuns(Step(st, es[0]), es[1..], t, WaiterSema(st.cond[c][0]), Return); }
  }

  lemma SignalIs(st: State, t: nat, c: nat)
    requires Shape(st) && Queues(st) && Enabled(st, By(t, Signal(c)))
    ensures var b := Step(st, By(t, Signal(c)));
            && c in st.cond && t in b.pc
            && if st.cond[c] == [] then b == st
               else b.cond == st.cond[c := st.cond[c][1..]] && b.pc[t] == Up(WaiterSema(st.cond[c][0]), Return)
  {
    hide PcShape, Queues;
  }

  /** cond_broadcast on a queue of k waiters is back, with the queue empty, after at most 2 k + 1 further steps of
      its own; without the lock the queue has to be empty and nothing happens. */
  lemma BroadcastCall(st: State, es: seq<Event>, t: nat, c: nat)
    requires Inv(st) && Calls(st, es, t, Broadcast(c))
    ensures var b := Step(st, es[0]);
            && Inv(b) && IsRun(b, es[1..]) && c in st.cond && t in b.pc
            && (st.cond[c] != [] ==> InPrimitive(b.pc[t]))
            && (OwnSteps(es[1..], t) > 2 * |st.cond[c]| ==> LeavesEmpty(b, es[1..], t, c))
  {
    hide Inv, Shape, Queues, Step, LeavesEmpty;
    FirstStep(st, es, t, Broadcast(c));
    BroadcastIs(st, t, c);
    var b := Step(st, es[0]);
    if OwnSteps(es[1..], t) > 2 * |st.cond[c]| {
      if b.pc[t].Run? { LeftEmpty(b, es[1..], t, c); } else { BroadcastEnds(b, es[1..], t, c); }
    }
  }

  lemma LeftEmpty(st: State, es: seq<Event>, t: nat, c: nat)
    requires Inv(st) && IsRun(st, es) && t in st.pc && st.pc[t].Run? && c in st.cond && st.cond[c] == []
    ensures LeavesEmpty(st, es, t, c)
  {
    hide Inv;
  }

  lemma BroadcastIs(st: State, t: nat, c: nat)
    requires Shape(st) && Queues(st) && Enabled(st, By(t, Broadcast(c)))
    ensures var b := Step(st, By(t, Broadcast(c)));
            && c in st.cond && t in b.pc && b.cond == st.cond
            && (b.pc[t] == Broadcasting(c) || (b.pc[t] == Run && st.cond[c] == []))
  {
    hide PcShape, Queues;
  }

  // ---------- What a step leaves alone ----------

  /** No step changes two semaphores. */
  lemma OneSemaAtMost(st: State, e: Event, x: SemaId, y: SemaId)
    requires Inv(st) && Enabled(st, e) && x in st.sema && y in st.sema && x != y
    ensures x in Step(st, e).sema && y in Step(st, e).sema
    ensures Step(st, e).sema[x] == st.sema[x] || Step(st, e).sema[y] == st.sema[y]
  {
    hide Wakeups, Locks, Conds, PcShape, Queues, SemaUp, Continue;
    if e.InterruptUp? {
      if st.sema[User(e.n)].waiters != [] { UnblocksFirst(st, User(e.n)); }
      UpTouches(st, User(e.n));
    } else if e.By? && e.action.Advance? {
      ContinueTouches(st, e.thread, x, y);
    }
  }

  lemma ContinueTouches(st: State, t: nat, x: SemaId, y: SemaId)
    requires Inv(st) && t in st.pc && Midway(st.pc[t]) && x in st.sema && y in st.sema && x != y
    ensures x in Continue(st, t).sema && y in Continue(st, t).sema
    ensures Continue(st, t).sema[x] == st.sema[x] || Continue(st, t).sema[y] == st.sema[y]
  {
    hide Inv, Shape, Queues, Raised, SemaUp;
    ThreadFacts(st, t);
    var p := st.pc[t];
    if p.Up? {
      if st.sema[p.sema].waiters != [] { UnblocksFirst(st, p.sema); }
      UpTouches(st, p.sema);
      RaisedTouches(st, t, p.sema, p.after);
    }
  }

  lemma UpTouches(st: State, x: SemaId)
    requires x in st.sema && (st.sema[x].waiters != [] ==> Unblocks(st, x, st.sema[x].waiters[0]))
    ensures x in SemaUp(st, x).sema && SemaUp(st, x).sema == st.sema[x := SemaUp(st, x).sema[x]] && SemaUp(st, x).holder == st.holder
  {
  }

  lemma RaisedTouches(st: State, t: nat, x: SemaId, a: After)
    requires x in st.sema && (st.sema[x].waiters != [] ==> Unblocks(st, x, st.sema[x].waiters[0]))
    ensures Raised(st, t, x, a).sema == SemaUp(st, x).sema && Raised(st, t, x, a).holder == SemaUp(st, x).holder
  {
    hide SemaUp;
  }

  /** The holder of a lock changes only by a step of its own, from none to the thread that acts or was
      interrupted, or from that thread to none. */
  lemma HoldersStep(st: State, e: Event, l: nat)
    requires Inv(st) && Enabled(st, e) && l in st.holder
    ensures l in Step(st, e).holder
    ensures var h, k := st.holder[l], Step(st, e).holder[l];
            || k == h
            || (h.None? && e.By? && k == Some(e.thread))
            || (h.None? && e.InterruptTryAcquire? && e.lock == l && k == Some(e.current))
            || (e.By? && h == Some(e.thread) && k.None?)
  {
    hide Wakeups, Conds, PcShape, Queues, Raised, SemaUp, LockBalance;
    if e.InterruptUp? {
      if st.sema[User(e.n)].waiters != [] { UnblocksFirst(st, User(e.n)); }
      UpTouches(st, User(e.n));
    } else if e.InterruptTryAcquire? {
      FreeHasNoHolder(st, e.lock);
    } else if e.By? && e.action.Advance? {
      hide Shape, Locks;
      ThreadFacts(st, e.thread);
      var p := st.pc[e.thread];
      if p.Up? {
        if st.sema[p.sema].waiters != [] { UnblocksFirst(st, p.sema); }
        UpTouches(st, p.sema);
        RaisedTouches(st, e.thread, p.sema, p.after);
      } else if p.TakeHolder? {
        LocksOf(st);
        NoHolderYet(st, e.thread, p.lock);
      }
    }
  }

  lemma LocksOf(st: State)
    requires Inv(st)
    ensures Named(st) && Locks(st)
  {
  }

  lemma FreeHasNoHolder(st: State, l: nat)
    requires Inv(st) && l in st.holder
    ensures LockSema(l) in st.sema && (st.sema[LockSema(l)].value > 0 ==> st.holder[l].None?)
  {
    hide Wakeups, Conds, PcShape, Queues, Num;
    assert LockBalance(st, l);
  }

  // ---------- Threads ----------

  /** A new thread is outside every primitive; one that has ended takes no step until it is created again. */
  lemma LifeCalls(st: State, t: nat, a: Action)
    requires Inv(st) && Enabled(st, By(t, a)) && (a.Begin? || a.Exit?)
    ensures var b := Step(st, By(t, a));
            && OnlyMoves(st, b, t) && (a.Begin? ==> b.pc[t].Run?)
            && (a.Exit? ==> forall x: Action :: Inv(b) && Enabled(b, By(t, x)) ==> x.Begin?)
  {
    hide PcShape, Wakeups, Locks, Conds, Queues;
  }
}
