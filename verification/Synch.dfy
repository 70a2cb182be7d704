/** Semaphores, locks and condition variables (threads/synch.c, round-robin configuration) as a
    transition system.  Each step is a stretch of code that runs with interrupts off, or one write to
    shared data between two such stretches; any thread may take the next step. */
module Synch {

  datatype Option<T> = None | Some(value: T)

  /** A semaphore of its own, the semaphore inside a lock, or the semaphore on the stack of a thread
      that is in cond_wait. */
  datatype SemaId = User(n: nat) | LockSema(lock: nat) | WaiterSema(thread: nat)

  datatype Sema = Sema(value: nat, waiters: seq<nat>)

  /** What a thread in sema_down is there for. */
  datatype Goal = Plain | ForLock(lock: nat) | ForWait(cond: nat)

  /** What a thread does once its sema_up is done: return, go to sleep in cond_wait, or go on with
      cond_broadcast. */
  datatype After = Return | Sleep(cond: nat) | Again(cond: nat)

  /** Where a thread is. */
  datatype Pc =
    | Run
    | Down(sema: SemaId, goal: Goal)      // about to test the value for the first time
    | Blocked(sema: SemaId, goal: Goal)   // on the list of waiters
    | Woken(sema: SemaId, goal: Goal)     // unblocked, about to test again
    | TakeHolder(lock: nat)               // past sema_down, about to set lock->holder
    | DropHolder(lock: nat, after: After) // about to clear lock->holder
    | Up(sema: SemaId, after: After)      // about to sema_up
    | Broadcasting(cond: nat)             // at the loop test of cond_broadcast
    | Gone                                // not created yet, or exited

  /** lockOf gives the lock each condition variable is used with. */
  datatype State = State(sema: map<SemaId, Sema>, holder: map<nat, Option<nat>>, cond: map<nat, seq<nat>>,
                         pc: map<nat, Pc>, lockOf: map<nat, nat>)

  /** The calls a thread outside any primitive may start, its creation and its end, and a step inside a
      primitive. */
  datatype Action =
    | StartDown(n: nat)
    | TryDown(n: nat)
    | StartUp(n: nat)
    | Acquire(lock: nat)
    | TryAcquire(lock: nat)
    | Release(lock: nat)
    | Wait(cond: nat)
    | Signal(cond: nat)
    | Broadcast(cond: nat)
    | Begin
    | Exit
    | Advance

  /** A lock taken by an interrupt handler belongs to the thread it interrupted. */
  datatype Event =
    | By(thread: nat, action: Action)
    | InterruptUp(n: nat)
    | InterruptTryDown(n: nat)
    | InterruptTryAcquire(current: nat, lock: nat)

  /** Every lock, thread and condition variable has what belongs to it. */
  predicate Named(st: State) {
    && (forall l :: l in st.holder ==> LockSema(l) in st.sema)
    && (forall t :: t in st.pc ==> WaiterSema(t) in st.sema)
    && (forall c :: c in st.cond ==> c in st.lockOf && st.lockOf[c] in st.holder)
  }

  predicate Shape(st: State) {
    && Named(st)
    && (forall t :: t in st.pc ==> PcShape(st, t, st.pc[t]))
    && HoldersKnown(st)
  }

  predicate HoldersKnown(st: State) {
    forall l :: l in st.holder && st.holder[l].Some? ==> st.holder[l].value in st.pc
  }

  predicate PcShape(st: State, t: nat, p: Pc) {
    match p
    case Run => true
    case Gone => true
    case Down(x, g) => x in st.sema && GoalShape(st, t, x, g)
    case Blocked(x, g) => x in st.sema && GoalShape(st, t, x, g)
    case Woken(x, g) => x in st.sema && GoalShape(st, t, x, g)
    case TakeHolder(l) => l in st.holder
    case DropHolder(l, a) =>
      l in st.holder && AfterShape(st, a) && (a.Sleep? ==> l == st.lockOf[a.cond]) && !a.Again?
    case Up(x, a) =>
      && x in st.sema && AfterShape(st, a)
      && (x.LockSema? ==> x.lock in st.holder) && (x.WaiterSema? ==> x.thread in st.pc)
      && (a.Sleep? ==> x == LockSema(st.lockOf[a.cond])) && (a.Again? ==> x.WaiterSema?)
    case Broadcasting(c) => c in st.cond && c in st.lockOf
  }

  predicate GoalShape(st: State, t: nat, x: SemaId, g: Goal) {
    match g
    case Plain => x.User?
    case ForLock(l) => x == LockSema(l) && l in st.holder
    case ForWait(c) => x == WaiterSema(t) && c in st.cond && c in st.lockOf
  }

  predicate AfterShape(st: State, a: After) {
    match a
    case Return => true
    case Sleep(c) => c in st.cond && c in st.lockOf
    case Again(c) => c in st.cond && c in st.lockOf
  }

  predicate Holds(st: State, t: nat, l: nat) {
    l in st.holder && st.holder[l] == Some(t)
  }

  /** The assertions at the head of each primitive; cond_broadcast asserts nothing itself, and may find
      the queue empty without holding the lock. */
  predicate Enabled(st: State, e: Event) {
    match e
    case InterruptUp(n) => User(n) in st.sema
    case InterruptTryDown(n) => User(n) in st.sema
    case InterruptTryAcquire(t, l) =>
      t in st.pc && !st.pc[t].Blocked? && !st.pc[t].Gone? && l in st.holder && !Holds(st, t, l)
    case By(t, a) =>
      && t in st.pc
      && match a
         case StartDown(n) => st.pc[t].Run? && User(n) in st.sema
         case TryDown(n) => st.pc[t].Run? && User(n) in st.sema
         case StartUp(n) => st.pc[t].Run? && User(n) in st.sema
         case Acquire(l) => st.pc[t].Run? && l in st.holder && !Holds(st, t, l)
         case TryAcquire(l) => st.pc[t].Run? && l in st.holder && !Holds(st, t, l)
         case Release(l) => st.pc[t].Run? && Holds(st, t, l)
         case Wait(c) => st.pc[t].Run? && c in st.cond && c in st.lockOf && Holds(st, t, st.lockOf[c])
         case Signal(c) => st.pc[t].Run? && c in st.cond && c in st.lockOf && Holds(st, t, st.lockOf[c])
         case Broadcast(c) =>
           st.pc[t].Run? && c in st.cond && c in st.lockOf && (Holds(st, t, st.lockOf[c]) || st.cond[c] == [])
         case Begin => st.pc[t].Gone?
         case Exit => st.pc[t].Run?
         case Advance => Midway(st.pc[t])
  }

  /** A thread that can take a step inside a primitive. */
  predicate Midway(p: Pc) {
    !p.Run? && !p.Gone? && !p.Blocked?
  }

  /** Where a thread goes after a successful sema_down. */
  function AfterDown(st: State, g: Goal): Pc
    requires g.ForWait? ==> g.cond in st.lockOf
  {
    match g
    case Plain => Run
    case ForLock(l) => TakeHolder(l)
    case ForWait(c) => Down(LockSema(st.lockOf[c]), ForLock(st.lockOf[c]))
  }

  function AfterUp(t: nat, a: After): Pc {
    match a
    case Return => Run
    case Sleep(c) => Down(WaiterSema(t), ForWait(c))
    case Again(c) => Broadcasting(c)
  }

  /** One turn of the loop of sema_down. */
  function Test(st: State, t: nat, x: SemaId, g: Goal): State
    requires x in st.sema && (g.ForWait? ==> g.cond in st.lockOf)
  {
    var m := st.sema[x];
    if m.value == 0 then
      st.(sema := st.sema[x := m.(waiters := m.waiters + [t])], pc := st.pc[t := Blocked(x, g)])
    else
      st.(sema := st.sema[x := m.(value := m.value - 1)], pc := st.pc[t := AfterDown(st, g)])
  }

  predicate BlockedOn(pc: map<nat, Pc>, t: nat, x: SemaId) {
    t in pc && pc[t].Blocked? && pc[t].sema == x
  }

  /** The thread sema_up unblocks. */
  predicate Unblocks(st: State, x: SemaId, w: nat) {
    x in st.sema && st.sema[x].waiters != [] && w == st.sema[x].waiters[0] && BlockedOn(st.pc, w, x)
  }

  /** sema_up: unblocks the first waiter, if any, and raises the value. */
  function SemaUp(st: State, x: SemaId): State
    requires x in st.sema
    requires st.sema[x].waiters != [] ==> Unblocks(st, x, st.sema[x].waiters[0])
  {
    var m := st.sema[x];
    if m.waiters == [] then st.(sema := st.sema[x := m.(value := m.value + 1)])
    else
      var w := m.waiters[0];
      st.(sema := st.sema[x := Sema(m.value + 1, m.waiters[1..])],
          pc := st.pc[w := Woken(st.pc[w].sema, st.pc[w].goal)])
  }

  /** sema_up, called by a thread that goes on to something else. */
  function Raised(st: State, t: nat, x: SemaId, a: After): State
    requires x in st.sema && (st.sema[x].waiters != [] ==> Unblocks(st, x, st.sema[x].waiters[0]))
  {
    var s := SemaUp(st, x);
    s.(pc := s.pc[t := AfterUp(t, a)])
  }

  /** sema_try_down. */
  function SemaTryDown(st: State, x: SemaId): State
    requires x in st.sema
  {
    var m := st.sema[x];
    if m.value > 0 then st.(sema := st.sema[x := m.(value := m.value - 1)]) else st
  }

  /** A successful lock_try_acquire up to the write of the holder. */
  function Acquired(st: State, t: nat, l: nat): State
    requires LockSema(l) in st.sema
  {
    SemaTryDown(st, LockSema(l)).(pc := st.pc[t := TakeHolder(l)])
  }

  /** lock_try_acquire in an interrupt handler, with nothing in between. */
  function LockTaken(st: State, t: nat, l: nat): State
    requires LockSema(l) in st.sema
  {
    if st.sema[LockSema(l)].value == 0 then st
    else SemaTryDown(st, LockSema(l)).(holder := st.holder[l := Some(t)])
  }

  function HolderSet(st: State, t: nat, l: nat): State {
    st.(holder := st.holder[l := Some(t)], pc := st.pc[t := Run])
  }

  function HolderCleared(st: State, t: nat, l: nat, a: After): State {
    st.(holder := st.holder[l := None], pc := st.pc[t := Up(LockSema(l), a)])
  }

  /** Taking the oldest waiter off a condition variable in order to sema_up it. */
  function PopWaiter(st: State, t: nat, c: nat, a: After): State
    requires c in st.cond && st.cond[c] != []
  {
    st.(cond := st.cond[c := st.cond[c][1..]], pc := st.pc[t := Up(WaiterSema(st.cond[c][0]), a)])
  }

  /** cond_wait up to its lock_release: a fresh semaphore, at the back of the queue. */
  function StartWait(st: State, t: nat, c: nat): State
    requires c in st.cond && c in st.lockOf
  {
    st.(sema := st.sema[WaiterSema(t) := Sema(0, [])], cond := st.cond[c := st.cond[c] + [t]],
        pc := st.pc[t := DropHolder(st.lockOf[c], Sleep(c))])
  }

  /** The next step of a thread inside a primitive. */
  function Continue(st: State, t: nat): State
    requires Shape(st) && Queues(st)
    requires t in st.pc && Midway(st.pc[t])
  {
    match st.pc[t]
    case Down(x, g) => Test(st, t, x, g)
    case Woken(x, g) => Test(st, t, x, g)
    case TakeHolder(l) => HolderSet(st, t, l)
    case DropHolder(l, a) => HolderCleared(st, t, l, a)
    case Up(x, a) => Raised(st, t, x, a)
    case Broadcasting(c) => if st.cond[c] == [] then st.(pc := st.pc[t := Run]) else PopWaiter(st, t, c, Again(c))
  }

  function SemaCall(st: State, t: nat, a: Action): State
    requires Enabled(st, By(t, a)) && (a.StartDown? || a.TryDown? || a.StartUp?)
  {
    match a
    case StartDown(n) => st.(pc := st.pc[t := Down(User(n), Plain)])
    case TryDown(n) => SemaTryDown(st, User(n))
    case StartUp(n) => st.(pc := st.pc[t := Up(User(n), Return)])
  }

  function LockCall(st: State, t: nat, a: Action): State
    requires Named(st) && Enabled(st, By(t, a)) && (a.Acquire? || a.TryAcquire? || a.Release?)
  {
    match a
    case Acquire(l) => st.(pc := st.pc[t := Down(LockSema(l), ForLock(l))])
    case TryAcquire(l) => if st.sema[LockSema(l)].value == 0 then st else Acquired(st, t, l)
    case Release(l) => st.(pc := st.pc[t := DropHolder(l, Return)])
  }

  function CondCall(st: State, t: nat, a: Action): State
    requires Enabled(st, By(t, a)) && (a.Wait? || a.Signal? || a.Broadcast?)
  {
    match a
    case Wait(c) => StartWait(st, t, c)
    case Signal(c) => if st.cond[c] == [] then st else PopWaiter(st, t, c, Return)
    case Broadcast(c) => if Holds(st, t, st.lockOf[c]) then st.(pc := st.pc[t := Broadcasting(c)]) else st
  }

  /** The creation of a thread, and its end; it may take the locks it holds with it. */
  function LifeCall(st: State, t: nat, a: Action): State
    requires Enabled(st, By(t, a)) && (a.Begin? || a.Exit?)
  {
    st.(pc := st.pc[t := if a.Begin? then Run else Gone])
  }

  function Step(st: State, e: Event): State
    requires Shape(st) && Queues(st) && Enabled(st, e)
  {
    match e
    case InterruptUp(n) => SemaUp(st, User(n))
    case InterruptTryDown(n) => SemaTryDown(st, User(n))
    case InterruptTryAcquire(t, l) => LockTaken(st, t, l)
    case By(t, a) =>
      if a.Advance? then Continue(st, t)
      else if a.StartDown? || a.TryDown? || a.StartUp? then SemaCall(st, t, a)
      else if a.Acquire? || a.TryAcquire? || a.Release? then LockCall(st, t, a)
      else if a.Begin? || a.Exit? then LifeCall(st, t, a)
      else CondCall(st, t, a)
  }

  // ---------- The invariant ----------

  ghost predicate Distinct(q: seq<nat>) {
    forall i, j :: 0 <= i < j < |q| ==> q[i] != q[j]
  }

  /** A semaphore's list holds exactly the threads blocked on it, once each. */
  ghost predicate QueueOf(st: State, x: SemaId)
    requires x in st.sema
  {
    && Distinct(st.sema[x].waiters)
    && (forall t :: t in st.sema[x].waiters <==> t in st.pc && st.pc[t].Blocked? && st.pc[t].sema == x)
  }

  ghost predicate Queues(st: State) {
    forall x :: x in st.sema ==> QueueOf(st, x)
  }

  datatype Kind = WokenAt | RaisingAt | TakingAt

  predicate At(p: Pc, k: Kind, x: SemaId) {
    match k
    case WokenAt => p.Woken? && p.sema == x
    case RaisingAt => p.Up? && p.sema == x
    case TakingAt => p.TakeHolder? && LockSema(p.lock) == x
  }

  function Those(pc: map<nat, Pc>, k: Kind, x: SemaId): set<nat> {
    set t | t in pc && At(pc[t], k, x)
  }

  function Num(pc: map<nat, Pc>, k: Kind, x: SemaId): nat {
    |Those(pc, k, x)|
  }

  function One(b: bool): nat { if b then 1 else 0 }

  /** No wakeup is lost: as long as threads sleep, every unit of the value has a woken thread coming
      for it. */
  ghost predicate Promised(st: State, x: SemaId)
    requires x in st.sema
  {
    st.sema[x].waiters != [] ==> st.sema[x].value <= Num(st.pc, WokenAt, x)
  }

  ghost predicate Wakeups(st: State) {
    forall x :: x in st.sema ==> Promised(st, x)
  }

  ghost predicate LockBalance(st: State, l: nat)
    requires l in st.holder && LockSema(l) in st.sema
  {
    var x := LockSema(l);
    st.sema[x].value + Num(st.pc, TakingAt, x) + Num(st.pc, RaisingAt, x) + One(st.holder[l].Some?) == 1
  }

  ghost predicate Locks(st: State)
    requires Named(st)
  {
    && (forall l :: l in st.holder ==> LockBalance(st, l))
    && (forall t :: t in st.pc ==> HoldsAsNeeded(st, t, st.pc[t]))
  }

  /** Where the code relies on holding a lock. */
  predicate HoldsAsNeeded(st: State, t: nat, p: Pc) {
    match p
    case DropHolder(l, _) => Holds(st, t, l)
    case Up(_, a) => a.Again? ==> a.cond in st.lockOf && Holds(st, t, st.lockOf[a.cond])
    case Broadcasting(c) => c in st.lockOf && Holds(st, t, st.lockOf[c])
    case _ => true
  }

  /** The condition variable a thread is waiting on: from joining the queue to a successful
      sema_down of its own semaphore. */
  function WaitingFor(p: Pc): Option<nat> {
    match p
    case DropHolder(_, a) => if a.Sleep? then Some(a.cond) else None
    case Up(_, a) => if a.Sleep? then Some(a.cond) else None
    case Down(_, g) => if g.ForWait? then Some(g.cond) else None
    case Blocked(_, g) => if g.ForWait? then Some(g.cond) else None
    case Woken(_, g) => if g.ForWait? then Some(g.cond) else None
    case _ => None
  }

  /** A waiting thread is in the queue, or has one signal that is on its way or has arrived; a thread
      that is not waiting has neither. */
  ghost predicate SignalBalance(st: State, t: nat)
    requires t in st.pc && WaiterSema(t) in st.sema
  {
    var x := WaiterSema(t);
    match WaitingFor(st.pc[t])
    case None => Num(st.pc, RaisingAt, x) == 0
    case Some(c) =>
      c in st.cond && st.sema[x].value + Num(st.pc, RaisingAt, x) + One(t in st.cond[c]) == 1
  }

  ghost predicate CondQueue(st: State, c: nat)
    requires c in st.cond
  {
    && Distinct(st.cond[c])
    && (forall t :: t in st.cond[c] ==> t in st.pc && WaitingFor(st.pc[t]) == Some(c))
  }

  ghost predicate Conds(st: State)
    requires Named(st)
  {
    && (forall c :: c in st.cond ==> CondQueue(st, c))
    && (forall t :: t in st.pc ==> SignalBalance(st, t))
  }

  ghost predicate Inv(st: State) {
    Shape(st) && Queues(st) && Wakeups(st) && Locks(st) && Conds(st)
  }

  // ---------- Every step keeps the invariant ----------

  lemma CountApart(s: set<nat>, t: nat)
    ensures |s| == |s - {t}| + One(t in s)
  {
    if t in s { assert s == (s - {t}) + {t}; } else { assert s == s - {t}; }
  }

  lemma OthersStay(pc: map<nat, Pc>, t: nat, p: Pc, k: Kind, x: SemaId)
    requires t in pc
    ensures Those(pc[t := p], k, x) - {t} == Those(pc, k, x) - {t}
  {
    hide At;
    forall u ensures u in Those(pc[t := p], k, x) - {t} <==> u in Those(pc, k, x) - {t} {
      if u != t { assert pc[t := p].Keys == pc.Keys + {t}; }
    }
  }

  /** Moving one thread changes each count by that thread alone. */
  lemma NumMove(pc: map<nat, Pc>, t: nat, p: Pc, k: Kind, x: SemaId)
    requires t in pc
    ensures Num(pc[t := p], k, x) + One(At(pc[t], k, x)) == Num(pc, k, x) + One(At(p, k, x))
  {
    hide At;
    assert t in Those(pc, k, x) <==> At(pc[t], k, x);
    assert t in Those(pc[t := p], k, x) <==> At(p, k, x);
    hide Those, One;
    OthersStay(pc, t, p, k, x);
    CountApart(Those(pc, k, x), t);
    CountApart(Those(pc[t := p], k, x), t);
  }

  lemma NumMoves(pc: map<nat, Pc>, t: nat, p: Pc)
    requires t in pc
    ensures forall k, x :: Num(pc[t := p], k, x) + One(At(pc[t], k, x)) == Num(pc, k, x) + One(At(p, k, x))
  {
    hide At, Num, One;
    forall k, x ensures Num(pc[t := p], k, x) + One(At(pc[t], k, x)) == Num(pc, k, x) + One(At(p, k, x)) {
      NumMove(pc, t, p, k, x);
    }
  }

  predicate SameNames(a: State, b: State) {
    && a.sema.Keys == b.sema.Keys && a.holder.Keys == b.holder.Keys && a.cond.Keys == b.cond.Keys
    && a.pc.Keys == b.pc.Keys && a.lockOf == b.lockOf
  }

  lemma PcShapeCarries(a: State, b: State, t: nat, p: Pc)
    requires SameNames(a, b) && PcShape(a, t, p)
    ensures PcShape(b, t, p)
  {
  }

  lemma ShapeCarries(a: State, b: State)
    requires Shape(a) && SameNames(a, b)
    requires forall t :: t in b.pc && b.pc[t] != a.pc[t] ==> PcShape(a, t, b.pc[t])
    requires HoldersKnown(b)
    ensures Shape(b)
  {
    hide PcShape;
    forall t | t in b.pc ensures PcShape(b, t, b.pc[t]) {
      PcShapeCarries(a, b, t, b.pc[t]);
    }
    assert forall l :: l in b.holder ==> l in a.holder;
    assert forall c :: c in b.cond ==> c in a.cond;
    assert forall t :: t in b.pc ==> t in a.pc;
  }

  lemma QueueCarries(a: State, b: State, x: SemaId)
    requires x in a.sema && x in b.sema && QueueOf(a, x) && a.sema[x].waiters == b.sema[x].waiters
    requires forall t :: BlockedOn(a.pc, t, x) <==> BlockedOn(b.pc, t, x)
    ensures QueueOf(b, x)
  {
    hide Distinct;
    forall t ensures t in b.sema[x].waiters <==> BlockedOn(b.pc, t, x) {
      assert t in a.sema[x].waiters <==> BlockedOn(a.pc, t, x);
    }
  }

  lemma QueuesCarry(a: State, b: State)
    requires Queues(a) && a.sema.Keys == b.sema.Keys
    requires forall x :: x in a.sema ==> a.sema[x].waiters == b.sema[x].waiters
    requires forall t, x :: BlockedOn(a.pc, t, x) <==> BlockedOn(b.pc, t, x)
    ensures Queues(b)
  {
    hide QueueOf, BlockedOn;
    forall x | x in b.sema ensures QueueOf(b, x) {
      assert QueueOf(a, x);
      QueueCarries(a, b, x);
    }
  }

  lemma NeedCarries(a: State, b: State, t: nat, p: Pc)
    requires a.lockOf == b.lockOf && HoldsAsNeeded(a, t, p)
    requires forall l :: Holds(a, t, l) ==> Holds(b, t, l)
    ensures HoldsAsNeeded(b, t, p)
  {
  }

  /** The places of a thread that no count and no queue knows of. */
  predicate Plainly(p: Pc) {
    !p.Blocked? && !p.Woken? && !p.TakeHolder? && (p.Up? ==> p.sema.User?) && WaitingFor(p) == None
  }

  /** A thread that moves between two such places. */
  lemma MoveKeepsInv(st: State, t: nat, p: Pc)
    requires Inv(st) && t in st.pc && Plainly(st.pc[t])
    requires PcShape(st, t, p) && HoldsAsNeeded(st, t, p) && Plainly(p)
    ensures Inv(st.(pc := st.pc[t := p]))
  {
    var b := st.(pc := st.pc[t := p]);
    hide PcShape, HoldsAsNeeded, Num;
    assert forall k, x :: At(st.pc[t], k, x) || At(p, k, x) ==> k.RaisingAt? && x.User?;
    NumMoves(st.pc, t, p);
    ShapeCarries(st, b);
    QueuesCarry(st, b);
    hide Shape, Queues, At, QueueOf;
    assert Wakeups(b);
    MoveLocks(st, t, p);
    MoveConds(st, t, p);
  }

  lemma MoveLocks(st: State, t: nat, p: Pc)
    requires Named(st) && Locks(st) && t in st.pc && Plainly(st.pc[t])
    requires PcShape(st, t, p) && HoldsAsNeeded(st, t, p) && Plainly(p)
    requires Named(st.(pc := st.pc[t := p]))
    ensures Locks(st.(pc := st.pc[t := p]))
  {
    var b := st.(pc := st.pc[t := p]);
    hide PcShape, HoldsAsNeeded, Num;
    assert forall k, x :: At(st.pc[t], k, x) || At(p, k, x) ==> k.RaisingAt? && x.User?;
    NumMoves(st.pc, t, p);
    hide At;
    forall l | l in b.holder ensures LockBalance(b, l) {
      assert LockBalance(st, l);
    }
    forall u | u in b.pc ensures HoldsAsNeeded(b, u, b.pc[u]) {
      NeedCarries(st, b, u, b.pc[u]);
    }
  }

  lemma MoveConds(st: State, t: nat, p: Pc)
    requires Named(st) && Conds(st) && t in st.pc && Plainly(st.pc[t])
    requires PcShape(st, t, p) && Plainly(p)
    requires Named(st.(pc := st.pc[t := p]))
    ensures Conds(st.(pc := st.pc[t := p]))
  {
    var b := st.(pc := st.pc[t := p]);
    hide PcShape, Num;
    assert forall k, x :: At(st.pc[t], k, x) || At(p, k, x) ==> k.RaisingAt? && x.User?;
    NumMoves(st.pc, t, p);
    hide At, WaitingFor, Distinct;
    forall c | c in b.cond ensures CondQueue(b, c) {
      assert CondQueue(st, c);
    }
    forall u | u in b.pc ensures SignalBalance(b, u) {
      assert SignalBalance(st, u);
    }
  }

  lemma JoinQueue(q: seq<nat>, t: nat)
    requires Distinct(q) && t !in q
    ensures Distinct(q + [t]) && forall u :: u in q + [t] <==> u in q || u == t
  {
    assert (q + [t])[|q|] == t;
  }

  lemma LeaveQueue(q: seq<nat>)
    requires Distinct(q) && q != []
    ensures Distinct(q[1..]) && forall u :: u in q[1..] <==> u in q && u != q[0]
  {
    assert q == [q[0]] + q[1..];
  }

  predicate Testing(st: State, t: nat, x: SemaId, g: Goal) {
    t in st.pc && (st.pc[t] == Down(x, g) || st.pc[t] == Woken(x, g))
  }

  lemma TestJoins(st: State, t: nat, x: SemaId, g: Goal, y: SemaId)
    requires Testing(st, t, x, g) && x in st.sema && st.sema[x].value == 0
    requires g.ForWait? ==> g.cond in st.lockOf
    requires y in st.sema && QueueOf(st, y) && Promised(st, y)
    ensures QueueOf(Test(st, t, x, g), y) && Promised(Test(st, t, x, g), y)
  {
    var b := Test(st, t, x, g);
    hide Num;
    NumMove(st.pc, t, b.pc[t], WokenAt, y);
    if y == x { JoinQueue(st.sema[x].waiters, t); } else { QueueCarries(st, b, y); }
  }

  lemma TestBlocksSemas(st: State, t: nat, x: SemaId, g: Goal)
    requires Queues(st) && Wakeups(st) && Testing(st, t, x, g) && x in st.sema && st.sema[x].value == 0
    requires g.ForWait? ==> g.cond in st.lockOf
    ensures Queues(Test(st, t, x, g)) && Wakeups(Test(st, t, x, g))
  {
    var b := Test(st, t, x, g);
    hide QueueOf, Promised;
    forall y | y in b.sema ensures QueueOf(b, y) && Promised(b, y) {
      TestJoins(st, t, x, g, y);
    }
  }

  lemma TestPromised(st: State, t: nat, x: SemaId, g: Goal, y: SemaId)
    requires Testing(st, t, x, g) && x in st.sema && st.sema[x].value > 0
    requires g.ForWait? ==> g.cond in st.lockOf
    requires y in st.sema && Promised(st, y)
    ensures Promised(Test(st, t, x, g), y)
  {
    hide Num;
    NumMove(st.pc, t, Test(st, t, x, g).pc[t], WokenAt, y);
  }

  lemma TestTakesSemas(st: State, t: nat, x: SemaId, g: Goal)
    requires Queues(st) && Wakeups(st) && Testing(st, t, x, g) && x in st.sema && st.sema[x].value > 0
    requires g.ForWait? ==> g.cond in st.lockOf
    ensures Queues(Test(st, t, x, g)) && Wakeups(Test(st, t, x, g))
  {
    var b := Test(st, t, x, g);
    QueuesCarry(st, b);
    hide Promised, Queues;
    forall y | y in b.sema ensures Promised(b, y) {
      TestPromised(st, t, x, g, y);
    }
  }

  lemma TestLockBalance(st: State, t: nat, x: SemaId, g: Goal, l: nat)
    requires Testing(st, t, x, g) && x in st.sema && GoalShape(st, t, x, g)
    requires l in st.holder && LockSema(l) in st.sema && LockBalance(st, l)
    ensures LockBalance(Test(st, t, x, g), l)
  {
    var b := Test(st, t, x, g);
    hide Num;
    NumMove(st.pc, t, b.pc[t], TakingAt, LockSema(l));
    NumMove(st.pc, t, b.pc[t], RaisingAt, LockSema(l));
  }

  lemma TestLocks(st: State, t: nat, x: SemaId, g: Goal)
    requires Named(st) && Locks(st) && Testing(st, t, x, g) && x in st.sema && GoalShape(st, t, x, g)
    requires Named(Test(st, t, x, g))
    ensures Locks(Test(st, t, x, g))
  {
    var b := Test(st, t, x, g);
    assert HoldsAsNeeded(b, t, b.pc[t]);
    hide PcShape, LockBalance, HoldsAsNeeded, GoalShape;
    forall l | l in b.holder ensures LockBalance(b, l) {
      TestLockBalance(st, t, x, g, l);
    }
    forall u | u in b.pc ensures HoldsAsNeeded(b, u, b.pc[u]) {
      if u != t { NeedCarries(st, b, u, b.pc[u]); }
    }
  }

  lemma TestSignalBalance(st: State, t: nat, x: SemaId, g: Goal, u: nat)
    requires Testing(st, t, x, g) && x in st.sema && GoalShape(st, t, x, g)
    requires u in st.pc && WaiterSema(u) in st.sema && SignalBalance(st, u)
    ensures SignalBalance(Test(st, t, x, g), u)
  {
    var b := Test(st, t, x, g);
    hide Num;
    NumMove(st.pc, t, b.pc[t], RaisingAt, WaiterSema(u));
  }

  lemma TestCondQueue(st: State, t: nat, x: SemaId, g: Goal, c: nat)
    requires Testing(st, t, x, g) && x in st.sema && GoalShape(st, t, x, g)
    requires c in st.cond && CondQueue(st, c) && WaiterSema(t) in st.sema && SignalBalance(st, t)
    ensures CondQueue(Test(st, t, x, g), c)
  {
    hide Num, Distinct;
  }

  lemma TestConds(st: State, t: nat, x: SemaId, g: Goal)
    requires Named(st) && Conds(st) && Testing(st, t, x, g) && x in st.sema && GoalShape(st, t, x, g)
    requires Named(Test(st, t, x, g))
    ensures Conds(Test(st, t, x, g))
  {
    var b := Test(st, t, x, g);
    hide PcShape, SignalBalance, CondQueue, GoalShape;
    forall c | c in b.cond ensures CondQueue(b, c) {
      TestCondQueue(st, t, x, g, c);
    }
    forall u | u in b.pc ensures SignalBalance(b, u) {
      TestSignalBalance(st, t, x, g, u);
    }
  }

  lemma TestPcShape(st: State, t: nat, x: SemaId, g: Goal)
    requires Named(st) && Testing(st, t, x, g) && x in st.sema && GoalShape(st, t, x, g)
    ensures PcShape(st, t, Test(st, t, x, g).pc[t])
  {
  }

  lemma TestShape(st: State, t: nat, x: SemaId, g: Goal)
    requires Shape(st) && Testing(st, t, x, g) && x in st.sema && GoalShape(st, t, x, g)
    ensures Shape(Test(st, t, x, g))
  {
    TestPcShape(st, t, x, g);
    hide PcShape, GoalShape;
    ShapeCarries(st, Test(st, t, x, g));
  }

  lemma TestKeepsInv(st: State, t: nat, x: SemaId, g: Goal)
    requires Inv(st) && Testing(st, t, x, g) && x in st.sema && GoalShape(st, t, x, g)
    ensures Inv(Test(st, t, x, g))
  {
    TestShape(st, t, x, g);
    assert g.ForWait? ==> g.cond in st.lockOf;
    hide Shape, Queues, Wakeups, Locks, Conds, GoalShape, Testing, Test;
    if st.sema[x].value == 0 { TestBlocksSemas(st, t, x, g); } else { TestTakesSemas(st, t, x, g); }
    TestLocks(st, t, x, g);
    TestConds(st, t, x, g);
  }

  lemma UnblocksFirst(st: State, x: SemaId)
    requires Queues(st) && x in st.sema && st.sema[x].waiters != []
    ensures Unblocks(st, x, st.sema[x].waiters[0])
  {
    assert QueueOf(st, x);
    assert st.sema[x].waiters[0] in st.sema[x].waiters;
  }

  /** What sema_up does to each count: a woken thread more at the semaphore that had waiters. */
  lemma SemaUpCounts(st: State, x: SemaId, k: Kind, y: SemaId)
    requires Queues(st) && x in st.sema
    requires st.sema[x].waiters != [] ==> Unblocks(st, x, st.sema[x].waiters[0])
    ensures Num(SemaUp(st, x).pc, k, y) == Num(st.pc, k, y) + One(k == WokenAt && y == x && st.sema[x].waiters != [])
  {
    hide Num, Queues;
    if st.sema[x].waiters != [] {
      var w := st.sema[x].waiters[0];
      NumMove(st.pc, w, Woken(st.pc[w].sema, st.pc[w].goal), k, y);
    }
  }

  lemma SemaUpSemas(st: State, x: SemaId)
    requires Queues(st) && Wakeups(st) && x in st.sema
    requires st.sema[x].waiters != [] ==> Unblocks(st, x, st.sema[x].waiters[0])
    ensures Queues(SemaUp(st, x)) && Wakeups(SemaUp(st, x))
  {
    var b := SemaUp(st, x);
    hide Num;
    forall y | y in b.sema ensures QueueOf(b, y) && Promised(b, y) {
      assert QueueOf(st, y) && Promised(st, y);
      SemaUpCounts(st, x, WokenAt, y);
      if y == x && st.sema[x].waiters != [] {
        LeaveQueue(st.sema[x].waiters);
      } else {
        QueueCarries(st, b, y);
      }
    }
  }

  /** What a thread's sema_up does to each count. */
  lemma RaisedCounts(st: State, t: nat, x: SemaId, a: After, k: Kind, y: SemaId)
    requires Queues(st) && x in st.sema && t in st.pc && st.pc[t] == Up(x, a)
    requires st.sema[x].waiters != [] ==> Unblocks(st, x, st.sema[x].waiters[0])
    ensures Num(Raised(st, t, x, a).pc, k, y) + One(k == RaisingAt && y == x)
         == Num(st.pc, k, y) + One(k == WokenAt && y == x && st.sema[x].waiters != [])
  {
    var s := SemaUp(st, x);
    assert t in s.pc && s.pc[t] == st.pc[t];
    SemaUpCounts(st, x, k, y);
    hide Num, Queues, SemaUp;
    NumMove(s.pc, t, AfterUp(t, a), k, y);
  }

  lemma RaisedSemas(st: State, t: nat, x: SemaId, a: After)
    requires Queues(st) && Wakeups(st) && x in st.sema && t in st.pc && st.pc[t] == Up(x, a)
    requires st.sema[x].waiters != [] ==> Unblocks(st, x, st.sema[x].waiters[0])
    ensures Queues(Raised(st, t, x, a)) && Wakeups(Raised(st, t, x, a))
  {
    var s, b := SemaUp(st, x), Raised(st, t, x, a);
    assert t in s.pc && s.pc[t] == st.pc[t];
    SemaUpSemas(st, x);
    hide Num, SemaUp;
    QueuesCarry(s, b);
    hide Queues;
    forall y | y in b.sema ensures Promised(b, y) {
      assert Promised(s, y);
      NumMove(s.pc, t, AfterUp(t, a), WokenAt, y);
    }
  }

  predicate RaisedFrom(st: State, b: State, t: nat, x: SemaId, a: After) {
    && SameNames(st, b) && b.holder == st.holder && b.cond == st.cond
    && x in st.sema && t in st.pc && st.pc[t] == Up(x, a) && b.pc[t] == AfterUp(t, a)
    && b.sema[x].value == st.sema[x].value + 1
    && (forall y :: y in st.sema && y != x ==> b.sema[y] == st.sema[y])
    && (forall u :: u in st.pc && u != t && b.pc[u] != st.pc[u] ==> JustWoken(st.pc[u], b.pc[u]))
  }

  predicate JustWoken(p: Pc, q: Pc) {
    p.Blocked? && q == Woken(p.sema, p.goal)
  }

  lemma RaisedFields(st: State, t: nat, x: SemaId, a: After)
    requires x in st.sema && t in st.pc && st.pc[t] == Up(x, a)
    requires st.sema[x].waiters != [] ==> Unblocks(st, x, st.sema[x].waiters[0])
    ensures RaisedFrom(st, Raised(st, t, x, a), t, x, a)
  {
  }

  lemma RaisedNeeds(st: State, b: State, t: nat, x: SemaId, a: After, u: nat)
    requires RaisedFrom(st, b, t, x, a) && u in st.pc && HoldsAsNeeded(st, u, st.pc[u])
    ensures HoldsAsNeeded(b, u, b.pc[u])
  {
    if b.pc[u] == st.pc[u] { NeedCarries(st, b, u, b.pc[u]); }
  }

  lemma RaisedLockBalance(st: State, t: nat, x: SemaId, a: After, l: nat)
    requires Queues(st) && x in st.sema && t in st.pc && st.pc[t] == Up(x, a)
    requires st.sema[x].waiters != [] ==> Unblocks(st, x, st.sema[x].waiters[0])
    requires l in st.holder && LockSema(l) in st.sema && LockBalance(st, l)
    ensures LockBalance(Raised(st, t, x, a), l)
  {
    hide Num, Queues;
    RaisedCounts(st, t, x, a, TakingAt, LockSema(l));
    RaisedCounts(st, t, x, a, RaisingAt, LockSema(l));
  }

  lemma RaisedLocks(st: State, t: nat, x: SemaId, a: After)
    requires Named(st) && Queues(st) && Locks(st) && x in st.sema && t in st.pc && st.pc[t] == Up(x, a)
    requires st.sema[x].waiters != [] ==> Unblocks(st, x, st.sema[x].waiters[0])
    requires Named(Raised(st, t, x, a))
    ensures Locks(Raised(st, t, x, a))
  {
    var b := Raised(st, t, x, a);
    hide PcShape, Queues, HoldsAsNeeded, Raised, Unblocks, LockBalance;
    RaisedFields(st, t, x, a);
    forall l | l in b.holder ensures LockBalance(b, l) {
      RaisedLockBalance(st, t, x, a, l);
    }
    hide RaisedFrom;
    forall u | u in b.pc ensures HoldsAsNeeded(b, u, b.pc[u]) {
      RaisedNeeds(st, b, t, x, a, u);
    }
  }

  lemma RaisedWaiting(st: State, b: State, t: nat, x: SemaId, a: After, u: nat)
    requires RaisedFrom(st, b, t, x, a) && u in st.pc
    ensures WaitingFor(b.pc[u]) == WaitingFor(st.pc[u])
  {
  }

  lemma RaisedSignalBalance(st: State, t: nat, x: SemaId, a: After, u: nat)
    requires Queues(st) && x in st.sema && t in st.pc && st.pc[t] == Up(x, a)
    requires st.sema[x].waiters != [] ==> Unblocks(st, x, st.sema[x].waiters[0])
    requires u in st.pc && WaiterSema(u) in st.sema && SignalBalance(st, u)
    ensures SignalBalance(Raised(st, t, x, a), u)
  {
    var b := Raised(st, t, x, a);
    RaisedFields(st, t, x, a);
    RaisedWaiting(st, b, t, x, a, u);
    hide Num, Queues, WaitingFor, Raised;
    RaisedCounts(st, t, x, a, RaisingAt, WaiterSema(u));
  }

  lemma RaisedCondQueue(st: State, b: State, t: nat, x: SemaId, a: After, c: nat)
    requires RaisedFrom(st, b, t, x, a) && c in st.cond && CondQueue(st, c)
    ensures CondQueue(b, c)
  {
    hide Distinct;
    forall u | u in b.cond[c] ensures WaitingFor(b.pc[u]) == Some(c) {
      RaisedWaiting(st, b, t, x, a, u);
    }
  }

  lemma RaisedCondQueues(st: State, b: State, t: nat, x: SemaId, a: After)
    requires RaisedFrom(st, b, t, x, a) && forall c :: c in st.cond ==> CondQueue(st, c)
    ensures forall c :: c in b.cond ==> CondQueue(b, c)
  {
    assert b.cond == st.cond;
    hide CondQueue, RaisedFrom;
    forall c | c in b.cond ensures CondQueue(b, c) {
      RaisedCondQueue(st, b, t, x, a, c);
    }
  }

  lemma RaisedConds(st: State, t: nat, x: SemaId, a: After)
    requires Named(st) && Queues(st) && Conds(st) && x in st.sema && t in st.pc && st.pc[t] == Up(x, a)
    requires st.sema[x].waiters != [] ==> Unblocks(st, x, st.sema[x].waiters[0])
    requires Named(Raised(st, t, x, a))
    ensures Conds(Raised(st, t, x, a))
  {
    var b := Raised(st, t, x, a);
    hide Queues, Raised, Unblocks, SignalBalance, CondQueue;
    RaisedFields(st, t, x, a);
    assert b.pc.Keys == st.pc.Keys;
    hide RaisedFrom;
    RaisedCondQueues(st, b, t, x, a);
    forall u | u in b.pc ensures SignalBalance(b, u) {
      assert u in st.pc;
      RaisedSignalBalance(st, t, x, a, u);
    }
  }

  lemma RaisedShape(st: State, t: nat, x: SemaId, a: After)
    requires Shape(st) && x in st.sema && t in st.pc && st.pc[t] == Up(x, a)
    requires st.sema[x].waiters != [] ==> Unblocks(st, x, st.sema[x].waiters[0])
    ensures Shape(Raised(st, t, x, a))
  {
    var b := Raised(st, t, x, a);
    assert PcShape(st, t, st.pc[t]);
    if st.sema[x].waiters != [] {
      var w := st.sema[x].waiters[0];
      assert PcShape(st, w, st.pc[w]);
      assert PcShape(st, w, b.pc[w]);
    }
    assert PcShape(st, t, b.pc[t]);
    hide PcShape;
    ShapeCarries(st, b);
  }

  lemma RaisedKeepsInv(st: State, t: nat, x: SemaId, a: After)
    requires Inv(st) && x in st.sema && t in st.pc && st.pc[t] == Up(x, a)
    requires st.sema[x].waiters != [] ==> Unblocks(st, x, st.sema[x].waiters[0])
    ensures Inv(Raised(st, t, x, a))
  {
    hide PcShape, Queues, Wakeups, Locks, Conds, Unblocks, Raised;
    RaisedShape(st, t, x, a);
    RaisedSemas(st, t, x, a);
    RaisedLocks(st, t, x, a);
    RaisedConds(st, t, x, a);
  }

  // Steps that touch only a semaphore of its own

  ghost predicate OnlyOwn(a: State, b: State) {
    && SameNames(a, b) && a.holder == b.holder && a.cond == b.cond
    && (forall y :: y in a.sema && !y.User? ==> a.sema[y].value == b.sema[y].value)
    && (forall t :: t in b.pc && b.pc[t] != a.pc[t] ==> JustWoken(a.pc[t], b.pc[t]))
    && (forall k, y :: k != WokenAt ==> Num(a.pc, k, y) == Num(b.pc, k, y))
  }

  lemma LocksCarry(a: State, b: State)
    requires Named(a) && Named(b) && Locks(a) && OnlyOwn(a, b)
    ensures Locks(b)
  {
    hide Num, HoldsAsNeeded;
    forall l | l in b.holder ensures LockBalance(b, l) {
      assert LockBalance(a, l);
    }
    forall t | t in b.pc ensures HoldsAsNeeded(b, t, b.pc[t]) {
      WokenNeeds(a, b, t);
    }
  }

  lemma WokenNeeds(a: State, b: State, t: nat)
    requires a.holder == b.holder && a.lockOf == b.lockOf && t in a.pc && t in b.pc
    requires HoldsAsNeeded(a, t, a.pc[t])
    requires b.pc[t] == a.pc[t] || JustWoken(a.pc[t], b.pc[t])
    ensures HoldsAsNeeded(b, t, b.pc[t])
  {
  }

  lemma WaitingStays(a: State, b: State, t: nat)
    requires OnlyOwn(a, b) && t in a.pc
    ensures t in b.pc && WaitingFor(b.pc[t]) == WaitingFor(a.pc[t])
  {
    hide Num;
  }

  lemma CondQueueCarries(a: State, b: State, c: nat)
    requires OnlyOwn(a, b) && c in a.cond && CondQueue(a, c)
    ensures c in b.cond && CondQueue(b, c)
  {
    hide Num, Distinct, WaitingFor;
    forall t | t in b.cond[c] ensures t in b.pc && WaitingFor(b.pc[t]) == Some(c) {
      WaitingStays(a, b, t);
    }
  }

  lemma SignalCarries(a: State, b: State, t: nat)
    requires OnlyOwn(a, b) && t in a.pc && WaiterSema(t) in a.sema && SignalBalance(a, t)
    ensures t in b.pc && WaiterSema(t) in b.sema && SignalBalance(b, t)
  {
    WaitingStays(a, b, t);
    hide Num, WaitingFor;
  }

  lemma CondsCarry(a: State, b: State)
    requires Named(a) && Named(b) && Conds(a) && OnlyOwn(a, b)
    ensures Conds(b)
  {
    assert b.cond == a.cond && b.pc.Keys == a.pc.Keys;
    hide CondQueue, SignalBalance, OnlyOwn;
    forall c | c in b.cond ensures CondQueue(b, c) {
      CondQueueCarries(a, b, c);
    }
    forall t | t in b.pc ensures SignalBalance(b, t) {
      assert t in a.pc;
      SignalCarries(a, b, t);
    }
  }

  lemma InterruptUpShape(st: State, x: SemaId)
    requires Shape(st) && x in st.sema
    requires st.sema[x].waiters != [] ==> Unblocks(st, x, st.sema[x].waiters[0])
    ensures Shape(SemaUp(st, x))
  {
    var b := SemaUp(st, x);
    if st.sema[x].waiters != [] {
      var w := st.sema[x].waiters[0];
      assert PcShape(st, w, st.pc[w]);
      assert PcShape(st, w, b.pc[w]);
    }
    hide PcShape;
    ShapeCarries(st, b);
  }

  lemma InterruptUpOnlyOwn(st: State, x: SemaId)
    requires Queues(st) && x in st.sema && x.User?
    requires st.sema[x].waiters != [] ==> Unblocks(st, x, st.sema[x].waiters[0])
    ensures OnlyOwn(st, SemaUp(st, x))
  {
    hide Queues, Num;
    forall k, y | k != WokenAt ensures Num(st.pc, k, y) == Num(SemaUp(st, x).pc, k, y) {
      SemaUpCounts(st, x, k, y);
    }
  }

  lemma InterruptUpKeepsInv(st: State, x: SemaId)
    requires Inv(st) && x in st.sema && x.User?
    requires st.sema[x].waiters != [] ==> Unblocks(st, x, st.sema[x].waiters[0])
    ensures Inv(SemaUp(st, x))
  {
    hide PcShape, Queues, Wakeups, Locks, Conds, OnlyOwn, Unblocks, SemaUp;
    InterruptUpShape(st, x);
    SemaUpSemas(st, x);
    InterruptUpOnlyOwn(st, x);
    LocksCarry(st, SemaUp(st, x));
    CondsCarry(st, SemaUp(st, x));
  }

  lemma TryDownSemas(st: State, x: SemaId)
    requires Queues(st) && Wakeups(st) && x in st.sema
    ensures Queues(SemaTryDown(st, x)) && Wakeups(SemaTryDown(st, x))
  {
    var b := SemaTryDown(st, x);
    hide Num;
    QueuesCarry(st, b);
    hide QueueOf;
    forall y | y in b.sema ensures Promised(b, y) {
      assert Promised(st, y);
    }
  }

  lemma TryDownKeepsInv(st: State, x: SemaId)
    requires Inv(st) && x in st.sema && x.User?
    ensures Inv(SemaTryDown(st, x))
  {
    hide PcShape, Queues, Wakeups, Locks, Conds;
    ShapeCarries(st, SemaTryDown(st, x));
    TryDownSemas(st, x);
    assert OnlyOwn(st, SemaTryDown(st, x)) by { hide Num, Shape; }
    hide OnlyOwn, SemaTryDown;
    LocksCarry(st, SemaTryDown(st, x));
    CondsCarry(st, SemaTryDown(st, x));
  }

  // Steps of one thread that change the holder of a lock or the queue of a condition variable

  /** b differs from a in that one thread moves, from and to a place on no semaphore's list. */
  predicate OneMoves(a: State, b: State, t: nat, p: Pc) {
    && SameNames(a, b) && t in a.pc && b.pc == a.pc[t := p]
    && !a.pc[t].Blocked? && !a.pc[t].Woken? && !p.Blocked? && !p.Woken?
  }

  lemma OneMovesShape(a: State, b: State, t: nat, p: Pc)
    requires Shape(a) && OneMoves(a, b, t, p) && PcShape(a, t, p)
    requires HoldersKnown(b)
    ensures Shape(b)
  {
    hide PcShape;
    ShapeCarries(a, b);
  }

  lemma OneMovesSemas(a: State, b: State, t: nat, p: Pc)
    requires Queues(a) && Wakeups(a) && OneMoves(a, b, t, p)
    requires forall x :: x in a.sema ==> b.sema[x].waiters == a.sema[x].waiters && b.sema[x].value <= a.sema[x].value
    ensures Queues(b) && Wakeups(b)
  {
    hide Num;
    QueuesCarry(a, b);
    hide QueueOf, Queues;
    forall x | x in b.sema ensures Promised(b, x) {
      assert Promised(a, x);
      NumMove(a.pc, t, p, WokenAt, x);
    }
  }

  /** Conditions that concern no condition variable stay when the moving thread is in none. */
  lemma OneMovesConds(a: State, b: State, t: nat, p: Pc)
    requires Named(a) && Named(b) && Conds(a) && OneMoves(a, b, t, p) && a.cond == b.cond
    requires WaitingFor(p) == WaitingFor(a.pc[t])
    requires forall u :: !At(a.pc[t], RaisingAt, WaiterSema(u)) && !At(p, RaisingAt, WaiterSema(u))
    requires forall u :: WaiterSema(u) in a.sema ==> a.sema[WaiterSema(u)].value == b.sema[WaiterSema(u)].value
    ensures Conds(b)
  {
    hide Num, Distinct, At;
    forall c | c in b.cond ensures CondQueue(b, c) {
      assert CondQueue(a, c);
    }
    forall u | u in b.pc ensures SignalBalance(b, u) {
      assert SignalBalance(a, u);
      NumMove(a.pc, t, p, RaisingAt, WaiterSema(u));
    }
  }

  /** A move that concerns a lock at most. */
  ghost predicate LockMove(a: State, b: State, t: nat, p: Pc) {
    && OneMoves(a, b, t, p) && PcShape(a, t, p) && a.cond == b.cond
    && WaitingFor(p) == WaitingFor(a.pc[t])
    && (a.pc[t].Up? ==> !a.pc[t].sema.WaiterSema?) && (p.Up? ==> !p.sema.WaiterSema?)
    && (forall x :: x in a.sema ==> b.sema[x].waiters == a.sema[x].waiters && b.sema[x].value <= a.sema[x].value)
    && (forall u :: WaiterSema(u) in a.sema ==> a.sema[WaiterSema(u)].value == b.sema[WaiterSema(u)].value)
    && HoldersKnown(b)
  }

  lemma LockMoveKeepsRest(a: State, b: State, t: nat, p: Pc)
    requires Inv(a) && LockMove(a, b, t, p)
    ensures Shape(b) && Queues(b) && Wakeups(b) && Conds(b)
  {
    hide Queues, Wakeups, Locks, Conds, PcShape, WaitingFor;
    OneMovesShape(a, b, t, p);
    OneMovesSemas(a, b, t, p);
    assert forall u :: !At(a.pc[t], RaisingAt, WaiterSema(u)) && !At(p, RaisingAt, WaiterSema(u)) by {
      hide Shape;
    }
    OneMovesConds(a, b, t, p);
  }

  lemma OneMovesNeeds(a: State, b: State, t: nat, p: Pc, u: nat)
    requires OneMoves(a, b, t, p) && u in b.pc && HoldsAsNeeded(a, u, a.pc[u]) && HoldsAsNeeded(b, t, p)
    requires u != t ==> forall l :: Holds(a, u, l) ==> Holds(b, u, l)
    ensures HoldsAsNeeded(b, u, b.pc[u])
  {
    if u != t { NeedCarries(a, b, u, a.pc[u]); }
  }

  /** The three ways the balance of a lock moves from one term to another. */
  lemma LockBalanceMoves(a: State, b: State, t: nat, p: Pc, l: nat)
    requires OneMoves(a, b, t, p) && l in a.holder && LockSema(l) in a.sema && LockBalance(a, l)
    requires b.sema[LockSema(l)].value + One(b.holder[l].Some?) + One(At(p, TakingAt, LockSema(l))) + One(At(p, RaisingAt, LockSema(l)))
          == a.sema[LockSema(l)].value + One(a.holder[l].Some?) + One(At(a.pc[t], TakingAt, LockSema(l)))
             + One(At(a.pc[t], RaisingAt, LockSema(l)))
    ensures LockBalance(b, l)
  {
    hide Num, One, At;
    NumMove(a.pc, t, p, TakingAt, LockSema(l));
    NumMove(a.pc, t, p, RaisingAt, LockSema(l));
  }

  lemma AcquiredLocks(st: State, t: nat, l: nat)
    requires Named(st) && Locks(st) && t in st.pc && st.pc[t].Run? && l in st.holder && st.sema[LockSema(l)].value > 0
    requires Named(Acquired(st, t, l))
    ensures Locks(Acquired(st, t, l))
  {
    var b := Acquired(st, t, l);
    hide LockBalance;
    forall k | k in b.holder ensures LockBalance(b, k) {
      LockBalanceMoves(st, b, t, TakeHolder(l), k);
    }
    forall u | u in b.pc ensures HoldsAsNeeded(b, u, b.pc[u]) {
      OneMovesNeeds(st, b, t, TakeHolder(l), u);
    }
  }

  /** A thread about to become the holder finds none. */
  lemma NoHolderYet(st: State, t: nat, l: nat)
    requires Named(st) && Locks(st) && l in st.holder && t in st.pc
    requires At(st.pc[t], TakingAt, LockSema(l)) || At(st.pc[t], RaisingAt, LockSema(l))
    ensures st.holder[l] == None && st.sema[LockSema(l)].value == 0
  {
    assert LockBalance(st, l);
    assert t in Those(st.pc, TakingAt, LockSema(l)) || t in Those(st.pc, RaisingAt, LockSema(l));
  }

  lemma HolderSetLocks(st: State, t: nat, l: nat)
    requires Named(st) && Locks(st) && t in st.pc && st.pc[t] == TakeHolder(l) && l in st.holder
    requires Named(HolderSet(st, t, l))
    ensures Locks(HolderSet(st, t, l))
  {
    hide LockBalance;
    var b := HolderSet(st, t, l);
    NoHolderYet(st, t, l);
    assert HoldsAsNeeded(b, t, Run);
    hide HoldsAsNeeded;
    forall k | k in b.holder ensures LockBalance(b, k) {
      LockBalanceMoves(st, b, t, Run, k);
    }
    forall u | u in b.pc ensures HoldsAsNeeded(b, u, b.pc[u]) {
      OneMovesNeeds(st, b, t, Run, u);
    }
  }

  lemma HolderClearedLocks(st: State, t: nat, l: nat, a: After)
    requires Named(st) && Locks(st) && t in st.pc && st.pc[t] == DropHolder(l, a) && l in st.holder && !a.Again?
    requires Named(HolderCleared(st, t, l, a))
    ensures Locks(HolderCleared(st, t, l, a))
  {
    hide LockBalance;
    var b := HolderCleared(st, t, l, a);
    assert HoldsAsNeeded(st, t, st.pc[t]);
    assert HoldsAsNeeded(b, t, Up(LockSema(l), a));
    hide HoldsAsNeeded;
    forall k | k in b.holder ensures LockBalance(b, k) {
      LockBalanceMoves(st, b, t, Up(LockSema(l), a), k);
    }
    forall u | u in b.pc ensures HoldsAsNeeded(b, u, b.pc[u]) {
      OneMovesNeeds(st, b, t, Up(LockSema(l), a), u);
    }
  }

  lemma AcquiredKeepsInv(st: State, t: nat, l: nat)
    requires Inv(st) && t in st.pc && st.pc[t].Run? && l in st.holder && st.sema[LockSema(l)].value > 0
    ensures Inv(Acquired(st, t, l))
  {
    hide Queues, Wakeups, Locks, Conds;
    assert LockMove(st, Acquired(st, t, l), t, TakeHolder(l));
    hide Acquired, LockMove, PcShape;
    LockMoveKeepsRest(st, Acquired(st, t, l), t, TakeHolder(l));
    AcquiredLocks(st, t, l);
  }

  lemma HolderSetKeepsInv(st: State, t: nat, l: nat)
    requires Inv(st) && t in st.pc && st.pc[t] == TakeHolder(l) && l in st.holder
    ensures Inv(HolderSet(st, t, l))
  {
    hide Queues, Wakeups, Locks, Conds, Named;
    assert LockMove(st, HolderSet(st, t, l), t, Run);
    hide HolderSet, LockMove, PcShape;
    LockMoveKeepsRest(st, HolderSet(st, t, l), t, Run);
    HolderSetLocks(st, t, l);
  }

  lemma HolderClearedMoves(st: State, t: nat, l: nat, a: After)
    requires t in st.pc && st.pc[t] == DropHolder(l, a) && PcShape(st, t, st.pc[t])
    requires LockSema(l) in st.sema && HoldersKnown(st)
    ensures LockMove(st, HolderCleared(st, t, l, a), t, Up(LockSema(l), a))
  {
  }

  lemma HolderClearedKeepsInv(st: State, t: nat, l: nat, a: After)
    requires Inv(st) && t in st.pc && st.pc[t] == DropHolder(l, a)
    ensures Inv(HolderCleared(st, t, l, a))
  {
    assert PcShape(st, t, st.pc[t]);
    hide Queues, Wakeups, Locks, Conds, HolderCleared, LockMove, HoldersKnown;
    HolderClearedMoves(st, t, l, a);
    hide PcShape;
    LockMoveKeepsRest(st, HolderCleared(st, t, l, a), t, Up(LockSema(l), a));
    HolderClearedLocks(st, t, l, a);
  }

  lemma LockTakenSemas(st: State, b: State, t: nat, l: nat)
    requires Queues(st) && Wakeups(st) && LockSema(l) in st.sema && b == LockTaken(st, t, l)
    ensures Queues(b) && Wakeups(b)
  {
    hide Num, QueueOf;
    QueuesCarry(st, b);
    hide Queues;
    forall y | y in b.sema ensures Promised(b, y) {
      assert Promised(st, y);
    }
  }

  lemma LockTakenLocks(st: State, b: State, t: nat, l: nat)
    requires Named(st) && Named(b) && Locks(st) && l in st.holder && b == LockTaken(st, t, l)
    ensures Locks(b)
  {
    assert LockBalance(st, l);
    hide Num;
    forall k | k in b.holder ensures LockBalance(b, k) {
      assert LockBalance(st, k);
    }
    hide LockBalance;
    forall u | u in b.pc ensures HoldsAsNeeded(b, u, b.pc[u]) {
      NeedCarries(st, b, u, b.pc[u]);
    }
  }

  lemma LockTakenConds(st: State, b: State, t: nat, l: nat)
    requires Named(st) && Named(b) && Conds(st) && l in st.holder && b == LockTaken(st, t, l)
    ensures Conds(b)
  {
    hide Num, Distinct, WaitingFor;
    forall c | c in b.cond ensures CondQueue(b, c) {
      assert CondQueue(st, c);
    }
    forall u | u in b.pc ensures SignalBalance(b, u) {
      assert SignalBalance(st, u);
    }
  }

  lemma LockTakenKeepsInv(st: State, t: nat, l: nat)
    requires Inv(st) && t in st.pc && l in st.holder && LockSema(l) in st.sema
    ensures Inv(LockTaken(st, t, l))
  {
    hide PcShape, Queues, Wakeups, Locks, Conds;
    var b := LockTaken(st, t, l);
    ShapeCarries(st, b);
    hide LockTaken;
    LockTakenSemas(st, b, t, l);
    LockTakenLocks(st, b, t, l);
    LockTakenConds(st, b, t, l);
  }

  /** Nobody but the thread itself ever blocks on the semaphore of its cond_wait. */
  lemma OnlyItself(st: State, t: nat)
    requires Shape(st) && Queues(st) && t in st.pc
    ensures forall w :: w in st.sema[WaiterSema(t)].waiters ==> w == t && st.pc[t].Blocked?
  {
    var x := WaiterSema(t);
    assert QueueOf(st, x);
    forall w | w in st.sema[x].waiters ensures w == t && st.pc[t].Blocked? {
      assert BlockedOn(st.pc, w, x);
      assert PcShape(st, w, st.pc[w]);
    }
  }

  lemma NobodyOnOwn(st: State, t: nat)
    requires Shape(st) && Queues(st) && t in st.pc && !st.pc[t].Blocked?
    ensures st.sema[WaiterSema(t)].waiters == []
  {
    hide PcShape, Queues;
    OnlyItself(st, t);
    EmptyWithout(st.sema[WaiterSema(t)].waiters);
  }

  lemma EmptyWithout(q: seq<nat>)
    ensures (forall w :: w !in q) ==> q == []
  {
    assert q != [] ==> q[0] in q;
  }

  /** A move that concerns a condition variable at most. */
  ghost predicate CondMove(a: State, b: State, t: nat, p: Pc) {
    && OneMoves(a, b, t, p) && PcShape(a, t, p) && a.holder == b.holder
    && (a.pc[t].Run? || a.pc[t].Broadcasting?)
    && !p.TakeHolder? && (p.Up? ==> !p.sema.LockSema?) && HoldsAsNeeded(b, t, p)
    && (forall x :: x in a.sema ==> b.sema[x].waiters == a.sema[x].waiters && b.sema[x].value <= a.sema[x].value)
    && (forall l :: LockSema(l) in a.sema ==> a.sema[LockSema(l)] == b.sema[LockSema(l)])
  }

  lemma CondMoveLocks(a: State, b: State, t: nat, p: Pc)
    requires Named(a) && Named(b) && Locks(a) && CondMove(a, b, t, p)
    ensures Locks(b)
  {
    hide LockBalance, HoldsAsNeeded, PcShape;
    forall l | l in b.holder ensures LockBalance(b, l) {
      LockBalanceMoves(a, b, t, p, l);
    }
    forall u | u in b.pc ensures HoldsAsNeeded(b, u, b.pc[u]) {
      OneMovesNeeds(a, b, t, p, u);
    }
  }

  lemma CondMoveKeepsRest(a: State, b: State, t: nat, p: Pc)
    requires Inv(a) && CondMove(a, b, t, p)
    ensures Shape(b) && Queues(b) && Wakeups(b) && Locks(b)
  {
    hide Queues, Wakeups, Locks, Conds, PcShape, HoldsAsNeeded;
    OneMovesShape(a, b, t, p);
    OneMovesSemas(a, b, t, p);
    hide CondMove;
    CondMoveLocks(a, b, t, p);
  }

  lemma StartWaitSignal(st: State, t: nat, c: nat, u: nat)
    requires c in st.cond && c in st.lockOf && t in st.pc && st.pc[t].Run?
    requires WaiterSema(t) in st.sema && SignalBalance(st, t)
    requires u in st.pc && WaiterSema(u) in st.sema && SignalBalance(st, u) && CondQueue(st, c)
    ensures SignalBalance(StartWait(st, t, c), u)
  {
    var b := StartWait(st, t, c);
    hide Num;
    NumMove(st.pc, t, b.pc[t], RaisingAt, WaiterSema(u));
    JoinQueue(st.cond[c], t);
  }

  lemma StartWaitQueue(st: State, t: nat, c: nat, d: nat)
    requires c in st.cond && c in st.lockOf && t in st.pc && st.pc[t].Run? && d in st.cond && CondQueue(st, d)
    ensures CondQueue(StartWait(st, t, c), d)
  {
    var b := StartWait(st, t, c);
    if d == c { JoinQueue(st.cond[c], t); }
  }

  lemma StartWaitConds(st: State, t: nat, c: nat)
    requires Named(st) && Conds(st) && c in st.cond && c in st.lockOf && t in st.pc && st.pc[t].Run?
    requires Named(StartWait(st, t, c))
    ensures Conds(StartWait(st, t, c))
  {
    var b := StartWait(st, t, c);
    hide SignalBalance, CondQueue;
    forall d | d in b.cond ensures CondQueue(b, d) {
      StartWaitQueue(st, t, c, d);
    }
    forall u | u in b.pc ensures SignalBalance(b, u) {
      StartWaitSignal(st, t, c, u);
    }
  }

  lemma StartWaitMoves(st: State, t: nat, c: nat)
    requires t in st.pc && st.pc[t].Run? && c in st.cond && c in st.lockOf && Holds(st, t, st.lockOf[c])
    requires WaiterSema(t) in st.sema && st.sema[WaiterSema(t)].waiters == []
    ensures CondMove(st, StartWait(st, t, c), t, DropHolder(st.lockOf[c], Sleep(c)))
  {
  }

  lemma StartWaitKeepsInv(st: State, t: nat, c: nat)
    requires Inv(st) && t in st.pc && st.pc[t].Run? && c in st.cond && c in st.lockOf && Holds(st, t, st.lockOf[c])
    ensures Inv(StartWait(st, t, c))
  {
    hide PcShape, Queues, Wakeups, Locks, Conds, CondMove, StartWait;
    NobodyOnOwn(st, t);
    StartWaitMoves(st, t, c);
    CondMoveKeepsRest(st, StartWait(st, t, c), t, DropHolder(st.lockOf[c], Sleep(c)));
    StartWaitConds(st, t, c);
  }

  lemma PopSignal(st: State, t: nat, c: nat, a: After, u: nat)
    requires c in st.cond && st.cond[c] != [] && t in st.pc && (st.pc[t].Run? || st.pc[t].Broadcasting?) && !a.Sleep?
    requires u in st.pc && WaiterSema(u) in st.sema && SignalBalance(st, u) && CondQueue(st, c)
    ensures SignalBalance(PopWaiter(st, t, c, a), u)
  {
    var b := PopWaiter(st, t, c, a);
    hide Num;
    NumMove(st.pc, t, b.pc[t], RaisingAt, WaiterSema(u));
    LeaveQueue(st.cond[c]);
    assert st.cond[c][0] in st.cond[c];
  }

  lemma PopQueue(st: State, t: nat, c: nat, a: After, d: nat)
    requires c in st.cond && st.cond[c] != [] && t in st.pc && (st.pc[t].Run? || st.pc[t].Broadcasting?) && !a.Sleep?
    requires d in st.cond && CondQueue(st, d)
    ensures CondQueue(PopWaiter(st, t, c, a), d)
  {
    if d == c { LeaveQueue(st.cond[c]); }
  }

  lemma PopConds(st: State, t: nat, c: nat, a: After)
    requires Named(st) && Conds(st) && c in st.cond && st.cond[c] != []
    requires t in st.pc && (st.pc[t].Run? || st.pc[t].Broadcasting?) && !a.Sleep?
    requires Named(PopWaiter(st, t, c, a))
    ensures Conds(PopWaiter(st, t, c, a))
  {
    var b := PopWaiter(st, t, c, a);
    hide SignalBalance, CondQueue;
    forall d | d in b.cond ensures CondQueue(b, d) {
      PopQueue(st, t, c, a, d);
    }
    forall u | u in b.pc ensures SignalBalance(b, u) {
      PopSignal(st, t, c, a, u);
    }
  }

  lemma PopMoves(st: State, t: nat, c: nat, a: After)
    requires c in st.cond && st.cond[c] != [] && st.cond[c][0] in st.pc && WaiterSema(st.cond[c][0]) in st.sema
    requires t in st.pc && (st.pc[t].Run? || st.pc[t].Broadcasting?)
    requires c in st.lockOf && Holds(st, t, st.lockOf[c]) && (a == Return || a == Again(c))
    ensures CondMove(st, PopWaiter(st, t, c, a), t, Up(WaiterSema(st.cond[c][0]), a))
  {
  }

  lemma PopKeepsInv(st: State, t: nat, c: nat, a: After)
    requires Inv(st) && c in st.cond && st.cond[c] != []
    requires t in st.pc && (st.pc[t].Run? || st.pc[t].Broadcasting?)
    requires c in st.lockOf && Holds(st, t, st.lockOf[c]) && (a == Return || a == Again(c))
    ensures Inv(PopWaiter(st, t, c, a))
  {
    hide PcShape, Queues, Wakeups, Locks, CondMove, PopWaiter, SignalBalance;
    assert CondQueue(st, c) && st.cond[c][0] in st.cond[c];
    hide Conds, CondQueue;
    PopMoves(st, t, c, a);
    CondMoveKeepsRest(st, PopWaiter(st, t, c, a), t, Up(WaiterSema(st.cond[c][0]), a));
    PopConds(st, t, c, a);
  }

  lemma ContinueKeepsInv(st: State, t: nat)
    requires Inv(st) && t in st.pc && Midway(st.pc[t])
    ensures Inv(Continue(st, t))
  {
    assert PcShape(st, t, st.pc[t]);
    assert HoldsAsNeeded(st, t, st.pc[t]);
    hide Inv, Test, Raised, HolderSet, HolderCleared, PopWaiter;
    match st.pc[t]
    case Down(x, g) => TestKeepsInv(st, t, x, g);
    case Woken(x, g) => TestKeepsInv(st, t, x, g);
    case TakeHolder(l) => HolderSetKeepsInv(st, t, l);
    case DropHolder(l, a) => HolderClearedKeepsInv(st, t, l, a);
    case Up(x, a) =>
      if st.sema[x].waiters != [] { UnblocksFirst(st, x); }
      RaisedKeepsInv(st, t, x, a);
    case Broadcasting(c) =>
      if st.cond[c] == [] { MoveKeepsInv(st, t, Run); } else { PopKeepsInv(st, t, c, Again(c)); }
  }

  lemma SemaCallKeepsInv(st: State, t: nat, a: Action)
    requires Inv(st) && Enabled(st, By(t, a)) && (a.StartDown? || a.TryDown? || a.StartUp?)
    ensures Inv(SemaCall(st, t, a))
  {
    hide Inv, SemaTryDown;
    match a
    case StartDown(n) => MoveKeepsInv(st, t, Down(User(n), Plain));
    case TryDown(n) => TryDownKeepsInv(st, User(n));
    case StartUp(n) => MoveKeepsInv(st, t, Up(User(n), Return));
  }

  lemma LockCallKeepsInv(st: State, t: nat, a: Action)
    requires Inv(st) && Named(st) && Enabled(st, By(t, a)) && (a.Acquire? || a.TryAcquire? || a.Release?)
    ensures Inv(LockCall(st, t, a))
  {
    hide Inv, Acquired;
    match a
    case Acquire(l) => MoveKeepsInv(st, t, Down(LockSema(l), ForLock(l)));
    case TryAcquire(l) => if st.sema[LockSema(l)].value > 0 { AcquiredKeepsInv(st, t, l); }
    case Release(l) => MoveKeepsInv(st, t, DropHolder(l, Return));
  }

  lemma CondCallKeepsInv(st: State, t: nat, a: Action)
    requires Inv(st) && Enabled(st, By(t, a)) && (a.Wait? || a.Signal? || a.Broadcast?)
    ensures Inv(CondCall(st, t, a))
  {
    hide Inv, StartWait, PopWaiter;
    match a
    case Wait(c) => StartWaitKeepsInv(st, t, c);
    case Signal(c) => if st.cond[c] != [] { PopKeepsInv(st, t, c, Return); }
    case Broadcast(c) => if Holds(st, t, st.lockOf[c]) { MoveKeepsInv(st, t, Broadcasting(c)); }
  }

  /** Every step of every thread and every interrupt keeps the invariant. */
  lemma StepKeepsInv(st: State, e: Event)
    requires Inv(st) && Enabled(st, e)
    ensures Inv(Step(st, e))
  {
    match e
    case InterruptUp(n) =>
      hide PcShape, Wakeups, Locks, Conds, SemaUp;
      if st.sema[User(n)].waiters != [] { UnblocksFirst(st, User(n)); }
      InterruptUpKeepsInv(st, User(n));
    case InterruptTryDown(n) =>
      hide PcShape, Wakeups, Locks, Conds, SemaTryDown;
      TryDownKeepsInv(st, User(n));
    case InterruptTryAcquire(t, l) =>
      hide PcShape, Queues, Wakeups, Locks, Conds, LockTaken;
      LockTakenKeepsInv(st, t, l);
    case By(t, a) =>
      if a.Advance? {
        hide PcShape, Queues, Wakeups, Locks, Conds, Continue;
        ContinueKeepsInv(st, t);
      } else if a.StartDown? || a.TryDown? || a.StartUp? {
        hide PcShape, Queues, Wakeups, Locks, Conds, SemaCall;
        SemaCallKeepsInv(st, t, a);
      } else if a.Acquire? || a.TryAcquire? || a.Release? {
        hide PcShape, Queues, Wakeups, Locks, Conds, LockCall;
        LockCallKeepsInv(st, t, a);
      } else if a.Begin? || a.Exit? {
        hide Inv;
        MoveKeepsInv(st, t, if a.Begin? then Run else Gone);
      } else {
        hide PcShape, Queues, Wakeups, Locks, Conds, CondCall;
        CondCallKeepsInv(st, t, a);
      }
  }
}
