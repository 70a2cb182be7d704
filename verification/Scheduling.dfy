/** The run queue, the sleep list and the timer of the round-robin kernel (threads/thread.c,
    devices/timer.c), once the idle thread has registered, as values: what each operation does, and
    what holds over every run of them. */
module Scheduling {

  const TIME_SLICE := 4

  datatype Status = Running | Ready | Blocked

  /** left is the sleepTick of each thread; slice counts the ticks of the running thread's turn. */
  datatype Sys = Sys(status: map<nat, Status>, ready: seq<nat>, running: nat, idle: nat,
                     sleepers: seq<nat>, left: map<nat, nat>, slice: nat)

  predicate Distinct(q: seq<nat>) {
    forall i, j :: 0 <= i < j < |q| ==> q[i] != q[j]
  }

  /** Exactly one thread runs; the ready threads other than idle are on the ready list exactly once
      and nobody else is; sleepers are blocked, with ticks left; a turn is at most a time slice. */
  predicate Inv(s: Sys) {
    && s.idle in s.status && s.running in s.status
    && (forall t :: t in s.status ==> (s.status[t] == Running <==> t == s.running))
    && Distinct(s.ready) && s.idle !in s.ready
    && (forall t :: t in s.ready ==> t in s.status && s.status[t] == Ready)
    && (forall t :: t in s.status && t != s.idle && s.status[t] == Ready ==> t in s.ready)
    && Distinct(s.sleepers) && s.idle !in s.sleepers
    && (forall t :: t in s.sleepers ==> t in s.status && s.status[t] == Blocked && t in s.left && s.left[t] > 0)
    && s.slice < TIME_SLICE
  }

  datatype Event = Create(t: nat) | Unblock(t: nat) | Block | Yield | Exit | Sleep(n: int) | Interrupt

  /** Nobody but the timer unblocks a sleeper, and nobody unblocks idle: neither is on any list of
      waiters. */
  predicate Enabled(s: Sys, e: Event) {
    match e
    case Create(t) => t !in s.status
    case Unblock(t) => t in s.status && s.status[t] == Blocked && t != s.idle && t !in s.sleepers
    case Exit => s.running != s.idle
    case Sleep(_) => s.running != s.idle
    case _ => true
  }

  /** schedule and schedule_tail, once the running thread has got its new status. */
  function Schedule(s: Sys): Sys {
    var next := if s.ready == [] then s.idle else s.ready[0];
    s.(status := s.status[next := Running], running := next, slice := 0,
       ready := if s.ready == [] then [] else s.ready[1..])
  }

  function BlockCurrent(s: Sys): Sys {
    Schedule(s.(status := s.status[s.running := Blocked]))
  }

  function YieldCurrent(s: Sys): Sys {
    Schedule(s.(status := s.status[s.running := Ready],
                ready := if s.running == s.idle then s.ready else s.ready + [s.running]))
  }

  function ExitCurrent(s: Sys): Sys {
    Schedule(s.(status := s.status - {s.running}))
  }

  function MakeReady(s: Sys, t: nat): Sys {
    s.(status := s.status[t := Ready], ready := s.ready + [t])
  }

  function SleepCurrent(s: Sys, n: int): Sys {
    if n <= 0 then s
    else BlockCurrent(s.(left := s.left[s.running := n], sleepers := s.sleepers + [s.running]))
  }

  predicate Asleep(q: seq<nat>, left: map<nat, nat>) {
    forall t :: t in q ==> t in left && left[t] > 0
  }

  /** The sleepers whose last tick this is, and the others, in order. */
  function Expired(q: seq<nat>, left: map<nat, nat>): seq<nat>
    requires Asleep(q, left)
  {
    if q == [] then []
    else
      var t := q[|q| - 1];
      Expired(q[..|q| - 1], left) + if left[t] == 1 then [t] else []
  }

  function StillAsleep(q: seq<nat>, left: map<nat, nat>): seq<nat>
    requires Asleep(q, left)
  {
    if q == [] then []
    else
      var t := q[|q| - 1];
      StillAsleep(q[..|q| - 1], left) + if left[t] == 1 then [] else [t]
  }

  /** The timer interrupt's traversal of the sleep list, after its first k elements. */
  function Ticked(s: Sys, k: nat): Sys
    requires k <= |s.sleepers| && Asleep(s.sleepers, s.left)
  {
    var q := s.sleepers[..k];
    s.(status := Woken(s.status, Expired(q, s.left)),
       ready := s.ready + Expired(q, s.left),
       left := map t | t in s.left :: if t in q then s.left[t] - 1 else s.left[t],
       sleepers := StillAsleep(q, s.left) + s.sleepers[k..])
  }

  /** timer_interrupt: a tick of the running thread's turn and of every sleeper, then a yield when the
      turn is over. */
  function TimerInterrupt(s: Sys): Sys
    requires Asleep(s.sleepers, s.left)
  {
    var u := Ticked(s, |s.sleepers|).(slice := s.slice + 1);
    if u.slice >= TIME_SLICE then YieldCurrent(u) else u
  }

  function Step(s: Sys, e: Event): Sys
    requires Inv(s) && Enabled(s, e)
  {
    match e
    case Create(t) => MakeReady(s, t)
    case Unblock(t) => MakeReady(s, t)
    case Block => BlockCurrent(s)
    case Yield => YieldCurrent(s)
    case Exit => ExitCurrent(s)
    case Sleep(n) => SleepCurrent(s, n)
    case Interrupt => TimerInterrupt(s)
  }

  // ---------- Every operation keeps the invariant ----------

  lemma Push(q: seq<nat>, t: nat)
    requires Distinct(q) && t !in q
    ensures Distinct(q + [t]) && forall u :: u in q + [t] <==> u in q || u == t
  {
    assert (q + [t])[|q|] == t;
  }

  lemma Pop(q: seq<nat>)
    requires Distinct(q) && q != []
    ensures Distinct(q[1..]) && forall u :: u in q[1..] <==> u in q && u != q[0]
  {
    assert q == [q[0]] + q[1..];
  }

  /** The invariant while the thread that ran is no longer running and the next is not chosen yet. */
  predicate Between(s: Sys) {
    && s.idle in s.status
    && (forall t :: t in s.status ==> s.status[t] != Running)
    && Distinct(s.ready) && s.idle !in s.ready
    && (forall t :: t in s.ready ==> t in s.status && s.status[t] == Ready)
    && (forall t :: t in s.status && t != s.idle && s.status[t] == Ready ==> t in s.ready)
    && Distinct(s.sleepers) && s.idle !in s.sleepers
    && (forall t :: t in s.sleepers ==> t in s.status && s.status[t] == Blocked && t in s.left && s.left[t] > 0)
  }

  lemma ScheduleRestores(s: Sys)
    requires Between(s)
    ensures Inv(Schedule(s))
  {
    if s.ready != [] {
      assert s.ready[0] in s.ready;
      Pop(s.ready);
    }
  }

  lemma BlockKeepsInv(s: Sys)
    requires Inv(s)
    ensures Inv(BlockCurrent(s))
  {
    ScheduleRestores(s.(status := s.status[s.running := Blocked]));
  }

  lemma YieldKeepsInv(s: Sys)
    requires Inv(s.(slice := 0))
    ensures Inv(YieldCurrent(s))
  {
    if s.running != s.idle { Push(s.ready, s.running); }
    ScheduleRestores(s.(status := s.status[s.running := Ready],
                        ready := if s.running == s.idle then s.ready else s.ready + [s.running]));
  }

  lemma ExitKeepsInv(s: Sys)
    requires Inv(s) && s.running != s.idle
    ensures Inv(ExitCurrent(s))
  {
    ScheduleRestores(s.(status := s.status - {s.running}));
  }

  lemma MakeReadyKeepsInv(s: Sys, t: nat)
    requires Inv(s) && t != s.idle && t !in s.sleepers && (t in s.status ==> s.status[t] == Blocked)
    ensures Inv(MakeReady(s, t))
  {
    Push(s.ready, t);
  }

  lemma SleepKeepsInv(s: Sys, n: int)
    requires Inv(s) && s.running != s.idle
    ensures Inv(SleepCurrent(s, n))
  {
    if n > 0 {
      var u := s.(left := s.left[s.running := n], sleepers := s.sleepers + [s.running]);
      Push(s.sleepers, s.running);
      ScheduleRestores(u.(status := u.status[s.running := Blocked]));
    }
  }

  lemma LastApart(q: seq<nat>)
    requires q != []
    ensures q == q[..|q| - 1] + [q[|q| - 1]]
    ensures forall t :: t in q <==> t in q[..|q| - 1] || t == q[|q| - 1]
    ensures Distinct(q) ==> Distinct(q[..|q| - 1]) && q[|q| - 1] !in q[..|q| - 1]
  {
  }

  /** Each sleeper is on exactly one of the two lists, by whether it has one tick left. */
  lemma {:induction false} Parted(q: seq<nat>, left: map<nat, nat>)
    requires Asleep(q, left) && Distinct(q)
    ensures forall t :: t in Expired(q, left) <==> t in q && left[t] == 1
    ensures forall t :: t in StillAsleep(q, left) <==> t in q && left[t] != 1
    ensures Distinct(Expired(q, left)) && Distinct(StillAsleep(q, left))
    decreases |q|
  {
    if q != [] {
      LastApart(q);
      var r, t := q[..|q| - 1], q[|q| - 1];
      Parted(r, left);
      Push(if left[t] == 1 then Expired(r, left) else StillAsleep(r, left), t);
    }
  }

  lemma Concatenated(a: seq<nat>, b: seq<nat>)
    requires Distinct(a) && Distinct(b) && forall t :: t in a ==> t !in b
    ensures Distinct(a + b) && forall t :: t in a + b <==> t in a || t in b
  {
    forall i, j | 0 <= i < j < |a + b| ensures (a + b)[i] != (a + b)[j] {
      if i < |a| <= j { assert a[i] in a && b[j - |a|] in b; }
    }
  }

  lemma Split(q: seq<nat>, k: nat)
    requires k <= |q| && Distinct(q)
    ensures Distinct(q[..k]) && Distinct(q[k..])
    ensures forall t :: t in q <==> t in q[..k] || t in q[k..]
    ensures forall t :: t in q[..k] ==> t !in q[k..]
  {
    assert q == q[..k] + q[k..];
  }

  lemma TickedKeepsInv(s: Sys, k: nat)
    requires Inv(s) && k <= |s.sleepers|
    ensures Inv(Ticked(s, k))
  {
    var q := s.sleepers[..k];
    Split(s.sleepers, k);
    Parted(q, s.left);
    hide Expired, StillAsleep, Distinct;
    Concatenated(s.ready, Expired(q, s.left));
    Concatenated(StillAsleep(q, s.left), s.sleepers[k..]);
  }

  lemma InterruptKeepsInv(s: Sys)
    requires Inv(s)
    ensures Inv(TimerInterrupt(s))
  {
    TickedKeepsInv(s, |s.sleepers|);
    hide Ticked;
    var u := Ticked(s, |s.sleepers|).(slice := s.slice + 1);
    if u.slice >= TIME_SLICE { YieldKeepsInv(u); }
  }

  /** Every operation and every timer interrupt keeps the invariant. */
  lemma StepKeepsInv(s: Sys, e: Event)
    requires Inv(s) && Enabled(s, e)
    ensures Inv(Step(s, e))
  {
    hide Inv, BlockCurrent, YieldCurrent, ExitCurrent, MakeReady, SleepCurrent, TimerInterrupt;
    match e
    case Create(t) => CreateIsFresh(s, t); MakeReadyKeepsInv(s, t);
    case Unblock(t) => MakeReadyKeepsInv(s, t);
    case Block => BlockKeepsInv(s);
    case Yield => SliceDoesNotMatter(s); YieldKeepsInv(s);
    case Exit => ExitKeepsInv(s);
    case Sleep(n) => SleepKeepsInv(s, n);
    case Interrupt => InterruptKeepsInv(s);
  }

  lemma SliceDoesNotMatter(s: Sys)
    requires Inv(s)
    ensures Inv(s.(slice := 0))
  {
  }

  lemma CreateIsFresh(s: Sys, t: nat)
    requires Inv(s) && t !in s.status
    ensures t != s.idle && t !in s.sleepers
  {
  }

  // ---------- Runs ----------

  ghost predicate IsRun(s: Sys, es: seq<Event>)
    requires Inv(s)
    decreases |es|
  {
    es == [] || (Enabled(s, es[0]) && (StepKeepsInv(s, es[0]); IsRun(Step(s, es[0]), es[1..])))
  }

  ghost function Final(s: Sys, es: seq<Event>): (r: Sys)
    requires Inv(s) && IsRun(s, es)
    ensures Inv(r)
    decreases |es|
  {
    if es == [] then s else StepKeepsInv(s, es[0]); Final(Step(s, es[0]), es[1..])
  }

  /** Whether the step ends with a call of schedule. */
  predicate Schedules(s: Sys, e: Event) {
    match e
    case Block => true
    case Yield => true
    case Exit => true
    case Sleep(n) => n > 0
    case Interrupt => s.slice + 1 >= TIME_SLICE
    case _ => false
  }

  function One(b: bool): nat { if b then 1 else 0 }

  ghost function ScheduleCount(s: Sys, es: seq<Event>): nat
    requires Inv(s) && IsRun(s, es)
    decreases |es|
  {
    if es == [] then 0
    else StepKeepsInv(s, es[0]); One(Schedules(s, es[0])) + ScheduleCount(Step(s, es[0]), es[1..])
  }

  function TickCount(es: seq<Event>): nat {
    if es == [] then 0 else One(es[0] == Interrupt) + TickCount(es[1..])
  }

  /** One step moves a queued thread up by one place, or out to run from the first, exactly when it
      schedules. */
  lemma PlaceStep(s: Sys, e: Event, i: nat)
    requires Inv(s) && Enabled(s, e) && i < |s.ready|
    ensures var b := Step(s, e);
            if !Schedules(s, e) then i < |b.ready| && b.ready[i] == s.ready[i]
            else if i == 0 then b.running == s.ready[0]
            else i - 1 < |b.ready| && b.ready[i - 1] == s.ready[i]
  {
    hide Expired, StillAsleep, Inv;
    if e == Interrupt { AsleepNow(s); }
  }

  lemma AsleepNow(s: Sys)
    requires Inv(s)
    ensures Asleep(s.sleepers, s.left)
  {
  }

  /** A schedule leaves the processor idle exactly when no other thread is ready. */
  lemma IdleOnlyForWant(s: Sys, e: Event)
    requires Inv(s) && Enabled(s, e) && Schedules(s, e)
    ensures var b := Step(s, e);
            b.running == b.idle <==> forall t :: t in b.status && t != b.idle ==> b.status[t] == Blocked
  {
    StepKeepsInv(s, e);
    var b := Step(s, e);
    LeavesQueue(s, e);
  }

  lemma LeavesQueue(s: Sys, e: Event)
    requires Inv(s) && Enabled(s, e) && Schedules(s, e)
    ensures Step(s, e).idle == s.idle && (Step(s, e).running == s.idle ==> Step(s, e).ready == [])
  {
    hide Expired, StillAsleep, Distinct;
    if e == Interrupt {
      TickedKeepsInv(s, |s.sleepers|);
      var u := Ticked(s, |s.sleepers|);
      hide Ticked;
      if u.ready != [] { assert u.ready[0] in u.ready; }
    } else if s.ready != [] {
      assert s.ready[0] in s.ready;
    }
  }

  /** Until the thread's turn comes it stays queued, one place further at each schedule. */
  lemma {:induction false} PlaceOverRun(s: Sys, es: seq<Event>, i: nat)
    requires Inv(s) && IsRun(s, es) && i < |s.ready| && ScheduleCount(s, es) <= i
    ensures var k := i - ScheduleCount(s, es);
            k < |Final(s, es).ready| && Final(s, es).ready[k] == s.ready[i]
    decreases |es|
  {
    hide Inv, Step, Schedules;
    if es != [] {
      StepKeepsInv(s, es[0]);
      PlaceStep(s, es[0], i);
      PlaceOverRun(Step(s, es[0]), es[1..], i - One(Schedules(s, es[0])));
    }
  }

  lemma {:induction false} RunExtends(s: Sys, es: seq<Event>, e: Event)
    requires Inv(s) && IsRun(s, es) && Enabled(Final(s, es), e)
    ensures IsRun(s, es + [e])
    ensures Final(s, es + [e]) == Step(Final(s, es), e)
    ensures ScheduleCount(s, es + [e]) == ScheduleCount(s, es) + One(Schedules(Final(s, es), e))
    decreases |es|
  {
    hide Inv, Step, Schedules, Enabled;
    if es == [] {
      StepKeepsInv(s, e);
      assert [e][1..] == [];
      assert IsRun(Step(s, e), []);
    } else {
      StepKeepsInv(s, es[0]);
      RunExtends(Step(s, es[0]), es[1..], e);
      assert (es + [e])[1..] == es[1..] + [e];
    }
  }

  /** Round robin: a thread with i others in front of it runs at exactly the (i + 1)-th schedule from
      now, and at none before. */
  lemma RunsInTurn(s: Sys, es: seq<Event>, e: Event, i: nat)
    requires Inv(s) && IsRun(s, es) && Enabled(Final(s, es), e) && Schedules(Final(s, es), e)
    requires i < |s.ready|
    ensures ScheduleCount(s, es) == i ==> Step(Final(s, es), e).running == s.ready[i]
    ensures ScheduleCount(s, es) <= i ==> Final(s, es).running != s.ready[i]
  {
    if ScheduleCount(s, es) <= i {
      PlaceOverRun(s, es, i);
      QueuedIsNotRunning(Final(s, es), i - ScheduleCount(s, es));
      hide Inv, Step, Schedules, Final, ScheduleCount, IsRun;
      if ScheduleCount(s, es) == i { PlaceStep(Final(s, es), e, 0); }
    }
  }

  lemma QueuedIsNotRunning(s: Sys, i: nat)
    requires Inv(s) && i < |s.ready|
    ensures s.ready[i] != s.running
  {
    assert s.ready[i] in s.ready;
  }

  /** Every four ticks bring a schedule, so that thread waits for at most 4(i + 1) ticks. */
  lemma {:induction false} TicksBringSchedules(s: Sys, es: seq<Event>)
    requires Inv(s) && IsRun(s, es)
    ensures s.slice + TickCount(es) <= TIME_SLICE * ScheduleCount(s, es) + Final(s, es).slice
    decreases |es|
  {
    hide Inv, Step, Schedules;
    if es != [] {
      StepKeepsInv(s, es[0]);
      SliceStep(s, es[0]);
      TicksBringSchedules(Step(s, es[0]), es[1..]);
    }
  }

  lemma SliceStep(s: Sys, e: Event)
    requires Inv(s) && Enabled(s, e)
    ensures s.slice + One(e == Interrupt) <= TIME_SLICE * One(Schedules(s, e)) + Step(s, e).slice
    ensures s.slice < TIME_SLICE && (Schedules(s, e) ==> Step(s, e).slice == 0)
  {
    hide Expired, StillAsleep;
  }

  /** No queued thread starves: within 4(i + 1) ticks the thread at place i is running. */
  lemma WaitIsBounded(s: Sys, es: seq<Event>, i: nat)
    requires Inv(s) && IsRun(s, es) && i < |s.ready| && TickCount(es) >= 4 * (i + 1)
    ensures exists k: nat :: RunsAfter(s, es, k, s.ready[i]) && TickCount(es[..k]) <= 4 * (i + 1)
  {
    hide Inv, IsRun, Final, ScheduleCount, TickCount, RunsAfter;
    TicksBringSchedules(s, es);
    SliceBound(Final(s, es));
    var k := TurnComes(s, es, i);
  }

  /** After the first k events of the run, t is the running thread. */
  ghost predicate RunsAfter(s: Sys, es: seq<Event>, k: nat, t: nat)
    requires Inv(s)
  {
    k <= |es| && IsRun(s, es[..k]) && Final(s, es[..k]).running == t
  }

  lemma {:induction false} TurnComes(s: Sys, es: seq<Event>, i: nat) returns (k: nat)
    requires Inv(s) && IsRun(s, es) && i < |s.ready| && ScheduleCount(s, es) >= i + 1
    ensures RunsAfter(s, es, k, s.ready[i]) && s.slice + TickCount(es[..k]) <= TIME_SLICE * (i + 1)
    decreases |es|
  {
    hide Inv, Step, Schedules, Enabled;
    StepKeepsInv(s, es[0]);
    var b := Step(s, es[0]);
    PlaceStep(s, es[0], i);
    SliceStep(s, es[0]);
    if Schedules(s, es[0]) && i == 0 {
      k := 1;
      assert es[..1] == [es[0]] && [es[0]][1..] == [];
      assert IsRun(b, []) && Final(b, []) == b;
    } else {
      var j := TurnComes(b, es[1..], i - One(Schedules(s, es[0])));
      k := j + 1;
      assert es[..k][0] == es[0] && es[..k][1..] == es[1..][..j];
    }
  }

  lemma SliceBound(s: Sys)
    requires Inv(s)
    ensures s.slice < TIME_SLICE
  {
  }

  // ---------- The alarm clock ----------

  /** What one step does to a sleeper: nothing, except that a timer interrupt takes one tick off, and
      makes it ready when that was the last. */
  lemma SleeperStep(s: Sys, e: Event, t: nat)
    requires Inv(s) && Enabled(s, e) && t in s.sleepers
    ensures var b := Step(s, e);
            if e != Interrupt then t in b.sleepers && b.left[t] == s.left[t]
            else if s.left[t] > 1 then t in b.sleepers && b.left[t] == s.left[t] - 1
            else t !in b.sleepers && t in b.status && b.status[t] != Blocked
  {
    if e == Interrupt {
      SleeperTick(s, t);
    } else {
      StepKeepsInv(s, e);
      hide Distinct;
      assert t != s.running;
    }
  }

  lemma SleeperTick(s: Sys, t: nat)
    requires Inv(s) && t in s.sleepers
    ensures var b := TimerInterrupt(s);
            && t in b.left && t in b.status
            && if s.left[t] > 1 then t in b.sleepers && b.left[t] == s.left[t] - 1
               else t !in b.sleepers && b.status[t] != Blocked
  {
    Parted(s.sleepers, s.left);
    assert s.sleepers[..|s.sleepers|] == s.sleepers;
    hide Expired, StillAsleep, Distinct;
  }

  /** A sleeper with k ticks left stays blocked through fewer than k timer interrupts, whatever else
      happens, and has that many fewer left. */
  lemma {:induction false} SleepsThrough(s: Sys, es: seq<Event>, t: nat)
    requires Inv(s) && IsRun(s, es) && t in s.sleepers && TickCount(es) < s.left[t]
    ensures t in Final(s, es).sleepers && Final(s, es).left[t] == s.left[t] - TickCount(es)
    ensures t in Final(s, es).status && Final(s, es).status[t] == Blocked
    decreases |es|
  {
    if es != [] {
      StepKeepsInv(s, es[0]);
      SleeperStep(s, es[0], t);
      hide Step;
      SleepsThrough(Step(s, es[0]), es[1..], t);
    }
  }

  /** timer_sleep(n) with n > 0: blocked from the call on, and ready at exactly the n-th timer
      interrupt after it. */
  lemma WakesOnTime(s: Sys, n: int, es: seq<Event>)
    requires Inv(s) && s.running != s.idle && n > 0
    requires Inv(SleepCurrent(s, n)) && IsRun(SleepCurrent(s, n), es)
    ensures var t, b := s.running, SleepCurrent(s, n);
            && (TickCount(es) < n ==> t in Final(b, es).status && Final(b, es).status[t] == Blocked)
            && (TickCount(es) == n - 1 ==>
                  var a := Step(Final(b, es), Interrupt); t in a.status && a.status[t] != Blocked && t !in a.sleepers)
  {
    var t, b := s.running, SleepCurrent(s, n);
    assert b.sleepers[|s.sleepers|] == t;
    if TickCount(es) < n {
      SleepsThrough(b, es, t);
      if TickCount(es) == n - 1 { SleeperStep(Final(b, es), Interrupt, t); }
    }
  }

  /** No operation but thread_exit takes a thread away. */
  lemma ThreadsStay(s: Sys)
    requires Inv(s.(slice := 0))
    ensures BlockCurrent(s).status.Keys == s.status.Keys == YieldCurrent(s).status.Keys
    ensures s.running != s.idle ==> ExitCurrent(s).status.Keys == s.status.Keys - {s.running}
    ensures s.running != s.idle ==> forall n :: SleepCurrent(s, n).status.Keys == s.status.Keys
  {
    hide Distinct;
    if s.ready != [] { assert s.ready[0] in s.ready; }
  }

  lemma SleepFacts(s: Sys, n: int)
    requires Inv(s) && s.running != s.idle && n > 0
    ensures s.running in s.status && s.running !in s.sleepers
    ensures Inv(SleepCurrent(s, n)) && SleepCurrent(s, n).status.Keys == s.status.Keys
  {
    SleepKeepsInv(s, n);
    SliceDoesNotMatter(s);
    ThreadsStay(s);
  }

  /** The traversal one element at a time: the next sleeper loses a tick, and with its last tick its
      place on the list. */
  function TickNext(u: Sys, t: nat, p: nat): Sys
    requires t in u.left && u.left[t] > 0 && p < |u.sleepers|
  {
    var w := u.(left := u.left[t := u.left[t] - 1]);
    if w.left[t] > 0 then w
    else MakeReady(w, t).(sleepers := u.sleepers[..p] + u.sleepers[p + 1..])
  }

  lemma TickedLeft(s: Sys, k: nat)
    requires Inv(s) && k < |s.sleepers|
    ensures var t := s.sleepers[k];
            && t in s.left && s.left[t] > 0 && t in Ticked(s, k).left && Ticked(s, k).left[t] == s.left[t]
            && Ticked(s, k + 1).left == Ticked(s, k).left[t := s.left[t] - 1]
  {
    var t, q := s.sleepers[k], s.sleepers[..k];
    assert t in s.sleepers;
    assert s.sleepers[..k + 1] == q + [t];
    hide Expired, StillAsleep;
    assert t !in q;
  }

  lemma SlotOf(q: seq<nat>, left: map<nat, nat>, k: nat)
    requires Asleep(q, left) && k < |q|
    ensures Expired(q[..k + 1], left) == Expired(q[..k], left) + if left[q[k]] == 1 then [q[k]] else []
    ensures StillAsleep(q[..k + 1], left) == StillAsleep(q[..k], left) + if left[q[k]] == 1 then [] else [q[k]]
  {
    assert q[..k + 1][..k] == q[..k];
  }

  lemma CutMiddle(a: seq<nat>, q: seq<nat>, k: nat)
    requires k < |q|
    ensures (a + q[k..])[..|a|] + (a + q[k..])[|a| + 1..] == a + q[k + 1..]
    ensures a + [q[k]] + q[k + 1..] == a + q[k..]
  {
  }

  function Woken(status: map<nat, Status>, q: seq<nat>): map<nat, Status> {
    map t | t in status :: if t in q then Ready else status[t]
  }

  lemma WokenNext(status: map<nat, Status>, q: seq<nat>, t: nat)
    requires t in status
    ensures Woken(status, q + [t]) == Woken(status, q)[t := Ready]
  {
  }

  /** What the traversal has done after one element more, field by field. */
  lemma TickedFields(s: Sys, k: nat)
    requires Inv(s) && k < |s.sleepers|
    ensures var u, w, t, q := Ticked(s, k), Ticked(s, k + 1), s.sleepers[k], StillAsleep(s.sleepers[..k], s.left);
            && w.status == (if s.left[t] == 1 then u.status[t := Ready] else u.status)
            && w.ready == (if s.left[t] == 1 then u.ready + [t] else u.ready)
            && u.sleepers == q + s.sleepers[k..]
            && w.sleepers == (if s.left[t] == 1 then q + s.sleepers[k + 1..] else q + [t] + s.sleepers[k + 1..])
  {
    var t, q := s.sleepers[k], s.sleepers[..k];
    SlotOf(s.sleepers, s.left, k);
    assert t in s.sleepers && t in s.status && Asleep(s.sleepers, s.left);
    hide Expired, StillAsleep, Distinct, Inv, Asleep;
    WokenNext(s.status, Expired(q, s.left), t);
    assert s.ready + (Expired(q, s.left) + [t]) == s.ready + Expired(q, s.left) + [t];
    hide Woken;
  }

  lemma TickedStep(s: Sys, k: nat)
    requires Inv(s) && k < |s.sleepers|
    ensures var u, t, p := Ticked(s, k), s.sleepers[k], |StillAsleep(s.sleepers[..k], s.left)|;
            t in u.left && u.left[t] > 0 && p < |u.sleepers| && Ticked(s, k + 1) == TickNext(u, t, p)
  {
    TickedLeft(s, k);
    TickedFields(s, k);
    CutMiddle(StillAsleep(s.sleepers[..k], s.left), s.sleepers, k);
    hide Expired, StillAsleep, Inv, Woken;
  }

  lemma SleeperKnown(s: Sys, k: nat)
    requires Inv(s) && k < |s.sleepers|
    ensures s.sleepers[k] in Ticked(s, k).status
  {
    hide Expired, StillAsleep, Distinct;
    assert s.sleepers[k] in s.sleepers;
  }

  lemma TickedNone(s: Sys)
    requires Inv(s)
    ensures Ticked(s, 0) == s && StillAsleep(s.sleepers[..0], s.left) == []
  {
    hide Distinct;
    assert s.sleepers[..0] == [];
    assert Ticked(s, 0).status == s.status && Ticked(s, 0).left == s.left;
    assert s.sleepers[0..] == s.sleepers;
  }

  lemma TickTurn(s: Sys)
    requires Inv(s)
    ensures Asleep(s.sleepers, s.left)
    ensures var u := Ticked(s, |s.sleepers|);
            && u.slice == s.slice && Inv(u.(slice := 0))
            && (s.slice + 1 < TIME_SLICE ==> Inv(u.(slice := s.slice + 1)))
  {
    TickedKeepsInv(s, |s.sleepers|);
    hide Expired, StillAsleep, Distinct;
  }
}
