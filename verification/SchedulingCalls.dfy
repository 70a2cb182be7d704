/** What each operation of the scheduler means for the thread it is about: its status, its place on the
    ready list, and when it runs, over every run. */
module SchedulingCalls {
  import opened Scheduling

  // ---------- thread_unblock and thread_create ----------

  /** The thread is ready, behind all others, and nothing else changes. */
  lemma MadeReady(s: Sys, e: Event, t: nat)
    requires Inv(s) && Enabled(s, e) && (e == Unblock(t) || e == Create(t))
    ensures var b := Step(s, e);
            b == s.(status := s.status[t := Ready], ready := s.ready + [t])
  {
    hide Inv;
  }

  /** So it runs at exactly the next schedule but |s.ready|, and at none before. */
  lemma ReadiedRuns(s: Sys, e: Event, t: nat, es: seq<Event>, last: Event)
    requires Inv(s) && Enabled(s, e) && (e == Unblock(t) || e == Create(t)) && Inv(Step(s, e))
    requires IsRun(Step(s, e), es) && Enabled(Final(Step(s, e), es), last) && Schedules(Final(Step(s, e), es), last)
    ensures var b := Step(s, e);
            && (ScheduleCount(b, es) == |s.ready| ==> Step(Final(b, es), last).running == t)
            && (ScheduleCount(b, es) <= |s.ready| ==> Final(b, es).running != t)
  {
    hide Inv, Step, IsRun, Final, ScheduleCount, Schedules, Enabled;
    MadeReady(s, e, t);
    RunsInTurn(Step(s, e), es, last, |s.ready|);
  }

  // ---------- thread_block ----------

  /** A blocked thread that is not asleep for a time. */
  predicate BlockedFor(s: Sys, t: nat) {
    t in s.status && s.status[t] == Blocked && t != s.idle && t !in s.sleepers
  }

  /** The caller is blocked, and whoever was first in line runs. */
  lemma BlockBlocks(s: Sys)
    requires Inv(s)
    ensures var b := Step(s, Block);
            && (s.running != s.idle ==> BlockedFor(b, s.running))
            && b.running == (if s.ready == [] then s.idle else s.ready[0])
            && b.ready == (if s.ready == [] then [] else s.ready[1..])
  {
    if s.ready != [] { assert s.ready[0] in s.ready; }
  }

  lemma BlockedStep(s: Sys, e: Event, t: nat)
    requires Inv(s) && Enabled(s, e) && BlockedFor(s, t) && e != Unblock(t)
    ensures BlockedFor(Step(s, e), t)
  {
    if s.ready != [] { assert s.ready[0] in s.ready; }
    if e == Interrupt {
      AsleepNow(s);
      BlockedThrough(s, t);
    } else {
      hide Distinct;
    }
  }

  lemma BlockedThrough(s: Sys, t: nat)
    requires Inv(s) && BlockedFor(s, t) && Asleep(s.sleepers, s.left)
    ensures BlockedFor(TimerInterrupt(s), t)
  {
    hide Inv, Ticked, BlockedFor;
    TickedKeepsInv(s, |s.sleepers|);
    BlockedTicked(s, t);
    var u := Ticked(s, |s.sleepers|);
    BlockedYield(u.(slice := s.slice + 1), u, t);
  }

  lemma BlockedTicked(s: Sys, t: nat)
    requires Inv(s) && BlockedFor(s, t) && Asleep(s.sleepers, s.left)
    ensures BlockedFor(Ticked(s, |s.sleepers|), t)
  {
    Parted(s.sleepers, s.left);
    assert s.sleepers[..|s.sleepers|] == s.sleepers;
    hide Expired, StillAsleep, Distinct;
  }

  lemma BlockedYield(s: Sys, u: Sys, t: nat)
    requires Inv(u) && s == u.(slice := s.slice) && BlockedFor(u, t)
    ensures BlockedFor(YieldCurrent(s), t) && BlockedFor(s, t)
  {
    if u.ready != [] { assert u.ready[0] in u.ready; }
    hide Distinct;
  }

  /** It stays blocked, and does not run, until somebody unblocks it. */
  lemma {:induction false} StaysBlocked(s: Sys, es: seq<Event>, t: nat)
    requires Inv(s) && IsRun(s, es) && BlockedFor(s, t) && Unblock(t) !in es
    ensures BlockedFor(Final(s, es), t) && Final(s, es).running != t
    decreases |es|
  {
    if es == [] {
      assert s.status[t] == Running <==> t == s.running;
    } else {
      hide Inv, Step, BlockedFor, Enabled;
      StepKeepsInv(s, es[0]);
      BlockedStep(s, es[0], t);
      StaysBlocked(Step(s, es[0]), es[1..], t);
    }
  }

  // ---------- thread_yield ----------

  /** The caller, unless it is idle, stands behind all others, or runs on if there are none. */
  lemma YieldGoesBack(s: Sys)
    requires Inv(s)
    ensures var b := Step(s, Yield);
            && b.running == (if s.ready != [] then s.ready[0] else s.running)
            && b.ready == (if s.ready == [] then [] else if s.running == s.idle then s.ready[1..] else s.ready[1..] + [s.running])
            && b.sleepers == s.sleepers && b.left == s.left
  {
    if s.ready != [] { assert s.ready + [s.running] == [s.ready[0]] + (s.ready[1..] + [s.running]); }
  }

  /** So it runs again at exactly the |s.ready|-th schedule after this one. */
  lemma YieldedRuns(s: Sys, es: seq<Event>, last: Event)
    requires Inv(s) && s.running != s.idle && s.ready != [] && Inv(Step(s, Yield))
    requires IsRun(Step(s, Yield), es) && Enabled(Final(Step(s, Yield), es), last) && Schedules(Final(Step(s, Yield), es), last)
    ensures var b := Step(s, Yield);
            && (ScheduleCount(b, es) == |s.ready| - 1 ==> Step(Final(b, es), last).running == s.running)
            && (ScheduleCount(b, es) <= |s.ready| - 1 ==> Final(b, es).running != s.running)
  {
    hide Inv, Step, IsRun, Final, ScheduleCount, Schedules;
    YieldGoesBack(s);
    RunsInTurn(Step(s, Yield), es, last, |s.ready| - 1);
  }

  // ---------- thread_exit ----------

  lemma ExitEnds(s: Sys)
    requires Inv(s) && s.running != s.idle
    ensures var b := Step(s, Exit);
            && s.running !in b.status
            && b.running == (if s.ready == [] then s.idle else s.ready[0])
            && b.ready == (if s.ready == [] then [] else s.ready[1..])
  {
    if s.ready != [] { assert s.ready[0] in s.ready; }
  }

  lemma GoneStep(s: Sys, e: Event, t: nat)
    requires Inv(s) && Enabled(s, e) && t !in s.status && e != Create(t)
    ensures t !in Step(s, e).status
  {
    if s.ready != [] { assert s.ready[0] in s.ready; }
    if e == Interrupt {
      AsleepNow(s);
      TickedKeepsInv(s, |s.sleepers|);
      hide Expired, StillAsleep, Distinct;
      var u := Ticked(s, |s.sleepers|);
      if u.ready != [] { assert u.ready[0] in u.ready; }
    } else {
      hide Distinct;
    }
  }

  /** The thread is gone for good. */
  lemma {:induction false} StaysGone(s: Sys, es: seq<Event>, t: nat)
    requires Inv(s) && IsRun(s, es) && t !in s.status && Create(t) !in es
    ensures t !in Final(s, es).status && Final(s, es).running != t
    decreases |es|
  {
    if es == [] {
      assert s.running in s.status;
    } else {
      hide Inv, Step, Enabled;
      StepKeepsInv(s, es[0]);
      GoneStep(s, es[0], t);
      StaysGone(Step(s, es[0]), es[1..], t);
    }
  }

  // ---------- ThreadSleep ----------

  /** Asleep for n > 0 ticks the caller is blocked, last on the sleep list, and whoever was first in line runs;
      otherwise nothing happens. */
  lemma SleepSleeps(s: Sys, n: int)
    requires Inv(s) && s.running != s.idle
    ensures var b, t := Step(s, Sleep(n)), s.running;
            if n <= 0 then b == s
            else
              && t in b.status && b.status[t] == Blocked && b.sleepers == s.sleepers + [t] && b.left == s.left[t := n]
              && b.running == (if s.ready == [] then s.idle else s.ready[0])
  {
    if s.ready != [] { assert s.ready[0] in s.ready; }
  }

  // ---------- The timer ----------

  /** The sleepers that expire keep their order. */
  lemma {:induction false} ExpireInOrder(q: seq<nat>, left: map<nat, nat>, i: nat, j: nat)
    requires Asleep(q, left) && Distinct(q) && i < j < |q| && left[q[i]] == 1 && left[q[j]] == 1
    ensures exists k, l :: 0 <= k < l < |Expired(q, left)| && Expired(q, left)[k] == q[i] && Expired(q, left)[l] == q[j]
    decreases |q|
  {
    var r := q[..|q| - 1];
    LastApart(q);
    assert forall t :: t in r ==> t in q;
    if j < |q| - 1 {
      ExpireInOrder(r, left, i, j);
      var k, l :| 0 <= k < l < |Expired(r, left)| && Expired(r, left)[k] == r[i] && Expired(r, left)[l] == r[j];
      assert Expired(q, left)[k] == q[i] && Expired(q, left)[l] == q[j];
    } else {
      Parted(r, left);
      assert r[i] in r && r[i] in Expired(r, left);
      var k :| 0 <= k < |Expired(r, left)| && Expired(r, left)[k] == r[i];
      assert Expired(q, left)[k] == q[i] && Expired(q, left)[|Expired(r, left)|] == q[j];
    }
  }

  /** The ready list after a timer interrupt: those already on it, then the sleepers that expire, then the
      running thread if its turn is over and it is not idle; of these the first runs at the end of the turn. */
  lemma InterruptLines(s: Sys)
    requires Inv(s) && Asleep(s.sleepers, s.left)
    ensures var b := Step(s, Interrupt);
            var line := s.ready + Expired(s.sleepers, s.left);
            if s.slice + 1 < TIME_SLICE then b.ready == line && b.running == s.running && b.slice == s.slice + 1
            else
              var all := if s.running == s.idle then line else line + [s.running];
              && b.slice == 0
              && (all == [] ==> b.running == s.idle && b.ready == [])
              && (all != [] ==> b.running == all[0] && b.ready == all[1..])
  {
    hide Expired, StillAsleep, Distinct;
    assert s.sleepers[..|s.sleepers|] == s.sleepers;
  }

  /** Nobody's status changes but that of the thread that ran, the one that runs now, the one unblocked and
      the sleepers with one tick left at a timer interrupt. */
  lemma OthersKeepStatus(s: Sys, e: Event, u: nat)
    requires Inv(s) && Enabled(s, e) && u in s.status && u != s.running && u != Step(s, e).running && e != Unblock(u)
    requires e == Interrupt && u in s.sleepers ==> u in s.left && s.left[u] != 1
    ensures u in Step(s, e).status && Step(s, e).status[u] == s.status[u]
  {
    if e == Interrupt {
      AsleepNow(s);
      Parted(s.sleepers, s.left);
      assert s.sleepers[..|s.sleepers|] == s.sleepers;
      hide Expired, StillAsleep, Distinct, Inv;
    } else {
      hide Inv;
    }
  }
}
