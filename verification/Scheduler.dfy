/** The scheduler and the alarm clock as the kernel runs them: fields updated in place, and a sleep
    list of linked elements that the timer interrupt unlinks while it walks along it. */
module Scheduler {
  import opened KernelList
  import S = Scheduling

  ghost function Ids(q: seq<Elem>): (r: seq<nat>)
    ensures |r| == |q| && forall i :: 0 <= i < |q| ==> r[i] == q[i].id
  {
    seq(|q|, i requires 0 <= i < |q| => q[i].id)
  }

  lemma IdsJoin(a: seq<Elem>, b: seq<Elem>)
    ensures Ids(a + b) == Ids(a) + Ids(b)
  {
  }

  lemma IdsCut(q: seq<Elem>, p: nat)
    requires p < |q|
    ensures Ids(q[..p] + q[p + 1..]) == Ids(q)[..p] + Ids(q)[p + 1..]
  {
  }

  lemma NotListed(q: seq<Elem>, e: Elem)
    requires e.id !in Ids(q)
    ensures e !in q
  {
    assert forall i :: 0 <= i < |q| ==> Ids(q)[i] in Ids(q);
  }

  /** Each thread's list element carries its thread, and those on the list are such elements. */
  ghost predicate Known(elem: map<nat, Elem>, head: Elem, tail: Elem, q: seq<Elem>) {
    && (forall t :: t in elem ==> elem[t].id == t && elem[t] != head && elem[t] != tail)
    && (forall i :: 0 <= i < |q| ==> q[i].id in elem && elem[q[i].id] == q[i])
  }

  lemma ChainCut(head: Elem, q: seq<Elem>, tail: Elem, p: nat)
    requires p < |q|
    ensures var c := [head] + q + [tail];
            c[p + 1] == q[p] && c[..p + 1] + c[p + 2..] == [head] + (q[..p] + q[p + 1..]) + [tail]
  {
  }

  lemma KnownCut(elem: map<nat, Elem>, head: Elem, tail: Elem, q: seq<Elem>, p: nat)
    requires Known(elem, head, tail, q) && p < |q|
    ensures Known(elem, head, tail, q[..p] + q[p + 1..])
  {
  }

  ghost predicate Among(a: seq<Elem>, b: seq<Elem>) {
    forall i :: 0 <= i < |a| ==> a[i] in b
  }

  lemma ChainAmong(head: Elem, a: seq<Elem>, b: seq<Elem>, tail: Elem)
    requires Among(a, b)
    ensures Among([head] + a + [tail], [head] + b + [tail])
  {
  }

  lemma CutIsAmong(r: seq<Elem>, p: nat)
    requires p < |r|
    ensures Among(r[..p] + r[p + 1..], r)
  {
  }

  /** The rest of the list before and after element p is dealt with, kept or cut. */
  lemma RestMoves(head: Elem, r: seq<Elem>, tail: Elem, q: seq<Elem>, p: nat, k: nat)
    requires p <= |r| && k < |q| && r[p..] == q[k..]
    ensures p < |r| && r[p] == q[k] && Ids(q)[k] == r[p].id && r[p + 1..] == q[k + 1..]
    ensures ([head] + r + [tail])[p + 1] == r[p]
    ensures var c := r[..p] + r[p + 1..];
            c[p..] == q[k + 1..] && ([head] + c + [tail])[p + 1] == ([head] + r + [tail])[p + 2]
  {
    assert r[p..][0] == q[k..][0];
    assert r[p + 1..] == r[p..][1..] && q[k + 1..] == q[k..][1..];
  }

  class Scheduler {
    var status: map<nat, S.Status>
    var readyList: seq<nat>
    var running: nat
    const idle: nat
    const sleepList: List
    var sleepElem: map<nat, Elem>   // the list element embedded in each thread
    var sleepTick: map<nat, nat>
    var threadTicks: nat

    ghost function Value(): S.Sys
      reads this, sleepList
    {
      S.Sys(status, readyList, running, idle, Ids(sleepList.elems), sleepTick, threadTicks)
    }

    ghost predicate Valid()
      reads this, sleepList, sleepList.Chain()
    {
      Tables() && S.Inv(Value())
    }

    ghost predicate Tables()
      reads this, sleepList, sleepList.Chain()
    {
      && sleepList.Valid() && Known(sleepElem, sleepList.head, sleepList.tail, sleepList.elems)
      && status.Keys <= sleepElem.Keys
    }

    /** The kernel once the idle thread has registered itself. */
    constructor (first: nat, idle: nat)
      requires first != idle
      ensures Valid() && fresh(sleepList) && fresh(sleepList.Chain())
      ensures Value() == S.Sys(map[first := S.Running, idle := S.Blocked], [], first, idle, [], map[], 0)
    {
      hide Linked;
      this.idle := idle;
      status := map[first := S.Running, idle := S.Blocked];
      readyList, running, sleepTick, threadTicks := [], first, map[], 0;
      sleepList := new List();
      var a := new Elem(first);
      var b := new Elem(idle);
      sleepElem := map[first := a, idle := b];
    }

    /** next_thread_to_run, schedule and schedule_tail. */
    method Schedule()
      requires sleepList.Valid() && (running !in status || status[running] != S.Running)
      modifies this`status, this`readyList, this`running, this`threadTicks
      ensures sleepList.Valid() && Value() == S.Schedule(old(Value()))
    {
      var next;
      if readyList == [] {
        next := idle;
      } else {
        next := readyList[0];
        readyList := readyList[1..];
      }
      running := next;
      status := status[next := S.Running];
      threadTicks := 0;
    }

    /** thread_block, called by a thread that may just have put itself on the sleep list. */
    method ThreadBlock()
      requires Tables() && S.Inv(S.BlockCurrent(Value())) && S.BlockCurrent(Value()).status.Keys <= sleepElem.Keys
      modifies this`status, this`readyList, this`running, this`threadTicks
      ensures Valid() && Value() == S.BlockCurrent(old(Value()))
    {
      hide S.Inv, S.Schedule, Linked, Known;
      status := status[running := S.Blocked];
      Schedule();
    }

    method ThreadUnblock(t: nat)
      requires Valid() && t in status && status[t] == S.Blocked && t != idle && t !in Value().sleepers
      modifies this`status, this`readyList
      ensures Valid() && Value() == S.MakeReady(old(Value()), t)
      ensures status == old(status)[t := S.Ready] && readyList == old(readyList) + [t]
    {
      hide S.Inv, Linked, Known;
      S.MakeReadyKeepsInv(Value(), t);
      status := status[t := S.Ready];
      readyList := readyList + [t];
    }

    method ThreadYield()
      requires Tables() && S.Inv(Value().(slice := 0))
      modifies this`status, this`readyList, this`running, this`threadTicks
      ensures Valid() && Value() == S.YieldCurrent(old(Value()))
    {
      hide S.Inv, S.Schedule, Linked, Known;
      S.YieldKeepsInv(Value());
      S.ThreadsStay(Value());
      if running != idle {
        readyList := readyList + [running];
      }
      status := status[running := S.Ready];
      Schedule();
    }

    method ThreadExit()
      requires Valid() && running != idle
      modifies this`status, this`readyList, this`running, this`threadTicks
      ensures Valid() && Value() == S.ExitCurrent(old(Value()))
    {
      hide S.Inv, S.Schedule, Linked, Known;
      S.ExitKeepsInv(Value());
      S.SliceDoesNotMatter(Value());
      S.ThreadsStay(Value());
      status := status - {running};
      Schedule();
    }

    /** The running thread takes its place on the sleep list, for that many ticks. */
    method Enqueue(tick: nat)
      requires Tables() && running in sleepElem && running !in Ids(sleepList.elems)
      modifies this`sleepTick, sleepList, sleepList.Chain(), sleepElem[running]
      ensures Tables()
      ensures var v := old(Value()); Value() == v.(left := v.left[running := tick], sleepers := v.sleepers + [running])
    {
      hide Linked;
      var e := sleepElem[running];
      NotListed(sleepList.elems, e);
      sleepList.PushBack(e);
      IdsJoin(old(sleepList.elems), [e]);
      assert Ids([e]) == [running];
      sleepTick := sleepTick[running := tick];
    }

    /** ThreadSleep. */
    method ThreadSleep(tick: int)
      requires Valid() && running != idle
      modifies this`status, this`readyList, this`running, this`threadTicks, this`sleepTick
      modifies sleepList, sleepList.Chain(), if running in sleepElem then {sleepElem[running]} else {}
      ensures Valid() && Value() == S.SleepCurrent(old(Value()), tick)
    {
      if tick <= 0 {
        return;
      }
      hide S.Inv, S.BlockCurrent, Linked, Ids, Known;
      S.SleepFacts(Value(), tick);
      Enqueue(tick);
      ThreadBlock();
    }
  
    /** thread_create, which makes the new thread ready at once. */
    method ThreadCreate(t: nat)
      requires Valid() && t !in status
      modifies this`status, this`readyList, this`sleepElem
      ensures Valid() && Value() == S.MakeReady(old(Value()), t)
      ensures status == old(status)[t := S.Ready] && readyList == old(readyList) + [t]
    {
      hide S.Inv, Linked;
      S.CreateIsFresh(Value(), t);
      S.MakeReadyKeepsInv(Value(), t);
      var e := new Elem(t);
      sleepElem := sleepElem[t := e];
      status := status[t := S.Ready];
      readyList := readyList + [t];
    }

    /** The state in the middle of the traversal: k sleepers of v have had their tick, and e is the
        next one, or the tail. */
    ghost predicate AtSleeper(v: S.Sys, q: seq<Elem>, k: nat, e: Elem)
      reads this, sleepList, sleepList.Chain()
    {
      && S.Inv(v) && Ids(q) == v.sleepers && k <= |q| && S.Asleep(v.sleepers, v.left)
      && Tables() && Value() == S.Ticked(v, k)
      && var p := |S.StillAsleep(v.sleepers[..k], v.left)|;
         p <= |sleepList.elems| && sleepList.elems[p..] == q[k..] && e == sleepList.Chain()[p + 1]
    }

    /** list_remove of the sleep list's element p, which keeps its own links. */
    method Unlink(e: Elem, ghost p: nat)
      requires Tables() && p < |sleepList.elems| && sleepList.elems[p] == e
      modifies sleepList, sleepList.Chain()
      ensures Tables() && sleepList.elems == old(sleepList.elems[..p] + sleepList.elems[p + 1..])
      ensures e.next == old(sleepList.Chain()[p + 2])
      ensures Ids(sleepList.elems) == old(Ids(sleepList.elems)[..p] + Ids(sleepList.elems)[p + 1..])
    {
      hide Linked, Known, Ids;
      ghost var c := sleepList.Chain();
      ChainCut(sleepList.head, sleepList.elems, sleepList.tail, p);
      KnownCut(sleepElem, sleepList.head, sleepList.tail, sleepList.elems, p);
      IdsCut(sleepList.elems, p);
      var following;
      ghost var c';
      following, c' := ListRemove(e, c, p + 1);
      sleepList.elems := sleepList.elems[..p] + sleepList.elems[p + 1..];
    }

    /** ThreadTick and, for an expired sleeper, ThreadAwake. */
    method TickElem(e: Elem, ghost p: nat)
      requires Tables() && p < |sleepList.elems| && sleepList.elems[p] == e
      requires e.id in status && e.id in sleepTick && sleepTick[e.id] > 0
      modifies this`status, this`readyList, this`sleepTick, sleepList, sleepList.Chain()
      ensures Tables() && Value() == S.TickNext(old(Value()), e.id, p)
      ensures old(sleepTick[e.id]) > 1 ==> sleepList.elems == old(sleepList.elems)
      ensures old(sleepTick[e.id]) == 1 ==> sleepList.elems == old(sleepList.elems[..p] + sleepList.elems[p + 1..])
      ensures e.next == old(sleepList.Chain()[p + 2])
    {
      var t := e.id;
      ghost var c := sleepList.Chain();
      assert c[p + 1] == e && c[p + 1].next == c[p + 2];
      hide Linked, Known, Ids;
      if sleepTick[t] == 1 {
        Unlink(e, p);
        sleepTick := sleepTick[t := 0];
        status := status[t := S.Ready];
        readyList := readyList + [t];
      } else {
        sleepTick := sleepTick[t := sleepTick[t] - 1];
      }
    }
  
    /** One turn of the traversal: the successor is read from an element that may have been unlinked. */
    method TickSleeper(e: Elem, ghost v: S.Sys, ghost q: seq<Elem>, ghost k: nat) returns (following: Elem)
      requires AtSleeper(v, q, k, e) && k < |q|
      modifies this`status, this`readyList, this`sleepTick, sleepList, sleepList.Chain()
      ensures AtSleeper(v, q, k + 1, following) && Among(sleepList.elems, old(sleepList.elems))
    {
      ghost var p := |S.StillAsleep(v.sleepers[..k], v.left)|;
      hide S.Inv, S.StillAsleep, S.Ticked, S.Asleep, Known, Linked, Ids, S.TickNext;
      S.TickedStep(v, k);
      S.SlotOf(v.sleepers, v.left, k);
      S.SleeperKnown(v, k);
      S.TickedLeft(v, k);
      RestMoves(sleepList.head, sleepList.elems, sleepList.tail, q, p, k);
      CutIsAmong(sleepList.elems, p);
      assert Among(sleepList.elems, sleepList.elems);
      hide Among;
      TickElem(e, p);
      following := e.next;
    }

    method TickSleeperIn(e: Elem, ghost v: S.Sys, ghost q: seq<Elem>, ghost k: nat, ghost frame: seq<Elem>)
      returns (following: Elem)
      requires AtSleeper(v, q, k, e) && k < |q| && Among(sleepList.Chain(), frame)
      modifies this`status, this`readyList, this`sleepTick, sleepList, frame
      ensures AtSleeper(v, q, k + 1, following) && Among(sleepList.Chain(), frame)
    {
      hide AtSleeper;
      ghost var before := sleepList.elems;
      following := TickSleeper(e, v, q, k);
      ChainAmong(sleepList.head, sleepList.elems, before, sleepList.tail);
    }

    /** The alarm clock's walk along the sleep list: every sleeper loses exactly one tick, although
        expired ones are unlinked on the way. */
    method TickSleepers()
      requires Valid()
      modifies this`status, this`readyList, this`sleepTick, sleepList, sleepList.Chain()
      ensures Valid() && S.Asleep(old(Value()).sleepers, old(Value()).left)
      ensures Value() == S.Ticked(old(Value()), |old(Value()).sleepers|)
    {
      ghost var v, q, k, frame := Value(), sleepList.elems, 0, sleepList.Chain();
      AtStart();
      var e: Elem := sleepList.head.next;
      hide AtSleeper, S.Inv, S.Ticked, S.Asleep, Linked, Known, Ids, Among;
      while e != sleepList.tail
        invariant k <= |q| && AtSleeper(v, q, k, e) && Among(sleepList.Chain(), frame)
        decreases |q| - k
      {
        AtEnd(v, q, k, e);
        e := TickSleeperIn(e, v, q, k, frame);
        k := k + 1;
      }
      AtEnd(v, q, k, e);
    }

    lemma AtStart()
      requires Valid()
      ensures sleepList.head.next != null && AtSleeper(Value(), sleepList.elems, 0, sleepList.head.next)
      ensures S.Asleep(Value().sleepers, Value().left)
      ensures Among(sleepList.Chain(), sleepList.Chain())
    {
      S.AsleepNow(Value());
      S.TickedNone(Value());
      assert sleepList.Chain()[0].next == sleepList.Chain()[1];
      hide S.Inv, S.StillAsleep, S.Ticked, S.Asleep, Known, Linked, Ids;
    }

    lemma AtEnd(v: S.Sys, q: seq<Elem>, k: nat, e: Elem)
      requires AtSleeper(v, q, k, e)
      ensures k <= |q| && (e == sleepList.tail <==> k == |q|)
      ensures k == |q| ==> k == |v.sleepers| && S.Asleep(v.sleepers, v.left) && Value() == S.Ticked(v, k) && Valid()
    {
      hide S.Inv, S.StillAsleep, S.Ticked, Known, Ids;
      ghost var p, c := |S.StillAsleep(v.sleepers[..k], v.left)|, sleepList.Chain();
      assert |sleepList.elems| - p == |q| - k;
      assert c[|c| - 1] == sleepList.tail;
      S.TickedKeepsInv(v, k);
      hide Linked;
    }
  
    /** timer_interrupt. */
    method TimerInterrupt()
      requires Valid()
      modifies this`status, this`readyList, this`running, this`threadTicks, this`sleepTick, sleepList, sleepList.Chain()
      ensures Valid() && S.Asleep(old(Value()).sleepers, old(Value()).left)
      ensures Value() == S.TimerInterrupt(old(Value()))
    {
      hide S.Inv, S.Ticked, S.Asleep, Known, Linked, Ids, S.YieldCurrent;
      ghost var v := Value();
      S.TickTurn(v);
      TickSleepers();
      threadTicks := threadTicks + 1;
      if threadTicks >= S.TIME_SLICE {
        ThreadYield();
      }
    }
  }
}
