/** The arithmetic of the multi-level feedback queue scheduler: the 17.14 fixed-point macros as they
    expand (threads/fixed-point.h), the load average, each thread's recent CPU use and priority
    (threads/thread.c), and the timer that drives them (devices/timer.c). */
module Mlfqs {
  import opened Arithmetic

  const FRACTION := 16384
  const TIMER_FREQ := 100
  const NICE_MIN := -20
  const NICE_MAX := 20
  const PRI_MIN := 0
  const PRI_MAX := 63
  const PRI_DEFAULT := 31

  function FpIntAdd(x: int, n: int): int { x + n * FRACTION }

  function FpFpMul(x: int, y: int): int { TruncDiv(x * y, FRACTION) }

  function FpFpDiv(x: int, y: int): int
    requires y != 0
  {
    TruncDiv(x * FRACTION, y)
  }

  function Int2Fp(x: int): int { x * FRACTION }

  function Fp2IntNearest(x: int): int {
    if x >= 0 then TruncDiv(x + TruncDiv(FRACTION, 2), FRACTION) else TruncDiv(x - TruncDiv(FRACTION, 2), FRACTION)
  }

  /** Rounding goes to a nearest integer. */
  lemma NearestIs(x: int)
    ensures 2 * Abs(x - Int2Fp(Fp2IntNearest(x))) <= FRACTION
  {
    var r := Fp2IntNearest(x);
    assert TruncDiv(FRACTION, 2) == 8192;
    if x >= 0 { TruncDivIs(x + 8192, FRACTION, r); } else { TruncDivIs(x - 8192, FRACTION, r); }
  }

  // ---------- The load average ----------

  function NextLoad(load: int, ready: nat): int {
    FpFpMul(TruncDiv(Int2Fp(59), 60), load) + TruncDiv(Int2Fp(1), 60) * ready
  }

  /** With at most n threads ready, a load average of at most n stays so. */
  lemma LoadBound(load: int, ready: nat, n: nat)
    requires 0 <= load <= n * FRACTION && ready <= n
    ensures 0 <= NextLoad(load, ready) <= n * FRACTION
  {
    assert TruncDiv(Int2Fp(59), 60) == 16110 && TruncDiv(Int2Fp(1), 60) == 273;
    Shrinks(16110, load);
    hide TruncDiv;
  }

  /** It falls short of (59 load + ready) / 60 by at most n + 1 units in the last place. */
  predicate LoadNear(load: int, ready: nat, n: nat, next: int) {
    0 <= 59 * load + ready * FRACTION - 60 * next <= 60 * (n + 1)
  }

  lemma LoadNearExact(load: int, ready: nat, n: nat)
    requires 0 <= load <= n * FRACTION && ready <= n
    ensures LoadNear(load, ready, n, NextLoad(load, ready))
  {
    assert TruncDiv(Int2Fp(59), 60) == 16110 && TruncDiv(Int2Fp(1), 60) == 273;
    TruncDivIs(16110 * load, FRACTION, FpFpMul(16110, load));
    hide TruncDiv;
  }

  /** A product of fixed-point numbers: truncation only brings it nearer to zero. */
  lemma Shrinks(c: nat, x: int)
    ensures x >= 0 ==> 0 <= FpFpMul(c, x) * FRACTION <= c * x
    ensures x <= 0 ==> c * x <= FpFpMul(c, x) * FRACTION <= 0
  {
    Product(c, x);
    TruncDivIs(c * x, FRACTION, FpFpMul(c, x));
    hide TruncDiv;
    if x >= 0 { NotNegative(c * x); } else { NotPositive(c * x); }
  }

  lemma Product(c: nat, x: int)
    ensures (x >= 0 ==> c * x >= 0) && (x <= 0 ==> c * x <= 0)
  {
  }

  lemma NotNegative(x: int)
    requires x >= 0
    ensures TruncDiv(x, FRACTION) >= 0
  {
  }

  lemma NotPositive(x: int)
    requires x <= 0
    ensures TruncDiv(x, FRACTION) <= 0
  {
  }

  // ---------- Recent CPU use ----------

  /** The decay factor, 2 load / (2 load + 1). */
  function Decay(load: int): int
    requires load >= 0
  {
    FpFpDiv(2 * load, FpIntAdd(2 * load, 1))
  }

  function NextRecent(load: int, recent: int, nice: int): int
    requires load >= 0
  {
    FpIntAdd(FpFpMul(Decay(load), recent), nice)
  }

  lemma DecayBound(load: int, n: nat)
    requires 0 <= load <= n * FRACTION
    ensures 0 <= Decay(load) && Decay(load) * (2 * n + 1) <= 2 * n * FRACTION
  {
    var x, y := 2 * load * FRACTION, 2 * load + FRACTION;
    var c := Decay(load);
    TruncDivIs(x, y, c);
    assert c == Quot(x, y);
    hide TruncDiv, Quot;
    assert y * c <= x;
    DecayStep(load, n, c);
  }

  lemma DecayStep(load: nat, n: nat, c: nat)
    requires load <= n * FRACTION && (2 * load + FRACTION) * c <= 2 * load * FRACTION
    ensures c * (2 * n + 1) <= 2 * n * FRACTION
  {
    var y := 2 * load + FRACTION;
    assert 2 * load * (2 * n + 1) <= 2 * n * y by {
      Distributes(2 * n, 2 * load, FRACTION);
      Distributes(2 * load, 2 * n, 1);
    }
    Grows(2 * n + 1, y * c, 2 * load * FRACTION);
    assert (y * c) * (2 * n + 1) <= (2 * n * y) * FRACTION by {
      Associates(2 * load, FRACTION, 2 * n + 1);
      Grows(FRACTION, 2 * load * (2 * n + 1), 2 * n * y);
    }
    Associates(y, c, 2 * n + 1);
    Associates(2 * n, y, FRACTION);
    assert (c * (2 * n + 1)) * y <= (2 * n * FRACTION) * y;
    CancelLe(c * (2 * n + 1), 2 * n * FRACTION, y);
  }

  /** The new value differs from 2 load / (2 load + 1) * recent + nice by at most one unit in the last
      place and one part in 2^14 of recent. */
  predicate RecentNear(load: int, recent: int, nice: int, next: int) {
    var y := 2 * load + FRACTION;
    Abs(y * (next - nice * FRACTION) - 2 * load * recent) * FRACTION <= y * (Abs(recent) + FRACTION)
  }

  lemma RecentNearExact(load: int, recent: int, nice: int)
    requires load >= 0
    ensures RecentNear(load, recent, nice, NextRecent(load, recent, nice))
  {
    var y, c := 2 * load + FRACTION, Decay(load);
    var m := FpFpMul(c, recent);
    TruncDivIs(2 * load * FRACTION, y, c);
    TruncDivIs(c * recent, FRACTION, m);
    hide TruncDiv, FpFpMul, Decay;
    ErrorSum(y, c, recent, m, 2 * load);
  }

  lemma ErrorSum(y: int, c: int, r: int, m: int, w: int)
    requires y > 0 && 0 <= w * FRACTION - y * c < y && Abs(c * r - FRACTION * m) < FRACTION
    ensures Abs(y * m - w * r) * FRACTION <= y * (Abs(r) + FRACTION)
  {
    var e, f := c * r - FRACTION * m, w * FRACTION - y * c;
    assert (y * m - w * r) * FRACTION == -(y * e) - r * f by {
      Distributes(y, c * r, -(FRACTION * m));
      Associates(y, c, r);
      Associates(y, FRACTION, m);
      Distributes(r, w * FRACTION, -(y * c));
      Associates(r, w, FRACTION);
    }
    Magnitude(y, e, FRACTION);
    Magnitude(r, f, y);
    Distributes(y, Abs(r), FRACTION);
  }

  lemma Magnitude(a: int, e: int, b: int)
    requires Abs(e) <= b
    ensures -(Abs(a) * b) <= a * e <= Abs(a) * b
  {
  }

  /** The bounds, in whole units: what an update leaves, and how much a second's ticks can add. */
  function Lowest(n: nat): int { -(40 * n + 20) }

  function Highest(n: nat): int { 240 * n + 20 }

  /** An update brings a value within the bounds, plus at most a second's ticks, back within them. */
  lemma RecentBound(load: int, recent: int, nice: int, n: nat)
    requires 0 <= load <= n * FRACTION && NICE_MIN <= nice <= NICE_MAX
    requires Lowest(n) * FRACTION <= recent <= (Highest(n) + TIMER_FREQ) * FRACTION
    ensures Lowest(n) * FRACTION <= NextRecent(load, recent, nice) <= Highest(n) * FRACTION
  {
    hide TruncDiv, FpFpMul, Decay;
    var c := Decay(load);
    DecayBound(load, n);
    Shrinks(c, recent);
    if recent >= 0 {
      Grows(c, recent, (2 * n + 1) * (120 * FRACTION));
      Associates(c, 2 * n + 1, 120 * FRACTION);
    } else {
      Grows(c, -recent, (2 * n + 1) * (20 * FRACTION));
      Associates(c, 2 * n + 1, 20 * FRACTION);
      assert c * -recent == -(c * recent);
    }
  }

  /** A new thread starts with the rounded value, times 100, of its creator's as a 32-bit int, which is
      small in fixed point whatever it is. */
  function InitialRecent(recent: int): int {
    Fp2IntNearest(Wrap32(100 * recent))
  }

  lemma InitialBound(recent: int, n: nat)
    ensures Lowest(n) * FRACTION <= InitialRecent(recent) <= Highest(n) * FRACTION
  {
    var x := Wrap32(100 * recent);
    assert -HALF <= x < HALF;
    assert TruncDiv(FRACTION, 2) == 8192;
    if x >= 0 { TruncDivIs(x + 8192, FRACTION, InitialRecent(recent)); }
    else { TruncDivIs(x - 8192, FRACTION, InitialRecent(recent)); }
  }

  /** Up to 545 ready threads the values fit a 32-bit int, so that no conversion to int changes them. */
  lemma FitsInt(n: nat, load: int, recent: int)
    requires n <= 545 && 0 <= load <= n * FRACTION
    requires Lowest(n) * FRACTION <= recent <= (Highest(n) + TIMER_FREQ) * FRACTION
    ensures Wrap32(2 * load + FRACTION) == 2 * load + FRACTION && Wrap32(recent) == recent
  {
  }

  // ---------- Priorities ----------

  function PriorityOf(recent: int, nice: int): (p: int)
    ensures PRI_MIN <= p <= PRI_MAX
  {
    var p := PRI_MAX - Fp2IntNearest(TruncDiv(recent, 4)) - nice * 2;
    if p > PRI_MAX then PRI_MAX else if p < PRI_MIN then PRI_MIN else p
  }

  /** p is the number between PRI_MIN and PRI_MAX nearest to PRI_MAX - recent / 4 - 2 nice, but for less than
      one unit in the last place; the unit of recent is 1 / FRACTION. */
  predicate PriorityNear(recent: int, nice: int, p: int) {
    var ideal := (PRI_MAX - 2 * nice) * (4 * FRACTION) - recent;
    && PRI_MIN <= p <= PRI_MAX
    && (p > PRI_MIN ==> p * (4 * FRACTION) - ideal <= 2 * FRACTION + 3)
    && (p < PRI_MAX ==> ideal - p * (4 * FRACTION) <= 2 * FRACTION + 3)
  }

  lemma PriorityNearExact(recent: int, nice: int)
    ensures PriorityNear(recent, nice, PriorityOf(recent, nice))
  {
    var q := TruncDiv(recent, 4);
    TruncDivIs(recent, 4, q);
    NearestIs(q);
    hide TruncDiv, Fp2IntNearest;
  }

  lemma TruncGrows(x: int, y: int, d: nat)
    requires x <= y && d > 0
    ensures TruncDiv(x, d) <= TruncDiv(y, d)
  {
    var p, q := TruncDiv(x, d), TruncDiv(y, d);
    TruncDivIs(x, d, p);
    TruncDivIs(y, d, q);
    hide TruncDiv;
    TruncOrder(x, y, d, p, q);
  }

  lemma TruncOrder(x: int, y: int, d: nat, p: int, q: int)
    requires x <= y && d > 0
    requires Abs(x - d * p) < d && (x >= 0 ==> x - d * p >= 0) && (x <= 0 ==> x - d * p <= 0)
    requires Abs(y - d * q) < d && (y >= 0 ==> y - d * q >= 0) && (y <= 0 ==> y - d * q <= 0)
    ensures p <= q
  {
    Distributes(d, q, 1);
    Distributes(d, q + 1, p - q - 1);
    if p > q { Product(d, p - q - 1); }
  }

  /** The more CPU a thread has used and the nicer it is, the lower its priority. */
  lemma PriorityFalls(r: int, s: int, nice: int, nicer: int)
    requires r <= s && nice <= nicer
    ensures PriorityOf(r, nice) >= PriorityOf(s, nicer)
  {
    var x, y, h := TruncDiv(r, 4), TruncDiv(s, 4), TruncDiv(FRACTION, 2);
    TruncGrows(r, s, 4);
    assert h == 8192;
    hide TruncDiv;
    NearestGrows(x, y);
  }

  lemma NearestGrows(x: int, y: int)
    requires x <= y
    ensures Fp2IntNearest(x) <= Fp2IntNearest(y)
  {
    assert TruncDiv(FRACTION, 2) == 8192;
    if x >= 0 {
      TruncGrows(x + 8192, y + 8192, FRACTION);
    } else if y < 0 {
      TruncGrows(x - 8192, y - 8192, FRACTION);
    } else {
      TruncGrows(x - 8192, y + 8192, FRACTION);
    }
  }

  // ---------- The kernel's side ----------

  class Mlfqs {
    ghost const n: nat             // a bound on the threads ready at an update
    const idle: nat
    var running: nat
    var allThreads: seq<nat>
    var loadAvg: int
    var nice: map<nat, int>
    var recentCpu: map<nat, int>
    var priority: map<nat, int>
    var ticks: nat

    /** The bounds on a thread's recent CPU use k ticks after the last update. */
    ghost predicate Bounded(t: nat, k: nat)
      requires t in recentCpu
      reads this
    {
      Lowest(n) * FRACTION <= recentCpu[t] <= (Highest(n) + k) * FRACTION
    }

    ghost predicate Tables()
      reads this
    {
      && (forall t :: t in allThreads ==> t in nice && t in recentCpu && t in priority && NICE_MIN <= nice[t] <= NICE_MAX)
      && running in allThreads && 0 <= loadAvg <= n * FRACTION
      && (forall i, j :: 0 <= i < j < |allThreads| ==> allThreads[i] != allThreads[j])
    }

    /** The load average is at most n, and every thread but idle within its bounds. */
    ghost predicate Valid()
      reads this
    {
      Tables() && forall t :: t in allThreads && t != idle ==> Bounded(t, ticks % TIMER_FREQ)
    }

    /** The state once idle has registered, before the first tick.  Idle got its priority from thread_create, when
        it was not known as the idle thread yet. */
    constructor (ghost n: nat, idle: nat, first: nat)
      requires idle != first
      ensures Valid() && this.n == n && this.idle == idle && running == first && allThreads == [first, idle]
      ensures loadAvg == 0 && ticks == 0 && recentCpu == nice == map[first := 0, idle := 0]
      ensures priority == map[first := PRI_DEFAULT, idle := PRI_MAX]
    {
      this.n, this.idle, running := n, idle, first;
      allThreads, loadAvg, ticks := [first, idle], 0, 0;
      nice, recentCpu, priority := map[first := 0, idle := 0], map[first := 0, idle := 0], map[first := PRI_DEFAULT, idle := PRI_MAX];
    }

    /** CalculateLoadAvg, with the length of the ready list. */
    method CalculateLoadAvg(readySize: nat)
      requires Tables() && (if running == idle then readySize else readySize + 1) <= n
      modifies this`loadAvg
      ensures Tables() && LoadNear(old(loadAvg), if running == idle then readySize else readySize + 1, n, loadAvg)
    {
      hide NextLoad;
      var readyCnt := if running == idle then readySize else readySize + 1;
      LoadBound(loadAvg, readyCnt, n);
      LoadNearExact(loadAvg, readyCnt, n);
      loadAvg := NextLoad(loadAvg, readyCnt);
    }

    /** CalculateRecentCpu. */
    method CalculateRecentCpu(t: nat)
      requires Tables() && t in allThreads && (t != idle ==> Bounded(t, TIMER_FREQ))
      modifies this`recentCpu
      ensures Tables() && recentCpu == old(recentCpu)[t := recentCpu[t]]
      ensures t == idle ==> recentCpu[t] == old(recentCpu[t])
      ensures t != idle ==> RecentNear(loadAvg, old(recentCpu[t]), nice[t], recentCpu[t]) && Bounded(t, 0)
    {
      hide NextRecent, RecentNear;
      if t == idle {
        return;
      }
      RecentNearExact(loadAvg, recentCpu[t], nice[t]);
      RecentBound(loadAvg, recentCpu[t], nice[t], n);
      recentCpu := recentCpu[t := NextRecent(loadAvg, recentCpu[t], nice[t])];
    }
  
    /** CalculateAllRecentCpu: every thread but idle is updated, once. */
    method CalculateAllRecentCpu()
      requires Tables() && forall t :: t in allThreads && t != idle ==> Bounded(t, TIMER_FREQ)
      modifies this`recentCpu
      ensures Tables() && forall t :: t in allThreads && t != idle ==>
                RecentNear(loadAvg, old(recentCpu[t]), nice[t], recentCpu[t]) && Bounded(t, 0)
      ensures recentCpu.Keys == old(recentCpu.Keys)
      ensures forall t :: t in recentCpu && (t !in allThreads || t == idle) ==> recentCpu[t] == old(recentCpu[t])
    {
      hide RecentNear;
      var i := 0;
      while i < |allThreads|
        invariant i <= |allThreads| && Tables()
        invariant forall j :: 0 <= j < i && allThreads[j] != idle ==>
                    RecentNear(loadAvg, old(recentCpu[allThreads[j]]), nice[allThreads[j]], recentCpu[allThreads[j]])
                    && Bounded(allThreads[j], 0)
        invariant recentCpu.Keys == old(recentCpu.Keys)
        invariant forall t :: t in recentCpu && (t !in allThreads || t == idle) ==> recentCpu[t] == old(recentCpu[t])
        invariant forall j :: i <= j < |allThreads| ==> recentCpu[allThreads[j]] == old(recentCpu[allThreads[j]])
      {
        CalculateRecentCpu(allThreads[i]);
        i := i + 1;
      }
    }

    /** CalculatePriority. */
    method CalculatePriority(t: nat)
      requires Tables() && t in allThreads
      modifies this`priority
      ensures Tables() && priority == old(priority)[t := priority[t]]
      ensures t == idle ==> priority[t] == old(priority[t])
      ensures t != idle ==> PriorityNear(recentCpu[t], nice[t], priority[t])
    {
      hide PriorityOf, PriorityNear;
      if t == idle {
        return;
      }
      PriorityNearExact(recentCpu[t], nice[t]);
      priority := priority[t := PriorityOf(recentCpu[t], nice[t])];
    }

    /** CalculateAllPriority. */
    method CalculateAllPriority()
      requires Tables()
      modifies this`priority
      ensures Tables() && forall t :: t in allThreads && t != idle ==> PriorityNear(recentCpu[t], nice[t], priority[t])
      ensures priority.Keys == old(priority.Keys)
      ensures forall t :: t in priority && (t !in allThreads || t == idle) ==> priority[t] == old(priority[t])
    {
      hide PriorityNear;
      var i := 0;
      while i < |allThreads|
        invariant i <= |allThreads| && Tables()
        invariant forall j :: 0 <= j < i && allThreads[j] != idle ==>
                    PriorityNear(recentCpu[allThreads[j]], nice[allThreads[j]], priority[allThreads[j]])
        invariant priority.Keys == old(priority.Keys)
        invariant forall t :: t in priority && (t !in allThreads || t == idle) ==> priority[t] == old(priority[t])
      {
        CalculatePriority(allThreads[i]);
        i := i + 1;
      }
    }

    /** Each thread's recent CPU use once the running one has been charged a tick. */
    ghost function Charged(): map<nat, int>
      requires running in recentCpu
      reads this
    {
      recentCpu[running := recentCpu[running] + FRACTION]
    }

    /** The tick itself. */
    method Charge()
      requires Valid()
      modifies this`ticks, this`recentCpu
      ensures Tables() && ticks == old(ticks) + 1 && recentCpu == old(Charged()) && recentCpu.Keys == old(recentCpu.Keys)
      ensures forall t :: t in allThreads && t != idle ==> Bounded(t, old(ticks) % TIMER_FREQ + 1)
      ensures forall t :: t in allThreads && t != idle && ticks % TIMER_FREQ == 0 ==> Bounded(t, TIMER_FREQ)
      ensures forall t :: t in allThreads && t != idle && ticks % TIMER_FREQ != 0 ==> Bounded(t, ticks % TIMER_FREQ)
    {
      ticks := ticks + 1;
      recentCpu := recentCpu[running := FpIntAdd(recentCpu[running], 1)];
    }

    /** The scheduler's part of timer_interrupt: the running thread is charged one unit, and nothing else
        happens but once a second, when load average and recent CPU use are brought up to date, and at every
        fourth tick, when the priorities are. */
    method TimerInterrupt(readySize: nat)
      requires Valid() && (if running == idle then readySize else readySize + 1) <= n
      modifies this`ticks, this`recentCpu, this`loadAvg, this`priority
      ensures Valid() && ticks == old(ticks) + 1
      ensures ticks % TIMER_FREQ != 0 ==> loadAvg == old(loadAvg) && recentCpu == old(Charged())
      ensures ticks % TIMER_FREQ == 0 ==>
                && LoadNear(old(loadAvg), if running == idle then readySize else readySize + 1, n, loadAvg)
                && recentCpu.Keys == old(recentCpu.Keys)
                && (forall t :: t in allThreads && t != idle ==>
                      RecentNear(loadAvg, old(Charged())[t], nice[t], recentCpu[t]) && Bounded(t, 0))
                && (forall t :: t in recentCpu && (t !in allThreads || t == idle) ==> recentCpu[t] == old(Charged())[t])
      ensures ticks % 4 != 3 ==> priority == old(priority)
      ensures ticks % 4 == 3 ==>
                && priority.Keys == old(priority.Keys)
                && (forall t :: t in allThreads && t != idle ==> PriorityNear(recentCpu[t], nice[t], priority[t]))
                && (forall t :: t in priority && (t !in allThreads || t == idle) ==> priority[t] == old(priority[t]))
    {
      hide LoadNear, RecentNear, PriorityNear, Charged;
      Charge();
      if ticks % TIMER_FREQ == 0 {
        CalculateLoadAvg(readySize);
        CalculateAllRecentCpu();
      }
      if ticks % 4 == 3 {
        CalculateAllPriority();
      }
    }

    /** thread_set_nice. */
    method SetNice(value: int)
      requires Valid() && NICE_MIN <= value <= NICE_MAX
      modifies this`nice, this`recentCpu, this`priority
      ensures Valid() && nice == old(nice)[running := value]
      ensures recentCpu == old(recentCpu)[running := recentCpu[running]] && priority == old(priority)[running := priority[running]]
      ensures if running == idle then recentCpu == old(recentCpu) && priority == old(priority)
              else RecentNear(loadAvg, old(recentCpu[running]), value, recentCpu[running])
                   && PriorityNear(recentCpu[running], value, priority[running])
    {
      hide RecentNear, PriorityNear;
      nice := nice[running := value];
      CalculateRecentCpu(running);
      CalculatePriority(running);
    }

    /** init_thread, for a thread the running one creates: it gets a nice value of 0 and the priority given, and
        its recent CPU use is the creator's in hundredths, rounded, as a plain number. */
    method InitThread(t: nat, pri: int)
      requires Valid() && t !in allThreads && PRI_MIN <= pri <= PRI_MAX
      modifies this`allThreads, this`nice, this`recentCpu, this`priority
      ensures Valid() && allThreads == old(allThreads) + [t]
      ensures nice == old(nice)[t := 0] && priority == old(priority)[t := pri] && t in recentCpu
      ensures recentCpu == old(recentCpu)[t := recentCpu[t]]
      ensures 2 * Abs(Wrap32(100 * old(recentCpu[running])) - recentCpu[t] * FRACTION) <= FRACTION
    {
      hide Fp2IntNearest, Wrap32;
      InitialBound(recentCpu[running], n);
      NearestIs(Wrap32(100 * recentCpu[running]));
      nice := nice[t := 0];
      recentCpu := recentCpu[t := InitialRecent(recentCpu[running])];
      priority := priority[t := pri];
      allThreads := allThreads + [t];
    }

    /** thread_create, which gives the new thread the priority of its nice value and recent CPU use. */
    method ThreadCreate(t: nat, pri: int)
      requires Valid() && t !in allThreads && t != idle && PRI_MIN <= pri <= PRI_MAX
      modifies this`allThreads, this`nice, this`recentCpu, this`priority
      ensures Valid() && allThreads == old(allThreads) + [t] && nice == old(nice)[t := 0] && t in recentCpu && t in priority
      ensures recentCpu == old(recentCpu)[t := recentCpu[t]] && priority == old(priority)[t := priority[t]]
      ensures 2 * Abs(Wrap32(100 * old(recentCpu[running])) - recentCpu[t] * FRACTION) <= FRACTION
      ensures PriorityNear(recentCpu[t], 0, priority[t])
    {
      hide PriorityNear, Wrap32;
      InitThread(t, pri);
      assert t in allThreads;
      CalculatePriority(t);
    }

    /** Another thread takes over. */
    method Switch(t: nat)
      requires Valid() && t in allThreads
      modifies this`running
      ensures Valid() && running == t
    {
      running := t;
    }
  }
}
