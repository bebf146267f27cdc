/** What the exit test of the arbitrary-deadline search means for an m-thread
    schedule: once the demand is below the service line at t, the last callback
    of the analysed instance has started before tick t. */
module Schedule {
  import opened Arithmetic
  import opened TaskSystem
  import Crossing
  import R2 = ResponseTime2

  /** What one thread does in one tick: nothing, a callback of the analysed
      instance, or work of chain k that interferes with it. */
  datatype Slot = Idle | Target(callback: nat) | Interfering(chain: nat)

  /** One entry per thread. */
  type Tick = seq<Slot>

  // ---------- counting ----------

  /** Threads busy with interfering work of chain k in one tick. */
  function Busy(tick: Tick, k: nat): nat {
    if tick == [] then 0
    else Busy(tick[1..], k) + if tick[0] == Interfering(k) then 1 else 0
  }

  function BusyBy(tick: Tick): nat -> nat {
    (k: nat) => Busy(tick, k)
  }

  /** Interfering work of chain k in the first t ticks. */
  function Work(ticks: seq<Tick>, t: nat): nat -> nat
    requires t <= |ticks|
  {
    (k: nat) => WorkOf(ticks, t, k)
  }

  function WorkOf(ticks: seq<Tick>, t: nat, k: nat): nat
    requires t <= |ticks|
  {
    if t == 0 then 0 else WorkOf(ticks, t - 1, k) + Busy(ticks[t - 1], k)
  }

  /** Ticks among the first t in which callback q of the analysed instance runs. */
  function Ran(ticks: seq<Tick>, q: nat, t: nat): nat
    requires t <= |ticks|
  {
    if t == 0 then 0
    else Ran(ticks, q, t - 1) + if Target(q) in ticks[t - 1] then 1 else 0
  }

  ghost predicate Runs(tick: Tick) {
    exists q: nat :: Target(q) in tick
  }

  predicate AllInterfering(tick: Tick, chains: nat) {
    forall a :: 0 <= a < |tick| ==> tick[a].Interfering? && tick[a].chain < chains
  }

  // ---------- legal schedules of the analysed instance ----------

  /** The instance has callbacks of the given runtimes; it is released at tick 0.
      Its callbacks run one after the other on one thread each, without
      preemption, and while it is unfinished and does not run, every one of the m
      threads does interfering work. */
  ghost predicate Legal(ticks: seq<Tick>, m: nat, chains: nat, runtimes: seq<nat>) {
    runtimes != [] && forall u: nat :: u < |ticks| ==> LegalTick(ticks, m, chains, runtimes, u)
  }

  ghost predicate LegalTick(ticks: seq<Tick>, m: nat, chains: nat, runtimes: seq<nat>, u: nat)
    requires runtimes != [] && u < |ticks|
  {
    && |ticks[u]| == m
    && (forall q: nat :: Target(q) in ticks[u] ==>
          InOrder(ticks, runtimes, u, q) && Continues(ticks, runtimes, u, q))
    && (forall q: nat, q': nat :: Target(q) in ticks[u] && Target(q') in ticks[u] ==> q == q')
    && (Ran(ticks, |runtimes| - 1, u) < runtimes[|runtimes| - 1] ==>
          Runs(ticks[u]) || AllInterfering(ticks[u], chains))
  }

  /** Callback q, running in tick u, is not preempted. */
  ghost predicate Continues(ticks: seq<Tick>, runtimes: seq<nat>, u: nat, q: nat)
    requires u < |ticks|
  {
    u + 1 < |ticks| && q < |runtimes| && Ran(ticks, q, u + 1) < runtimes[q] ==> Target(q) in ticks[u + 1]
  }

  /** Callback q may run in tick u: its predecessors are done, it is not. */
  ghost predicate InOrder(ticks: seq<Tick>, runtimes: seq<nat>, u: nat, q: nat)
    requires u < |ticks|
  {
    && q < |runtimes|
    && Ran(ticks, q, u) < runtimes[q]
    && forall p: nat :: p < q ==> Ran(ticks, p, u) == runtimes[p]
  }

  // ---------- a fully busy tick supplies m units ----------

  lemma {:induction false} BusySplit(tick: Tick, n: nat)
    requires tick != []
    ensures Sum(BusyBy(tick), n)
         == Sum(BusyBy(tick[1..]), n) + if tick[0].Interfering? && tick[0].chain < n then 1 else 0
  {
    if n > 0 {
      BusySplit(tick, n - 1);
    }
  }

  lemma {:induction false} AllInterferingIsFull(tick: Tick, n: nat)
    requires AllInterfering(tick, n)
    ensures Sum(BusyBy(tick), n) == |tick|
  {
    if tick == [] {
      SumZero(BusyBy(tick), n);
    } else {
      AllInterferingIsFull(tick[1..], n);
      BusySplit(tick, n);
    }
  }

  // ---------- counting over the window ----------

  /** The ticks the instance's callbacks before `last` ran, in the first t. */
  function RanBefore(ticks: seq<Tick>, t: nat): nat -> nat
    requires t <= |ticks|
  {
    (q: nat) => Ran(ticks, q, t)
  }

  lemma {:induction false} OneCallbackPerTick(ticks: seq<Tick>, m: nat, chains: nat, runtimes: seq<nat>,
                                              t: nat, q: nat, n: nat)
    requires Legal(ticks, m, chains, runtimes) && t < |ticks| && Target(q) in ticks[t]
    ensures Sum(RanBefore(ticks, t + 1), n) == Sum(RanBefore(ticks, t), n) + if q < n then 1 else 0
  {
    assert LegalTick(ticks, m, chains, runtimes, t);
    if n > 0 {
      OneCallbackPerTick(ticks, m, chains, runtimes, t, q, n - 1);
    }
  }

  lemma RanBeforeGrows(ticks: seq<Tick>, t: nat, n: nat)
    requires t < |ticks|
    ensures Sum(RanBefore(ticks, t), n) <= Sum(RanBefore(ticks, t + 1), n)
  {
    SumLe(RanBefore(ticks, t), RanBefore(ticks, t + 1), n);
  }

  lemma WorkStep(ticks: seq<Tick>, t: nat, n: nat)
    requires t < |ticks|
    ensures Sum(Work(ticks, t + 1), n) == Sum(Work(ticks, t), n) + Sum(BusyBy(ticks[t]), n)
  {
    SumPlus(Work(ticks, t), BusyBy(ticks[t]), Work(ticks, t + 1), n);
  }

  /** A tick before the last callback starts either advances an earlier callback
      or supplies m units of interfering work. */
  lemma TickSupplies(ticks: seq<Tick>, m: nat, chains: nat, runtimes: seq<nat>, t: nat)
    requires Legal(ticks, m, chains, runtimes) && t < |ticks|
    requires runtimes[|runtimes| - 1] >= 1
    requires forall u: nat :: u <= t ==> Target(|runtimes| - 1) !in ticks[u]
    ensures Sum(RanBefore(ticks, t + 1), |runtimes| - 1) >= Sum(RanBefore(ticks, t), |runtimes| - 1) + 1
         || Sum(BusyBy(ticks[t]), chains) == m
  {
    var z: nat := |runtimes| - 1;
    NotStarted(ticks, z, t);
    assert LegalTick(ticks, m, chains, runtimes, t);
    if Runs(ticks[t]) {
      var q: nat :| Target(q) in ticks[t];
      assert InOrder(ticks, runtimes, t, q);
      OneCallbackPerTick(ticks, m, chains, runtimes, t, q, z);
    } else {
      AllInterferingIsFull(ticks[t], chains);
    }
  }

  lemma AccountingStep(m: nat, t: nat, r: nat, r': nat, w: nat, busy: nat)
    requires Times(m, t) <= Times(m, r) + w
    requires r <= r' && (r' >= r + 1 || busy == m)
    ensures Times(m, t + 1) <= Times(m, r') + w + busy
  {
    Distribute(m, t);
    Distribute(m, r);
    MulMono(m, m, r, r');
    if r' >= r + 1 { MulMono(m, m, r + 1, r'); }
  }

  /** While the last callback has not started, m * t is covered by the progress
      of the earlier callbacks and the interfering work. */
  lemma {:induction false} TicksAccounted(ticks: seq<Tick>, m: nat, chains: nat, runtimes: seq<nat>, t: nat)
    requires Legal(ticks, m, chains, runtimes) && t <= |ticks|
    requires runtimes[|runtimes| - 1] >= 1
    requires forall u: nat :: u < t ==> Target(|runtimes| - 1) !in ticks[u]
    ensures Times(m, t) <= Times(m, Sum(RanBefore(ticks, t), |runtimes| - 1)) + Sum(Work(ticks, t), chains)
  {
    hide Legal, LegalTick, Sum, Busy, WorkOf, Ran, Times;
    HasCallbacks(ticks, m, chains, runtimes);
    if t == 0 {
      NoTicks(m);
    } else {
      TicksAccounted(ticks, m, chains, runtimes, t - 1);
      TickSupplies(ticks, m, chains, runtimes, t - 1);
      RanBeforeGrows(ticks, t - 1, |runtimes| - 1);
      WorkStep(ticks, t - 1, chains);
      AccountingStep(m, t - 1, Sum(RanBefore(ticks, t - 1), |runtimes| - 1), Sum(RanBefore(ticks, t), |runtimes| - 1),
                     Sum(Work(ticks, t - 1), chains), Sum(BusyBy(ticks[t - 1]), chains));
    }
  }

  lemma HasCallbacks(ticks: seq<Tick>, m: nat, chains: nat, runtimes: seq<nat>)
    requires Legal(ticks, m, chains, runtimes)
    ensures runtimes != []
  {
  }

  lemma NoTicks(m: nat)
    ensures Times(m, 0) == 0
  {
  }

  lemma Distribute(m: nat, x: nat)
    ensures Times(m, x + 1) == Times(m, x) + m
  {
  }

  lemma {:induction false} NotStarted(ticks: seq<Tick>, q: nat, t: nat)
    requires t <= |ticks| && forall u: nat :: u < t ==> Target(q) !in ticks[u]
    ensures Ran(ticks, q, t) == 0
  {
    if t > 0 {
      NotStarted(ticks, q, t - 1);
    }
  }

  /** No callback runs longer than its runtime. */
  lemma {:induction false} RanAtMost(ticks: seq<Tick>, m: nat, chains: nat, runtimes: seq<nat>, q: nat, t: nat)
    requires Legal(ticks, m, chains, runtimes) && t <= |ticks| && q < |runtimes|
    ensures Ran(ticks, q, t) <= runtimes[q]
  {
    if t > 0 {
      RanAtMost(ticks, m, chains, runtimes, q, t - 1);
      assert LegalTick(ticks, m, chains, runtimes, t - 1);
    }
  }

  function RuntimeOf(runtimes: seq<nat>): nat -> nat {
    (q: nat) => if q < |runtimes| then runtimes[q] else 0
  }

  /** chain i of the analysed system has these callbacks. */
  ghost predicate Matches(c: ChainTask, runtimes: seq<nat>) {
    && runtimes != []
    && c.last == runtimes[|runtimes| - 1]
    && c.runtime == Sum(RuntimeOf(runtimes), |runtimes|)
  }

  /** The interfering work in the first t ticks is, in total, within the analysis. */
  ghost predicate WithinAnalysis(s: System, i: nat, ticks: seq<Tick>, t: nat)
    requires Valid(s) && i < |s.chains| && t <= |ticks|
  {
    Sum(Work(ticks, t), |s.chains|) <= Sum(R2.Interference(s, i, t), |s.chains|)
  }

  /** Each chain's interfering work in the first t ticks is within its own term. */
  ghost predicate WithinEachTerm(s: System, i: nat, ticks: seq<Tick>, t: nat)
    requires Valid(s) && i < |s.chains| && t <= |ticks|
  {
    forall k: nat :: k < |s.chains| ==> WorkOf(ticks, t, k) <= R2.FromChain(s, i, t, k)
  }

  lemma EachTermIsWithin(s: System, i: nat, ticks: seq<Tick>, t: nat)
    requires Valid(s) && i < |s.chains| && t <= |ticks| && WithinEachTerm(s, i, ticks, t)
    ensures WithinAnalysis(s, i, ticks, t)
  {
    SumLe(Work(ticks, t), R2.Interference(s, i, t), |s.chains|);
  }

  /** The exit test is sound: where the demand is below the service line, the
      last callback has started. */
  lemma LastCallbackStarts(s: System, i: nat, ticks: seq<Tick>, runtimes: seq<nat>, t: nat)
    requires Valid(s) && i < |s.chains| && Matches(s.chains[i], runtimes) && s.chains[i].last >= 1
    requires Legal(ticks, s.m, |s.chains|, runtimes)
    requires s.chains[i].Head() <= t <= |ticks| && Crossing.Crosses(R2.Demand(s, i), s.m, t)
    requires WithinAnalysis(s, i, ticks, t)
    ensures exists u: nat :: u < t && Target(|runtimes| - 1) in ticks[u]
  {
    if forall u: nat :: u < t ==> Target(|runtimes| - 1) !in ticks[u] {
      TicksAccounted(ticks, s.m, |s.chains|, runtimes, t);
      HeadBoundsRan(s.chains[i], ticks, s.m, |s.chains|, runtimes, t);
      MulMono(s.m, s.m, Sum(RanBefore(ticks, t), |runtimes| - 1), s.chains[i].Head());
      assert false;
    }
  }

  lemma HeadBoundsRan(c: ChainTask, ticks: seq<Tick>, m: nat, chains: nat, runtimes: seq<nat>, t: nat)
    requires ValidChain(c) && Matches(c, runtimes)
    requires Legal(ticks, m, chains, runtimes) && t <= |ticks|
    ensures Sum(RanBefore(ticks, t), |runtimes| - 1) <= c.Head()
  {
    forall q: nat | q < |runtimes| - 1 ensures RanBefore(ticks, t)(q) <= RuntimeOf(runtimes)(q) {
      RanAtMost(ticks, m, chains, runtimes, q, t);
    }
    SumLe(RanBefore(ticks, t), RuntimeOf(runtimes), |runtimes| - 1);
  }

  // ---------- from the start to the end of the last callback ----------

  lemma {:induction false} RanMono(ticks: seq<Tick>, q: nat, t: nat, t': nat)
    requires t <= t' <= |ticks|
    ensures Ran(ticks, q, t) <= Ran(ticks, q, t')
  {
    if t < t' {
      RanMono(ticks, q, t, t' - 1);
    }
  }

  /** Without preemption a callback that runs in tick u is done, or has run in
      every tick since. */
  lemma {:induction false} KeepsRunning(ticks: seq<Tick>, m: nat, chains: nat, runtimes: seq<nat>,
                                        q: nat, u: nat, d: nat)
    requires Legal(ticks, m, chains, runtimes) && q < |runtimes|
    requires u + d < |ticks| && Target(q) in ticks[u]
    ensures Ran(ticks, q, u + d + 1) >= Min(runtimes[q], d + 1)
    ensures Ran(ticks, q, u + d + 1) < runtimes[q] ==> Target(q) in ticks[u + d]
  {
    if d == 0 {
      RanMono(ticks, q, u, u + 1);
    } else {
      assert LegalTick(ticks, m, chains, runtimes, u + d - 1);
      KeepsRunning(ticks, m, chains, runtimes, q, u, d - 1);
      RanMono(ticks, q, u + d, u + d + 1);
    }
  }

  /** The reported response time bounds the schedule: every callback of the
      instance is done after Wcrt ticks. */
  lemma ReportedBoundHolds(s: System, i: nat, ticks: seq<Tick>, runtimes: seq<nat>)
    requires Valid(s) && i < |s.chains| && Matches(s.chains[i], runtimes) && s.chains[i].last >= 1
    requires Legal(ticks, s.m, |s.chains|, runtimes)
    requires R2.Wcrt(s, i) <= |ticks|
    requires WithinAnalysis(s, i, ticks, R2.Stop(s, i))
    ensures forall q: nat :: q < |runtimes| ==> Ran(ticks, q, R2.Wcrt(s, i)) == runtimes[q]
  {
    var t, w, z: nat := R2.Stop(s, i), R2.Wcrt(s, i), |runtimes| - 1;
    LastCallbackStarts(s, i, ticks, runtimes, t);
    var u: nat :| u < t && Target(z) in ticks[u];
    forall q: nat | q < |runtimes| ensures Ran(ticks, q, w) == runtimes[q] {
      DoneAfter(ticks, s.m, |s.chains|, runtimes, u, w, q);
    }
  }

  /** Once the last callback runs in tick u, everything is done after its runtime. */
  lemma DoneAfter(ticks: seq<Tick>, m: nat, chains: nat, runtimes: seq<nat>, u: nat, w: nat, q: nat)
    requires Legal(ticks, m, chains, runtimes) && q < |runtimes|
    requires u + runtimes[|runtimes| - 1] <= w <= |ticks| && runtimes[|runtimes| - 1] >= 1
    requires u < |ticks| && Target(|runtimes| - 1) in ticks[u]
    ensures Ran(ticks, q, w) == runtimes[q]
  {
    var z: nat := |runtimes| - 1;
    RanAtMost(ticks, m, chains, runtimes, q, w);
    assert LegalTick(ticks, m, chains, runtimes, u);
    if q < z {
      RanMono(ticks, q, u, w);
    } else {
      KeepsRunning(ticks, m, chains, runtimes, z, u, runtimes[z] - 1);
      RanMono(ticks, z, u + runtimes[z], w);
    }
  }

  // ---------- the analysed system, from the flat list of callback runtimes ----------

  lemma {:induction false} TotalIsSum(xs: seq<nat>, n: nat)
    requires n <= |xs|
    ensures Total(xs[..n]) == Sum(RuntimeOf(xs), n)
  {
    if n > 0 {
      TotalIsSum(xs, n - 1);
      assert xs[..n][..n - 1] == xs[..n - 1];
    }
  }

  /** The callbacks of chain c in the flat list. */
  function Slice(members: seq<seq<nat>>, nodes: seq<nat>, c: nat): seq<nat>
    requires c < |members| && Offset(members, |members|) <= |nodes|
  {
    OffsetMono(members, c, c + 1);
    OffsetMono(members, c + 1, |members|);
    nodes[Offset(members, c)..Offset(members, c + 1)]
  }

  function SystemOf(m: nat, runtimes: seq<nat>, lasts: seq<nat>, periods: seq<nat>, deadlines: seq<nat>): System
    requires |runtimes| == |lasts| == |periods| == |deadlines|
  {
    System(m, seq(|runtimes|, i requires 0 <= i < |runtimes| =>
      ChainTask(runtimes[i], lasts[i], periods[i], deadlines[i])))
  }

  /** With positive periods and deadlines and chain totals below 2^64, what is read off
      the flat list is a system that can be analysed, and each of its chains has the
      callbacks of its slice. */
  lemma DescribedIsValid(m: nat, members: seq<seq<nat>>, nodes: seq<nat>, runtimes: seq<nat>, lasts: seq<nat>,
                         periods: seq<nat>, deadlines: seq<nat>)
    requires m >= 1 && |runtimes| == |lasts| == |periods| == |deadlines| == |members|
    requires Offset(members, |members|) <= |nodes|
    requires forall i: nat :: i < |members| ==> Describes(members, nodes, i, runtimes[i], lasts[i])
    requires forall i: nat :: i < |members| ==>
      periods[i] > 0 && deadlines[i] > 0 && Total(Slice(members, nodes, i)) < WORD
    ensures Valid(SystemOf(m, runtimes, lasts, periods, deadlines))
    ensures forall i: nat :: i < |members| ==>
      Matches(SystemOf(m, runtimes, lasts, periods, deadlines).chains[i], Slice(members, nodes, i))
  {
    hide Valid, Describes, Slice, Matches, Total;
    var s := SystemOf(m, runtimes, lasts, periods, deadlines);
    forall i: nat | i < |members|
      ensures ValidChain(s.chains[i]) && Matches(s.chains[i], Slice(members, nodes, i))
    {
      ChainIsDescribed(members, nodes, i, runtimes[i], lasts[i], periods[i], deadlines[i]);
    }
    ChainsAreValid(s);
  }

  lemma ChainsAreValid(s: System)
    requires s.m >= 1 && forall k: nat :: k < |s.chains| ==> ValidChain(s.chains[k])
    ensures Valid(s)
  {
  }

  lemma ChainIsDescribed(members: seq<seq<nat>>, nodes: seq<nat>, i: nat, runtime: nat, last: nat, period: nat,
                         deadline: nat)
    requires i < |members| && Offset(members, |members|) <= |nodes|
    requires Describes(members, nodes, i, runtime, last) && Total(Slice(members, nodes, i)) < WORD
    requires period > 0 && deadline > 0
    ensures ValidChain(ChainTask(runtime, last, period, deadline))
    ensures Matches(ChainTask(runtime, last, period, deadline), Slice(members, nodes, i))
  {
    hide Offset;
    var xs := Slice(members, nodes, i);
    TotalIsSum(xs, |xs|);
    assert xs[..|xs|] == xs;
  }
}
