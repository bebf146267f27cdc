/** The reported response time cannot be improved: for every task system there is a
    legal schedule within the analysis that needs all of it. */
module Tightness {
  import opened Arithmetic
  import opened TaskSystem
  import opened Schedule
  import Crossing
  import R2 = ResponseTime2

  // ---------- units of work, dealt out in order ----------

  /** Work comes in units 0, 1, ..; the first f(0) are of kind 0, the next f(1) of
      kind 1, and so on. */
  function Owner(f: nat -> nat, n: nat, u: nat): (k: nat)
    requires u < Sum(f, n)
    ensures k < n && Sum(f, k) <= u < Sum(f, k + 1)
  {
    if u >= Sum(f, n - 1) then n - 1 else Owner(f, n - 1, u)
  }

  lemma OwnerIs(f: nat -> nat, n: nat, u: nat, k: nat)
    requires k < n && Sum(f, k) <= u < Sum(f, k + 1) && u < Sum(f, n)
    ensures Owner(f, n, u) == k
  {
    var o := Owner(f, n, u);
    if o < k {
      SumPrefix(f, o + 1, k);
    } else if k < o {
      SumPrefix(f, k + 1, o);
    }
  }

  /** How many of the first u units are of kind k. */
  function Dealt(f: nat -> nat, n: nat, k: nat, u: nat): nat
    requires u <= Sum(f, n)
  {
    if u == 0 then 0 else Dealt(f, n, k, u - 1) + if Owner(f, n, u - 1) == k then 1 else 0
  }

  lemma {:induction false} DealtIs(f: nat -> nat, n: nat, k: nat, u: nat)
    requires k < n && u <= Sum(f, n)
    ensures Dealt(f, n, k, u) == if u <= Sum(f, k) then 0 else if u >= Sum(f, k + 1) then f(k) else u - Sum(f, k)
  {
    if u > 0 {
      DealtIs(f, n, k, u - 1);
      if Sum(f, k) <= u - 1 < Sum(f, k + 1) {
        OwnerIs(f, n, u - 1, k);
      }
    }
  }

  // ---------- the schedule ----------

  /** One tick in which m threads work on units from, from + 1, .. of the
      interference. */
  function BusyTick(f: nat -> nat, n: nat, from: nat, m: nat): Tick
    requires from + m <= Sum(f, n)
    decreases m
  {
    if m == 0 then [] else [Interfering(Owner(f, n, from))] + BusyTick(f, n, from + 1, m - 1)
  }

  lemma {:induction false} BusyTickIs(f: nat -> nat, n: nat, from: nat, m: nat)
    requires from + m <= Sum(f, n)
    decreases m
    ensures |BusyTick(f, n, from, m)| == m && AllInterfering(BusyTick(f, n, from, m), n)
  {
    if m > 0 {
      BusyTickIs(f, n, from + 1, m - 1);
    }
  }

  lemma {:induction false} BusyTickDeals(f: nat -> nat, n: nat, from: nat, m: nat, k: nat)
    requires from + m <= Sum(f, n)
    decreases m
    ensures Busy(BusyTick(f, n, from, m), k) == Dealt(f, n, k, from + m) - Dealt(f, n, k, from)
  {
    hide Sum, Owner;
    if m > 0 {
      BusyTickDeals(f, n, from + 1, m - 1, k);
      assert BusyTick(f, n, from, m)[1..] == BusyTick(f, n, from + 1, m - 1);
    }
  }

  /** One tick in which only callback q runs. */
  function RunTick(m: nat, q: nat): (tick: Tick)
    requires m >= 1
    ensures |tick| == m
    ensures forall p: nat :: Target(p) in tick <==> p == q
    ensures forall a :: 0 <= a < |tick| ==> !tick[a].Interfering?
  {
    [Target(q)] + seq(m - 1, b => Idle)
  }

  lemma {:induction false} RunTickIsNotBusy(tick: Tick, k: nat)
    requires forall a :: 0 <= a < |tick| ==> !tick[a].Interfering?
    ensures Busy(tick, k) == 0
  {
    if tick != [] {
      RunTickIsNotBusy(tick[1..], k);
    }
  }

  /** How many ticks all callbacks run one after the other. */
  function Length(runtimes: seq<nat>): nat {
    Sum(RuntimeOf(runtimes), |runtimes|)
  }

  /** g fully busy ticks, then the callbacks one after the other. */
  function Worst(f: nat -> nat, n: nat, m: nat, g: nat, runtimes: seq<nat>): (ticks: seq<Tick>)
    requires m >= 1 && Times(g, m) <= Sum(f, n)
    ensures |ticks| == g + Length(runtimes)
    ensures forall u: nat :: u < |ticks| ==> ticks[u] == TickOf(f, n, m, g, runtimes, u)
  {
    seq(g + Length(runtimes), (u: nat) requires u < g + Length(runtimes) => TickOf(f, n, m, g, runtimes, u))
  }

  function TickOf(f: nat -> nat, n: nat, m: nat, g: nat, runtimes: seq<nat>, u: nat): Tick
    requires m >= 1 && Times(g, m) <= Sum(f, n) && u < g + Length(runtimes)
  {
    if u < g then
      UnitsFit(u, g, m);
      BusyTick(f, n, Times(u, m), m)
    else RunTick(m, Owner(RuntimeOf(runtimes), |runtimes|, u - g))
  }

  lemma UnitsFit(u: nat, g: nat, m: nat)
    requires u < g
    ensures Times(u, m) + m == Times(u + 1, m) <= Times(g, m)
  {
    MulMono(u + 1, g, m, m);
  }

  // ---------- what the schedule does ----------

  lemma BusyTickAt(f: nat -> nat, n: nat, m: nat, g: nat, runtimes: seq<nat>, u: nat)
    requires m >= 1 && Times(g, m) <= Sum(f, n) && u < g
    ensures Times(u, m) + m == Times(u + 1, m) <= Sum(f, n)
    ensures Worst(f, n, m, g, runtimes)[u] == BusyTick(f, n, Times(u, m), m)
    ensures AllInterfering(Worst(f, n, m, g, runtimes)[u], n) && |Worst(f, n, m, g, runtimes)[u]| == m
    ensures forall q: nat :: Target(q) !in Worst(f, n, m, g, runtimes)[u]
  {
    UnitsFit(u, g, m);
    BusyTickIs(f, n, Times(u, m), m);
    assert Worst(f, n, m, g, runtimes)[u] == TickOf(f, n, m, g, runtimes, u);
  }

  lemma RunTickAt(f: nat -> nat, n: nat, m: nat, g: nat, runtimes: seq<nat>, u: nat)
    requires m >= 1 && Times(g, m) <= Sum(f, n) && g <= u < g + Length(runtimes)
    ensures Worst(f, n, m, g, runtimes)[u] == RunTick(m, Owner(RuntimeOf(runtimes), |runtimes|, u - g))
  {
    assert Worst(f, n, m, g, runtimes)[u] == TickOf(f, n, m, g, runtimes, u);
  }

  lemma {:induction false} WorkInBusyTicks(f: nat -> nat, n: nat, m: nat, g: nat, runtimes: seq<nat>, t: nat, k: nat)
    requires m >= 1 && Times(g, m) <= Sum(f, n) && t <= g
    ensures Times(t, m) <= Sum(f, n)
    ensures WorkOf(Worst(f, n, m, g, runtimes), t, k) == Dealt(f, n, k, Times(t, m))
  {
    hide Worst, TickOf, BusyTick, Sum, Owner;
    MulMono(t, g, m, m);
    if t > 0 {
      WorkInBusyTicks(f, n, m, g, runtimes, t - 1, k);
      BusyTickAt(f, n, m, g, runtimes, t - 1);
      BusyTickDeals(f, n, Times(t - 1, m), m, k);
    } else {
      assert Times(0, m) == 0;
    }
  }

  lemma {:induction false} NoMoreWork(f: nat -> nat, n: nat, m: nat, g: nat, runtimes: seq<nat>, t: nat, k: nat)
    requires m >= 1 && Times(g, m) <= Sum(f, n) && g <= t <= g + Length(runtimes)
    ensures WorkOf(Worst(f, n, m, g, runtimes), t, k) == WorkOf(Worst(f, n, m, g, runtimes), g, k)
  {
    hide Worst, TickOf, RunTick, Sum, Owner, Times;
    if t > g {
      NoMoreWork(f, n, m, g, runtimes, t - 1, k);
      RunTickAt(f, n, m, g, runtimes, t - 1);
      RunTickIsNotBusy(Worst(f, n, m, g, runtimes)[t - 1], k);
    }
  }

  lemma {:induction false} RanInWorst(f: nat -> nat, n: nat, m: nat, g: nat, runtimes: seq<nat>, q: nat, t: nat)
    requires m >= 1 && Times(g, m) <= Sum(f, n) && t <= g + Length(runtimes)
    ensures Ran(Worst(f, n, m, g, runtimes), q, t)
         == if t <= g then 0 else Dealt(RuntimeOf(runtimes), |runtimes|, q, t - g)
  {
    hide Worst, TickOf, BusyTick, Times, Sum, Owner, RunTick;
    if t > 0 {
      RanInWorst(f, n, m, g, runtimes, q, t - 1);
      if t <= g {
        BusyTickAt(f, n, m, g, runtimes, t - 1);
      } else {
        RunTickAt(f, n, m, g, runtimes, t - 1);
      }
    }
  }

  /** In a tick that runs a callback, the earlier ones are done, it is not, and it is
      not preempted. */
  lemma RunTickIsLegal(f: nat -> nat, n: nat, m: nat, g: nat, runtimes: seq<nat>, u: nat)
    requires m >= 1 && Times(g, m) <= Sum(f, n) && runtimes != []
    requires g <= u < g + Length(runtimes)
    ensures LegalTick(Worst(f, n, m, g, runtimes), m, n, runtimes, u)
  {
    hide Worst, TickOf, BusyTick, RunTick, Times, Sum, Owner, Dealt, Ran;
    var w, q := Worst(f, n, m, g, runtimes), Owner(RuntimeOf(runtimes), |runtimes|, u - g);
    RunTickAt(f, n, m, g, runtimes, u);
    forall p: nat | p <= q
      ensures Ran(w, p, u) <= runtimes[p] && (p < q <==> Ran(w, p, u) == runtimes[p])
    {
      RanBeforeOwner(f, n, m, g, runtimes, u, p);
    }
    if u + 1 < |w| && Ran(w, q, u + 1) < runtimes[q] {
      NotPreempted(f, n, m, g, runtimes, u);
    }
  }

  lemma NotPreempted(f: nat -> nat, n: nat, m: nat, g: nat, runtimes: seq<nat>, u: nat)
    requires m >= 1 && Times(g, m) <= Sum(f, n) && g <= u && u + 1 < g + Length(runtimes)
    ensures var w, q := Worst(f, n, m, g, runtimes), Owner(RuntimeOf(runtimes), |runtimes|, u - g);
      Ran(w, q, u + 1) < runtimes[q] ==> Target(q) in w[u + 1]
  {
    hide Worst, TickOf, BusyTick, RunTick, Times, Owner, Dealt;
    var w, r := Worst(f, n, m, g, runtimes), RuntimeOf(runtimes);
    var q := Owner(r, |runtimes|, u - g);
    if Ran(w, q, u + 1) < runtimes[q] {
      RanInWorst(f, n, m, g, runtimes, q, u + 1);
      DealtIs(r, |runtimes|, q, u + 1 - g);
      OwnerIs(r, |runtimes|, u + 1 - g, q);
      RunTickAt(f, n, m, g, runtimes, u + 1);
    }
  }

  lemma RanBeforeOwner(f: nat -> nat, n: nat, m: nat, g: nat, runtimes: seq<nat>, u: nat, p: nat)
    requires m >= 1 && Times(g, m) <= Sum(f, n) && g <= u < g + Length(runtimes)
    requires p <= Owner(RuntimeOf(runtimes), |runtimes|, u - g)
    ensures var q := Owner(RuntimeOf(runtimes), |runtimes|, u - g);
      && Ran(Worst(f, n, m, g, runtimes), p, u) == (if p < q then runtimes[p] else u - g - Sum(RuntimeOf(runtimes), q))
      && (p == q ==> Ran(Worst(f, n, m, g, runtimes), p, u) < runtimes[p])
  {
    hide Worst, TickOf, BusyTick, RunTick, Times, Owner, Dealt;
    var r := RuntimeOf(runtimes);
    var q := Owner(r, |runtimes|, u - g);
    RanInWorst(f, n, m, g, runtimes, p, u);
    DealtIs(r, |runtimes|, p, u - g);
    assert Sum(r, p + 1) == Sum(r, p) + r(p);
    if p < q {
      SumPrefix(r, p + 1, q);
    }
  }

  lemma BusyTickIsLegal(f: nat -> nat, n: nat, m: nat, g: nat, runtimes: seq<nat>, u: nat)
    requires m >= 1 && Times(g, m) <= Sum(f, n) && runtimes != [] && u < g
    ensures LegalTick(Worst(f, n, m, g, runtimes), m, n, runtimes, u)
  {
    BusyTickAt(f, n, m, g, runtimes, u);
  }

  // ---------- the bound is attained ----------

  lemma Excess(m: nat, t: nat, h: nat, w: nat)
    requires h <= t && Times(m, t) <= Times(m, h) + w
    ensures Times(t - h, m) <= w
  {
    assert m * t == m * h + (t - h) * m;
  }

  /** One tick before the search stops, the interference covers all threads from the
      head on. */
  lemma InterferenceFills(s: System, i: nat)
    requires Valid(s) && i < |s.chains|
    ensures var t, h := R2.Stop(s, i), s.chains[i].Head();
      Times(t - 1 - h, s.m) <= Sum(R2.Interference(s, i, t), |s.chains|)
  {
    hide Sum, R2.FromChain;
    var t, h, n := R2.Stop(s, i), s.chains[i].Head(), |s.chains|;
    assert !Crossing.Crosses(R2.Demand(s, i), s.m, t - 1);
    Excess(s.m, t - 1, h, Sum(R2.Interference(s, i, t - 1), n));
    forall k: nat ensures R2.Interference(s, i, t - 1)(k) <= R2.Interference(s, i, t)(k) {
      R2.InterferenceMono(s, s, i, t - 1, t, k);
    }
    SumLe(R2.Interference(s, i, t - 1), R2.Interference(s, i, t), n);
  }

  /** For every task system, chain and split of its runtime into callbacks, a legal
      schedule whose interference is within the analysis, chain by chain, in which
      the instance is not finished one tick before the reported response time. */
  lemma BoundIsAttained(s: System, i: nat, runtimes: seq<nat>) returns (ticks: seq<Tick>)
    requires Valid(s) && i < |s.chains| && Matches(s.chains[i], runtimes) && s.chains[i].last >= 1
    ensures |ticks| == R2.Wcrt(s, i) && Legal(ticks, s.m, |s.chains|, runtimes)
    ensures R2.Stop(s, i) <= |ticks| && WithinEachTerm(s, i, ticks, R2.Stop(s, i))
    ensures WithinAnalysis(s, i, ticks, R2.Stop(s, i))
    ensures Ran(ticks, |runtimes| - 1, R2.Wcrt(s, i) - 1) < runtimes[|runtimes| - 1]
  {
    hide Worst, Sum, WorkOf, Ran, R2.Stop, Legal, Times, R2.Interference, R2.Demand, WithinEachTerm, WithinAnalysis;
    var t, n := R2.Stop(s, i), |s.chains|;
    var f, g: nat := R2.Interference(s, i, t), t - 1 - s.chains[i].Head();
    InterferenceFills(s, i);
    ticks := Worst(f, n, s.m, g, runtimes);
    WorstIsLegal(f, n, s.m, g, runtimes);
    WorstIsWithin(s, i, t, g, runtimes);
    EachTermIsWithin(s, i, ticks, t);
    LastUnfinished(f, n, s.m, g, runtimes);
  }

  lemma WorstIsWithin(s: System, i: nat, t: nat, g: nat, runtimes: seq<nat>)
    requires Valid(s) && i < |s.chains| && g <= t <= g + Length(runtimes)
    requires Times(g, s.m) <= Sum(R2.Interference(s, i, t), |s.chains|)
    ensures WithinEachTerm(s, i, Worst(R2.Interference(s, i, t), |s.chains|, s.m, g, runtimes), t)
  {
    hide Worst, WorkOf, Times, Sum;
    var f, n := R2.Interference(s, i, t), |s.chains|;
    forall k: nat | k < n ensures WorkOf(Worst(f, n, s.m, g, runtimes), t, k) <= R2.FromChain(s, i, t, k) {
      WorkWithinTerm(f, n, s.m, g, runtimes, t, k);
    }
  }

  lemma WorstIsLegal(f: nat -> nat, n: nat, m: nat, g: nat, runtimes: seq<nat>)
    requires m >= 1 && Times(g, m) <= Sum(f, n) && runtimes != []
    ensures Legal(Worst(f, n, m, g, runtimes), m, n, runtimes)
  {
    hide Worst, LegalTick, Sum, Times;
    forall u: nat | u < g + Length(runtimes) ensures LegalTick(Worst(f, n, m, g, runtimes), m, n, runtimes, u) {
      if u < g {
        BusyTickIsLegal(f, n, m, g, runtimes, u);
      } else {
        RunTickIsLegal(f, n, m, g, runtimes, u);
      }
    }
  }

  lemma WorkWithinTerm(f: nat -> nat, n: nat, m: nat, g: nat, runtimes: seq<nat>, t: nat, k: nat)
    requires m >= 1 && Times(g, m) <= Sum(f, n) && g <= t <= g + Length(runtimes) && k < n
    ensures WorkOf(Worst(f, n, m, g, runtimes), t, k) <= f(k)
  {
    assert Sum(f, k + 1) == Sum(f, k) + f(k);
    hide Worst, Owner, Dealt, Times, Sum;
    NoMoreWork(f, n, m, g, runtimes, t, k);
    WorkInBusyTicks(f, n, m, g, runtimes, g, k);
    DealtIs(f, n, k, Times(g, m));
  }

  lemma LengthIs(runtimes: seq<nat>)
    requires runtimes != []
    ensures var z: nat := |runtimes| - 1;
      && Length(runtimes) == Sum(RuntimeOf(runtimes), |runtimes|) == Sum(RuntimeOf(runtimes), z) + runtimes[z]
      && RuntimeOf(runtimes)(z) == runtimes[z]
  {
  }

  lemma LastUnfinished(f: nat -> nat, n: nat, m: nat, g: nat, runtimes: seq<nat>)
    requires m >= 1 && Times(g, m) <= Sum(f, n) && runtimes != [] && runtimes[|runtimes| - 1] >= 1
    ensures Length(runtimes) >= 1
    ensures Ran(Worst(f, n, m, g, runtimes), |runtimes| - 1, g + Length(runtimes) - 1) < runtimes[|runtimes| - 1]
  {
    hide *;
    var z: nat := |runtimes| - 1;
    LengthIs(runtimes);
    RanInWorst(f, n, m, g, runtimes, z, g + Length(runtimes) - 1);
    DealtIs(RuntimeOf(runtimes), |runtimes|, z, Length(runtimes) - 1);
  }
}
