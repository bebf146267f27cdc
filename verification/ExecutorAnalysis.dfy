/** Where the executor and its analysis meet: the analysis's interference terms
    cover what the executor's own rings and release clocks can produce. */
module ExecutorAnalysis {
  import opened Arithmetic
  import opened SlotTable
  import opened TaskSystem
  import Chain
  import RingLimits
  import ReleaseClock
  import Schedule
  import R2 = ResponseTime2

  /** The releases of any run of a chain obey the arrival bound. */
  lemma ChainArrivalBound(c: Chain.Config, first: int, run: seq<Chain.Take>, a: int, w: nat)
    requires Chain.ValidRun(c, run)
    ensures ReleaseClock.Arrivals(Chain.Recorded(c, first, run).rel, a, a + w) <= CeilDiv(w, c.period)
  {
    Chain.RunSpaced(c, first, run);
    ReleaseClock.ArrivalBound(Chain.Recorded(c, first, run).rel, c.period, a, w);
  }

  // ---------- what can be carried in ----------

  /** The instances of a chain whose deadline is still ahead at time a were released
      within a relative deadline before it: they are at most the ceil(D / T) that the
      analysis charges. */
  lemma PendingBound(t: ChainTask, callbacks: nat, first: int, run: seq<Chain.Take>, a: int)
    requires ValidChain(t) && callbacks > 0 && Chain.ValidRun(Chain.Plain(t.period, t.deadline, callbacks), run)
    ensures var c := Chain.Plain(t.period, t.deadline, callbacks);
      ReleaseClock.Arrivals(Chain.Recorded(c, first, run).rel, a - t.deadline, a) <= t.Backlog()
  {
    var c := Chain.Plain(t.period, t.deadline, callbacks);
    ChainArrivalBound(c, first, run, a - t.deadline, t.deadline);
    assert a - t.deadline + t.deadline == a;
  }

  lemma OnTimeArrive(c: Chain.Config, first: int, n: nat, a: int, w: nat)
    requires Chain.ValidConfig(c) && first == a + 1 && Times(n, c.period) < w
    ensures ReleaseClock.Arrivals(RingLimits.OnTime(c, first, RingLimits.InPass(c, n, 0)).rel, a, a + w) >= n + 1
  {
    hide ReleaseClock.Arrivals, Times, CeilDiv;
    var rel := RingLimits.OnTime(c, first, RingLimits.InPass(c, n, 0)).rel;
    forall k: nat | k < |rel| ensures a < rel[k] <= a + w {
      TimesMono(k, n, c.period);
    }
    SuffixArrives(rel, a, a + w, 0);
  }

  lemma TimesMono(a: nat, b: nat, c: nat)
    requires a <= b
    ensures Times(a, c) <= Times(b, c)
  {
    MulMono(a, b, c, c);
  }

  /** The arrival bound is attained: for every window some run of the executor's clock
      releases ceil(w / T) instances in it. */
  lemma MostArrive(period: nat, deadline: nat, callbacks: nat, a: int, w: nat)
    returns (first: int, run: seq<Chain.Take>)
    requires period > 0 && deadline > 0 && callbacks > 0
    ensures var c := Chain.Plain(period, deadline, callbacks);
      && Chain.ValidRun(c, run) && Chain.FedRun(c, first, run) && Chain.TimelyRun(c, first, run)
      && ReleaseClock.Arrivals(Chain.Recorded(c, first, run).rel, a, a + w) == CeilDiv(w, period)
  {
    hide ReleaseClock.Arrivals, Chain.FedRun, Chain.TimelyRun, Chain.Recorded, RingLimits.OnTime, Times;
    var c, q := Chain.Plain(period, deadline, callbacks), CeilDiv(w, period);
    var n: nat := if q == 0 then 0 else q - 1;
    first := a + 1;
    run := RingLimits.SerialRun(c, first, n, 0);
    if q > 0 {
      LastBlockStarts(w, period);
      OnTimeArrive(c, first, n, a, w);
    }
    ChainArrivalBound(c, first, run, a, w);
  }

  lemma LastBlockStarts(w: nat, period: nat)
    requires period > 0 && CeilDiv(w, period) > 0
    ensures Times(CeilDiv(w, period) - 1, period) < w
  {
  }

  /** What the analysis charges is the most that can be carried in, no more and no
      less: some run has that many instances with their deadlines ahead at time a. */
  lemma BacklogAttained(t: ChainTask, callbacks: nat, a: int) returns (first: int, run: seq<Chain.Take>)
    requires ValidChain(t) && callbacks > 0
    ensures var c := Chain.Plain(t.period, t.deadline, callbacks);
      && Chain.ValidRun(c, run) && Chain.FedRun(c, first, run) && Chain.TimelyRun(c, first, run)
      && ReleaseClock.Arrivals(Chain.Recorded(c, first, run).rel, a - t.deadline, a) == t.Backlog()
  {
    first, run := MostArrive(t.period, t.deadline, callbacks, a - t.deadline, t.deadline);
    assert a - t.deadline + t.deadline == a;
  }

  /** A suffix of releases in the window is among the arrivals. */
  lemma {:induction false} SuffixArrives(rel: seq<int>, a: int, b: int, from: nat)
    requires from <= |rel| && forall n :: from <= n < |rel| ==> a < rel[n] <= b
    ensures |rel| - from <= ReleaseClock.Arrivals(rel, a, b)
  {
    if from < |rel| {
      SuffixArrives(rel[..|rel| - 1], a, b, from);
    }
  }

  /** What the ring queues when the timer can be taken in time is exactly the
      unfinished instances, and all of them are among those pending arrivals. */
  lemma QueuedArePending(c: Chain.Config, first: int, run: seq<Chain.Take>, now: int)
    requires Chain.ValidRun(c, run) && Chain.InStep(c) && Chain.AdmissibleRun(c, first, run)
    requires Chain.Timely(c, Chain.Recorded(c, first, run), Chain.Take(0, now))
    ensures var l := Chain.Recorded(c, first, run);
      Queued(Chain.Reached(c, first, run).slots) <= ReleaseClock.Arrivals(l.rel, now - c.deadline, now)
  {
    hide Chain.Refines, Chain.Reached, Chain.Recorded, Chain.AdmissibleRun, ReleaseClock.Arrivals, Queued;
    var l := Chain.Recorded(c, first, run);
    Chain.RunRefines(c, first, run);
    Chain.RunSpaced(c, first, run);
    PendingArrive(c, l, now);
  }

  lemma PendingArrive(c: Chain.Config, l: Chain.Ledger, now: int)
    requires Chain.ValidLedger(c, l) && ReleaseClock.Spaced(l.rel, c.period) && Chain.Timely(c, l, Chain.Take(0, now))
    requires Chain.Oldest(c, l) <= |l.rel|
    ensures |l.rel| - Chain.Oldest(c, l) <= ReleaseClock.Arrivals(l.rel, now - c.deadline, now)
  {
    hide ReleaseClock.Arrivals;
    var last, low: nat := |l.rel| - 1, Chain.Oldest(c, l);
    forall n: nat | low <= n < |l.rel| ensures now - c.deadline < l.rel[n] <= now {
      if n < last {
        assert l.rel[n] + Times(last - n, c.period) <= l.rel[last];
      }
    }
    SuffixArrives(l.rel, now - c.deadline, now, low);
  }

  lemma {:induction false} TotalAtMost(xs: seq<nat>, cap: nat)
    requires forall x :: x in xs ==> x <= cap
    ensures Total(xs) <= Times(|xs|, cap)
  {
    if xs == [] {
      assert Times(0, cap) == 0;
    } else {
      var init, last := xs[..|xs| - 1], xs[|xs| - 1];
      assert last in xs && forall x :: x in init ==> x in xs;
      TotalAtMost(init, cap);
      ReleaseClock.TimesStep(|xs| - 1, cap);
    }
  }

  /** The interfering work of chain k in a window of t ticks that starts at `a`,
      instance by instance: what was carried in, and what was released in the
      window early enough to have an earlier deadline. The releases are those of
      some run of the chain's timer. */
  datatype Account = Account(carried: seq<nat>, released: seq<nat>,
                             callbacks: nat, first: int, run: seq<Chain.Take>, a: int)

  /** Carried in are instances whose deadline was still ahead at a, of the analysed
      chain all but the analysed one. */
  ghost predicate Accounts(s: System, i: nat, t: nat, k: nat, acc: Account)
    requires Valid(s) && i < |s.chains| && k < |s.chains|
  {
    var ck, ci := s.chains[k], s.chains[i];
    && acc.callbacks > 0
    && var c := Chain.Plain(ck.period, ck.deadline, acc.callbacks);
    && Chain.ValidRun(c, acc.run)
    && var rel := Chain.Recorded(c, acc.first, acc.run).rel;
    && |acc.carried| + (if k == i then 1 else 0) <= ReleaseClock.Arrivals(rel, acc.a - ck.deadline, acc.a)
    && (forall x :: x in acc.carried ==> x <= ck.runtime && x <= t)
    && (forall x :: x in acc.released ==> x <= ck.runtime)
    && (ck.deadline >= ci.deadline ==> acc.released == [])
    && (ck.deadline < ci.deadline ==>
          |acc.released| <= ReleaseClock.Arrivals(rel, acc.a, acc.a + Min(t, ci.deadline - ck.deadline)))
  }

  function Amount(acc: Account): nat {
    Total(acc.carried) + Total(acc.released)
  }

  /** Work accounted for like that is within the analysis's term for the chain. */
  lemma AccountWithinAnalysis(s: System, i: nat, t: nat, k: nat, acc: Account)
    requires Valid(s) && i < |s.chains| && k < |s.chains| && Accounts(s, i, t, k, acc)
    ensures Amount(acc) <= R2.FromChain(s, i, t, k)
  {
    var ck, ci := s.chains[k], s.chains[i];
    var c := Chain.Plain(ck.period, ck.deadline, acc.callbacks);
    PendingBound(ck, acc.callbacks, acc.first, acc.run, acc.a);
    TotalAtMost(acc.carried, Min(ck.runtime, t));
    MulMono(|acc.carried|, ck.Backlog() - (if k == i then 1 else 0), Min(ck.runtime, t), Min(ck.runtime, t));
    if ck.deadline < ci.deadline {
      var w := Min(t, ci.deadline - ck.deadline);
      ChainArrivalBound(c, acc.first, acc.run, acc.a, w);
      TotalAtMost(acc.released, ck.runtime);
      MulMono(|acc.released|, CeilDiv(w, ck.period), ck.runtime, ck.runtime);
    }
  }

  lemma {:induction false} TotalOfEqual(n: nat, x: nat)
    ensures Total(seq(n, k => x)) == Times(n, x)
  {
    if n == 0 {
      assert Times(0, x) == 0;
    } else {
      TotalOfEqual(n - 1, x);
      assert seq(n, k => x)[..n - 1] == seq(n - 1, k => x);
      ReleaseClock.TimesStep(n - 1, x);
    }
  }

  /** The analysis's term for what is carried in is attained by an account: instance by
      instance, it charges what some run of the chain can leave pending. */
  lemma CarriedAttained(s: System, i: nat, t: nat, k: nat) returns (acc: Account)
    requires Valid(s) && i < |s.chains| && k < |s.chains|
    ensures Accounts(s, i, t, k, acc) && Amount(acc) == R2.Carried(s, i, t, k)
  {
    hide ReleaseClock.Arrivals, Chain.Recorded, Chain.FedRun, Chain.TimelyRun, Times;
    var ck := s.chains[k];
    R2.BacklogPositive(ck);
    var n: nat := ck.Backlog() - (if k == i then 1 else 0);
    var first, run := BacklogAttained(ck, 1, 0);
    acc := Account(seq(n, j => Min(ck.runtime, t)), [], 1, first, run, 0);
    TotalOfEqual(n, Min(ck.runtime, t));
  }

  /** So is its term for what is released in the window, which is nothing for a chain
      whose deadline is not shorter. */
  lemma ReleasedAttained(s: System, i: nat, t: nat, k: nat) returns (acc: Account)
    requires Valid(s) && i < |s.chains| && k < |s.chains|
    ensures Accounts(s, i, t, k, acc) && Amount(acc) == R2.Shorter(s, i, t, k)
  {
    hide ReleaseClock.Arrivals, Chain.Recorded, Chain.FedRun, Chain.TimelyRun, Times;
    var ck, ci := s.chains[k], s.chains[i];
    if ck.deadline < ci.deadline {
      var w := Min(t, ci.deadline - ck.deadline);
      var first, run := MostArrive(ck.period, ck.deadline, 1, 0, w);
      var n := CeilDiv(w, ck.period);
      acc := Account([], seq(n, j => ck.runtime), 1, first, run, 0);
      TotalOfEqual(n, ck.runtime);
    } else {
      R2.BacklogPositive(ck);
      var first, run := BacklogAttained(ck, 1, 0);
      acc := Account([], [], 1, first, run, 0);
    }
  }

  /** A schedule in which every chain's interfering work is accounted for by the
      executor's rings and release clocks finishes the analysed instance within
      the reported response time. */
  lemma ExecutorMeetsReport(s: System, i: nat, ticks: seq<Schedule.Tick>, runtimes: seq<nat>, accounts: seq<Account>)
    requires Valid(s) && i < |s.chains| && |accounts| == |s.chains|
    requires Schedule.Matches(s.chains[i], runtimes) && s.chains[i].last >= 1
    requires Schedule.Legal(ticks, s.m, |s.chains|, runtimes) && R2.Wcrt(s, i) <= |ticks|
    requires forall k: nat :: k < |s.chains| ==>
      && Accounts(s, i, R2.Stop(s, i), k, accounts[k])
      && Schedule.WorkOf(ticks, R2.Stop(s, i), k) == Amount(accounts[k])
    ensures forall q: nat :: q < |runtimes| ==> Schedule.Ran(ticks, q, R2.Wcrt(s, i)) == runtimes[q]
  {
    forall k: nat | k < |s.chains|
      ensures Schedule.WorkOf(ticks, R2.Stop(s, i), k) <= R2.FromChain(s, i, R2.Stop(s, i), k)
    {
      AccountWithinAnalysis(s, i, R2.Stop(s, i), k, accounts[k]);
    }
    Schedule.EachTermIsWithin(s, i, ticks, R2.Stop(s, i));
    Schedule.ReportedBoundHolds(s, i, ticks, runtimes);
  }
}
