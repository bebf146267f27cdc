/** The response-time search for arbitrary deadlines (theorem_2.cpp). */
module ResponseTime2 {
  import opened Arithmetic
  import opened TaskSystem
  import Crossing

  // ---------- the demand, chain by chain ----------

  /** Demand of chain k's instances that have an earlier deadline than chain i's
      and are released in the window. */
  function Shorter(s: System, i: nat, t: nat, k: nat): nat
    requires Valid(s) && i < |s.chains|
  {
    if k < |s.chains| && s.chains[k].deadline < s.chains[i].deadline then
      Times(CeilDiv(Min(t, s.chains[i].deadline - s.chains[k].deadline), s.chains[k].period), s.chains[k].runtime)
    else 0
  }

  /** Demand of the instances of chain k that were already pending; the analysed
      instance of chain i itself is not counted. */
  function Carried(s: System, i: nat, t: nat, k: nat): nat
    requires Valid(s) && i < |s.chains|
  {
    if k < |s.chains| then
      Times(s.chains[k].Backlog() - (if k == i then 1 else 0), Min(s.chains[k].runtime, t))
    else 0
  }

  function FromChain(s: System, i: nat, t: nat, k: nat): nat
    requires Valid(s) && i < |s.chains|
  {
    Shorter(s, i, t, k) + Carried(s, i, t, k)
  }

  function Interference(s: System, i: nat, t: nat): nat -> nat
    requires Valid(s) && i < |s.chains|
  {
    k => FromChain(s, i, t, k)
  }

  function Demand(s: System, i: nat): nat -> nat
    requires Valid(s) && i < |s.chains|
  {
    t => Times(s.m, s.chains[i].Head()) + Sum(Interference(s, i, t), |s.chains|)
  }

  // ---------- the demand is monotone and bounded ----------

  /** Interference of chain k once every minimum is saturated. */
  function Saturated(s: System, i: nat): nat -> nat
    requires Valid(s) && i < |s.chains|
  {
    (k: nat) => if k < |s.chains| then FromChain(s, i, s.chains[k].runtime + s.chains[i].deadline, k) else 0
  }

  function Bound(s: System, i: nat): nat
    requires Valid(s) && i < |s.chains|
  {
    Times(s.m, s.chains[i].Head()) + Sum(Saturated(s, i), |s.chains|)
  }

  /** s' is at least as loaded as s for chain i: fewer or as many threads, shorter
      or equal periods, longer or equal runtimes; of chain i neither the last callback
      nor what precedes it got shorter. Deadlines are the same. */
  ghost predicate Harder(s: System, s': System, i: nat) {
    && |s.chains| == |s'.chains| && i < |s.chains|
    && s'.m <= s.m
    && s.chains[i].last <= s'.chains[i].last
    && s.chains[i].runtime - s.chains[i].last <= s'.chains[i].runtime - s'.chains[i].last
    && forall k :: 0 <= k < |s.chains| ==>
      && s.chains[k].runtime <= s'.chains[k].runtime
      && s'.chains[k].period <= s.chains[k].period
      && s'.chains[k].deadline == s.chains[k].deadline
  }

  lemma InterferenceMono(s: System, s': System, i: nat, t: nat, t': nat, k: nat)
    requires Valid(s) && Valid(s') && Harder(s, s', i) && t <= t'
    ensures Interference(s, i, t)(k) <= Interference(s', i, t')(k)
  {
    if k < |s.chains| {
      var c, c' := s.chains[k], s'.chains[k];
      CeilDivMono(c.deadline, c'.deadline, c.period, c'.period);
      var own := if k == i then 1 else 0;
      MulMono(c.Backlog() - own, c'.Backlog() - own, Min(c.runtime, t), Min(c'.runtime, t'));
      if c.deadline < s.chains[i].deadline {
        var gap := s.chains[i].deadline - c.deadline;
        CeilDivMono(Min(t, gap), Min(t', gap), c.period, c'.period);
        MulMono(CeilDiv(Min(t, gap), c.period), CeilDiv(Min(t', gap), c'.period), c.runtime, c'.runtime);
      }
    }
  }

  lemma DemandMono(s: System, i: nat, t: nat, t': nat)
    requires Valid(s) && i < |s.chains| && t <= t'
    ensures Demand(s, i)(t) <= Demand(s, i)(t')
  {
    forall k: nat ensures Interference(s, i, t)(k) <= Interference(s, i, t')(k) {
      InterferenceMono(s, s, i, t, t', k);
    }
    SumLe(Interference(s, i, t), Interference(s, i, t'), |s.chains|);
  }

  lemma InterferenceBounded(s: System, i: nat, t: nat, k: nat)
    requires Valid(s) && i < |s.chains| && k < |s.chains|
    ensures Interference(s, i, t)(k) <= Saturated(s, i)(k)
  {
    var cap := s.chains[k].runtime + s.chains[i].deadline;
    if t <= cap {
      InterferenceMono(s, s, i, t, cap, k);
    } else {
      assert Shorter(s, i, t, k) == Shorter(s, i, cap, k);
      assert Carried(s, i, t, k) == Carried(s, i, cap, k);
    }
  }

  lemma DemandBounded(s: System, i: nat)
    requires Valid(s) && i < |s.chains|
    ensures forall t: nat :: Demand(s, i)(t) <= Bound(s, i)
  {
    forall t: nat ensures Demand(s, i)(t) <= Bound(s, i) {
      forall k: nat | k < |s.chains| ensures Interference(s, i, t)(k) <= Saturated(s, i)(k) {
        InterferenceBounded(s, i, t, k);
      }
      SumLe(Interference(s, i, t), Saturated(s, i), |s.chains|);
    }
  }

  /** The bound is the demand of every window long enough. */
  lemma BoundIsReached(s: System, i: nat, t: nat)
    requires Valid(s) && i < |s.chains|
    requires forall k :: 0 <= k < |s.chains| ==> s.chains[k].runtime + s.chains[i].deadline <= t
    ensures Demand(s, i)(t) == Bound(s, i)
  {
    forall k: nat | k < |s.chains| ensures Interference(s, i, t)(k) == Saturated(s, i)(k) {
      var cap := s.chains[k].runtime + s.chains[i].deadline;
      assert Shorter(s, i, t, k) == Shorter(s, i, cap, k);
      assert Carried(s, i, t, k) == Carried(s, i, cap, k);
    }
    SumLe(Interference(s, i, t), Saturated(s, i), |s.chains|);
    SumLe(Saturated(s, i), Interference(s, i, t), |s.chains|);
  }

  lemma HeadWithinBound(s: System, i: nat)
    requires Valid(s) && i < |s.chains|
    ensures s.chains[i].Head() <= Quot(Bound(s, i), s.m)
  {
    var h := s.chains[i].Head();
    DivBounds(Bound(s, i), s.m);
    FactorBelow(h, Quot(Bound(s, i), s.m) + 1, s.m);
  }

  // ---------- the search ----------

  /** Where the search of chain i stops. */
  function Stop(s: System, i: nat): (t: nat)
    requires Valid(s) && i < |s.chains|
    ensures Crossing.IsFirst(Demand(s, i), s.m, s.chains[i].Head(), t)
    ensures t <= Quot(Bound(s, i), s.m) + 1
    ensures t > s.chains[i].Head()
  {
    DemandBounded(s, i);
    HeadWithinBound(s, i);
    var t := Crossing.First(Demand(s, i), s.m, Bound(s, i), s.chains[i].Head());
    FactorBelow(s.chains[i].Head(), t, s.m);
    t
  }

  /** The worst-case response time the analysis reports for chain i. */
  function Wcrt(s: System, i: nat): nat
    requires Valid(s) && i < |s.chains|
  {
    Stop(s, i) + s.chains[i].last - 1
  }

  lemma WcrtRange(s: System, i: nat)
    requires Valid(s) && i < |s.chains|
    ensures s.chains[i].runtime <= Wcrt(s, i) <= Quot(Bound(s, i), s.m) + s.chains[i].last
  {
  }

  /** Once the demand has dropped below the service line at t, every later start
      of the search stops no later; the stopping point is the least one. */
  lemma StopAtMost(s: System, i: nat, t: nat)
    requires Valid(s) && i < |s.chains|
    requires s.chains[i].Head() <= t && Crossing.Crosses(Demand(s, i), s.m, t)
    ensures Stop(s, i) <= t
  {
  }

  /** The exit test survives less interference, a shorter head and more threads. */
  lemma LighterCrosses(m: nat, m': nat, h: nat, h': nat, t: nat, w: nat, w': nat)
    requires m' <= m && h <= h' < t && w <= w'
    requires m' * h' + w' < m' * t
    ensures m * h + w < m * t
  {
    assert m' * t == m' * h' + m' * (t - h');
    assert m * t == m * h + m * (t - h);
    MulMono(m', m, t - h', t - h);
  }

  /** Sustainability: more load never shortens the reported response time. */
  lemma Sustainable(s: System, s': System, i: nat)
    requires Valid(s) && Valid(s') && Harder(s, s', i)
    ensures Wcrt(s, i) <= Wcrt(s', i)
  {
    var t := Stop(s', i);
    forall k: nat ensures Interference(s, i, t)(k) <= Interference(s', i, t)(k) {
      InterferenceMono(s, s', i, t, t, k);
    }
    SumLe(Interference(s, i, t), Interference(s', i, t), |s.chains|);
    LighterCrosses(s.m, s'.m, s.chains[i].Head(), s'.chains[i].Head(), t,
                   Sum(Interference(s, i, t), |s.chains|), Sum(Interference(s', i, t), |s.chains|));
    StopAtMost(s, i, t);
  }

  // ---------- the program ----------

  /** The program's words hold every chain parameter and every value the search
      of chain i computes. */
  ghost predicate Fits(s: System, i: nat)
    requires Valid(s) && i < |s.chains|
  {
    && (forall k :: 0 <= k < |s.chains| ==> s.chains[k].deadline < WORD && s.chains[k].runtime < WORD)
    && Bound(s, i) + s.m + 2 * s.chains[i].runtime < WORD
  }

  function ShorterTerms(s: System, i: nat, t: nat): nat -> nat
    requires Valid(s) && i < |s.chains|
  {
    k => Shorter(s, i, t, k)
  }

  /** The program's second loop: here chain i's own instance still counts. */
  function BacklogTerms(s: System, t: nat): nat -> nat
    requires Valid(s)
  {
    (k: nat) => if k < |s.chains| then Times(s.chains[k].Backlog(), Min(s.chains[k].runtime, t)) else 0
  }

  lemma OneLess(a: nat, b: nat)
    ensures a >= 1 ==> Times(a, b) == Times(a - 1, b) + b
  {
  }

  lemma BacklogPositive(c: ChainTask)
    requires ValidChain(c)
    ensures c.Backlog() >= 1
  {
  }

  /** The two loops and the final subtraction add up to the demand; the
      subtraction cannot underflow. */
  lemma LoopsMakeDemand(s: System, i: nat, t: nat)
    requires Valid(s) && i < |s.chains|
    ensures Times(s.m, s.chains[i].Head()) + Sum(ShorterTerms(s, i, t), |s.chains|)
            + Sum(BacklogTerms(s, t), |s.chains|)
         == Demand(s, i)(t) + Min(s.chains[i].runtime, t)
  {
    var n := |s.chains|;
    var carried := (k: nat) => Carried(s, i, t, k);
    var own := (k: nat) => if k == i then Min(s.chains[i].runtime, t) else 0;
    forall k: nat | k < n ensures BacklogTerms(s, t)(k) == carried(k) + own(k) {
      OneLess(s.chains[k].Backlog(), Min(s.chains[k].runtime, t));
      BacklogPositive(s.chains[k]);
    }
    SumPlus(ShorterTerms(s, i, t), carried, Interference(s, i, t), n);
    SumPlus(carried, own, BacklogTerms(s, t), n);
    SumSingle(own, i, n);
  }

  /** No partial sum of the two loops leaves the word. */
  lemma PartialSumsFit(s: System, i: nat, t: nat, j: nat, k: nat)
    requires Valid(s) && i < |s.chains| && Fits(s, i)
    requires j <= |s.chains| && k <= |s.chains|
    ensures Times(s.m, s.chains[i].Head()) + Sum(ShorterTerms(s, i, t), j) + Sum(BacklogTerms(s, t), k) < WORD
  {
    SumPrefix(ShorterTerms(s, i, t), j, |s.chains|);
    SumPrefix(BacklogTerms(s, t), k, |s.chains|);
    LoopsMakeDemand(s, i, t);
    DemandBounded(s, i);
  }

  /** ((x - 1) / T) + 1 on unsigned words is the ceiling, for x >= 1. */
  lemma WrappedCount(x: nat, period: nat)
    requires period >= 1 && 1 <= x < WORD
    ensures Wrap(Quot(Wrap(x - 1), period) + 1) == CeilDiv(x, period)
  {
    QuotientBelow(x - 1, period);
  }

  lemma TermsFit(s: System, i: nat, t: nat, k: nat)
    requires Valid(s) && i < |s.chains| && k < |s.chains| && Fits(s, i)
    ensures Shorter(s, i, t, k) < WORD && BacklogTerms(s, t)(k) < WORD
  {
    PartialSumsFit(s, i, t, k + 1, k + 1);
    assert Sum(ShorterTerms(s, i, t), k + 1) >= ShorterTerms(s, i, t)(k);
    assert Sum(BacklogTerms(s, t), k + 1) >= BacklogTerms(s, t)(k);
    MulMono(0, s.m, 0, s.chains[i].Head());
  }

  /** What the first loop adds for chain k, on unsigned words. */
  method ShorterWord(s: System, i: nat, t: nat, k: nat) returns (word: nat)
    requires Valid(s) && i < |s.chains| && k < |s.chains| && Fits(s, i)
    ensures t >= 1 ==> word == ShorterTerms(s, i, t)(k)
  {
    if s.chains[k].deadline < s.chains[i].deadline {
      var x: int := Min(t, s.chains[i].deadline - s.chains[k].deadline);
      var count := Wrap(Quot(Wrap(x - 1), s.chains[k].period) + 1);
      word := Wrap(Times(count, s.chains[k].runtime));
      if t >= 1 {
        WrappedCount(x, s.chains[k].period);
        TermsFit(s, i, t, k);
      }
    } else {
      word := 0;
    }
  }

  /** What the second loop adds for chain k, on unsigned words. */
  method BacklogWord(s: System, i: nat, t: nat, k: nat) returns (word: nat)
    requires Valid(s) && i < |s.chains| && k < |s.chains| && Fits(s, i)
    ensures word == BacklogTerms(s, t)(k)
  {
    var count := Wrap(Quot(Wrap(s.chains[k].deadline - 1), s.chains[k].period) + 1);
    word := Wrap(Times(count, Min(s.chains[k].runtime, t)));
    WrappedCount(s.chains[k].deadline, s.chains[k].period);
    TermsFit(s, i, t, k);
  }

  /** The first loop. Only for t == 0, where min(t, ..) - 1 wraps, can its sum
      differ from the demand's terms. */
  method SumShorter(s: System, i: nat, t: nat) returns (dbf: nat)
    requires Valid(s) && i < |s.chains| && Fits(s, i)
    ensures t >= 1 ==> dbf == Times(s.m, s.chains[i].Head()) + Sum(ShorterTerms(s, i, t), |s.chains|)
  {
    PartialSumsFit(s, i, t, 0, 0);
    dbf := Wrap(Times(s.m, Wrap(s.chains[i].runtime - s.chains[i].last)));
    var j := 0;
    while j < |s.chains|
      invariant 0 <= j <= |s.chains|
      invariant t >= 1 ==> dbf == Times(s.m, s.chains[i].Head()) + Sum(ShorterTerms(s, i, t), j)
    {
      var word := ShorterWord(s, i, t, j);
      dbf := Wrap(dbf + word);
      PartialSumsFit(s, i, t, j + 1, 0);
      j := j + 1;
    }
  }

  /** The second loop, on top of the first. */
  method SumBoth(s: System, i: nat, t: nat) returns (dbf: nat)
    requires Valid(s) && i < |s.chains| && Fits(s, i)
    ensures t >= 1 ==> dbf == Times(s.m, s.chains[i].Head()) + Sum(ShorterTerms(s, i, t), |s.chains|)
                              + Sum(BacklogTerms(s, t), |s.chains|)
  {
    dbf := SumShorter(s, i, t);
    ghost var before := dbf;
    var k := 0;
    while k < |s.chains|
      invariant 0 <= k <= |s.chains|
      invariant t >= 1 ==> dbf == before + Sum(BacklogTerms(s, t), k)
    {
      var word := BacklogWord(s, i, t, k);
      dbf := Wrap(dbf + word);
      PartialSumsFit(s, i, t, |s.chains|, k + 1);
      k := k + 1;
    }
  }

  /** The demand at window t, accumulated in the program's order on wrapping
      unsigned words. The caller's test is false at t == 0 whatever the value. */
  method ComputeDemand(s: System, i: nat, t: nat) returns (dbf: nat)
    requires Valid(s) && i < |s.chains| && Fits(s, i)
    ensures t >= 1 ==> dbf == Demand(s, i)(t)
  {
    dbf := SumBoth(s, i, t);
    LoopsMakeDemand(s, i, t);
    PartialSumsFit(s, i, t, |s.chains|, |s.chains|);
    dbf := Wrap(dbf - Min(s.chains[i].runtime, t));
  }

  /** The program's test, on wrapping words, passes exactly where the search stops. */
  method PassesTest(s: System, i: nat, t: nat) returns (passes: bool)
    requires Valid(s) && i < |s.chains| && Fits(s, i)
    requires s.chains[i].Head() <= t <= Stop(s, i)
    ensures passes <==> t == Stop(s, i)
  {
    var dbf := ComputeDemand(s, i, t);
    passes := dbf < Wrap(Times(s.m, t));
    ServiceBelow(Bound(s, i), s.m, t);
    assert Crossing.Crosses(Demand(s, i), s.m, t) <==> t == Stop(s, i);
  }

  /** The search of chain i terminates where it should. */
  method Search(s: System, i: nat) returns (timeGap: nat)
    requires Valid(s) && i < |s.chains| && Fits(s, i)
    ensures timeGap == Stop(s, i)
  {
    timeGap := Wrap(s.chains[i].runtime - s.chains[i].last);
    StopFits(s, i);
    while true
      invariant s.chains[i].Head() <= timeGap <= Stop(s, i)
      decreases Stop(s, i) - timeGap
    {
      var passes := PassesTest(s, i, timeGap);
      if passes {
        return;
      }
      timeGap := Wrap(timeGap + 1);
    }
  }

  /** The reported value is Wcrt. */
  method WorstCase(s: System, i: nat) returns (wcrt: nat)
    requires Valid(s) && i < |s.chains| && Fits(s, i)
    ensures wcrt == Wcrt(s, i)
  {
    var timeGap := Search(s, i);
    StopFits(s, i);
    wcrt := Wrap(Wrap(timeGap + s.chains[i].last) - 1);
  }

  lemma StopFits(s: System, i: nat)
    requires Valid(s) && i < |s.chains| && Fits(s, i)
    ensures Stop(s, i) + s.chains[i].last < WORD
  {
    ServiceBelow(Bound(s, i), s.m, Stop(s, i));
  }

  /** The whole analysis: one reported value per chain. */
  method ResponseTimes(s: System) returns (wcrts: seq<nat>)
    requires Valid(s) && forall i: nat :: i < |s.chains| ==> Fits(s, i)
    ensures |wcrts| == |s.chains|
    ensures forall i: nat :: i < |s.chains| ==> wcrts[i] == Wcrt(s, i)
  {
    wcrts := [];
    var i := 0;
    while i < |s.chains|
      invariant 0 <= i <= |s.chains| && |wcrts| == i
      invariant forall c: nat :: c < i ==> wcrts[c] == Wcrt(s, c)
    {
      var w := WorstCase(s, i);
      wcrts := wcrts + [w];
      i := i + 1;
    }
  }
}
