/** The response-time search for constrained deadlines (theorem_1.cpp). Its
    demand contains a subtraction that wraps below zero, so it is not monotone
    in the window; the search still ends, because every wrapped term is capped. */
module ResponseTime1 {
  import opened Arithmetic
  import opened TaskSystem
  import Crossing
  import R2 = ResponseTime2

  /** The window in which chain k's instances can have an earlier deadline. */
  function Window(s: System, i: nat, t: nat, k: nat): nat
    requires i < |s.chains| && k < |s.chains|
    requires s.chains[k].deadline < s.chains[i].deadline
  {
    Min(t, s.chains[i].deadline - s.chains[k].deadline)
  }

  /** The part of the demand term of chain k that the wrapped subtraction gives. */
  function Remainder(s: System, i: nat, t: nat, k: nat): (r: nat)
    requires i < |s.chains| && k < |s.chains|
    requires s.chains[k].deadline < s.chains[i].deadline
    ensures r <= s.chains[k].runtime
  {
    Min(s.chains[k].runtime, Wrap(t - Wrap(Times(Window(s, i, t, k), s.chains[k].period))))
  }

  function Shorter(s: System, i: nat, t: nat, k: nat): nat
    requires Valid(s) && i < |s.chains|
  {
    if k < |s.chains| && s.chains[k].deadline < s.chains[i].deadline then
      Times(Quot(Window(s, i, t, k), s.chains[k].period), s.chains[k].runtime) + Remainder(s, i, t, k)
    else 0
  }

  function Other(s: System, i: nat, t: nat, k: nat): nat {
    if k < |s.chains| && k != i then Min(s.chains[k].runtime, t) else 0
  }

  function ShorterTerms(s: System, i: nat, t: nat): nat -> nat
    requires Valid(s) && i < |s.chains|
  {
    k => Shorter(s, i, t, k)
  }

  function OtherTerms(s: System, i: nat, t: nat): nat -> nat {
    k => Other(s, i, t, k)
  }

  function Demand(s: System, i: nat): nat -> nat
    requires Valid(s) && i < |s.chains|
  {
    t => Times(s.m, s.chains[i].Head()) + Sum(ShorterTerms(s, i, t), |s.chains|) + Sum(OtherTerms(s, i, t), |s.chains|)
  }

  // ---------- the demand is bounded ----------

  function ShorterCaps(s: System, i: nat): nat -> nat
    requires Valid(s) && i < |s.chains|
  {
    (k: nat) =>
      if k < |s.chains| && s.chains[k].deadline < s.chains[i].deadline then
        Times(Quot(s.chains[i].deadline - s.chains[k].deadline, s.chains[k].period) + 1, s.chains[k].runtime)
      else 0
  }

  function OtherCaps(s: System, i: nat): nat -> nat {
    (k: nat) => if k < |s.chains| && k != i then s.chains[k].runtime else 0
  }

  function Bound(s: System, i: nat): nat
    requires Valid(s) && i < |s.chains|
  {
    Times(s.m, s.chains[i].Head()) + Sum(ShorterCaps(s, i), |s.chains|) + Sum(OtherCaps(s, i), |s.chains|)
  }

  lemma ShorterCapped(s: System, i: nat, t: nat, k: nat)
    requires Valid(s) && i < |s.chains|
    ensures Shorter(s, i, t, k) <= ShorterCaps(s, i)(k)
  {
    if k < |s.chains| && s.chains[k].deadline < s.chains[i].deadline {
      var c := s.chains[k];
      var q, q' := Window(s, i, t, k) / c.period, (s.chains[i].deadline - c.deadline) / c.period;
      DivMono(Window(s, i, t, k), s.chains[i].deadline - c.deadline, c.period);
      MulMono(q, q', c.runtime, c.runtime);
      assert (q' + 1) * c.runtime == q' * c.runtime + c.runtime;
    }
  }

  lemma PartialBounded(s: System, i: nat, t: nat, j: nat, k: nat)
    requires Valid(s) && i < |s.chains| && j <= |s.chains| && k <= |s.chains|
    ensures Times(s.m, s.chains[i].Head()) + Sum(ShorterTerms(s, i, t), j) + Sum(OtherTerms(s, i, t), k) <= Bound(s, i)
  {
    var n := |s.chains|;
    forall k: nat ensures ShorterTerms(s, i, t)(k) <= ShorterCaps(s, i)(k) {
      ShorterCapped(s, i, t, k);
    }
    SumLe(ShorterTerms(s, i, t), ShorterCaps(s, i), n);
    SumLe(OtherTerms(s, i, t), OtherCaps(s, i), n);
    SumPrefix(ShorterTerms(s, i, t), j, n);
    SumPrefix(OtherTerms(s, i, t), k, n);
  }

  lemma DemandBounded(s: System, i: nat)
    requires Valid(s) && i < |s.chains|
    ensures forall t: nat :: Demand(s, i)(t) <= Bound(s, i)
  {
    forall t: nat ensures Demand(s, i)(t) <= Bound(s, i) {
      PartialBounded(s, i, t, |s.chains|, |s.chains|);
    }
  }

  // ---------- the search ----------

  function Stop(s: System, i: nat): (t: nat)
    requires Valid(s) && i < |s.chains|
    ensures Crossing.IsFirst(Demand(s, i), s.m, s.chains[i].Head(), t)
    ensures s.chains[i].Head() < t <= Quot(Bound(s, i), s.m) + 1
  {
    DemandBounded(s, i);
    var h := s.chains[i].Head();
    DivBounds(Bound(s, i), s.m);
    FactorBelow(h, Quot(Bound(s, i), s.m) + 1, s.m);
    var t := Crossing.First(Demand(s, i), s.m, Bound(s, i), h);
    FactorBelow(h, t, s.m);
    t
  }

  /** The value before the program narrows it to a 32-bit word. */
  function Wcrt(s: System, i: nat): nat
    requires Valid(s) && i < |s.chains|
  {
    Stop(s, i) + s.chains[i].last - 1
  }

  /** Termination and range of the search. */
  lemma WcrtRange(s: System, i: nat)
    requires Valid(s) && i < |s.chains|
    ensures s.chains[i].runtime <= Wcrt(s, i) <= Quot(Bound(s, i), s.m) + s.chains[i].last
  {
  }

  // ---------- the program ----------

  /** The accumulated demand and the service line fit the word. Nothing is asked
      of the product of window and period: it may wrap. */
  ghost predicate Fits(s: System, i: nat)
    requires Valid(s) && i < |s.chains|
  {
    Bound(s, i) + s.m + 2 * s.chains[i].runtime < WORD
  }

  /** What the first loop adds for chain k, on unsigned words. */
  method ShorterWord(s: System, i: nat, t: nat, k: nat) returns (word: nat)
    requires Valid(s) && i < |s.chains| && k < |s.chains| && Fits(s, i)
    ensures word == ShorterTerms(s, i, t)(k)
  {
    if s.chains[k].deadline < s.chains[i].deadline {
      var c, x := s.chains[k], Min(t, s.chains[i].deadline - s.chains[k].deadline);
      word := Wrap(Wrap(Times(Quot(x, c.period), c.runtime)) + Min(c.runtime, Wrap(t - Wrap(Times(x, c.period)))));
      PartialBounded(s, i, t, k + 1, 0);
      MulMono(0, s.m, 0, s.chains[i].Head());
      assert Sum(ShorterTerms(s, i, t), k + 1) >= ShorterTerms(s, i, t)(k);
    } else {
      word := 0;
    }
  }

  /** The first loop. */
  method SumShorter(s: System, i: nat, t: nat) returns (dbf: nat)
    requires Valid(s) && i < |s.chains| && Fits(s, i)
    ensures dbf == Times(s.m, s.chains[i].Head()) + Sum(ShorterTerms(s, i, t), |s.chains|)
  {
    hide Bound, Shorter, Other;
    PartialBounded(s, i, t, 0, 0);
    dbf := Wrap(Times(s.m, Wrap(s.chains[i].runtime - s.chains[i].last)));
    var j := 0;
    while j < |s.chains|
      invariant 0 <= j <= |s.chains|
      invariant dbf == Times(s.m, s.chains[i].Head()) + Sum(ShorterTerms(s, i, t), j)
    {
      var word := ShorterWord(s, i, t, j);
      dbf := Wrap(dbf + word);
      PartialBounded(s, i, t, j + 1, 0);
      j := j + 1;
    }
  }

  /** One round of the second loop stays within the word. */
  lemma OtherStep(s: System, i: nat, t: nat, k: nat)
    requires Valid(s) && i < |s.chains| && k < |s.chains| && Fits(s, i)
    ensures Sum(OtherTerms(s, i, t), k + 1)
         == Sum(OtherTerms(s, i, t), k) + (if i != k then Min(s.chains[k].runtime, t) else 0)
    ensures Times(s.m, s.chains[i].Head()) + Sum(ShorterTerms(s, i, t), |s.chains|)
          + Sum(OtherTerms(s, i, t), k + 1) < WORD
  {
    hide Bound, Times, ShorterTerms;
    assert OtherTerms(s, i, t)(k) == if i != k then Min(s.chains[k].runtime, t) else 0;
    PartialBounded(s, i, t, |s.chains|, k + 1);
  }

  lemma NoOther(s: System, i: nat, t: nat)
    ensures Sum(OtherTerms(s, i, t), 0) == 0
  {
  }

  /** The demand at window t, accumulated in the program's order. */
  method ComputeDemand(s: System, i: nat, t: nat) returns (dbf: nat)
    requires Valid(s) && i < |s.chains| && Fits(s, i)
    ensures dbf == Demand(s, i)(t)
  {
    hide Bound, Shorter, Other, Sum, Times;
    dbf := SumShorter(s, i, t);
    ghost var before := dbf;
    NoOther(s, i, t);
    var k := 0;
    while k < |s.chains|
      invariant 0 <= k <= |s.chains|
      invariant dbf == before + Sum(OtherTerms(s, i, t), k)
    {
      OtherStep(s, i, t, k);
      if i != k {
        dbf := Wrap(dbf + Min(s.chains[k].runtime, t));
      }
      k := k + 1;
    }
  }

  /** The program's test, on wrapping words, passes exactly where the search stops. */
  method PassesTest(s: System, i: nat, t: nat) returns (passes: bool)
    requires Valid(s) && i < |s.chains| && Fits(s, i)
    requires s.chains[i].Head() <= t <= Stop(s, i)
    ensures passes <==> t == Stop(s, i)
  {
    var dbf := ComputeDemand(s, i, t);
    passes := dbf < Wrap(Times(s.m, t));
    ServiceBelow(Bound(s, i), s.m, t);
    assert Crossing.Crosses(Demand(s, i), s.m, t) <==> t == Stop(s, i);
  }

  lemma StopFits(s: System, i: nat)
    requires Valid(s) && i < |s.chains| && Fits(s, i)
    ensures Stop(s, i) + s.chains[i].last < WORD
  {
    ServiceBelow(Bound(s, i), s.m, Stop(s, i));
  }

  lemma WcrtFits(s: System, i: nat)
    requires Valid(s) && i < |s.chains| && Fits(s, i)
    ensures Wrap(Wrap(Stop(s, i) + s.chains[i].last) - 1) == Wcrt(s, i)
  {
    StopFits(s, i);
  }

  /** The search of chain i terminates where it should. */
  method Search(s: System, i: nat) returns (timeGap: nat)
    requires Valid(s) && i < |s.chains| && Fits(s, i)
    ensures timeGap == Stop(s, i)
  {
    timeGap := Wrap(s.chains[i].runtime - s.chains[i].last);
    StopFits(s, i);
    while true
      invariant s.chains[i].Head() <= timeGap <= Stop(s, i)
      decreases Stop(s, i) - timeGap
    {
      var passes := PassesTest(s, i, timeGap);
      if passes {
        return;
      }
      timeGap := Wrap(timeGap + 1);
    }
  }

  /** The reported value is Wcrt, narrowed to the program's 32-bit variable. */
  method WorstCase(s: System, i: nat) returns (wcrt: nat)
    requires Valid(s) && i < |s.chains| && Fits(s, i)
    ensures wcrt == Narrow(Wcrt(s, i))
  {
    hide *;
    var timeGap := Search(s, i);
    WcrtFits(s, i);
    wcrt := Narrow(Wrap(Wrap(timeGap + s.chains[i].last) - 1));
  }

  // ---------- relation to the arbitrary-deadline analysis ----------

  /** When the demand term of the shorter-deadline chain k covers the ceiling
      term of the other analysis: the window is a whole number of periods, or the
      subtraction wraps, or its true value is at least a full runtime. */
  predicate Covers(s: System, i: nat, t: nat, k: nat)
    requires Valid(s) && i < |s.chains| && k < |s.chains|
    requires s.chains[k].deadline < s.chains[i].deadline
  {
    var c, x := s.chains[k], Window(s, i, t, k);
    c.runtime == 0 || x % c.period == 0 || t < x * c.period || c.runtime <= t - x * c.period
  }

  lemma CeilVersusFloor(x: nat, b: nat)
    requires b > 0
    ensures CeilDiv(x, b) == x / b + (if x % b == 0 then 0 else 1)
  {
    var q, r := x / b, x % b;
    assert x == q * b + r;
    var c := CeilDiv(x, b);
    if r == 0 {
      if c > 0 { FactorBelow(c - 1, q, b); }
      if q > 0 { assert (q - 1) * b < c * b; FactorBelow(q - 1, c, b); }
    } else {
      FactorBelow(c - 1, q + 1, b);
      FactorBelow(q, c, b);
    }
  }

  /** Exactly when the term of this analysis is at least the other's. */
  lemma TermCoversExactly(s: System, i: nat, t: nat, k: nat)
    requires Valid(s) && i < |s.chains| && k < |s.chains|
    requires s.chains[k].deadline < s.chains[i].deadline && t < WORD
    requires Times(Window(s, i, t, k), s.chains[k].period) + s.chains[k].runtime < WORD
    ensures R2.Shorter(s, i, t, k) <= Shorter(s, i, t, k) <==> Covers(s, i, t, k)
  {
    var c, x := s.chains[k], Window(s, i, t, k);
    var q := x / c.period;
    CeilVersusFloor(x, c.period);
    assert (q + 1) * c.runtime == q * c.runtime + c.runtime;
    assert Wrap(x * c.period) == x * c.period;
    if t < x * c.period {
      assert Remainder(s, i, t, k) == c.runtime;
    } else {
      assert Remainder(s, i, t, k) == Min(c.runtime, t - x * c.period);
    }
  }

  /** With constrained deadlines, and every shorter-deadline term covering where
      this search stops, the other analysis reports no more. */
  lemma CoveredIsNoSmaller(s: System, i: nat)
    requires Valid(s) && i < |s.chains| && Fits(s, i)
    requires forall k :: 0 <= k < |s.chains| ==> s.chains[k].deadline <= s.chains[k].period
    requires forall k: nat | k < |s.chains| && s.chains[k].deadline < s.chains[i].deadline ::
      GapFits(s, i, k) && Covers(s, i, Stop(s, i), k)
    ensures R2.Wcrt(s, i) <= Wcrt(s, i)
  {
    var t, n := Stop(s, i), |s.chains|;
    ServiceBelow(Bound(s, i), s.m, t);
    var both := (k: nat) => Shorter(s, i, t, k) + Other(s, i, t, k);
    forall k: nat | k < n ensures R2.Interference(s, i, t)(k) <= both(k) {
      OneInstanceCarried(s, s, i, t, k);
      if s.chains[k].deadline < s.chains[i].deadline {
        MulMono(Window(s, i, t, k), Gap(s, i, k), s.chains[k].period, s.chains[k].period);
        TermCoversExactly(s, i, t, k);
      }
    }
    SumLe(R2.Interference(s, i, t), both, n);
    SumPlus(ShorterTerms(s, i, t), OtherTerms(s, i, t), both, n);
    R2.StopAtMost(s, i, t);
  }

  // ---------- a condition on the task system alone ----------

  /** By how much chain k's deadline is shorter than chain i's. */
  function Gap(s: System, i: nat, k: nat): nat
    requires i < |s.chains| && k < |s.chains| && s.chains[k].deadline < s.chains[i].deadline
  {
    s.chains[i].deadline - s.chains[k].deadline
  }

  /** The products of the term fit the word. */
  predicate GapFits(s: System, i: nat, k: nat)
    requires i < |s.chains| && k < |s.chains| && s.chains[k].deadline < s.chains[i].deadline
  {
    Times(Gap(s, i, k), s.chains[k].period) + s.chains[k].runtime < WORD
  }

  lemma ShortWindowCovers(t: nat, period: nat)
    requires period > 0
    ensures t % period == 0 || t < t * period
  {
    if period == 1 {
      assert t % 1 == 0;
    } else if t > 0 {
      assert t * period == t * (period - 1) + t && t * (period - 1) > 0;
    }
  }

  /** A term covers at window t, whatever t, exactly when the chain is trivial, the
      gap is a whole number of periods, or t is outside [gap * T, gap * T + C). */
  lemma CoversExactly(s: System, i: nat, t: nat, k: nat)
    requires Valid(s) && i < |s.chains| && k < |s.chains|
    requires s.chains[k].deadline < s.chains[i].deadline
    ensures var c, gap := s.chains[k], Gap(s, i, k);
      Covers(s, i, t, k)
      <==> c.runtime == 0 || gap % c.period == 0 || t < gap * c.period || gap * c.period + c.runtime <= t
  {
    var c, gap := s.chains[k], Gap(s, i, k);
    assert gap <= gap * c.period by {
      MulMono(gap, gap, 1, c.period);
    }
    if t < gap {
      ShortWindowCovers(t, c.period);
    }
  }

  /** The windows at which a term does not cover miss those the search can stop at. */
  predicate CoversThroughout(s: System, i: nat, k: nat)
    requires Valid(s) && i < |s.chains| && k < |s.chains|
    requires s.chains[k].deadline < s.chains[i].deadline
  {
    var c, gap := s.chains[k], Gap(s, i, k);
    || c.runtime == 0 || gap % c.period == 0
    || Quot(Bound(s, i), s.m) + 1 < Times(gap, c.period)
    || Times(gap, c.period) + c.runtime <= s.chains[i].Head() + 1
  }

  lemma BeyondHead(s: System, i: nat)
    requires Valid(s) && i < |s.chains|
    ensures s.chains[i].Head() <= Quot(Bound(s, i), s.m)
  {
    var h := s.chains[i].Head();
    DivBounds(Bound(s, i), s.m);
    FactorBelow(h, Quot(Bound(s, i), s.m) + 1, s.m);
  }

  /** That condition, on the task system alone, holds exactly when the term covers at
      every window from the first the search can stop at to the last. */
  lemma CoversThroughoutExactly(s: System, i: nat, k: nat)
    requires Valid(s) && i < |s.chains| && k < |s.chains|
    requires s.chains[k].deadline < s.chains[i].deadline
    ensures CoversThroughout(s, i, k)
       <==> forall t: nat :: s.chains[i].Head() < t <= Quot(Bound(s, i), s.m) + 1 ==> Covers(s, i, t, k)
  {
    var low, high := s.chains[i].Head() + 1, Quot(Bound(s, i), s.m) + 1;
    BeyondHead(s, i);
    forall t: nat ensures Covers(s, i, t, k) <==>
      var c, gap := s.chains[k], Gap(s, i, k);
      c.runtime == 0 || gap % c.period == 0 || t < gap * c.period || gap * c.period + c.runtime <= t
    {
      CoversExactly(s, i, t, k);
    }
    if !CoversThroughout(s, i, k) {
      var from := Times(Gap(s, i, k), s.chains[k].period);
      var t := if from < low then low else from;
      assert !Covers(s, i, t, k);
    }
  }

  /** With constrained deadlines and every shorter-deadline chain meeting a condition
      on the task system alone, the other analysis reports no more. */
  lemma OtherAnalysisNoLarger(s: System, i: nat)
    requires Valid(s) && i < |s.chains| && Fits(s, i)
    requires forall k :: 0 <= k < |s.chains| ==> s.chains[k].deadline <= s.chains[k].period
    requires forall k: nat | k < |s.chains| && s.chains[k].deadline < s.chains[i].deadline ::
      GapFits(s, i, k) && CoversThroughout(s, i, k)
    ensures R2.Wcrt(s, i) <= Wcrt(s, i)
  {
    forall k: nat | k < |s.chains| && s.chains[k].deadline < s.chains[i].deadline
      ensures Covers(s, i, Stop(s, i), k)
    {
      CoversThroughoutExactly(s, i, k);
    }
    CoveredIsNoSmaller(s, i);
  }

  // ---------- when a term is monotone in the window ----------

  /** The term of a shorter-deadline chain never drops as the window grows. */
  ghost predicate TermMonotone(s: System, i: nat, k: nat)
    requires Valid(s) && i < |s.chains|
  {
    forall t: nat, t': nat :: t <= t' < WORD ==> Shorter(s, i, t, k) <= Shorter(s, i, t', k)
  }

  /** From one tick before gap * T to gap * T the term loses a whole runtime. */
  lemma TermDrops(s: System, i: nat, k: nat)
    requires Valid(s) && i < |s.chains| && k < |s.chains| && s.chains[k].deadline < s.chains[i].deadline
    requires GapFits(s, i, k) && s.chains[k].period >= 2
    ensures var t := Times(Gap(s, i, k), s.chains[k].period);
      t >= 1 && Shorter(s, i, t - 1, k) == Shorter(s, i, t, k) + s.chains[k].runtime
  {
    var c, gap := s.chains[k], Gap(s, i, k);
    var t := Times(gap, c.period);
    assert t == gap * (c.period - 1) + gap && gap * (c.period - 1) >= 1 by {
      MulMono(1, gap, 1, c.period - 1);
    }
    assert Window(s, i, t - 1, k) == gap == Window(s, i, t, k);
    assert Remainder(s, i, t - 1, k) == c.runtime && Remainder(s, i, t, k) == 0;
  }

  lemma UnitPeriodTerm(s: System, i: nat, k: nat, t: nat)
    requires Valid(s) && i < |s.chains| && k < |s.chains| && s.chains[k].deadline < s.chains[i].deadline
    requires s.chains[k].period == 1 && t < WORD
    ensures var c, gap := s.chains[k], Gap(s, i, k);
      Shorter(s, i, t, k) == if t <= gap then Times(t, c.runtime) else Times(gap, c.runtime) + Min(c.runtime, t - gap)
  {
    var x := Window(s, i, t, k);
    assert x * 1 == x && x / 1 == x;
    assert Wrap(Times(x, 1)) == x;
  }

  /** A term is monotone in the window exactly when the chain's period is one tick or
      its runtime is zero. */
  lemma TermMonotoneExactly(s: System, i: nat, k: nat)
    requires Valid(s) && i < |s.chains| && k < |s.chains| && s.chains[k].deadline < s.chains[i].deadline
    requires GapFits(s, i, k)
    ensures TermMonotone(s, i, k) <==> s.chains[k].period == 1 || s.chains[k].runtime == 0
  {
    var c, gap := s.chains[k], Gap(s, i, k);
    if c.runtime == 0 {
      forall t: nat ensures Shorter(s, i, t, k) == 0 {
        assert Times(Quot(Window(s, i, t, k), c.period), 0) == 0;
      }
    } else if c.period == 1 {
      forall t: nat, t': nat | t <= t' < WORD ensures Shorter(s, i, t, k) <= Shorter(s, i, t', k) {
        UnitPeriodTerm(s, i, k, t);
        UnitPeriodTerm(s, i, k, t');
        MulMono(Min(t, gap), Min(t', gap), c.runtime, c.runtime);
      }
    } else {
      TermDrops(s, i, k);
    }
  }

  /** What the second loop charges for a chain is what the other analysis carries in
      when that chain's deadline is constrained, whatever period and deadline it has
      here. */
  lemma OneInstanceCarried(s: System, s': System, i: nat, t: nat, k: nat)
    requires Valid(s') && i < |s'.chains| == |s.chains| && k < |s.chains|
    requires s'.chains[k].runtime == s.chains[k].runtime && s'.chains[k].deadline <= s'.chains[k].period
    ensures R2.Carried(s', i, t, k) == Other(s, i, t, k)
  {
    var c := s'.chains[k];
    FactorBelow(c.Backlog() - 1, 1, c.period);
    FactorBelow(0, c.Backlog(), c.period);
  }

  // ---------- exactly what this analysis charges ----------

  /** Against the other analysis, the term of a shorter-deadline chain lacks a runtime
      unless the window is a whole number of periods, and has a runtime more where the
      subtraction wraps, what is left of it up to a runtime elsewhere. */
  lemma TermExactly(s: System, i: nat, t: nat, k: nat)
    requires Valid(s) && i < |s.chains| && k < |s.chains|
    requires s.chains[k].deadline < s.chains[i].deadline && t < WORD
    requires Times(Window(s, i, t, k), s.chains[k].period) + s.chains[k].runtime < WORD
    ensures Shorter(s, i, t, k) + Lacks(s, i, t)(k) == R2.Shorter(s, i, t, k) + Exceeds(s, i, t)(k)
  {
    var c, x := s.chains[k], Window(s, i, t, k);
    var q := x / c.period;
    CeilVersusFloor(x, c.period);
    assert (q + 1) * c.runtime == q * c.runtime + c.runtime;
    assert Wrap(x * c.period) == x * c.period;
    if t < x * c.period {
      assert Remainder(s, i, t, k) == c.runtime;
    } else {
      assert Remainder(s, i, t, k) == Min(c.runtime, t - x * c.period);
    }
  }

  function Lacks(s: System, i: nat, t: nat): nat -> nat
    requires Valid(s) && i < |s.chains|
  {
    (k: nat) =>
      if k < |s.chains| && s.chains[k].deadline < s.chains[i].deadline && Window(s, i, t, k) % s.chains[k].period != 0
      then s.chains[k].runtime else 0
  }

  function Exceeds(s: System, i: nat, t: nat): nat -> nat
    requires Valid(s) && i < |s.chains|
  {
    (k: nat) =>
      if k < |s.chains| && s.chains[k].deadline < s.chains[i].deadline then
        var c, x := s.chains[k], Window(s, i, t, k);
        if t < Times(x, c.period) then c.runtime else Min(c.runtime, t - Times(x, c.period))
      else 0
  }

  /** No product of the demand at window t wraps. */
  predicate TermsFit(s: System, i: nat, t: nat)
    requires Valid(s) && i < |s.chains|
  {
    t < WORD && forall k: nat | k < |s.chains| && s.chains[k].deadline < s.chains[i].deadline ::
      Times(Window(s, i, t, k), s.chains[k].period) + s.chains[k].runtime < WORD
  }

  lemma TermsExactly(s: System, i: nat, t: nat, k: nat)
    requires Valid(s) && i < |s.chains| && TermsFit(s, i, t) && k < |s.chains|
    requires s.chains[k].deadline <= s.chains[k].period
    ensures Shorter(s, i, t, k) + Other(s, i, t, k) + Lacks(s, i, t)(k)
         == R2.Shorter(s, i, t, k) + R2.Carried(s, i, t, k) + Exceeds(s, i, t)(k)
  {
    OneInstanceCarried(s, s, i, t, k);
    if s.chains[k].deadline < s.chains[i].deadline {
      TermExactly(s, i, t, k);
    }
  }

  /** With constrained deadlines the two demands differ by exactly these amounts. Only
      shorter-deadline chains have any. */
  lemma DemandExactly(s: System, i: nat, t: nat)
    requires Valid(s) && i < |s.chains| && TermsFit(s, i, t)
    requires forall k :: 0 <= k < |s.chains| ==> s.chains[k].deadline <= s.chains[k].period
    ensures Demand(s, i)(t) + Sum(Lacks(s, i, t), |s.chains|)
         == R2.Demand(s, i)(t) + Sum(Exceeds(s, i, t), |s.chains|)
  {
    var n := |s.chains|;
    var both := (k: nat) => Shorter(s, i, t, k) + Other(s, i, t, k);
    var left := (k: nat) => both(k) + Lacks(s, i, t)(k);
    forall k: nat | k < n ensures left(k) == R2.Interference(s, i, t)(k) + Exceeds(s, i, t)(k) {
      TermsExactly(s, i, t, k);
    }
    SumPlus(ShorterTerms(s, i, t), OtherTerms(s, i, t), both, n);
    SumPlus(both, Lacks(s, i, t), left, n);
    SumPlus(R2.Interference(s, i, t), Exceeds(s, i, t), left, n);
  }

  /** The bound is the demand of a window long enough, as long as no product wraps. */
  lemma BoundIsReached(s: System, i: nat, t: nat)
    requires Valid(s) && i < |s.chains| && TermsFit(s, i, t)
    requires forall k: nat | k < |s.chains| :: s.chains[k].runtime + s.chains[i].deadline <= t
    requires forall k: nat | k < |s.chains| && s.chains[k].deadline < s.chains[i].deadline ::
      Times(Gap(s, i, k), s.chains[k].period) + s.chains[k].runtime <= t
    ensures Demand(s, i)(t) == Bound(s, i)
  {
    hide Shorter, Other, Times, Quot;
    forall k: nat | k < |s.chains|
      ensures ShorterTerms(s, i, t)(k) == ShorterCaps(s, i)(k) && OtherTerms(s, i, t)(k) == OtherCaps(s, i)(k)
    {
      CapsAreReached(s, i, t, k);
    }
    SumSame(ShorterTerms(s, i, t), ShorterCaps(s, i), |s.chains|);
    SumSame(OtherTerms(s, i, t), OtherCaps(s, i), |s.chains|);
  }

  lemma CapsAreReached(s: System, i: nat, t: nat, k: nat)
    requires Valid(s) && i < |s.chains| && TermsFit(s, i, t) && k < |s.chains|
    requires s.chains[k].runtime + s.chains[i].deadline <= t
    requires s.chains[k].deadline < s.chains[i].deadline ==>
      Times(Gap(s, i, k), s.chains[k].period) + s.chains[k].runtime <= t
    ensures Shorter(s, i, t, k) == ShorterCaps(s, i)(k) && Other(s, i, t, k) == OtherCaps(s, i)(k)
  {
    if s.chains[k].deadline < s.chains[i].deadline {
      var c := s.chains[k];
      var q := Quot(Gap(s, i, k), c.period);
      assert Window(s, i, t, k) == Gap(s, i, k);
      assert Remainder(s, i, t, k) == c.runtime;
      assert (q + 1) * c.runtime == q * c.runtime + c.runtime;
    }
  }

  /** With constrained deadlines and no deadline shorter than chain i's the two analyses
      report the same. */
  lemma SameWithoutShorter(s: System, i: nat)
    requires Valid(s) && i < |s.chains|
    requires forall k :: 0 <= k < |s.chains| ==>
      s.chains[i].deadline <= s.chains[k].deadline <= s.chains[k].period
    ensures forall t: nat :: Demand(s, i)(t) == R2.Demand(s, i)(t)
    ensures Wcrt(s, i) == R2.Wcrt(s, i)
  {
    forall t: nat ensures Demand(s, i)(t) == R2.Demand(s, i)(t) {
      var n := |s.chains|;
      forall k: nat | k < n
        ensures ShorterTerms(s, i, t)(k) == 0 && OtherTerms(s, i, t)(k) == R2.Interference(s, i, t)(k)
      {
        OneInstanceCarried(s, s, i, t, k);
      }
      SumZero(ShorterTerms(s, i, t), n);
      SumSame(OtherTerms(s, i, t), R2.Interference(s, i, t), n);
    }
    SameStop(Demand(s, i), R2.Demand(s, i), s.m, s.chains[i].Head(), Stop(s, i), R2.Stop(s, i));
  }

  lemma SumSame(f: nat -> nat, g: nat -> nat, n: nat)
    requires forall k: nat :: k < n ==> f(k) == g(k)
    ensures Sum(f, n) == Sum(g, n)
  {
    SumLe(f, g, n);
    SumLe(g, f, n);
  }

  lemma SameStop(f: nat -> nat, g: nat -> nat, m: nat, h: nat, t: nat, t': nat)
    requires forall x: nat :: f(x) == g(x)
    requires Crossing.IsFirst(f, m, h, t) && Crossing.IsFirst(g, m, h, t')
    ensures t == t'
  {
    forall x: nat ensures Crossing.Crosses(f, m, x) <==> Crossing.Crosses(g, m, x) {
    }
  }

  /** For chain i, a chain whose deadline is not shorter counts by its runtime only:
      its period, and its deadline as long as it is not shorter, do not matter. */
  ghost predicate AlikeFor(s: System, s': System, i: nat) {
    && s.m == s'.m && |s.chains| == |s'.chains| && i < |s.chains|
    && s.chains[i].deadline == s'.chains[i].deadline && s.chains[i].last == s'.chains[i].last
    && forall k :: 0 <= k < |s.chains| ==>
      && s.chains[k].runtime == s'.chains[k].runtime
      && (s.chains[k].deadline < s.chains[i].deadline || s'.chains[k].deadline < s.chains[i].deadline ==>
            s.chains[k].deadline == s'.chains[k].deadline && s.chains[k].period == s'.chains[k].period)
  }

  lemma AlikeTerms(s: System, s': System, i: nat, t: nat, k: nat)
    requires Valid(s) && Valid(s') && AlikeFor(s, s', i) && k < |s.chains|
    ensures ShorterTerms(s, i, t)(k) == ShorterTerms(s', i, t)(k)
    ensures OtherTerms(s, i, t)(k) == OtherTerms(s', i, t)(k)
  {
    hide Quot, Times, Wrap;
  }

  lemma OnlyShorterMatter(s: System, s': System, i: nat)
    requires Valid(s) && Valid(s') && AlikeFor(s, s', i)
    ensures Wcrt(s, i) == Wcrt(s', i)
  {
    hide Shorter, Other, Stop;
    forall t: nat ensures Demand(s, i)(t) == Demand(s', i)(t) {
      forall k: nat | k < |s.chains|
        ensures ShorterTerms(s, i, t)(k) == ShorterTerms(s', i, t)(k)
        ensures OtherTerms(s, i, t)(k) == OtherTerms(s', i, t)(k)
      {
        AlikeTerms(s, s', i, t, k);
      }
      SumSame(ShorterTerms(s, i, t), ShorterTerms(s', i, t), |s.chains|);
      SumSame(OtherTerms(s, i, t), OtherTerms(s', i, t), |s.chains|);
    }
    SameStop(Demand(s, i), Demand(s', i), s.m, s.chains[i].Head(), Stop(s, i), Stop(s', i));
  }

  /** Two chains on one thread: the demand drops from window 1 to window 2. */
  const WITNESS := System(1, [ChainTask(1, 1, 2, 2), ChainTask(1, 1, 2, 1)])

  lemma WitnessTerms(t: nat)
    requires 1 <= t <= 2
    ensures Valid(WITNESS)
    ensures Shorter(WITNESS, 0, t, 0) == 0 && Shorter(WITNESS, 0, t, 1) == 2 - t
    ensures Other(WITNESS, 0, t, 0) == 0 && Other(WITNESS, 0, t, 1) == 1
  {
    assert Window(WITNESS, 0, t, 1) == 1;
    assert Times(1, 2) == 2 && Quot(1, 2) == 0 && Times(0, 1) == 0;
    assert Remainder(WITNESS, 0, t, 1) == 2 - t;
  }

  lemma WitnessDemand(t: nat)
    requires 1 <= t <= 2
    ensures Valid(WITNESS) && Demand(WITNESS, 0)(t) == 3 - t
  {
    WitnessTerms(t);
    assert Times(1, 0) == 0;
    var f, g := ShorterTerms(WITNESS, 0, t), OtherTerms(WITNESS, 0, t);
    assert Sum(f, 2) == Sum(f, 1) + f(1) && Sum(f, 1) == f(0);
    assert Sum(g, 2) == Sum(g, 1) + g(1) && Sum(g, 1) == g(0);
  }

  lemma WitnessOtherDemand(t: nat)
    requires 1 <= t <= 2
    ensures Valid(WITNESS) && R2.Demand(WITNESS, 0)(t) == 2
  {
    var s := WITNESS;
    assert CeilDiv(1, 2) == 1 && CeilDiv(2, 2) == 1;
    assert Times(1, 0) == 0 && Times(1, 1) == 1 && Times(0, 1) == 0;
    assert R2.Shorter(s, 0, t, 0) == 0 && R2.Shorter(s, 0, t, 1) == 1;
    assert R2.Carried(s, 0, t, 0) == 0 && R2.Carried(s, 0, t, 1) == 1;
    var h := R2.Interference(s, 0, t);
    assert Sum(h, 2) == Sum(h, 1) + h(1) && Sum(h, 1) == h(0);
  }

  /** Without that condition the order of the two analyses can be the other way
      round, and this demand is not monotone. */
  lemma AnalysesDisagree()
    ensures Valid(WITNESS)
    ensures Demand(WITNESS, 0)(1) > Demand(WITNESS, 0)(2)
    ensures Wcrt(WITNESS, 0) == 2 < R2.Wcrt(WITNESS, 0)
  {
    WitnessDemand(1);
    WitnessDemand(2);
    WitnessOtherDemand(1);
    WitnessOtherDemand(2);
    var s := WITNESS;
    assert !Crossing.Crosses(Demand(s, 0), 1, 0) && !Crossing.Crosses(Demand(s, 0), 1, 1);
    assert Crossing.Crosses(Demand(s, 0), 1, 2);
    assert !Crossing.Crosses(R2.Demand(s, 0), 1, 0);
    assert !Crossing.Crosses(R2.Demand(s, 0), 1, 1) && !Crossing.Crosses(R2.Demand(s, 0), 1, 2);
  }
}
