/** The release clock of a chain: how taking its timer moves `release_time`. */
module ReleaseClock {
  import opened Arithmetic

  /** The clock after a timer take at time `now`. The distance to the old release
      is taken in absolute value, so a take far too early also jumps ahead. */
  function Next(release: int, period: nat, now: int): int
    requires period > 0
  {
    var diff := if now - release < 0 then release - now else now - release;
    if diff < period then release + period
    else release + Times(CeilDiv(diff, period), period)
  }

  lemma NextAdvances(release: int, period: nat, now: int)
    requires period > 0
    ensures Next(release, period, now) >= release + period
  {
    var diff := if now - release < 0 then release - now else now - release;
    if diff >= period {
      MulMono(1, CeilDiv(diff, period), period, period);
    }
  }

  /** x is on the chain's grid, strictly after the old release and not before now. */
  ghost predicate Candidate(release: int, period: nat, now: int, x: int) {
    release < x && now <= x && exists q: nat :: x == release + Times(q, period)
  }

  ghost predicate IsLeastCandidate(release: int, period: nat, now: int, x: int) {
    && Candidate(release, period, now, x)
    && forall y :: Candidate(release, period, now, y) ==> x <= y
  }

  lemma CandidateAtLeast(release: int, period: nat, now: int, y: int)
    requires period > 0 && Candidate(release, period, now, y)
    ensures release + period <= y
    ensures now >= release ==> release + Times(CeilDiv(now - release, period), period) <= y
  {
    var q: nat :| y == release + Times(q, period);
    assert Times(0, period) == 0;
    MulMono(1, q, period, period);
    if now >= release {
      var c := CeilDiv(now - release, period);
      if c > 0 {
        FactorBelow(c - 1, q, period);
        MulMono(c, q, period, period);
      }
    }
  }

  /** On time or late, the clock moves to the first grid point that is after the
      old release and not before now. */
  lemma NextIsLeast(release: int, period: nat, now: int)
    requires period > 0 && now >= release - period
    ensures IsLeastCandidate(release, period, now, Next(release, period, now))
  {
    var x := Next(release, period, now);
    NextAdvances(release, period, now);
    assert Times(1, period) == period;
    if now >= release + period {
      assert x == release + Times(CeilDiv(now - release, period), period);
    } else {
      if now == release - period {
        FactorBelow(CeilDiv(period, period) - 1, 1, period);
      }
      assert x == release + Times(1, period);
    }
    forall y | Candidate(release, period, now, y) ensures x <= y {
      CandidateAtLeast(release, period, now, y);
    }
  }

  /** Exactly the takes no earlier than one period before the release do that;
      for an earlier take the absolute value makes the clock overshoot. */
  lemma NextIsLeastExactly(release: int, period: nat, now: int)
    requires period > 0
    ensures IsLeastCandidate(release, period, now, Next(release, period, now)) <==> now >= release - period
  {
    if now >= release - period {
      NextIsLeast(release, period, now);
    } else {
      assert Times(1, period) == period;
      assert Candidate(release, period, now, release + period);
      FactorBelow(1, CeilDiv(release - now, period), period);
      MulMono(2, CeilDiv(release - now, period), period, period);
    }
  }

  /** The clock goes by the distance to the old release alone: a take too early moves
      it as one that is late by as much. */
  lemma NextIsSymmetric(release: int, period: nat, now: int)
    requires period > 0
    ensures Next(release, period, now) == Next(release, period, release + (release - now))
  {
  }

  // ---------- runs of timer takes ----------

  /** The releases of a run: instance 0 at `first`, then one per timer take. */
  function Releases(first: int, period: nat, takes: seq<int>): (rel: seq<int>)
    requires period > 0
    ensures |rel| == |takes| + 1
  {
    if takes == [] then [first]
    else
      var before := Releases(first, period, takes[..|takes| - 1]);
      before + [Next(before[|before| - 1], period, takes[|takes| - 1])]
  }

  /** Consecutive releases are at least a period apart. */
  ghost predicate Spaced(rel: seq<int>, period: nat) {
    forall n: nat, n': nat :: n < n' < |rel| ==> rel[n] + Times(n' - n, period) <= rel[n']
  }

  /** Every release is on the grid of the first one. */
  ghost predicate OnGrid(rel: seq<int>, first: int, period: nat) {
    forall n: nat :: n < |rel| ==> exists q: nat :: rel[n] == first + Times(q, period)
  }

  lemma TimesStep(a: nat, b: nat)
    ensures Times(a + 1, b) == Times(a, b) + b
  {
  }

  /** One more timer take keeps the releases spaced. */
  lemma SpacedStep(rel: seq<int>, period: nat, now: int)
    requires period > 0 && rel != [] && Spaced(rel, period)
    ensures Spaced(rel + [Next(rel[|rel| - 1], period, now)], period)
  {
    var k := |rel| - 1;
    var rel' := rel + [Next(rel[k], period, now)];
    NextAdvances(rel[k], period, now);
    forall n: nat, n': nat | n < n' < |rel'| ensures rel'[n] + Times(n' - n, period) <= rel'[n'] {
      if n' == |rel| {
        TimesStep(n' - n - 1, period);
        if n == k { assert Times(0, period) == 0; }
      }
    }
  }

  lemma NextOnGrid(first: int, period: nat, release: int, now: int, q: nat) returns (q': nat)
    requires period > 0 && release == first + Times(q, period)
    ensures Next(release, period, now) == first + Times(q', period)
  {
    var diff := if now - release < 0 then release - now else now - release;
    var step := if diff < period then 1 else CeilDiv(diff, period);
    q' := q + step;
    assert Times(q', period) == Times(q, period) + Times(step, period) by {
      assert (q + step) * period == q * period + step * period;
    }
    assert Times(1, period) == period;
  }

  /** Whatever the times of the takes, the releases of a run are on one grid,
      strictly increasing and at least a period apart. */
  lemma {:induction false} RunSpacedOnGrid(first: int, period: nat, takes: seq<int>)
    requires period > 0
    ensures Spaced(Releases(first, period, takes), period)
    ensures OnGrid(Releases(first, period, takes), first, period)
  {
    if takes == [] {
      assert first == first + Times(0, period);
    } else {
      var init, now := takes[..|takes| - 1], takes[|takes| - 1];
      RunSpacedOnGrid(first, period, init);
      var before := Releases(first, period, init);
      SpacedStep(before, period, now);
      var q: nat :| before[|before| - 1] == first + Times(q, period);
      var q' := NextOnGrid(first, period, before[|before| - 1], now, q);
    }
  }

  // ---------- arrivals in a window ----------

  /** How many releases fall in the window (a, b]. */
  function Arrivals(rel: seq<int>, a: int, b: int): nat {
    if rel == [] then 0
    else
      var last := rel[|rel| - 1];
      Arrivals(rel[..|rel| - 1], a, b) + if a < last <= b then 1 else 0
  }

  lemma {:induction false} ArrivalsWiden(rel: seq<int>, a: int, b: int, b': int)
    requires forall n :: 0 <= n < |rel| ==> rel[n] <= b && rel[n] <= b'
    ensures Arrivals(rel, a, b) == Arrivals(rel, a, b')
  {
    if rel != [] {
      ArrivalsWiden(rel[..|rel| - 1], a, b, b');
    }
  }

  lemma {:induction false} NoneBefore(rel: seq<int>, a: int, b: int)
    requires forall n :: 0 <= n < |rel| ==> rel[n] <= a
    ensures Arrivals(rel, a, b) == 0
  {
    if rel != [] {
      NoneBefore(rel[..|rel| - 1], a, b);
    }
  }

  lemma {:induction false} ArrivalsSpread(rel: seq<int>, period: nat, a: int, b: int)
    requires period > 0 && Spaced(rel, period)
    ensures Arrivals(rel, a, b) == 0 || Times(Arrivals(rel, a, b) - 1, period) <= b - a - 1
  {
    if rel != [] {
      var init, last := rel[..|rel| - 1], rel[|rel| - 1];
      assert Times(1, period) == period && Times(0, period) == 0;
      forall n: nat | n < |init| ensures init[n] + period <= last {
        assert rel[n] + Times(|rel| - 1 - n, period) <= last;
        MulMono(1, |rel| - 1 - n, period, period);
      }
      if last <= a {
        NoneBefore(init, a, b);
      } else if last > b {
        ArrivalsSpread(init, period, a, b);
      } else {
        ArrivalsSpread(init, period, a, last - period);
        ArrivalsWiden(init, a, last - period, b);
        var c := Arrivals(init, a, b);
        if c > 0 { TimesStep(c - 1, period); }
      }
    }
  }

  /** A window of length w sees at most ceil(w / period) releases, the count the
      response-time analysis charges. */
  lemma ArrivalBound(rel: seq<int>, period: nat, a: int, w: nat)
    requires period > 0 && Spaced(rel, period)
    ensures Arrivals(rel, a, a + w) <= CeilDiv(w, period)
  {
    var c := Arrivals(rel, a, a + w);
    ArrivalsSpread(rel, period, a, a + w);
    if c > 0 {
      FactorBelow(c - 1, CeilDiv(w, period), period);
    }
  }

  /** The executor's own releases obey the analysis's arrival bound: any run of
      timer takes, any window. */
  lemma RunArrivalBound(first: int, period: nat, takes: seq<int>, a: int, w: nat)
    requires period > 0 && w >= 1
    ensures Arrivals(Releases(first, period, takes), a, a + w) <= (w - 1) / period + 1
  {
    RunSpacedOnGrid(first, period, takes);
    ArrivalBound(Releases(first, period, takes), period, a, w);
  }
}
