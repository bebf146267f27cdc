/** What a deadline ring of the wrong size does: exactly which rings keep the table,
    let every ready callback read its own entry, and keep their queues sorted, in all
    runs in which callbacks are taken in chain order and timers on time. */
module RingLimits {
  import opened Arithmetic
  import opened SlotTable
  import opened Chain
  import ReleaseClock

  // ---------- runs whose timers are taken at their releases ----------

  /** The ledger after a run that took callback b takes[b] times, every timer at its
      release. */
  function OnTime(c: Config, first: int, takes: seq<nat>): (l: Ledger)
    requires ValidConfig(c) && |takes| == c.callbacks
    ensures ValidLedger(c, l)
  {
    Ledger(seq(takes[0] + 1, n requires 0 <= n < takes[0] + 1 => first + Times(n, c.period)), takes)
  }

  /** A fed and timely run leads to that ledger. */
  ghost predicate Attains(c: Config, first: int, takes: seq<nat>, run: seq<Take>)
    requires ValidConfig(c) && |takes| == c.callbacks
  {
    && ValidRun(c, run) && FedRun(c, first, run) && TimelyRun(c, first, run)
    && Recorded(c, first, run) == OnTime(c, first, takes)
  }

  lemma AttainsExtends(c: Config, first: int, takes: seq<nat>, run: seq<Take>, e: Take)
    requires ValidConfig(c) && |takes| == c.callbacks && Attains(c, first, takes, run) && e.callback < c.callbacks
    requires Fed(c, OnTime(c, first, takes), e) && Timely(c, OnTime(c, first, takes), e)
    ensures ValidRun(c, run + [e]) && FedRun(c, first, run + [e]) && TimelyRun(c, first, run + [e])
    ensures Recorded(c, first, run + [e]) == Record(c, OnTime(c, first, takes), e)
  {
    FedExtends(c, first, run, e);
    TimelyExtends(c, first, run, e);
    assert (run + [e])[..|run|] == run;
  }

  /** The timer is taken at its release, while the oldest instance has time left. */
  lemma TimerOnTime(c: Config, first: int, takes: seq<nat>)
    requires ValidConfig(c) && |takes| == c.callbacks && takes[c.Last()] <= takes[0]
    requires Times(takes[0] - takes[c.Last()], c.period) < c.deadline
    ensures var e := Take(0, first + Times(takes[0], c.period));
      && Timely(c, OnTime(c, first, takes), e)
      && Record(c, OnTime(c, first, takes), e) == OnTime(c, first, takes[0 := takes[0] + 1])
  {
    var l, now := OnTime(c, first, takes), first + Times(takes[0], c.period);
    var low := takes[c.Last()];
    forall n: nat | low <= n < |l.rel| ensures now < l.rel[n] + c.deadline {
      MulMono(takes[0] - n, takes[0] - low, c.period, c.period);
      assert Times(takes[0], c.period) == Times(n, c.period) + Times(takes[0] - n, c.period);
    }
    ReleaseClock.TimesStep(takes[0], c.period);
    assert Record(c, l, Take(0, now)).rel == OnTime(c, first, takes[0 := takes[0] + 1]).rel;
  }

  lemma TakeTimer(c: Config, first: int, takes: seq<nat>, run: seq<Take>) returns (run': seq<Take>)
    requires ValidConfig(c) && |takes| == c.callbacks && Attains(c, first, takes, run)
    requires takes[c.Last()] <= takes[0] && Times(takes[0] - takes[c.Last()], c.period) < c.deadline
    ensures Attains(c, first, takes[0 := takes[0] + 1], run')
  {
    var e := Take(0, first + Times(takes[0], c.period));
    TimerOnTime(c, first, takes);
    AttainsExtends(c, first, takes, run, e);
    run' := run + [e];
  }

  lemma CallbackOnTime(c: Config, first: int, takes: seq<nat>, b: nat)
    requires ValidConfig(c) && |takes| == c.callbacks && 0 < b < c.callbacks && takes[b] < takes[b - 1]
    ensures Fed(c, OnTime(c, first, takes), Take(b, 0)) && Timely(c, OnTime(c, first, takes), Take(b, 0))
    ensures Record(c, OnTime(c, first, takes), Take(b, 0)) == OnTime(c, first, takes[b := takes[b] + 1])
  {
    assert OnTime(c, first, takes).rel == OnTime(c, first, takes[b := takes[b] + 1]).rel;
  }

  lemma TakeCallback(c: Config, first: int, takes: seq<nat>, run: seq<Take>, b: nat) returns (run': seq<Take>)
    requires ValidConfig(c) && |takes| == c.callbacks && Attains(c, first, takes, run)
    requires 0 < b < c.callbacks && takes[b] < takes[b - 1]
    ensures Attains(c, first, takes[b := takes[b] + 1], run')
  {
    hide OnTime, Fed, Timely, FedRun, TimelyRun, Record, Recorded;
    CallbackOnTime(c, first, takes, b);
    AttainsExtends(c, first, takes, run, Take(b, 0));
    run' := run + [Take(b, 0)];
  }

  /** n instances one after the other, and of the next one the first b callbacks. */
  function InPass(c: Config, n: nat, b: nat): (takes: seq<nat>)
    ensures |takes| == c.callbacks
  {
    seq(c.callbacks, a => if a < b then n + 1 else n)
  }

  lemma NothingTaken(c: Config, first: int)
    requires ValidConfig(c)
    ensures Times(0, c.period) == 0 && Attains(c, first, InPass(c, 0, 0), [])
  {
    assert FirstEntry(c, first).rel == OnTime(c, first, InPass(c, 0, 0)).rel;
  }

  lemma {:induction false} SerialRun(c: Config, first: int, n: nat, b: nat) returns (run: seq<Take>)
    requires ValidConfig(c) && b <= c.callbacks
    ensures Attains(c, first, InPass(c, n, b), run)
    decreases n, b
  {
    hide Attains, Times;
    NothingTaken(c, first);
    if b > 0 {
      run := SerialRun(c, first, n, b - 1);
      var takes := InPass(c, n, b - 1);
      if b == 1 {
        run := TakeTimer(c, first, takes, run);
      } else {
        run := TakeCallback(c, first, takes, run, b - 1);
      }
      assert takes[b - 1 := n + 1] == InPass(c, n, b);
    } else if n > 0 {
      run := SerialRun(c, first, n - 1, c.callbacks);
      assert InPass(c, n - 1, c.callbacks) == InPass(c, n, 0);
    } else {
      run := [];
    }
  }

  /** After n finished instances, m more timer takes and k more of callback 1. */
  function Ahead(c: Config, n: nat, m: nat, k: nat): (takes: seq<nat>)
    ensures |takes| == c.callbacks
  {
    seq(c.callbacks, b => if b == 0 then n + m else if b == 1 then n + k else n)
  }

  lemma {:induction false} AheadRun(c: Config, first: int, n: nat, m: nat, k: nat) returns (run: seq<Take>)
    requires ValidConfig(c) && c.callbacks >= 2 && k <= m && (k > 0 ==> c.callbacks >= 3)
    requires m > 0 ==> Times(m - 1, c.period) < c.deadline
    ensures Attains(c, first, Ahead(c, n, m, k), run)
    decreases m + k
  {
    hide Attains, Times;
    if k > 0 {
      run := AheadRun(c, first, n, m, k - 1);
      var takes := Ahead(c, n, m, k - 1);
      run := TakeCallback(c, first, takes, run, 1);
      assert takes[1 := n + k] == Ahead(c, n, m, k);
    } else if m > 0 {
      if m > 1 {
        ReleaseClock.TimesStep(m - 2, c.period);
      }
      run := AheadRun(c, first, n, m - 1, 0);
      var takes := Ahead(c, n, m - 1, 0);
      run := TakeTimer(c, first, takes, run);
      assert takes[0 := n + m] == Ahead(c, n, m, 0);
    } else {
      run := SerialRun(c, first, n, 0);
      assert InPass(c, n, 0) == Ahead(c, n, 0, 0);
    }
  }

  /** No entry of the first ring + 3 instances wraps around, timers on time. */
  ghost predicate Room(c: Config, first: int) {
    forall n: nat :: n <= c.ring + 2 ==> 0 < first + Times(n, c.period) + c.Entry(n) < UINT
  }

  // ---------- a ring longer than the timer's turn ----------

  /** Slots beyond the timer's turn are never used. */
  lemma {:induction false} BeyondTurnEmpty(c: Config, first: int, run: seq<Take>, slot: nat)
    requires ValidRun(c, run) && c.Turn() <= slot < c.ring
    ensures Reached(c, first, run).slots[slot] == []
  {
    if run != [] {
      BeyondTurnEmpty(c, first, run[..|run| - 1], slot);
    }
  }

  lemma {:induction false} IndexIsTakes(c: Config, first: int, run: seq<Take>, b: nat)
    requires ValidRun(c, run) && b < c.callbacks
    ensures Reached(c, first, run).cur[b] == Recorded(c, first, run).takes[b] % c.TurnOf(b)
  {
    if run == [] {
      ZeroInTurn(c.TurnOf(b));
    } else {
      var init, e := run[..|run| - 1], run[|run| - 1];
      IndexIsTakes(c, first, init, b);
      if e.callback == b {
        NextIndex(Recorded(c, first, init).takes[b], c.TurnOf(b));
      }
    }
  }

  lemma LastInColumn(table: seq<nat>, low: nat, last: nat, n: nat)
    requires low <= last < n && |table| == last + 1
    ensures Column(table, low, last, n) != []
  {
    assert last % n == last;
  }

  /** When the timer's index does not go around the whole ring, instances served one
      after the other, each timer on time, get into the wrong slot. */
  lemma OutOfStepDiverges(c: Config, first: int) returns (run: seq<Take>)
    requires ValidConfig(c) && !InStep(c)
    ensures ValidRun(c, run) && FedRun(c, first, run) && TimelyRun(c, first, run)
    ensures !Refines(c, Reached(c, first, run), Recorded(c, first, run))
  {
    var n := c.Turn();
    run := SerialRun(c, first, n, 0);
    BeyondTurnEmpty(c, first, run, n);
    var l := Recorded(c, first, run);
    LastInColumn(Deadlines(c, l.rel), Oldest(c, l), n, c.ring);
  }

  /** A ring behaves as the table in all fed and timely runs exactly when the timer's
      index goes around the whole of it. For a ring fed by another chain's timer this
      says that both chains have equally many slots. */
  lemma RefinesExactly(c: Config, first: int)
    requires ValidConfig(c)
    ensures (forall run: seq<Take> :: ValidRun(c, run) && FedRun(c, first, run) && TimelyRun(c, first, run) ==>
               Refines(c, Reached(c, first, run), Recorded(c, first, run)))
       <==> InStep(c)
  {
    if InStep(c) {
      forall run: seq<Take> | ValidRun(c, run) && FedRun(c, first, run) && TimelyRun(c, first, run)
        ensures Refines(c, Reached(c, first, run), Recorded(c, first, run))
      {
        FedIsAdmissible(c, first, run);
        RunRefines(c, first, run);
      }
    } else {
      var run := OutOfStepDiverges(c, first);
    }
  }

  // ---------- whose entry a ready callback reads ----------

  /** In all fed, timely and non-wrapping runs, every callback that competes in the
      ring and could be taken reads the entry of the instance it would serve. */
  ghost predicate AllReadOwn(c: Config, first: int) {
    forall run: seq<Take>, e: Take :: CanRead(c, first, run, e) ==> ReadsOwn(c, first, run, e.callback)
  }

  lemma AttainedFits(c: Config, first: int, takes: seq<nat>, run: seq<Take>)
    requires ValidConfig(c) && |takes| == c.callbacks && Attains(c, first, takes, run)
    requires Room(c, first) && takes[0] <= c.ring + 2
    ensures NoWrap(c, Recorded(c, first, run).rel)
  {
    var rel := Recorded(c, first, run).rel;
    forall n: nat | n < |rel| ensures 0 < rel[n] + c.Entry(n) < UINT {
      assert rel[n] == first + Times(n, c.period);
    }
  }

  /** Out of step: after a turn of instances served one after the other, callback 1
      finds its slot empty. */
  lemma OutOfStepMisses(c: Config, first: int) returns (run: seq<Take>, e: Take)
    requires ValidConfig(c) && !InStep(c) && c.callbacks >= 2 && Room(c, first)
    ensures CanRead(c, first, run, e) && !ReadsOwn(c, first, run, e.callback)
    ensures Reached(c, first, run).cur[e.callback] < c.ring && Key(Reached(c, first, run), e.callback) == 0
  {
    var n := c.Turn();
    e := Take(1, 0);
    run := SerialRun(c, first, n, 1);
    AttainedFits(c, first, InPass(c, n, 1), run);
    BeyondTurnEmpty(c, first, run, n);
    IndexIsTakes(c, first, run, 1);
    DivModUnique(n, 0, n, c.ring);
  }

  /** More unfinished instances than slots: the deadline leaves time for the timer to
      be `ring` instances ahead of an unfinished one. */
  lemma TimeForTurn(c: Config)
    requires ValidConfig(c) && c.Depth() > c.ring
    ensures Times(c.ring, c.period) < c.deadline
  {
    MulMono(c.ring, c.Depth() - 1, c.period, c.period);
  }

  /** The run after which a callback other than the last is a turn ahead of the oldest
      instance. The timer is one in a chain of its own, callback 1 in a fed one. */
  lemma TurnAhead(c: Config, first: int) returns (run: seq<Take>, e: Take)
    requires ValidConfig(c) && InStep(c) && c.Depth() > c.ring
    requires c.callbacks > 1 && !OnlyLastCompetes(c) && Room(c, first)
    ensures CanRead(c, first, run, e) && Recorded(c, first, run).takes[e.callback] == c.ring + 1
    ensures Oldest(c, Recorded(c, first, run)) == 1
    ensures forall n: nat :: n < |Recorded(c, first, run).rel| ==>
      Recorded(c, first, run).rel[n] == first + Times(n, c.period)
  {
    if c.fed {
      run, e := CallbackAhead(c, first);
    } else {
      run, e := TimerAhead(c, first);
    }
  }

  lemma CallbackAhead(c: Config, first: int) returns (run: seq<Take>, e: Take)
    requires ValidConfig(c) && c.Depth() > c.ring && c.callbacks > 2 && Room(c, first)
    ensures CanRead(c, first, run, e) && Recorded(c, first, run) == OnTime(c, first, Ahead(c, 1, c.ring + 1, c.ring))
    ensures e.callback == 1
  {
    hide FedRun, TimelyRun, NoWrap, Room, Recorded, Times, CeilDiv;
    var takes := Ahead(c, 1, c.ring + 1, c.ring);
    TimeForTurn(c);
    e := Take(1, 0);
    run := AheadRun(c, first, 1, c.ring + 1, c.ring);
    CallbackOnTime(c, first, takes, 1);
    AttainedFits(c, first, takes, run);
  }

  lemma TimerAhead(c: Config, first: int) returns (run: seq<Take>, e: Take)
    requires ValidConfig(c) && c.Depth() > c.ring && c.callbacks > 1 && !c.fed && Room(c, first)
    ensures CanRead(c, first, run, e) && Recorded(c, first, run) == OnTime(c, first, Ahead(c, 1, c.ring, 0))
    ensures e.callback == 0
  {
    hide FedRun, TimelyRun, NoWrap, Room, Recorded, Times, CeilDiv;
    var takes := Ahead(c, 1, c.ring, 0);
    TimeForTurn(c);
    ReleaseClock.TimesStep(c.ring - 1, c.period);
    e := Take(0, first + Times(c.ring + 1, c.period));
    run := AheadRun(c, first, 1, c.ring, 0);
    TimerOnTime(c, first, takes);
    AttainedFits(c, first, takes, run);
  }

  /** It reads the entry of the instance a turn before. */
  lemma ShortRingMisreads(c: Config, first: int) returns (run: seq<Take>, e: Take)
    requires ValidConfig(c) && InStep(c) && c.Depth() > c.ring
    requires c.callbacks > 1 && !OnlyLastCompetes(c) && Room(c, first)
    ensures CanRead(c, first, run, e) && !ReadsOwn(c, first, run, e.callback)
  {
    hide CanRead, InStep, Chain.OnlyLastCompetes;
    run, e := TurnAhead(c, first);
    ReadsTurnBefore(c, first, run, e);
  }

  lemma ReadyIsPending(c: Config, first: int, run: seq<Take>, e: Take)
    requires CanRead(c, first, run, e)
    ensures Recorded(c, first, run).takes[e.callback] <= Recorded(c, first, run).takes[0]
  {
    FedKeepsOrder(c, first, run);
  }

  lemma HeadTurnBack(n: nat)
    requires n > 0
    ensures HeadInstance(1, n + 1, n) == 1
  {
    DivModUnique(n, 1, 0, n);
  }

  lemma TurnIsLater(n: nat, period: nat)
    requires n > 0 && period > 0
    ensures Times(1, period) < Times(n + 1, period)
  {
    assert Times(n + 1, period) == Times(1, period) + Times(n, period);
    MulMono(1, n, 1, period);
  }

  lemma ReadsTurnBefore(c: Config, first: int, run: seq<Take>, e: Take)
    requires ValidConfig(c) && InStep(c) && CanRead(c, first, run, e)
    requires var l := Recorded(c, first, run);
      && l.takes[e.callback] == c.ring + 1 && Oldest(c, l) == 1
      && forall n: nat :: n < |l.rel| ==> l.rel[n] == first + Times(n, c.period)
    ensures !ReadsOwn(c, first, run, e.callback)
  {
    hide FedRun, TimelyRun, Fed, Timely, Reached, Recorded, Refines, CeilDiv, AdmissibleRun, HeadInstance, Times;
    var l, n := Recorded(c, first, run), c.ring;
    FedIsAdmissible(c, first, run);
    ReadyIsPending(c, first, run, e);
    RunRefines(c, first, run);
    KeyIsHead(c, Reached(c, first, run), l, e.callback);
    HeadTurnBack(n);
    TurnIsLater(n, c.period);
  }

  /** Every ready callback that competes in the ring reads its own instance's entry in
      all fed, timely and non-wrapping runs, exactly when the ring is sound. */
  lemma OwnEntryExactly(c: Config, first: int)
    requires ValidConfig(c) && Room(c, first)
    ensures AllReadOwn(c, first) <==> Sound(c)
  {
    hide CanRead, ReadsOwn;
    if Sound(c) {
      SoundSuffices(c, first);
    } else if InStep(c) {
      var run, e := ShortRingMisreads(c, first);
    } else {
      var run, e := OutOfStepMisses(c, first);
    }
  }

  lemma SoundSuffices(c: Config, first: int)
    requires ValidConfig(c) && Sound(c)
    ensures AllReadOwn(c, first)
  {
    hide FedRun, TimelyRun, NoWrap, Fed, Timely, Sound, Reached, Recorded, Key;
    forall run: seq<Take>, e: Take | CanRead(c, first, run, e) ensures ReadsOwn(c, first, run, e.callback) {
      ReadyReadsOwnDeadline(c, first, run, e);
    }
  }

  // ---------- whose queues are sorted ----------

  ghost predicate AllSorted(c: Config, first: int)
    requires ValidConfig(c)
  {
    forall run: seq<Take>, slot: nat ::
      slot < c.ring && ValidRun(c, run) && FedRun(c, first, run) && TimelyRun(c, first, run)
      && NoWrap(c, Recorded(c, first, run).rel) ==>
        Increasing(Reached(c, first, run).slots[slot])
  }

  /** The timer a whole turn ahead: slot 0 has the entries of instances 0 and `ring`. */
  lemma FirstTurn(c: Config, first: int) returns (run: seq<Take>)
    requires ValidConfig(c) && InStep(c) && c.callbacks > 1 && c.Depth() >= c.ring && Room(c, first)
    ensures ValidRun(c, run) && FedRun(c, first, run) && TimelyRun(c, first, run)
    ensures NoWrap(c, Recorded(c, first, run).rel)
    ensures Reached(c, first, run).slots[0]
         == [first + c.seed, first + Times(c.ring, c.period) + c.push]
  {
    hide FedRun, TimelyRun, CeilDiv, Column, Increasing, Refines, Reached, Recorded, Times, Room, NoWrap, AdmissibleRun;
    AlmostTurn(c);
    run := AheadRun(c, first, 0, c.ring, 0);
    AttainedFits(c, first, Ahead(c, 0, c.ring, 0), run);
    FedIsAdmissible(c, first, run);
    RunRefines(c, first, run);
    FirstSlot(c, first, Reached(c, first, run));
  }

  lemma AlmostTurn(c: Config)
    requires ValidConfig(c) && c.Depth() >= c.ring
    ensures c.ring > 0 && Times(c.ring - 1, c.period) < c.deadline
  {
    MulMono(c.ring - 1, c.Depth() - 1, c.period, c.period);
  }

  lemma FirstSlot(c: Config, first: int, s: State)
    requires ValidConfig(c) && c.callbacks > 1 && Room(c, first)
    requires Refines(c, s, OnTime(c, first, Ahead(c, 0, c.ring, 0)))
    ensures s.slots[0] == [first + c.seed, first + Times(c.ring, c.period) + c.push]
  {
    hide Column, CeilDiv, Times;
    var l, n := OnTime(c, first, Ahead(c, 0, c.ring, 0)), c.ring;
    TwoInColumn(Deadlines(c, l.rel), n);
    NothingTaken(c, first);
    assert l.rel[0] == first + Times(0, c.period) == first && l.rel[n] == first + Times(n, c.period);
  }

  lemma TwoInColumn(table: seq<nat>, n: nat)
    requires n > 0 && |table| == n + 1
    ensures Column(table, 0, 0, n) == [table[0], table[n]]
  {
    OneInColumn(table[..n], n, n);
    DivModUnique(n, 1, 0, n);
  }

  lemma {:induction false} OneInColumn(table: seq<nat>, m: nat, n: nat)
    requires 0 < m == |table| <= n
    ensures Column(table, 0, 0, n) == [table[0]]
  {
    DivModUnique(m - 1, 0, m - 1, n);
    if m > 1 {
      OneInColumn(table[..m - 1], m - 1, n);
    }
  }

  /** With as many unfinished instances as slots, the queues are sorted in all fed,
      timely and non-wrapping runs exactly when the first entry is in order. */
  lemma SortedExactly(c: Config, first: int)
    requires ValidConfig(c) && InStep(c) && c.callbacks > 1 && c.Depth() >= c.ring && Room(c, first)
    ensures AllSorted(c, first) <==> SeedInOrder(c)
  {
    if SeedInOrder(c) {
      forall run: seq<Take>, slot: nat |
        slot < c.ring && ValidRun(c, run) && FedRun(c, first, run) && TimelyRun(c, first, run)
        && NoWrap(c, Recorded(c, first, run).rel)
        ensures Increasing(Reached(c, first, run).slots[slot])
      {
        FedIsAdmissible(c, first, run);
        SlotsSorted(c, first, run, slot);
      }
    } else {
      var run := FirstTurn(c, first);
      var xs := Reached(c, first, run).slots[0];
      assert xs[0] >= xs[1];
    }
  }
}
