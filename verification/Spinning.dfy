/** Round after round: the rounds of all threads in the order in which they get
    the lock, and what they make of the chains' rings. */
module Spinning {
  import opened Options
  import opened Charging
  import opened Executable
  import opened Fleets
  import opened Strategy
  import Chain

  /** What one round finds: the groups free at collection, the handles the wait set
      reports, the groups each pop sees free, and the time. */
  datatype Input = Input(free: set<Group>, ready: set<Handle>, observed: nat -> set<Group>, now: int)

  /** While a round holds the lock, groups are only freed. */
  ghost predicate Possible(input: Input) {
    && input.free <= input.observed(0)
    && forall i: nat, j: nat :: i <= j ==> input.observed(i) <= input.observed(j)
  }

  function Position(h: Handle, callbacks: seq<Handle>): (b: nat)
    requires h in callbacks
    ensures b < |callbacks| && callbacks[b] == h
  {
    if callbacks[|callbacks| - 1] == h then |callbacks| - 1 else Position(h, callbacks[..|callbacks| - 1])
  }

  /** The take of the chain that handing out r is, if it is one. */
  function TakeOf(r: Option<Handle>, now: int, callbacks: seq<Handle>): (run: seq<Chain.Take>)
    ensures forall n :: 0 <= n < |run| ==> run[n].callback < |callbacks|
  {
    if r.Some? && r.value in callbacks then [Chain.Take(Position(r.value, callbacks), now)] else []
  }

  /** The takes of the chain among what the rounds handed out. */
  function TakesOf(handed: seq<Option<Handle>>, inputs: seq<Input>, callbacks: seq<Handle>): (run: seq<Chain.Take>)
    requires |handed| <= |inputs|
    ensures forall n :: 0 <= n < |run| ==> run[n].callback < |callbacks|
  {
    if handed == [] then []
    else
      var k: nat := |handed| - 1;
      TakesOf(handed[..k], inputs, callbacks) + TakeOf(handed[k], inputs[k].now, callbacks)
  }

  /** A chain with the takes that led to its state, and its callbacks' counters before
      them. */
  datatype Track = Track(line: Line, first: int, run: seq<Chain.Take>, counts: seq<int>) {
    function Next(r: Option<Handle>, now: int): Track {
      this.(run := run + TakeOf(r, now, line.callbacks))
    }

    function Then(handed: seq<Option<Handle>>, inputs: seq<Input>): Track
      requires |handed| <= |inputs|
    {
      this.(run := run + TakesOf(handed, inputs, line.callbacks))
    }
  }

  lemma ThenOneMore(t: Track, handed: seq<Option<Handle>>, inputs: seq<Input>, r: Option<Handle>)
    requires |handed| < |inputs|
    ensures t.Then(handed + [r], inputs) == t.Then(handed, inputs).Next(r, inputs[|handed|].now)
  {
    assert (handed + [r])[..|handed|] == handed;
  }

  /** Callback b's counter: what it was before, and one for each of its takes. */
  ghost function Count(t: Track, b: nat): int
    requires Chain.ValidRun(t.line.c, t.run) && b < t.line.c.callbacks && b < |t.counts|
  {
    t.counts[b] + Chain.Recorded(t.line.c, t.first, t.run).takes[b]
  }

  ghost predicate CountsTakes(f: Fleet, t: Track)
    requires IsChain(f, t.line) && Chain.ValidRun(t.line.c, t.run)
  {
    && |t.counts| == |t.line.callbacks|
    && forall b: nat :: b < |t.line.callbacks| ==>
         t.line.callbacks[b] in f.views && f.views[t.line.callbacks[b]].counter == Count(t, b)
  }

  /** The fleet has the chain in the state to which its run of takes leads, its
      callbacks have counted the takes, and nothing else moves its ring. */
  ghost predicate Follows(f: Fleet, shared: bool, peer: DeadlineRing?, t: Track) {
    && IsChain(f, t.line) && Attached(f, shared, peer, t.line) && Chain.ValidRun(t.line.c, t.run)
    && ChainOf(f, t.line) == Chain.Reached(t.line.c, t.first, t.run) && CountsTakes(f, t)
  }

  lemma TakeFollows(c: Chain.Config, first: int, run: seq<Chain.Take>, take: Chain.Take)
    requires Chain.ValidRun(c, run) && take.callback < c.callbacks
    ensures Chain.ValidRun(c, run + [take])
    ensures Chain.Reached(c, first, run + [take]) == Chain.After(c, Chain.Reached(c, first, run), take)
  {
    assert (run + [take])[..|run|] == run;
  }

  lemma OneMoreTake(c: Chain.Config, first: int, run: seq<Chain.Take>, take: Chain.Take)
    requires Chain.ValidRun(c, run) && take.callback < c.callbacks
    ensures Chain.ValidRun(c, run + [take])
    ensures var before, after := Chain.Recorded(c, first, run).takes, Chain.Recorded(c, first, run + [take]).takes;
      forall b: nat :: b < c.callbacks ==> after[b] == before[b] + if b == take.callback then 1 else 0
  {
    assert (run + [take])[..|run|] == run;
  }

  lemma DeadlineCounts(v: View, now: int)
    requires ValidView(v) && v.schedule == DEADLINE
    ensures Charge(v, now).counter == v.counter + 1
  {
  }

  /** The chain's callbacks count what a round hands out. */
  lemma RoundCounts(f: Fleet, f': Fleet, shared: bool, peer: DeadlineRing?, r: Option<Handle>, now: int, t: Track)
    requires Ready(f, shared, peer) && Moves(f, f', shared, peer, r, now)
    requires Follows(f, shared, peer, t) && IsChain(f', t.line)
    ensures Chain.ValidRun(t.line.c, t.Next(r, now).run) && CountsTakes(f', t.Next(r, now))
  {
    hide Moves, Ready, Charge, Attached, ChainOf, Chain.Reached, Chain.Recorded, IsChain, IsMember;
    var k := t.line;
    ChainSize(f, k);
    NextIsValid(t, r, now);
    forall b: nat | b < |k.callbacks|
      ensures k.callbacks[b] in f'.views && f'.views[k.callbacks[b]].counter == Count(t.Next(r, now), b)
    {
      CallbackCounts(f, f', shared, peer, r, now, k, b);
      assert k.callbacks[b] in k.callbacks && f.views[k.callbacks[b]].counter == Count(t, b);
      CountsOneMore(t, r, now, b);
      if r.Some? && r.value in k.callbacks {
        PositionIs(f, k, b, r.value);
      }
    }
  }

  lemma NextIsValid(t: Track, r: Option<Handle>, now: int)
    requires Chain.ValidRun(t.line.c, t.run) && |t.line.callbacks| == t.line.c.callbacks
    ensures Chain.ValidRun(t.line.c, t.Next(r, now).run)
  {
  }

  lemma CountsOneMore(t: Track, r: Option<Handle>, now: int, b: nat)
    requires Chain.ValidRun(t.line.c, t.run) && |t.line.callbacks| == |t.counts| == t.line.c.callbacks
    requires b < |t.counts|
    ensures Chain.ValidRun(t.line.c, t.Next(r, now).run)
    ensures Count(t.Next(r, now), b)
         == Count(t, b) + if r.Some? && r.value in t.line.callbacks && Position(r.value, t.line.callbacks) == b then 1
                          else 0
  {
    hide Chain.Recorded;
    if r.Some? && r.value in t.line.callbacks {
      var take := Chain.Take(Position(r.value, t.line.callbacks), now);
      OneMoreTake(t.line.c, t.first, t.run, take);
      assert t.Next(r, now).run == t.run + [take];
      assert Chain.Recorded(t.line.c, t.first, t.run + [take]).takes[b]
          == Chain.Recorded(t.line.c, t.first, t.run).takes[b] + if b == take.callback then 1 else 0;
    } else {
      assert t.Next(r, now) == t;
    }
  }

  lemma PositionIs(f: Fleet, k: Line, b: nat, h: Handle)
    requires IsChain(f, k) && b < |k.callbacks| && h in k.callbacks
    ensures h == k.callbacks[b] <==> Position(h, k.callbacks) == b
  {
  }

  lemma CallbackCounts(f: Fleet, f': Fleet, shared: bool, peer: DeadlineRing?, r: Option<Handle>, now: int,
                       k: Line, b: nat)
    requires Ready(f, shared, peer) && Moves(f, f', shared, peer, r, now) && IsChain(f, k) && b < |k.callbacks|
    ensures var h := k.callbacks[b];
      && h in f.views && h in f'.views
      && f'.views[h].counter == f.views[h].counter + if r == Some(h) then 1 else 0
  {
    hide CanHandOut, IsPeer, SlotsMove, Charge;
    ReadyViews(f, shared, peer);
    assert IsMember(f, k, b, k.callbacks[b]);
    if r == Some(k.callbacks[b]) {
      DeadlineCounts(f.views[k.callbacks[b]], now);
    }
  }

  /** A round extends the chain's run by exactly the callback of that chain it handed
      out, whether the chain has its own timer or is fed by chain 0's. */
  lemma RoundFollows(f: Fleet, f': Fleet, shared: bool, peer: DeadlineRing?, r: Option<Handle>, now: int, t: Track)
    requires Ready(f, shared, peer) && Moves(f, f', shared, peer, r, now)
    requires Follows(f, shared, peer, t)
    ensures Follows(f', shared, peer, t.Next(r, now))
  {
    hide Ready, Moves, Attached, IsChain, ChainOf, Chain.After, CountsTakes;
    StaysChain(f, f', shared, peer, r, now, t.line);
    RoundCounts(f, f', shared, peer, r, now, t);
    if r.Some? && r.value in t.line.callbacks {
      var b := Position(r.value, t.line.callbacks);
      ChainTaken(f, f', shared, peer, b, now, t.line);
      ChainSize(f, t.line);
      TakeFollows(t.line.c, t.first, t.run, Chain.Take(b, now));
    } else {
      ChainStands(f, f', shared, peer, r, now, t.line);
      assert t.Next(r, now) == t;
    }
  }

  lemma ChainSize(f: Fleet, k: Line)
    requires IsChain(f, k)
    ensures Chain.ValidConfig(k.c) && |k.callbacks| == k.c.callbacks
  {
  }

  /** What one round promises of the choice. */
  ghost predicate IsChoice(f: Fleet, groups: seq<CallbackGroup>, input: Input, r: Option<Handle>)
    requires Fleets.Valid(f)
  {
    && (r.Some? ==> OfferedBy(groups, input.free, f.views.Keys, r.value) && r.value in input.ready)
    && (forall h :: OfferedBy(groups, input.free, f.views.Keys, h) && h in input.ready ==>
          r.Some? && Below(KeyIn(f, h), KeyIn(f, r.value)))
  }

  /** Schedule class and priority that h was configured with, or the defaults. */
  function Configured(f: Fleet, h: Handle): (ScheduleType, int) {
    if h in f.views then (f.views[h].schedule, f.views[h].priority) else (CHAIN_INDEPENDENT_PRIORITY, 0)
  }

  /** What that means in terms of what was configured: deadline callbacks before
      everything else, then plain priorities, lower values first, then chain-aware
      priorities, higher values first; and a deadline callback with no deadline queued
      only when no other has one. */
  lemma ChoiceByConfiguration(f: Fleet, groups: seq<CallbackGroup>, input: Input, r: Option<Handle>, h: Handle)
    requires Fleets.Valid(f) && IsChoice(f, groups, input, r)
    requires OfferedBy(groups, input.free, f.views.Keys, h) && h in input.ready
    ensures r.Some?
    ensures var (mine, p), (best, q) := Configured(f, h), Configured(f, r.value);
      && (mine == DEADLINE ==> best == DEADLINE)
      && (mine == CHAIN_INDEPENDENT_PRIORITY ==> best == DEADLINE || (best == CHAIN_INDEPENDENT_PRIORITY && q <= p))
      && (mine == CHAIN_AWARE_PRIORITY ==> best != DEFAULT && (best == CHAIN_AWARE_PRIORITY ==> p <= q))
      && (mine == best == DEADLINE && KeyIn(f, r.value).deadline == 0 ==> KeyIn(f, h).deadline == 0)
  {
    assert Below(KeyIn(f, h), KeyIn(f, r.value));
  }

  lemma KnownHandles(strategy: PriorityMemoryStrategy)
    ensures strategy.Snapshot().views.Keys == strategy.priorityMap.Keys
  {
  }

  /** One round: at most one executable moves, and it was the best choice. */
  method OneRound(strategy: PriorityMemoryStrategy, groups: seq<CallbackGroup>, groupOf: map<Handle, Group>,
                  input: Input, ghost peer: DeadlineRing?)
    returns (r: Option<Handle>)
    requires strategy.Valid() && strategy.CanRun(peer) && GroupsKnown(groups, groupOf) && Possible(input)
    modifies strategy, strategy.Executables(), strategy.KnownRings(), peer
    ensures strategy.Valid() && strategy.CanRun(peer) && strategy.isF1tenth == old(strategy.isF1tenth)
    ensures strategy.Frame(old(strategy.Executables()), old(strategy.KnownRings()))
    ensures Moves(old(strategy.Snapshot()), strategy.Snapshot(), strategy.isF1tenth, peer, r, input.now)
    ensures IsChoice(old(strategy.Snapshot()), groups, input, r)
  {
    hide Moves, Ready, PriorityMemoryStrategy.Snapshot, KeyIn, Below, OfferedBy, ListedBy;
    KnownHandles(strategy);
    var e := strategy.Round(groups, input.free, input.ready, groupOf, input.observed, input.now, peer);
    r := HandleOf(e);
  }

  lemma NothingHanded(tracks: seq<Track>, inputs: seq<Input>)
    ensures forall t :: t in tracks ==> t.Then([], inputs) == t
  {
  }

  /** Any number of rounds: every chain's callbacks and ring stay in the state that
      the takes among what was handed out lead to. */
  method Spin(strategy: PriorityMemoryStrategy, groups: seq<CallbackGroup>, groupOf: map<Handle, Group>,
              inputs: seq<Input>, ghost peer: DeadlineRing?, ghost tracks: seq<Track>)
    returns (handed: seq<Option<Handle>>)
    requires strategy.Valid() && strategy.CanRun(peer) && GroupsKnown(groups, groupOf)
    requires forall n :: 0 <= n < |inputs| ==> Possible(inputs[n])
    requires forall t :: t in tracks ==> Follows(strategy.Snapshot(), strategy.isF1tenth, peer, t)
    modifies strategy, strategy.Executables(), strategy.KnownRings(), peer
    ensures |handed| == |inputs|
    ensures strategy.Valid() && strategy.CanRun(peer) && strategy.isF1tenth == old(strategy.isF1tenth)
    ensures forall t :: t in tracks ==>
      Follows(strategy.Snapshot(), strategy.isF1tenth, peer, t.Then(handed, inputs))
    ensures HaveAged(old(strategy.Snapshot()), strategy.Snapshot(), handed)
  {
    hide Follows, Ready, Moves, IsChoice, PriorityMemoryStrategy.Snapshot, HaveAged;
    handed := [];
    NothingHanded(tracks, inputs);
    NoneHaveAged(strategy.Snapshot());
    while |handed| < |inputs|
      invariant |handed| <= |inputs|
      invariant strategy.Valid() && strategy.CanRun(peer) && strategy.isF1tenth == old(strategy.isF1tenth)
      invariant strategy.Frame(old(strategy.Executables()), old(strategy.KnownRings()))
      invariant forall t :: t in tracks ==>
        Follows(strategy.Snapshot(), strategy.isF1tenth, peer, t.Then(handed, inputs))
      invariant HaveAged(old(strategy.Snapshot()), strategy.Snapshot(), handed)
    {
      ghost var before := strategy.Snapshot();
      var n: nat := |handed|;
      var r := OneRound(strategy, groups, groupOf, inputs[n], peer);
      forall t | t in tracks
        ensures Follows(strategy.Snapshot(), strategy.isF1tenth, peer, t.Then(handed + [r], inputs))
      {
        RoundFollows(before, strategy.Snapshot(), strategy.isF1tenth, peer, r, inputs[n].now, t.Then(handed, inputs));
        ThenOneMore(t, handed, inputs, r);
      }
      RoundAges(old(strategy.Snapshot()), before, strategy.Snapshot(), strategy.isF1tenth, peer, handed, r,
                inputs[n].now);
      handed := handed + [r];
    }
  }
}
