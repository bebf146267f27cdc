/** The experiment as a whole: its chains set up side by side, chain 1 fed by chain
    0's timer, and any number of rounds on them. */
module Experiment {
  import opened Arithmetic
  import opened Options
  import opened SlotTable
  import opened Executable
  import opened Charging
  import opened Fleets
  import opened Strategy
  import opened Setup
  import opened Spinning
  import opened EarliestDeadline
  import Chain
  import RingLimits

  /** Chain j. Chain 0's first release is set twice: its ring was seeded with its own
      reading, its clock ends up with chain 1's. */
  function ConfigOf(specs: seq<ChainSpec>, readings: seq<int>, j: nat): Chain.Config
    requires ValidSpecs(specs) && |readings| == |specs| && j < |specs|
  {
    var s := specs[j];
    if j == 1 then
      Chain.Config(specs[0].period, s.deadline, |s.handles|, s.Slots(), true, s.deadline, specs[0].deadline)
    else
      Chain.Config(s.period, s.deadline, |s.handles|, s.Slots(), false,
                   readings[j] - FirstOf(readings, j) + s.deadline, s.deadline)
  }

  function FirstOf(readings: seq<int>, j: nat): int
    requires j < |readings|
  {
    if j == 0 && |readings| > 1 then readings[1] else readings[j]
  }

  function CallbacksOf(specs: seq<ChainSpec>, j: nat): seq<Handle>
    requires ValidSpecs(specs) && j < |specs|
  {
    if j == 1 then specs[1].handles[0 := specs[0].handles[0]] else specs[j].handles
  }

  ghost function TrackOf(specs: seq<ChainSpec>, rings: seq<DeadlineRing>, readings: seq<int>, j: nat): Track
    requires ValidSpecs(specs) && |specs| == |rings| == |readings| && j < |specs|
  {
    Track(Line(ConfigOf(specs, readings, j), CallbacksOf(specs, j), rings[j]), FirstOf(readings, j), [],
          seq(|CallbacksOf(specs, j)|, b => 0))
  }

  function PeerOf(rings: seq<DeadlineRing>): (peer: DeadlineRing?)
    ensures peer != null ==> peer in rings
  {
    if |rings| > 1 then rings[1] else null
  }

  predicate IsFresh(v: View) {
    v.index == 0 && v.counter == 0
  }

  /** Every chain is set up and seeded. */
  ghost predicate AllReady(f: Fleet, specs: seq<ChainSpec>, rings: seq<DeadlineRing>, readings: seq<int>) {
    && ValidSpecs(specs) && |specs| == |rings| == |readings|
    && Stage(f, specs, rings, readings, |specs|, 0, |specs|)
  }

  lemma ReadyIsValid(f: Fleet, specs: seq<ChainSpec>, rings: seq<DeadlineRing>, readings: seq<int>)
    requires AllReady(f, specs, rings, readings)
    ensures Fleets.Valid(f) && ValidSpecs(specs) && |specs| == |rings| == |readings|
    ensures forall i: nat :: i < |specs| ==> |specs[i].handles| >= 2 && specs[i].period > 0 && specs[i].deadline > 0
  {
  }

  /** A registered handle is some chain's own callback. */
  lemma WhoseCallback(f: Fleet, specs: seq<ChainSpec>, rings: seq<DeadlineRing>, readings: seq<int>, h: Handle)
    returns (j: nat, b: nat)
    requires AllReady(f, specs, rings, readings) && h in f.views
    ensures Own(specs, j, b) && h == specs[j].handles[b] && IsSetUp(f, specs, rings, readings, j, b, |specs|)
  {
    assert IsEarlier(specs, |specs|, 0, h);
    j, b :| Own(specs, j, b) && Before(j, b, |specs|, 0) && h == specs[j].handles[b];
    AllSetUp(f, specs, rings, readings, |specs|, j, b);
  }

  lemma CanAllBeHandedOut(f: Fleet, specs: seq<ChainSpec>, rings: seq<DeadlineRing>, readings: seq<int>, h: Handle)
    requires AllReady(f, specs, rings, readings) && h in f.views
    ensures CanHandOut(f, true, PeerOf(rings), h)
  {
    hide Stage;
    var j, b := WhoseCallback(f, specs, rings, readings, h);
    if j == 0 && |specs| > 1 {
      SpecSize(specs, 1);
      SetUpTogether(f, specs, rings, readings, 1);
      RingsDiffer(f, specs, rings, readings, 0, 1);
    }
  }

  lemma RingsDiffer(f: Fleet, specs: seq<ChainSpec>, rings: seq<DeadlineRing>, readings: seq<int>, a: nat, b: nat)
    requires AllReady(f, specs, rings, readings) && a < b < |rings|
    ensures rings[a] != rings[b]
  {
  }

  lemma SetUpTogether(f: Fleet, specs: seq<ChainSpec>, rings: seq<DeadlineRing>, readings: seq<int>, j: nat)
    requires AllReady(f, specs, rings, readings) && j < |specs|
    ensures forall b: nat :: Own(specs, j, b) ==> IsSetUp(f, specs, rings, readings, j, b, |specs|)
    ensures Own(specs, j, 1) && rings[j] in f.slots && f.slots[rings[j]] == Contents(specs, readings, j, |specs|)
  {
    AllSetUp(f, specs, rings, readings, |specs|, j, 1);
  }

  /** What is registered for callback b of chain j, setting by setting. */
  lemma RegisteredAs(f: Fleet, specs: seq<ChainSpec>, rings: seq<DeadlineRing>, readings: seq<int>, j: nat, b: nat)
    requires AllReady(f, specs, rings, readings) && j < |specs| && b < |specs[j].handles| && !(j == 1 && b == 0)
    ensures var h := specs[j].handles[b];
      && h in f.views && h in f.rings && f.rings[h] == rings[j]
      && var v := f.views[h];
      && v.schedule == DEADLINE && v.chainId == j && v.period == specs[j].period && v.deadline == specs[j].deadline
      && v.kind == (if b == 0 then TIMER else SUBSCRIPTION) && (v.first <==> b == 0)
      && (v.last <==> b == |specs[j].handles| - 1) && v.index == v.counter == v.sum == 0
      && (b == 0 && (j > 0 || |specs| == 1) ==> v.release == readings[j])
      && (b == 0 && j == 0 && |specs| > 1 ==> v.release == readings[1])
  {
    hide Stage, Contents;
    ReadyIsValid(f, specs, rings, readings);
    AllSetUp(f, specs, rings, readings, |specs|, j, b);
  }

  /** What is in chain j's ring: one queue per slot, and one deadline in the first. */
  lemma RingHolds(f: Fleet, specs: seq<ChainSpec>, rings: seq<DeadlineRing>, readings: seq<int>, j: nat)
    requires AllReady(f, specs, rings, readings) && j < |specs|
    ensures rings[j] in f.slots && |f.slots[rings[j]]| == CeilDiv(specs[j].deadline, specs[j].period) > 0
    ensures f.slots[rings[j]][0] == [Narrow(readings[j] + specs[j].deadline)]
    ensures forall n :: 0 < n < |f.slots[rings[j]]| ==> f.slots[rings[j]][n] == []
  {
    hide Stage;
    ReadyIsValid(f, specs, rings, readings);
    SetUpTogether(f, specs, rings, readings, j);
  }

  /** The strategy can run. */
  lemma ExperimentCanRun(f: Fleet, specs: seq<ChainSpec>, rings: seq<DeadlineRing>, readings: seq<int>)
    requires AllReady(f, specs, rings, readings)
    ensures Ready(f, true, PeerOf(rings))
  {
    hide Stage, CanHandOut;
    ReadyIsValid(f, specs, rings, readings);
    forall h | h in f.views ensures CanHandOut(f, true, PeerOf(rings), h) {
      CanAllBeHandedOut(f, specs, rings, readings, h);
    }
    forall h | h in f.views && f.views[h].chainId == 1 ensures |rings| > 1 && f.rings[h] == rings[1] {
      var j, b := WhoseCallback(f, specs, rings, readings, h);
    }
    if |specs| > 1 {
      SetUpTogether(f, specs, rings, readings, 1);
      assert f.views[specs[1].handles[1]].chainId == 1;
    }
  }

  lemma ConfigIsValid(specs: seq<ChainSpec>, readings: seq<int>, j: nat)
    requires ValidSpecs(specs) && |readings| == |specs| && j < |specs|
    ensures Chain.ValidConfig(ConfigOf(specs, readings, j))
  {
    SpecSize(specs, j);
    SpecSize(specs, 0);
  }

  lemma CallbackIsMember(f: Fleet, specs: seq<ChainSpec>, rings: seq<DeadlineRing>, readings: seq<int>, j: nat, b: nat)
    requires AllReady(f, specs, rings, readings) && j < |specs| && b < |specs[j].handles|
    ensures Chain.ValidConfig(ConfigOf(specs, readings, j))
    ensures var k := TrackOf(specs, rings, readings, j).line;
      k.callbacks[b] in f.views && IsMember(f, k, b, k.callbacks[b]) && IsFresh(f.views[k.callbacks[b]])
  {
    hide Stage, IsEarlier, ValidSpecs, Contents, CeilDiv;
    ReadyIsValid(f, specs, rings, readings);
    ConfigIsValid(specs, readings, j);
    var t := if j == 1 && b == 0 then 0 else j;
    SetUpTogether(f, specs, rings, readings, t);
    assert Own(specs, t, b);
    assert IsSetUp(f, specs, rings, readings, t, b, |specs|);
    assert CallbacksOf(specs, j)[b] == specs[t].handles[b];
    if t != j {
      RingsDiffer(f, specs, rings, readings, 0, 1);
    }
  }

  lemma CallbacksDiffer(f: Fleet, specs: seq<ChainSpec>, rings: seq<DeadlineRing>, readings: seq<int>, j: nat,
                        a: nat, b: nat)
    requires AllReady(f, specs, rings, readings) && j < |specs| && a < b < |specs[j].handles|
    ensures CallbacksOf(specs, j)[a] != CallbacksOf(specs, j)[b]
  {
    assert Own(specs, j, b) && Own(specs, if j == 1 && a == 0 then 0 else j, a);
  }

  lemma IsAChain(f: Fleet, specs: seq<ChainSpec>, rings: seq<DeadlineRing>, readings: seq<int>, j: nat)
    requires AllReady(f, specs, rings, readings) && j < |specs|
    ensures var k := TrackOf(specs, rings, readings, j).line;
      && IsChain(f, k) && Chain.ValidConfig(k.c)
      && forall b: nat :: b < |k.callbacks| ==> k.callbacks[b] in f.views && IsFresh(f.views[k.callbacks[b]])
  {
    hide Stage, IsEarlier, IsMember, IsSetUp, ValidSpecs, Own, CeilDiv;
    ReadyIsValid(f, specs, rings, readings);
    ConfigIsValid(specs, readings, j);
    SetUpTogether(f, specs, rings, readings, j);
    var k := TrackOf(specs, rings, readings, j).line;
    forall b: nat | b < |k.callbacks|
      ensures k.callbacks[b] in f.views && IsMember(f, k, b, k.callbacks[b]) && IsFresh(f.views[k.callbacks[b]])
    {
      CallbackIsMember(f, specs, rings, readings, j, b);
    }
    forall a: nat, b: nat | a < b < |k.callbacks| ensures k.callbacks[a] != k.callbacks[b] {
      CallbacksDiffer(f, specs, rings, readings, j, a, b);
    }
  }

  /** Chain j is a chain of the fleet, in its seeded state. */
  lemma ChainIsSeeded(f: Fleet, specs: seq<ChainSpec>, rings: seq<DeadlineRing>, readings: seq<int>, j: nat)
    requires AllReady(f, specs, rings, readings) && j < |specs|
    ensures var t := TrackOf(specs, rings, readings, j);
      && IsChain(f, t.line) && Chain.ValidConfig(t.line.c)
      && ChainOf(f, t.line) == Chain.Seeded(t.line.c, t.first)
  {
    hide Stage, IsChain, ChainOf, Chain.Seeded, Own, IsSetUp, CeilDiv, ValidSpecs;
    IsAChain(f, specs, rings, readings, j);
    SetUpTogether(f, specs, rings, readings, j);
    SeedIsFirst(f, specs, rings, readings, j);
    SeededState(f, TrackOf(specs, rings, readings, j).line, FirstOf(readings, j));
  }

  /** A chain with all indices 0 and only instance 0's entry is in its seeded state. */
  lemma SeededState(f: Fleet, k: Line, first: int)
    requires IsChain(f, k) && f.views[k.callbacks[0]].release == first
    requires forall b: nat :: b < |k.callbacks| ==> IsFresh(f.views[k.callbacks[b]])
    requires f.slots[k.ring] == Empty(k.c.ring)[0 := [Narrow(first + k.c.seed)]]
    ensures ChainOf(f, k) == Chain.Seeded(k.c, first)
  {
    assert ChainOf(f, k).slots == Chain.Seeded(k.c, first).slots;
    assert ChainOf(f, k).cur == Chain.Seeded(k.c, first).cur;
  }

  /** The clock of chain j's timer and the entry in slot 0. */
  lemma SeedIsFirst(f: Fleet, specs: seq<ChainSpec>, rings: seq<DeadlineRing>, readings: seq<int>, j: nat)
    requires AllReady(f, specs, rings, readings) && j < |specs|
    ensures var t := TrackOf(specs, rings, readings, j);
      && t.line.callbacks[0] in f.views && f.views[t.line.callbacks[0]].release == t.first
      && Narrow(t.first + t.line.c.seed) == Narrow(readings[j] + specs[j].deadline)
  {
    hide Stage, IsEarlier, ValidSpecs, Contents, CeilDiv, Narrow;
    ReadyIsValid(f, specs, rings, readings);
    var t := if j == 1 then 0 else j;
    SetUpTogether(f, specs, rings, readings, t);
    assert Own(specs, t, 0);
    assert IsSetUp(f, specs, rings, readings, t, 0, |specs|);
    assert CallbacksOf(specs, j)[0] == specs[t].handles[0];
  }

  /** Nothing but its callbacks moves chain j's ring, except that chain 1's is fed by
      chain 0's timer. */
  lemma ChainIsAttached(f: Fleet, specs: seq<ChainSpec>, rings: seq<DeadlineRing>, readings: seq<int>, j: nat)
    requires AllReady(f, specs, rings, readings) && j < |specs|
    requires IsChain(f, TrackOf(specs, rings, readings, j).line)
    ensures Attached(f, true, PeerOf(rings), TrackOf(specs, rings, readings, j).line)
  {
    hide Stage, IsEarlier;
    var k := TrackOf(specs, rings, readings, j).line;
    forall h | h in f.views && f.rings[h] == k.ring ensures h in k.callbacks {
      var j', b := WhoseCallback(f, specs, rings, readings, h);
      if j' < j {
        RingsDiffer(f, specs, rings, readings, j', j);
      } else if j < j' {
        RingsDiffer(f, specs, rings, readings, j, j');
      }
      assert h == k.callbacks[b];
    }
    if k.c.fed {
      forall h | h in f.views && Mirrors(f.views[h], true) ensures h == k.callbacks[0] {
        var j', b := WhoseCallback(f, specs, rings, readings, h);
      }
    } else if |specs| > 1 {
      RingsDiffer(f, specs, rings, readings, if j < 1 then j else 1, if j < 1 then 1 else j);
    }
  }

  lemma ChainFollows(f: Fleet, specs: seq<ChainSpec>, rings: seq<DeadlineRing>, readings: seq<int>, j: nat)
    requires AllReady(f, specs, rings, readings) && j < |specs|
    ensures Follows(f, true, PeerOf(rings), TrackOf(specs, rings, readings, j))
  {
    hide AllReady, IsChain, Attached, ChainOf, Chain.Seeded, IsFresh, ConfigOf, CallbacksOf;
    ChainIsSeeded(f, specs, rings, readings, j);
    ChainIsAttached(f, specs, rings, readings, j);
    NothingCounted(f, specs, rings, readings, j);
  }

  /** No callback has been counted yet. */
  lemma NothingCounted(f: Fleet, specs: seq<ChainSpec>, rings: seq<DeadlineRing>, readings: seq<int>, j: nat)
    requires AllReady(f, specs, rings, readings) && j < |specs|
    requires IsChain(f, TrackOf(specs, rings, readings, j).line)
    ensures var t := TrackOf(specs, rings, readings, j);
      Chain.ValidRun(t.line.c, t.run) && CountsTakes(f, t)
  {
    hide AllReady, IsMember, ConfigOf, CallbacksOf;
    IsAChain(f, specs, rings, readings, j);
  }

  /** Before the first reading, what will be read does not matter. */
  lemma StageReadings(f: Fleet, specs: seq<ChainSpec>, rings: seq<DeadlineRing>, readings: seq<int>)
    requires ValidSpecs(specs) && Stage(f, specs, rings, [], |specs|, 0, 0)
    ensures Stage(f, specs, rings, readings, |specs|, 0, 0)
  {
    forall j: nat, b: nat | Own(specs, j, b) ensures IsSetUp(f, specs, rings, readings, j, b, 0) {
      assert IsSetUp(f, specs, rings, [], j, b, 0);
    }
  }

  /** The strategy's rings are the chains'. */
  lemma OnlyTheseRings(strategy: PriorityMemoryStrategy, specs: seq<ChainSpec>, rings: seq<DeadlineRing>,
                       readings: seq<int>, x: DeadlineRing?)
    requires AllReady(strategy.Snapshot(), specs, rings, readings) && x in strategy.KnownRings()
    ensures x != null && x in rings
  {
    var h :| h in strategy.priorityMap && strategy.priorityMap[h].deadlines == x;
    var j, b := WhoseCallback(strategy.Snapshot(), specs, rings, readings, h);
    assert strategy.Snapshot().rings[h] == rings[j];
  }

  /** If last takes found released instances, the chain's ring is the table of its
      unfinished instances' deadlines. */
  ghost predicate RefinesIfAdmissible(f: Fleet, peer: DeadlineRing?, t: Track)
    requires Follows(f, true, peer, t)
  {
    Chain.InStep(t.line.c) && Chain.AdmissibleRun(t.line.c, t.first, t.run) ==>
      Chain.Refines(t.line.c, ChainOf(f, t.line), Chain.Recorded(t.line.c, t.first, t.run))
  }

  lemma FollowedRefines(f: Fleet, peer: DeadlineRing?, t: Track)
    requires Follows(f, true, peer, t)
    ensures RefinesIfAdmissible(f, peer, t)
  {
    if Chain.InStep(t.line.c) && Chain.AdmissibleRun(t.line.c, t.first, t.run) {
      Chain.RunRefines(t.line.c, t.first, t.run);
    }
  }

  // ---------- what the rings tell the comparator ----------

  /** Both rings that the shared timer feeds have equally many slots, and chain 1's has
      one for every instance that can be unfinished, unless it has one callback of its
      own only. */
  predicate FedRingSuffices(specs: seq<ChainSpec>)
    requires ValidSpecs(specs)
  {
    |specs| > 1 ==>
      && specs[0].Slots() == specs[1].Slots()
      && (CeilDiv(specs[1].deadline, specs[0].period) <= specs[1].Slots() || |specs[1].handles| == 2)
  }

  lemma SoundIf(specs: seq<ChainSpec>, readings: seq<int>, j: nat)
    requires ValidSpecs(specs) && |readings| == |specs| && j < |specs|
    ensures Chain.ValidConfig(ConfigOf(specs, readings, j))
    ensures Chain.Sound(ConfigOf(specs, readings, j)) <==> (j == 1 ==> FedRingSuffices(specs))
  {
    ConfigIsValid(specs, readings, j);
    SpecSize(specs, j);
  }

  /** In all fed, timely and non-wrapping runs every ready callback that competes in
      chain j's ring reads its own instance's entry: always for chains with their own
      timer, whatever the readings; for the fed chain exactly when its ring suffices. */
  lemma OwnEntryExactly(specs: seq<ChainSpec>, readings: seq<int>, j: nat)
    requires ValidSpecs(specs) && |readings| == |specs| && j < |specs|
    requires Chain.ValidConfig(ConfigOf(specs, readings, j))
    requires j == 1 ==> RingLimits.Room(ConfigOf(specs, readings, j), FirstOf(readings, j))
    ensures RingLimits.AllReadOwn(ConfigOf(specs, readings, j), FirstOf(readings, j))
       <==> (j == 1 ==> FedRingSuffices(specs))
  {
    hide ConfigOf, ValidSpecs, FedRingSuffices, RingLimits.AllReadOwn, RingLimits.Room, Chain.Sound;
    SoundIf(specs, readings, j);
    if j == 1 {
      RingLimits.OwnEntryExactly(ConfigOf(specs, readings, j), FirstOf(readings, j));
    } else {
      RingLimits.SoundSuffices(ConfigOf(specs, readings, j), FirstOf(readings, j));
    }
  }

  /** What a ready callback of chain j competes with is its own instance's release plus
      the chain's deadline exactly when that instance is the first and the clock was
      not overwritten with another reading, or a later one and the chain that pushes
      has the same deadline. */
  lemma OwnDeadlineExactly(specs: seq<ChainSpec>, readings: seq<int>, j: nat, run: seq<Chain.Take>, e: Chain.Take)
    requires ValidSpecs(specs) && |readings| == |specs| && j < |specs| && (j == 1 ==> FedRingSuffices(specs))
    requires Chain.CanRead(ConfigOf(specs, readings, j), FirstOf(readings, j), run, e)
    ensures var c, first := ConfigOf(specs, readings, j), FirstOf(readings, j);
      var l := Chain.Recorded(c, first, run);
      var i := l.takes[e.callback];
      && Chain.ReadsOwn(c, first, run, e.callback)
      && (Chain.Key(Chain.Reached(c, first, run), e.callback) == l.rel[i] + specs[j].deadline <==>
          if i == 0 then readings[j] == FirstOf(readings, j) else specs[j].deadline == specs[TimerOf(j)].deadline)
  {
    SoundIf(specs, readings, j);
    Chain.ReadyReadsOwnDeadline(ConfigOf(specs, readings, j), FirstOf(readings, j), run, e);
  }

  /** The queues of a chain with its own timer are sorted in all such runs exactly when
      the ring was not seeded a whole turn or more after the clock; only chain 0's can
      be. */
  lemma SortedExactly(specs: seq<ChainSpec>, readings: seq<int>, j: nat)
    requires ValidSpecs(specs) && |readings| == |specs| && j < |specs| && j != 1
    requires Chain.ValidConfig(ConfigOf(specs, readings, j))
    requires RingLimits.Room(ConfigOf(specs, readings, j), FirstOf(readings, j))
    ensures RingLimits.AllSorted(ConfigOf(specs, readings, j), FirstOf(readings, j))
       <==> readings[j] - FirstOf(readings, j) < Times(specs[j].Slots(), specs[j].period)
  {
    hide RingLimits.AllSorted, RingLimits.Room;
    SpecSize(specs, j);
    RingLimits.SortedExactly(ConfigOf(specs, readings, j), FirstOf(readings, j));
  }

  // ---------- set-up and rounds ----------

  /** All chains set up and seeded. */
  method SetUp(specs: seq<ChainSpec>, readings: seq<int>)
    returns (strategy: PriorityMemoryStrategy, rings: seq<DeadlineRing>)
    requires ValidSpecs(specs) && |readings| == |specs|
    ensures fresh(strategy) && strategy.Valid() && strategy.isF1tenth
    ensures forall e :: e in strategy.Executables() ==> fresh(e)
    ensures forall x :: x in strategy.KnownRings() ==> x != null && fresh(x)
    ensures forall x :: x in rings ==> fresh(x)
    ensures AllReady(strategy.Snapshot(), specs, rings, readings)
  {
    hide Stage, ValidSpecs, PriorityMemoryStrategy.Valid, PriorityMemoryStrategy.Snapshot;
    strategy := new PriorityMemoryStrategy();
    strategy.isF1tenth := true;
    rings := LayOut(strategy, specs);
    StageReadings(strategy.Snapshot(), specs, rings, readings);
    assert forall e :: e in strategy.Executables() ==> fresh(e);
    forall i | 0 <= i < |rings| ensures fresh(rings[i]) {
      assert rings[i] in rings;
    }
    SeedAll(strategy, specs, rings, readings);
    forall x | x in strategy.KnownRings() ensures x != null && x in rings {
      OnlyTheseRings(strategy, specs, rings, readings, x);
    }
  }

  lemma AllFollow(f: Fleet, specs: seq<ChainSpec>, rings: seq<DeadlineRing>, readings: seq<int>)
    requires AllReady(f, specs, rings, readings)
    ensures Ready(f, true, PeerOf(rings))
    ensures forall j: nat :: j < |specs| ==> Follows(f, true, PeerOf(rings), TrackOf(specs, rings, readings, j))
  {
    ExperimentCanRun(f, specs, rings, readings);
    forall j: nat | j < |specs| ensures Follows(f, true, PeerOf(rings), TrackOf(specs, rings, readings, j)) {
      ChainFollows(f, specs, rings, readings, j);
    }
  }

  ghost function Tracks(specs: seq<ChainSpec>, rings: seq<DeadlineRing>, readings: seq<int>): (ts: seq<Track>)
    requires ValidSpecs(specs) && |specs| == |rings| == |readings|
    ensures |ts| == |specs|
    ensures forall j: nat :: j < |ts| ==> ts[j] == TrackOf(specs, rings, readings, j)
  {
    seq(|specs|, j requires 0 <= j < |specs| => TrackOf(specs, rings, readings, j))
  }

  /** The experiment: all chains set up, then any number of rounds with any inputs.
      Every chain's ring and callbacks are in the state that its takes among what
      was handed out lead to. Where the timer's index goes around the whole ring and
      last takes find released instances, the ring is the table of the unfinished
      instances' deadlines. */
  method RunExperiment(specs: seq<ChainSpec>, readings: seq<int>, groups: seq<CallbackGroup>,
                       groupOf: map<Handle, Group>, inputs: seq<Input>)
    returns (strategy: PriorityMemoryStrategy, rings: seq<DeadlineRing>, handed: seq<Option<Handle>>)
    requires ValidSpecs(specs) && |readings| == |specs|
    requires GroupsKnown(groups, groupOf) && forall n :: 0 <= n < |inputs| ==> Possible(inputs[n])
    ensures |rings| == |specs| && |handed| == |inputs| && strategy.Valid() && strategy.isF1tenth
    ensures strategy.CanRun(PeerOf(rings))
    ensures forall t :: t in Tracks(specs, rings, readings) ==>
      && Follows(strategy.Snapshot(), true, PeerOf(rings), t.Then(handed, inputs))
      && RefinesIfAdmissible(strategy.Snapshot(), PeerOf(rings), t.Then(handed, inputs))
  {
    hide Follows, Ready, ValidSpecs, Stage, PriorityMemoryStrategy.Snapshot;
    strategy, rings := SetUp(specs, readings);
    ghost var peer, tracks := PeerOf(rings), Tracks(specs, rings, readings);
    AllFollow(strategy.Snapshot(), specs, rings, readings);
    handed := Spin(strategy, groups, groupOf, inputs, peer, tracks);
    forall t | t in tracks ensures RefinesIfAdmissible(strategy.Snapshot(), peer, t.Then(handed, inputs)) {
      FollowedRefines(strategy.Snapshot(), peer, t.Then(handed, inputs));
    }
  }

  lemma AllOnTrack(specs: seq<ChainSpec>, rings: seq<DeadlineRing>, readings: seq<int>)
    requires ValidSpecs(specs) && |specs| == |rings| == |readings| && FedRingSuffices(specs)
    ensures forall t :: t in Tracks(specs, rings, readings) ==> OnTrack(t)
  {
    hide FedRingSuffices, OnTrack;
    forall t | t in Tracks(specs, rings, readings) ensures OnTrack(t) {
      var j: nat :| j < |specs| && t == TrackOf(specs, rings, readings, j);
      SoundIf(specs, readings, j);
      CallbackCount(specs, readings, j);
      FreshIsOnTrack(t, 0, 0);
    }
  }

  lemma CallbackCount(specs: seq<ChainSpec>, readings: seq<int>, j: nat)
    requires ValidSpecs(specs) && |specs| == |readings| && j < |specs|
    ensures |CallbacksOf(specs, j)| == ConfigOf(specs, readings, j).callbacks
  {
  }

  /** All queued deadlines are the instances' own exactly when the first two readings
      and the first two chains' deadlines agree. */
  lemma AllOwnEntriesExactly(specs: seq<ChainSpec>, rings: seq<DeadlineRing>, readings: seq<int>)
    requires ValidSpecs(specs) && |specs| == |rings| == |readings|
    ensures (forall t :: t in Tracks(specs, rings, readings) ==> OwnEntries(t.line.c))
       <==> (|specs| > 1 ==> readings[0] == readings[1] && specs[0].deadline == specs[1].deadline)
  {
    var ts := Tracks(specs, rings, readings);
    if |specs| > 1 {
      assert ts[0] in ts && ts[1] in ts;
    }
  }

  /** When the fed chain's ring suffices: as long as the wait set reports the callbacks
      of the chains in turn and in time, every round of the experiment is earliest
      deadline first by the instances' queued deadlines, across all chains. */
  method RunEarliest(specs: seq<ChainSpec>, readings: seq<int>, groups: seq<CallbackGroup>,
                     groupOf: map<Handle, Group>, inputs: seq<Input>)
    returns (strategy: PriorityMemoryStrategy, rings: seq<DeadlineRing>, handed: seq<Option<Handle>>)
    requires ValidSpecs(specs) && |readings| == |specs| && FedRingSuffices(specs)
    requires GroupsKnown(groups, groupOf) && forall n :: 0 <= n < |inputs| ==> Possible(inputs[n])
    ensures |rings| == |specs| && |handed| == |inputs| && strategy.Valid()
    ensures strategy.CanRun(PeerOf(rings))
    ensures Promise(strategy.Snapshot(), true, PeerOf(rings), Tracks(specs, rings, readings), groups, handed, inputs)
  {
    hide Follows, Ready, ValidSpecs, Stage, PriorityMemoryStrategy.Snapshot, Promise, OnTrack;
    strategy, rings := SetUp(specs, readings);
    ghost var peer, tracks := PeerOf(rings), Tracks(specs, rings, readings);
    AllFollow(strategy.Snapshot(), specs, rings, readings);
    AllOnTrack(specs, rings, readings);
    handed := EarliestSpin(strategy, groups, groupOf, inputs, peer, tracks);
  }
}
