/** How the experiment sets up its chains: rings, callbacks and first releases.
    Chain 1 has no timer of its own; it is fed by chain 0's. */
module Setup {
  import opened Arithmetic
  import opened Options
  import opened SlotTable
  import opened Executable
  import opened Charging
  import opened Fleets
  import opened Strategy
  import Chain

  /** Period, relative deadline and callbacks of a chain, the timer first. Of chain
      1 the first handle is not used. */
  datatype ChainSpec = ChainSpec(period: nat, deadline: nat, handles: seq<Handle>) {
    function Slots(): (n: nat)
      requires period > 0 && deadline > 0
      ensures n > 0
    {
      CeilDiv(deadline, period)
    }
  }

  /** Chain j has a callback b of its own. */
  predicate Own(specs: seq<ChainSpec>, j: nat, b: nat) {
    j < |specs| && b < |specs[j].handles| && !(j == 1 && b == 0)
  }

  /** What the program needs of its tables: every chain has a timer and a last
      callback, entities differ, and chain 0's timer never indexes outside chain 1's
      ring. */
  ghost predicate ValidSpecs(specs: seq<ChainSpec>) {
    && specs != []
    && (forall j :: 0 <= j < |specs| ==>
          specs[j].period > 0 && specs[j].deadline > 0 && |specs[j].handles| >= 2)
    && (forall j: nat, b: nat, j': nat, b': nat ::
          Own(specs, j, b) && Own(specs, j', b') && specs[j].handles[b] == specs[j'].handles[b'] ==> j == j' && b == b')
    && (|specs| > 1 ==> specs[0].Slots() <= specs[1].Slots())
  }

  /** The settings of callback b of chain j, with this release time. */
  function MemberView(specs: seq<ChainSpec>, j: nat, b: nat, release: int): View
    requires Own(specs, j, b)
  {
    var s := specs[j];
    View(if b == 0 then TIMER else SUBSCRIPTION, DEADLINE, 0, s.period, s.deadline,
         b == 0, b > 0 && b == |s.handles| - 1, j, 0, release, 0, 0)
  }

  /** The release time of chain j's timer after k readings: chain 1's reading goes
      to chain 0's timer. */
  function Release(readings: seq<int>, j: nat, b: nat, k: nat): int
    requires k <= |readings|
  {
    if b > 0 then 0
    else if j == 0 && k > 1 then readings[1]
    else if j < k then readings[j]
    else 0
  }

  function Empty(n: nat): Slots {
    seq(n, s => [])
  }

  /** The contents of chain j's ring after k readings. */
  function Contents(specs: seq<ChainSpec>, readings: seq<int>, j: nat, k: nat): Slots
    requires j < |specs| && k <= |readings| && specs[j].period > 0 && specs[j].deadline > 0
  {
    if j < k then Empty(specs[j].Slots())[0 := [Narrow(readings[j] + specs[j].deadline)]] else Empty(specs[j].Slots())
  }

  /** Callback b of chain j comes before callback m of chain i. */
  predicate Before(j: nat, b: nat, i: nat, m: nat) {
    j < i || (j == i && b < m)
  }

  /** Callback b of chain j is registered with its chain's ring, after k readings. */
  ghost predicate IsSetUp(f: Fleet, specs: seq<ChainSpec>, rings: seq<DeadlineRing>, readings: seq<int>,
                          j: nat, b: nat, k: nat)
    requires Fleets.Valid(f) && ValidSpecs(specs) && k <= |readings| && Own(specs, j, b)
  {
    var h := specs[j].handles[b];
    && j < |rings| && h in f.views
    && f.views[h] == MemberView(specs, j, b, Release(readings, j, b, k))
    && f.rings[h] == rings[j]
    && f.slots[rings[j]] == Contents(specs, readings, j, k)
  }

  /** h is a callback that comes before the given one. */
  ghost predicate IsEarlier(specs: seq<ChainSpec>, i: nat, m: nat, h: Handle) {
    exists j: nat, b: nat :: Own(specs, j, b) && Before(j, b, i, m) && h == specs[j].handles[b]
  }

  /** The callbacks before the given one are registered, the rings of the first k
      chains seeded. */
  ghost predicate Stage(f: Fleet, specs: seq<ChainSpec>, rings: seq<DeadlineRing>, readings: seq<int>,
                        i: nat, m: nat, k: nat)
    requires ValidSpecs(specs) && k <= |readings|
  {
    && Fleets.Valid(f)
    && (forall a, b :: 0 <= a < b < |rings| ==> rings[a] != rings[b])
    && (forall j: nat, b: nat :: Own(specs, j, b) && Before(j, b, i, m) ==>
          IsSetUp(f, specs, rings, readings, j, b, k))
    && (forall h :: h in f.views ==> IsEarlier(specs, i, m, h))
  }

  // ---------- registering ----------

  /** Flags the callback and gives it its chain's ring. */
  method MarkCallback(e: PriorityExecutable, first: bool, last: bool, ring: DeadlineRing)
    requires !e.isFirstInChain && !e.isLastInChain
    modifies e
    ensures ViewOf(e) == old(ViewOf(e)).(first := first, last := last) && e.deadlines == ring
  {
    if first {
      e.isFirstInChain := true;
    }
    e.deadlines := ring;
    if last {
      e.isLastInChain := true;
    }
  }

  lemma NotInMap(strategy: PriorityMemoryStrategy, h: Handle)
    requires h !in strategy.Snapshot().views
    ensures h !in strategy.priorityMap
  {
  }

  method SetUpCallback(strategy: PriorityMemoryStrategy, specs: seq<ChainSpec>, j: nat, b: nat, ring: DeadlineRing)
    requires strategy.Valid() && Own(specs, j, b) && |specs[j].handles| >= 2
    requires specs[j].handles[b] !in strategy.Snapshot().views
    modifies strategy`priorityMap, strategy`allExecutables
    ensures strategy.Valid() && forall h :: h in strategy.priorityMap ==>
      strategy.priorityMap[h] in old(strategy.Executables()) || fresh(strategy.priorityMap[h])
    ensures strategy.Snapshot()
         == Enlist(old(strategy.Snapshot()), specs[j].handles[b], MemberView(specs, j, b, 0), ring, ring.slots)
  {
    hide PriorityMemoryStrategy.Snapshot, PriorityMemoryStrategy.Valid, Enlist, ViewOf;
    NotInMap(strategy, specs[j].handles[b]);
    var s, h := specs[j], specs[j].handles[b];
    var e := strategy.SetExecutableDeadline(h, s.period, s.deadline, if b == 0 then TIMER else SUBSCRIPTION, j);
    MarkCallback(e, b == 0, b > 0 && b == |s.handles| - 1, ring);
    assert h !in old(strategy.priorityMap) && strategy.priorityMap == old(strategy.priorityMap)[h := e];
    assert strategy.Enlists(e) by {
      forall x | x in old(strategy.priorityMap) ensures strategy.priorityMap[x] == old(strategy.priorityMap[x]) != e {
      }
      forall x: DeadlineRing | x in old(strategy.KnownRings()) ensures x.slots == old(x.slots) {
      }
    }
    strategy.SnapshotEnlists(e);
  }

  lemma NotYetSetUp(f: Fleet, specs: seq<ChainSpec>, rings: seq<DeadlineRing>, i: nat, m: nat)
    requires ValidSpecs(specs) && Stage(f, specs, rings, [], i, m, 0) && Own(specs, i, m)
    ensures specs[i].handles[m] !in f.views
  {
  }

  lemma EnlistKeeps(f: Fleet, specs: seq<ChainSpec>, rings: seq<DeadlineRing>, i: nat, m: nat, j: nat, b: nat)
    requires ValidSpecs(specs) && Stage(f, specs, rings, [], i, m, 0) && Own(specs, i, m) && i < |rings|
    requires Own(specs, j, b) && Before(j, b, i, m + 1)
    ensures IsSetUp(Enlist(f, specs[i].handles[m], MemberView(specs, i, m, 0), rings[i], Empty(specs[i].Slots())),
                    specs, rings, [], j, b, 0)
  {
    hide CeilDiv, Empty;
    if Before(j, b, i, m) {
      assert IsSetUp(f, specs, rings, [], j, b, 0);
    }
  }

  lemma EarlierGrows(specs: seq<ChainSpec>, i: nat, m: nat, h: Handle)
    requires Own(specs, i, m) && (IsEarlier(specs, i, m, h) || h == specs[i].handles[m])
    ensures IsEarlier(specs, i, m + 1, h)
  {
    if IsEarlier(specs, i, m, h) {
      var j: nat, b: nat :| Own(specs, j, b) && Before(j, b, i, m) && h == specs[j].handles[b];
      assert Before(j, b, i, m + 1);
    } else {
      assert Before(i, m, i, m + 1);
    }
  }

  lemma StageEnlists(f: Fleet, specs: seq<ChainSpec>, rings: seq<DeadlineRing>, i: nat, m: nat)
    requires ValidSpecs(specs) && Stage(f, specs, rings, [], i, m, 0) && Own(specs, i, m) && i < |rings|
    ensures Stage(Enlist(f, specs[i].handles[m], MemberView(specs, i, m, 0), rings[i], Empty(specs[i].Slots())),
                  specs, rings, [], i, m + 1, 0)
  {
    hide IsSetUp, IsEarlier, ValidSpecs;
    SpecSize(specs, i);
    var f' := Enlist(f, specs[i].handles[m], MemberView(specs, i, m, 0), rings[i], Empty(specs[i].Slots()));
    forall j: nat, b: nat | Own(specs, j, b) && Before(j, b, i, m + 1)
      ensures IsSetUp(f', specs, rings, [], j, b, 0)
    {
      EnlistKeeps(f, specs, rings, i, m, j, b);
    }
    forall h | h in f'.views ensures IsEarlier(specs, i, m + 1, h) {
      EarlierGrows(specs, i, m, h);
    }
  }

  /** Between the last callback of one chain and the first own one of the next. */
  lemma StageMovesOn(f: Fleet, specs: seq<ChainSpec>, rings: seq<DeadlineRing>, readings: seq<int>,
                     i: nat, m: nat, i': nat, m': nat, k: nat)
    requires ValidSpecs(specs) && k <= |readings| && Stage(f, specs, rings, readings, i, m, k)
    requires forall j: nat, b: nat :: Own(specs, j, b) ==> (Before(j, b, i, m) <==> Before(j, b, i', m'))
    ensures Stage(f, specs, rings, readings, i', m', k)
  {
    forall h | h in f.views ensures IsEarlier(specs, i', m', h) {
      assert IsEarlier(specs, i, m, h);
      var j: nat, b: nat :| Own(specs, j, b) && Before(j, b, i, m) && h == specs[j].handles[b];
      assert Before(j, b, i', m');
    }
  }

  /** The callbacks of chain i, from the first of its own. */
  method SetUpCallbacks(strategy: PriorityMemoryStrategy, specs: seq<ChainSpec>, ghost rings: seq<DeadlineRing>, i: nat,
                        ring: DeadlineRing)
    requires strategy.Valid() && ValidSpecs(specs) && i < |specs| && |rings| == i + 1 && rings[i] == ring
    requires Stage(strategy.Snapshot(), specs, rings, [], i, 0, 0) && ring.slots == Empty(specs[i].Slots())
    modifies strategy`priorityMap, strategy`allExecutables
    ensures strategy.Valid() && forall h :: h in strategy.priorityMap ==>
      strategy.priorityMap[h] in old(strategy.Executables()) || fresh(strategy.priorityMap[h])
    ensures Stage(strategy.Snapshot(), specs, rings, [], i + 1, 0, 0)
  {
    hide Stage, ValidSpecs, PriorityMemoryStrategy.Valid, PriorityMemoryStrategy.Snapshot, Enlist, MemberView, Empty;
    var m := if i == 1 then 1 else 0;
    StageMovesOn(strategy.Snapshot(), specs, rings, [], i, 0, i, m, 0);
    SpecSize(specs, i);
    while m < |specs[i].handles|
      invariant 0 <= m <= |specs[i].handles| && (i == 1 ==> m > 0)
      invariant strategy.Valid() && forall h :: h in strategy.priorityMap ==>
        strategy.priorityMap[h] in old(strategy.Executables()) || fresh(strategy.priorityMap[h])
      invariant Stage(strategy.Snapshot(), specs, rings, [], i, m, 0) && ring.slots == Empty(specs[i].Slots())
    {
      NotYetSetUp(strategy.Snapshot(), specs, rings, i, m);
      StageEnlists(strategy.Snapshot(), specs, rings, i, m);
      SetUpCallback(strategy, specs, i, m, ring);
      m := m + 1;
    }
    StageMovesOn(strategy.Snapshot(), specs, rings, [], i, m, i + 1, 0, 0);
  }

  lemma SpecSize(specs: seq<ChainSpec>, i: nat)
    requires ValidSpecs(specs) && i < |specs|
    ensures |specs[i].handles| >= 2 && specs[i].period > 0 && specs[i].deadline > 0
  {
  }

  lemma StageNewRing(f: Fleet, specs: seq<ChainSpec>, rings: seq<DeadlineRing>, i: nat, ring: DeadlineRing)
    requires ValidSpecs(specs) && Stage(f, specs, rings, [], i, 0, 0) && ring !in rings
    ensures Stage(f, specs, rings + [ring], [], i, 0, 0)
  {
    assert forall a :: 0 <= a < |rings| ==> (rings + [ring])[a] == rings[a] && rings[a] in rings;
    forall j: nat, b: nat | Own(specs, j, b) && Before(j, b, i, 0)
      ensures IsSetUp(f, specs, rings + [ring], [], j, b, 0)
    {
      assert IsSetUp(f, specs, rings, [], j, b, 0);
    }
  }

  // ---------- laying out all chains ----------

  /** Chain i's ring and callbacks. */
  method LayOutOne(strategy: PriorityMemoryStrategy, specs: seq<ChainSpec>, rings: seq<DeadlineRing>)
    returns (ring: DeadlineRing)
    requires strategy.Valid() && ValidSpecs(specs) && |rings| < |specs|
    requires Stage(strategy.Snapshot(), specs, rings, [], |rings|, 0, 0)
    modifies strategy`priorityMap, strategy`allExecutables
    ensures strategy.Valid() && fresh(ring) && forall h :: h in strategy.priorityMap ==>
      strategy.priorityMap[h] in old(strategy.Executables()) || fresh(strategy.priorityMap[h])
    ensures Stage(strategy.Snapshot(), specs, rings + [ring], [], |rings| + 1, 0, 0)
  {
    hide Stage, ValidSpecs, PriorityMemoryStrategy.Valid;
    var i: nat := |rings|;
    SpecSize(specs, i);
    ghost var f := strategy.Snapshot();
    ring := new DeadlineRing(CeilDiv(specs[i].deadline, specs[i].period));
    assert strategy.Snapshot() == f;
    StageNewRing(f, specs, rings, i, ring);
    SetUpCallbacks(strategy, specs, rings + [ring], i, ring);
  }

  lemma NothingSetUp(strategy: PriorityMemoryStrategy, specs: seq<ChainSpec>)
    requires ValidSpecs(specs) && strategy.priorityMap == map[]
    ensures Stage(strategy.Snapshot(), specs, [], [], 0, 0, 0)
  {
    assert strategy.Snapshot().views == map[];
  }

  method LayOut(strategy: PriorityMemoryStrategy, specs: seq<ChainSpec>) returns (rings: seq<DeadlineRing>)
    requires strategy.Valid() && ValidSpecs(specs) && strategy.priorityMap == map[]
    modifies strategy`priorityMap, strategy`allExecutables
    ensures strategy.Valid() && (forall h :: h in strategy.priorityMap ==> fresh(strategy.priorityMap[h]))
    ensures |rings| == |specs| && (forall x :: x in rings ==> fresh(x))
    ensures Stage(strategy.Snapshot(), specs, rings, [], |specs|, 0, 0)
  {
    hide Stage, ValidSpecs, PriorityMemoryStrategy.Snapshot, PriorityMemoryStrategy.Valid;
    rings := [];
    NothingSetUp(strategy, specs);
    while |rings| < |specs|
      invariant |rings| <= |specs|
      invariant strategy.Valid() && (forall h :: h in strategy.priorityMap ==> fresh(strategy.priorityMap[h]))
      invariant forall x :: x in rings ==> fresh(x)
      invariant Stage(strategy.Snapshot(), specs, rings, [], |rings|, 0, 0)
    {
      var ring := LayOutOne(strategy, specs, rings);
      rings := rings + [ring];
    }
  }

  // ---------- the first releases ----------

  /** Chain k's first release: it goes to chain k's timer, chain 1's to chain 0's,
      and its deadline into slot 0 of chain k's ring. */
  ghost function Seed(f: Fleet, specs: seq<ChainSpec>, rings: seq<DeadlineRing>, k: nat, reading: int): Fleet
    requires k < |specs| == |rings| && Own(specs, TimerOf(k), 0) && specs[TimerOf(k)].handles[0] in f.views
    requires rings[k] in f.slots && |f.slots[rings[k]]| > 0
  {
    WithPush(WithRelease(f, specs[TimerOf(k)].handles[0], reading), rings[k], 0, Narrow(reading + specs[k].deadline))
  }

  function TimerOf(k: nat): nat {
    if k == 1 then 0 else k
  }

  /** The first push into an empty ring. */
  lemma SeedSlot(specs: seq<ChainSpec>, readings: seq<int>, k: nat)
    requires ValidSpecs(specs) && k < |specs| && k < |readings|
    ensures PushAt(Contents(specs, readings, k, k), 0, Narrow(readings[k] + specs[k].deadline))
         == Contents(specs, readings, k, k + 1)
  {
    var empty: seq<nat> := [];
    var entry := Narrow(readings[k] + specs[k].deadline);
    assert empty + [entry] == [entry];
  }

  lemma AllSetUp(f: Fleet, specs: seq<ChainSpec>, rings: seq<DeadlineRing>, readings: seq<int>, k: nat, j: nat, b: nat)
    requires ValidSpecs(specs) && k <= |readings| && Stage(f, specs, rings, readings, |specs|, 0, k)
    requires Own(specs, j, b)
    ensures IsSetUp(f, specs, rings, readings, j, b, k)
  {
  }

  /** What reading k needs of the timer it goes to and of its chain's ring. */
  ghost predicate CanSeed(f: Fleet, specs: seq<ChainSpec>, rings: seq<DeadlineRing>, readings: seq<int>, k: nat)
    requires Fleets.Valid(f) && ValidSpecs(specs) && k < |specs| == |rings| && k < |readings|
  {
    && Own(specs, TimerOf(k), 0) && IsSetUp(f, specs, rings, readings, TimerOf(k), 0, k)
    && Own(specs, k, 1) && IsSetUp(f, specs, rings, readings, k, 1, k)
    && (forall a, b :: 0 <= a < b < |rings| ==> rings[a] != rings[b])
  }

  lemma SeedKeeps(f: Fleet, specs: seq<ChainSpec>, rings: seq<DeadlineRing>, readings: seq<int>, k: nat, j: nat, b: nat)
    requires Fleets.Valid(f) && ValidSpecs(specs) && k < |specs| == |rings| && k < |readings|
    requires CanSeed(f, specs, rings, readings, k) && Own(specs, j, b) && IsSetUp(f, specs, rings, readings, j, b, k)
    ensures IsSetUp(Seed(f, specs, rings, k, readings[k]), specs, rings, readings, j, b, k + 1)
  {
    SeedSlot(specs, readings, k);
    var f' := Seed(f, specs, rings, k, readings[k]);
    if j == k {
      assert f'.slots[rings[j]] == Contents(specs, readings, j, k + 1);
    } else {
      assert rings[j] != rings[k];
    }
    assert j == TimerOf(k) && b == 0 <==> specs[j].handles[b] == specs[TimerOf(k)].handles[0];
  }

  lemma StageSeeds(f: Fleet, specs: seq<ChainSpec>, rings: seq<DeadlineRing>, readings: seq<int>, k: nat)
    requires ValidSpecs(specs) && k < |specs| == |rings| && k < |readings|
    requires Stage(f, specs, rings, readings, |specs|, 0, k)
    ensures CanSeed(f, specs, rings, readings, k)
    ensures Stage(Seed(f, specs, rings, k, readings[k]), specs, rings, readings, |specs|, 0, k + 1)
  {
    hide IsSetUp, IsEarlier, Seed;
    SpecSize(specs, k);
    SpecSize(specs, TimerOf(k));
    AllSetUp(f, specs, rings, readings, k, TimerOf(k), 0);
    AllSetUp(f, specs, rings, readings, k, k, 1);
    SeedIsValid(f, specs, rings, readings, k);
    forall j: nat, b: nat | Own(specs, j, b)
      ensures IsSetUp(Seed(f, specs, rings, k, readings[k]), specs, rings, readings, j, b, k + 1)
    {
      AllSetUp(f, specs, rings, readings, k, j, b);
      SeedKeeps(f, specs, rings, readings, k, j, b);
    }
  }

  lemma SeedIsValid(f: Fleet, specs: seq<ChainSpec>, rings: seq<DeadlineRing>, readings: seq<int>, k: nat)
    requires Fleets.Valid(f) && ValidSpecs(specs) && k < |specs| == |rings| && k < |readings|
    requires CanSeed(f, specs, rings, readings, k)
    ensures rings[k] in f.slots && |f.slots[rings[k]]| > 0
    ensures Fleets.Valid(Seed(f, specs, rings, k, readings[k]))
    ensures Seed(f, specs, rings, k, readings[k]).views.Keys == f.views.Keys
  {
  }

  lemma TimerSetUp(strategy: PriorityMemoryStrategy, specs: seq<ChainSpec>, rings: seq<DeadlineRing>,
                   readings: seq<int>, k: nat)
    requires strategy.Valid() && ValidSpecs(specs) && k < |specs| == |rings| && k < |readings|
    requires CanSeed(strategy.Snapshot(), specs, rings, readings, k)
    ensures Own(specs, TimerOf(k), 0) && specs[TimerOf(k)].handles[0] in strategy.priorityMap
    ensures specs[TimerOf(k)].handles[0] in strategy.Snapshot().views
    ensures rings[k] in strategy.Snapshot().slots && |strategy.Snapshot().slots[rings[k]]| > 0
  {
  }

  lemma SeedSteps(f: Fleet, specs: seq<ChainSpec>, rings: seq<DeadlineRing>, k: nat, reading: int)
    requires k < |specs| == |rings| && Own(specs, TimerOf(k), 0) && specs[TimerOf(k)].handles[0] in f.views
    requires rings[k] in f.slots && |f.slots[rings[k]]| > 0
    ensures WithRelease(f, specs[TimerOf(k)].handles[0], reading).slots == f.slots
    ensures Seed(f, specs, rings, k, reading)
         == WithPush(WithRelease(f, specs[TimerOf(k)].handles[0], reading), rings[k], 0,
                     Narrow(reading + specs[k].deadline))
  {
  }

  method SeedChain(strategy: PriorityMemoryStrategy, specs: seq<ChainSpec>, rings: seq<DeadlineRing>,
                   ghost readings: seq<int>, k: nat, reading: int)
    requires strategy.Valid() && ValidSpecs(specs) && k < |specs| == |rings| && k < |readings| && readings[k] == reading
    requires CanSeed(strategy.Snapshot(), specs, rings, readings, k)
    modifies strategy.Executables()`releaseTime, rings[k]
    ensures strategy.Snapshot() == Seed(old(strategy.Snapshot()), specs, rings, k, reading)
  {
    hide *;
    TimerSetUp(strategy, specs, rings, readings, k);
    SeedSteps(strategy.Snapshot(), specs, rings, k, reading);
    strategy.AssignReleaseTime(specs[TimerOf(k)].handles[0], reading);
    strategy.PushDeadline(rings[k], 0, Narrow(reading + specs[k].deadline));
  }

  method SeedAll(strategy: PriorityMemoryStrategy, specs: seq<ChainSpec>, rings: seq<DeadlineRing>, readings: seq<int>)
    requires strategy.Valid() && ValidSpecs(specs) && |specs| == |rings| == |readings|
    requires Stage(strategy.Snapshot(), specs, rings, readings, |specs|, 0, 0)
    modifies strategy.Executables(), rings
    ensures Stage(strategy.Snapshot(), specs, rings, readings, |specs|, 0, |specs|)
  {
    hide Stage, ValidSpecs, CanSeed, Seed;
    var k := 0;
    while k < |specs|
      invariant 0 <= k <= |specs|
      invariant Stage(strategy.Snapshot(), specs, rings, readings, |specs|, 0, k)
    {
      StageSeeds(strategy.Snapshot(), specs, rings, readings, k);
      SeedChain(strategy, specs, rings, readings, k, readings[k]);
      k := k + 1;
    }
  }
}
