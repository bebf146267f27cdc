/** The bookkeeping of handing out an executable, as a function of its settings
    and of the rings it touches, and how it is a take of a chain. */
module Charging {
  import opened Arithmetic
  import opened Options
  import opened SlotTable
  import opened Executable
  import ReleaseClock
  import Chain

  /** The settings and counters of an executable, as a value. */
  datatype View = View(kind: ExecutableType, schedule: ScheduleType, priority: int, period: int, deadline: int,
                       first: bool, last: bool, chainId: int, index: nat, release: int, counter: int, sum: int)

  function ViewOf(e: PriorityExecutable): View
    reads e`isFirstInChain, e`isLastInChain, e`chainId, e`curIndex, e`releaseTime, e`counter, e`sum
  {
    View(e.kind, e.schedule, e.priority, e.period, e.deadline, e.isFirstInChain, e.isLastInChain,
         e.chainId, e.curIndex, e.releaseTime, e.counter, e.sum)
  }

  predicate HasSlots(v: View) {
    v.period > 0 && v.deadline > 0
  }

  function SlotCount(v: View): (n: nat)
    requires HasSlots(v)
    ensures n > 0
  {
    CeilDiv(v.deadline, v.period)
  }

  /** A deadline callback's period and deadline are positive and its index is in
      its ring. */
  predicate ValidView(v: View) {
    v.schedule == DEADLINE ==> HasSlots(v) && v.index < SlotCount(v)
  }

  predicate AtChainEnd(v: View) {
    v.schedule == DEADLINE && (v.first || v.last)
  }

  predicate Pushes(v: View) {
    v.schedule == DEADLINE && v.first
  }

  function NextRelease(v: View, now: int): int
    requires ValidView(v)
  {
    if Pushes(v) then ReleaseClock.Next(v.release, v.period, now) else v.release
  }

  /** The executable after it was handed out at time now. */
  function Charge(v: View, now: int): View
    requires ValidView(v)
  {
    v.(sum := v.sum + 1,
       release := NextRelease(v, now),
       index := if v.schedule == DEADLINE then (v.index + 1) % SlotCount(v) else v.index,
       counter := if v.schedule == DEADLINE || v.schedule == CHAIN_AWARE_PRIORITY then v.counter + 1 else v.counter)
  }

  /** v' is v after it was handed out n times: it has counted them, its settings are
      the same, only deadline callbacks have an index that moves, only the first of a
      chain a clock that does. */
  predicate Aged(v: View, v': View, n: nat) {
    && v'.sum == v.sum + n
    && (v.schedule == DEADLINE || v.schedule == CHAIN_AWARE_PRIORITY ==> v'.counter == v.counter + n)
    && (v.schedule == CHAIN_INDEPENDENT_PRIORITY || v.schedule == DEFAULT ==> v'.counter == v.counter)
    && v'.kind == v.kind && v'.schedule == v.schedule && v'.priority == v.priority && v'.chainId == v.chainId
    && v'.period == v.period && v'.deadline == v.deadline && v'.first == v.first && v'.last == v.last
    && (v.schedule != DEADLINE ==> v'.index == v.index)
    && (v.schedule != DEADLINE || !v.first ==> v'.release == v.release)
  }

  lemma ChargeAges(v: View, v': View, n: nat, now: int)
    requires ValidView(v') && Aged(v, v', n)
    ensures Aged(v, Charge(v', now), n + 1)
  {
  }

  /** What the timer pushes. */
  function Pushed(v: View, now: int): Option<nat>
    requires ValidView(v)
  {
    if Pushes(v) then Some(Narrow(NextRelease(v, now) + v.deadline)) else None
  }

  /** The ring of its chain after that. */
  function ChargeRing(v: View, slots: Slots, now: int): (slots': Slots)
    requires ValidView(v) && (AtChainEnd(v) ==> SlotCount(v) <= |slots|)
    ensures |slots'| == |slots|
  {
    if AtChainEnd(v) then MoveRing(slots, v.index, SlotCount(v), Pushed(v, now), v.last) else slots
  }

  /** A ring into which the timer's push is mirrored. */
  function MirrorRing(v: View, slots: Slots, now: int): (slots': Slots)
    requires ValidView(v) && Pushes(v) && SlotCount(v) <= |slots|
    ensures |slots'| == |slots|
  {
    MoveRing(slots, v.index, SlotCount(v), Pushed(v, now), false)
  }

  // ---------- as a callback of a chain ----------

  /** What e's settings must be as callback b of the chain. */
  predicate IsCallback(c: Chain.Config, v: View, b: nat)
    requires Chain.ValidConfig(c)
  {
    && v.schedule == DEADLINE && HasSlots(v)
    && v.index < SlotCount(v) == c.TurnOf(b)
    && (b == 0 ==> v.first && v.period == c.period && v.deadline == c.push)
    && (b == 0 && !c.fed ==> (v.last <==> c.callbacks == 1))
    && (b > 0 ==> !v.first && v.deadline == c.deadline && (v.last <==> b == c.callbacks - 1))
  }

  /** The state of a chain whose callbacks look like this. */
  function StateOf(views: seq<View>, slots: Slots): (s: Chain.State)
    requires views != []
    ensures s.slots == slots && s.release == views[0].release && |s.cur| == |views|
    ensures forall b :: 0 <= b < |views| ==> s.cur[b] == views[b].index
  {
    Chain.State(slots, views[0].release, seq(|views|, b requires 0 <= b < |views| => views[b].index))
  }

  predicate AreCallbacks(c: Chain.Config, views: seq<View>, slots: Slots) {
    && Chain.ValidConfig(c) && |views| == c.callbacks && |slots| == c.ring
    && forall b :: 0 <= b < |views| ==> IsCallback(c, views[b], b)
  }

  /** The chain's ring after callback b was handed out. */
  function RingAfter(c: Chain.Config, v: View, b: nat, slots: Slots, now: int): Slots
    requires Chain.ValidConfig(c) && IsCallback(c, v, b) && |slots| == c.ring
  {
    if b == 0 && c.fed then MirrorRing(v, slots, now) else ChargeRing(v, slots, now)
  }

  /** Charging one callback's settings and the ring, and nothing else, is the chain's
      take of that callback. */
  lemma ChargeIsTake(c: Chain.Config, views: seq<View>, slots: Slots, b: nat, now: int)
    requires AreCallbacks(c, views, slots) && b < |views|
    ensures AreCallbacks(c, views[b := Charge(views[b], now)], RingAfter(c, views[b], b, slots, now))
    ensures Chain.ValidState(c, StateOf(views, slots))
    ensures StateOf(views[b := Charge(views[b], now)], RingAfter(c, views[b], b, slots, now))
         == Chain.After(c, StateOf(views, slots), Chain.Take(b, now))
  {
    var views' := views[b := Charge(views[b], now)];
    var slots' := RingAfter(c, views[b], b, slots, now);
    var s' := Chain.After(c, StateOf(views, slots), Chain.Take(b, now));
    assert StateOf(views', slots').cur == s'.cur;
    assert slots' == s'.slots;
  }
}
