/** The memory strategy: a round clears, collects, filters by the wait set and
    hands out the best entry. */
module Strategy {
  import opened Options
  import opened SlotTable
  import opened Executable
  import opened Charging
  import opened Fleets
  import opened Arithmetic
  import Heap = ExecutableHeap
  import ReleaseClock
  import Protocol

  type Group = Protocol.Group

  /** A callback group and the handles of its entities. */
  datatype CallbackGroup = CallbackGroup(id: Group, subscriptions: seq<Handle>, services: seq<Handle>,
                                         clients: seq<Handle>, timers: seq<Handle>)
  {
    function Of(kind: ExecutableType): seq<Handle> {
      match kind
      case SUBSCRIPTION => subscriptions
      case SERVICE => services
      case CLIENT => clients
      case TIMER => timers
    }

    predicate Lists(h: Handle) {
      h in subscriptions || h in services || h in clients || h in timers
    }

    /** Subscriptions and services are collected only if they were configured. */
    predicate Offers(h: Handle, known: set<Handle>) {
      h in clients || h in timers || ((h in subscriptions || h in services) && h in known)
    }
  }

  class PriorityMemoryStrategy {
    var priorityMap: map<Handle, PriorityExecutable>
    var subscriptionHandles: seq<Handle>
    var serviceHandles: seq<Handle>
    var clientHandles: seq<Handle>
    var timerHandles: seq<Handle>
    var allExecutables: seq<PriorityExecutable>
    var isF1tenth: bool

    constructor ()
      ensures Valid() && priorityMap == map[] && NothingCollected() && !isF1tenth
    {
      priorityMap, allExecutables, isF1tenth := map[], [], false;
      subscriptionHandles, serviceHandles, clientHandles, timerHandles := [], [], [], [];
    }

    /** h is in this round's handle vector of one kind. */
    predicate InVector(kind: ExecutableType, h: Handle)
      reads this`subscriptionHandles, this`serviceHandles, this`clientHandles, this`timerHandles
    {
      match kind
      case SUBSCRIPTION => h in subscriptionHandles
      case SERVICE => h in serviceHandles
      case CLIENT => h in clientHandles
      case TIMER => h in timerHandles
    }

    /** h is in one of this round's four handle vectors. */
    predicate IsCollected(h: Handle)
      reads this`subscriptionHandles, this`serviceHandles, this`clientHandles, this`timerHandles
    {
      h in subscriptionHandles || h in serviceHandles || h in clientHandles || h in timerHandles
    }

    ghost predicate NothingCollected()
      reads this
    {
      allExecutables == [] && forall h :: !IsCollected(h)
    }

    /** Every handle maps to its own executable, and the queue holds executables
        of the map. */
    ghost predicate Valid()
      reads this`priorityMap, this`allExecutables
    {
      && (forall h :: h in priorityMap ==> priorityMap[h].handle == h)
      && (forall e :: e in allExecutables ==> e.handle in priorityMap && priorityMap[e.handle] == e)
    }

    /** The queue holds exactly the collected handles' executables. */
    ghost predicate QueueIsCollected()
      reads this
    {
      && (forall e :: e in allExecutables ==> IsCollected(e.handle))
      && (forall h :: IsCollected(h) ==> h in priorityMap && priorityMap[h] in allExecutables)
    }

    method ClearHandles()
      modifies this`subscriptionHandles, this`serviceHandles, this`clientHandles, this`timerHandles, this`allExecutables
      ensures NothingCollected()
    {
      subscriptionHandles, serviceHandles, clientHandles, timerHandles := [], [], [], [];
      allExecutables := [];
    }

    /** The settings of h, created with defaults when there are none. */
    method GetAndResetPriority(h: Handle, kind: ExecutableType) returns (e: PriorityExecutable)
      requires Valid()
      modifies this`priorityMap
      ensures Valid() && h in priorityMap && priorityMap[h] == e
      ensures h in old(priorityMap) ==> priorityMap == old(priorityMap)
      ensures h !in old(priorityMap) ==> priorityMap == old(priorityMap)[h := e] && fresh(e) && Unconfigured(e)
      ensures h !in old(priorityMap) ==> e.kind == kind
    {
      if h !in priorityMap {
        var created := new PriorityExecutable(h, kind);
        priorityMap := priorityMap[h := created];
      }
      e := priorityMap[h];
    }

    // ---------- configuration ----------

    /** Registers a deadline callback. Settings that the handle had before are
        replaced wherever they were, in the queue as well. */
    method SetExecutableDeadline(h: Handle, period: int, deadline: int, kind: ExecutableType, chainId: int)
      returns (e: PriorityExecutable)
      requires Valid()
      modifies this`priorityMap, this`allExecutables
      ensures Valid() && priorityMap == old(priorityMap)[h := e]
      ensures |allExecutables| == |old(allExecutables)|
      ensures forall i :: 0 <= i < |allExecutables| ==>
        allExecutables[i] == if old(allExecutables[i]).handle == h then e else old(allExecutables[i])
      ensures fresh(e) && ViewOf(e) == View(kind, DEADLINE, 0, period, deadline, false, false, chainId, 0, 0, 0, 0)
      ensures e.handle == h && e.kind == kind && e.deadlines == null && !e.isFirstInChain && !e.isLastInChain
    {
      e := new PriorityExecutable.WithDeadline(h, period, deadline, kind, chainId);
      priorityMap := priorityMap[h := e];
      allExecutables := seq(|allExecutables|, i requires 0 <= i < |allExecutables| reads this =>
        if allExecutables[i].handle == h then e else allExecutables[i]);
    }

    // ---------- collection ----------

    /** Entries known before keep their executables; new ones are unconfigured. */
    twostate predicate MapGrows()
      reads this`priorityMap, priorityMap.Values`counter, priorityMap.Values`deadlines, priorityMap.Values`chainId
    {
      && (forall h :: h in old(priorityMap) ==> h in priorityMap && priorityMap[h] == old(priorityMap[h]))
      && (forall h :: h in priorityMap && h !in old(priorityMap) ==>
            fresh(priorityMap[h]) && Unconfigured(priorityMap[h]))
    }

    method CollectOne(h: Handle, kind: ExecutableType)
      requires Valid() && Heap.Ordered(allExecutables)
      modifies this`priorityMap, this`allExecutables
      ensures Valid() && Heap.Ordered(allExecutables) && MapGrows()
      ensures forall x :: x in priorityMap <==> x in old(priorityMap) || x == h
      ensures forall x :: x in allExecutables <==> x in old(allExecutables) || x == priorityMap[h]
    {
      var e := GetAndResetPriority(h, kind);
      allExecutables := Heap.Push(allExecutables, e);
    }

    /** Pushes the executables of these handles; a subscription or service that was
        never configured is passed over. */
    method CollectHandles(hs: seq<Handle>, kind: ExecutableType) returns (got: seq<Handle>)
      requires Valid() && Heap.Ordered(allExecutables)
      modifies this`priorityMap, this`allExecutables
      ensures Valid() && Heap.Ordered(allExecutables) && MapGrows()
      ensures forall e :: e in old(allExecutables) ==> e in allExecutables
      ensures forall e :: e in allExecutables ==> e in old(allExecutables) || e.handle in got
      ensures forall h :: h in got ==> h in priorityMap && priorityMap[h] in allExecutables
      ensures forall h :: h in got <==> h in hs && IsTaken(kind, h, old(priorityMap).Keys)
      ensures forall h :: h in priorityMap ==> h in old(priorityMap) || h in got
    {
      got := [];
      var i := 0;
      while i < |hs|
        invariant 0 <= i <= |hs|
        invariant Valid() && Heap.Ordered(allExecutables) && MapGrows()
        invariant forall e :: e in old(allExecutables) ==> e in allExecutables
        invariant forall e :: e in allExecutables ==> e in old(allExecutables) || e.handle in got
        invariant forall h :: h in got ==> h in priorityMap && priorityMap[h] in allExecutables
        invariant forall h :: h in got <==> h in hs[..i] && IsTaken(kind, h, old(priorityMap).Keys)
        invariant forall h :: h in priorityMap ==> h in old(priorityMap) || h in got
      {
        if hs[i] in priorityMap || kind == CLIENT || kind == TIMER {
          CollectOne(hs[i], kind);
          got := got + [hs[i]];
        }
        i := i + 1;
      }
    }

    method AddHandles(got: seq<Handle>, kind: ExecutableType)
      modifies this`subscriptionHandles, this`serviceHandles, this`clientHandles, this`timerHandles
      ensures forall k, h :: InVector(k, h) <==> old(InVector(k, h)) || (k == kind && h in got)
      ensures forall h :: IsCollected(h) <==> old(IsCollected(h)) || h in got
    {
      match kind {
        case SUBSCRIPTION => subscriptionHandles := subscriptionHandles + got;
        case SERVICE => serviceHandles := serviceHandles + got;
        case CLIENT => clientHandles := clientHandles + got;
        case TIMER => timerHandles := timerHandles + got;
      }
      forall k, h ensures InVector(k, h) <==> old(InVector(k, h)) || (k == kind && h in got) {
        assert k == SUBSCRIPTION || k == SERVICE || k == CLIENT || k == TIMER;
      }
    }

    /** One kind of a group's entities goes into its handle vector and the queue. */
    method CollectKind(g: CallbackGroup, kind: ExecutableType)
      requires Valid() && Heap.Ordered(allExecutables) && QueueIsCollected()
      modifies this`priorityMap, this`allExecutables
      modifies this`subscriptionHandles, this`serviceHandles, this`clientHandles, this`timerHandles
      ensures Valid() && Heap.Ordered(allExecutables) && QueueIsCollected() && MapGrows()
      ensures forall h :: IsCollected(h) <==>
        old(IsCollected(h)) || (h in g.Of(kind) && IsTaken(kind, h, old(priorityMap).Keys))
      ensures forall k, h :: InVector(k, h) <==>
        old(InVector(k, h)) || (k == kind && h in g.Of(kind) && IsTaken(kind, h, old(priorityMap).Keys))
      ensures forall h :: h in priorityMap ==> h in old(priorityMap) || IsCollected(h)
    {
      hide Unconfigured, KeyOf, Less, InVector;
      var got := CollectHandles(g.Of(kind), kind);
      AddHandles(got, kind);
    }

    method CollectTwoKinds(g: CallbackGroup, kind: ExecutableType, next: ExecutableType)
      requires Valid() && Heap.Ordered(allExecutables) && QueueIsCollected() && kind != next
      modifies this`priorityMap, this`allExecutables
      modifies this`subscriptionHandles, this`serviceHandles, this`clientHandles, this`timerHandles
      ensures Valid() && Heap.Ordered(allExecutables) && QueueIsCollected() && MapGrows()
      ensures forall h :: IsCollected(h) <==>
        || old(IsCollected(h)) || (h in g.Of(kind) && IsTaken(kind, h, old(priorityMap).Keys))
        || (h in g.Of(next) && IsTaken(next, h, old(priorityMap).Keys))
      ensures AddsOnly(g, {kind, next}) && AddsAll(g, {kind, next})
      ensures forall h :: h in priorityMap ==> h in old(priorityMap) || IsCollected(h)
    {
      hide Heap.Ordered, Valid, QueueIsCollected, IsCollected, InVector;
      CollectKind(g, kind);
      CollectKind(g, next);
    }

    /** The vectors gained only what the group lists under one of these kinds. */
    twostate predicate AddsOnly(g: CallbackGroup, kinds: set<ExecutableType>)
      reads this`subscriptionHandles, this`serviceHandles, this`clientHandles, this`timerHandles
    {
      forall k, h :: InVector(k, h) ==> old(InVector(k, h)) || (k in kinds && h in g.Of(k))
    }

    /** They lost nothing, and gained what the group lists and is not passed over. */
    twostate predicate AddsAll(g: CallbackGroup, kinds: set<ExecutableType>)
      reads this`subscriptionHandles, this`serviceHandles, this`clientHandles, this`timerHandles
    {
      forall k, h :: old(InVector(k, h)) || (k in kinds && h in g.Of(k) && IsTaken(k, h, old(priorityMap).Keys)) ==>
        InVector(k, h)
    }

    /** One group's entities, kind by kind. */
    method CollectGroup(g: CallbackGroup)
      requires Valid() && Heap.Ordered(allExecutables) && QueueIsCollected()
      modifies this`priorityMap, this`allExecutables
      modifies this`subscriptionHandles, this`serviceHandles, this`clientHandles, this`timerHandles
      ensures Valid() && Heap.Ordered(allExecutables) && QueueIsCollected() && MapGrows()
      ensures forall h :: IsCollected(h) <==> old(IsCollected(h)) || g.Offers(h, old(priorityMap).Keys)
      ensures AddsOnly(g, {SUBSCRIPTION, SERVICE, CLIENT, TIMER}) && AddsAll(g, {SUBSCRIPTION, SERVICE, CLIENT, TIMER})
      ensures forall h :: h in priorityMap ==> h in old(priorityMap) || IsCollected(h)
    {
      hide Heap.Ordered, Valid, QueueIsCollected, IsCollected, InVector;
      CollectTwoKinds(g, SUBSCRIPTION, SERVICE);
      CollectTwoKinds(g, CLIENT, TIMER);
    }

    /** Collects from the groups that are free at this moment: exactly what they offer,
        each entity in the vector of its kind. */
    method CollectEntities(groups: seq<CallbackGroup>, free: set<Group>)
      requires Valid() && NothingCollected()
      modifies this`priorityMap, this`allExecutables
      modifies this`subscriptionHandles, this`serviceHandles, this`clientHandles, this`timerHandles
      ensures Valid() && Heap.Ordered(allExecutables) && QueueIsCollected() && MapGrows()
      ensures forall h :: IsCollected(h) <==> OfferedBy(groups, free, old(priorityMap).Keys, h)
      ensures forall k, h :: InVector(k, h) ==> ListedAs(groups, free, k, h)
      ensures forall k, h :: ListedAs(groups, free, k, h) && IsTaken(k, h, old(priorityMap).Keys) ==> InVector(k, h)
    {
      forall k, h ensures !InVector(k, h) {
        assert !IsCollected(h);
      }
      var i := 0;
      while i < |groups|
        invariant 0 <= i <= |groups|
        invariant Valid() && Heap.Ordered(allExecutables) && QueueIsCollected() && MapGrows()
        invariant forall h :: IsCollected(h) <==> OfferedBy(groups[..i], free, old(priorityMap).Keys, h)
        invariant forall k, h :: InVector(k, h) ==> ListedAs(groups[..i], free, k, h)
        invariant forall k, h :: ListedAs(groups[..i], free, k, h) && IsTaken(k, h, old(priorityMap).Keys) ==>
          InVector(k, h)
        invariant forall h :: h in priorityMap ==> h in old(priorityMap) || IsCollected(h)
      {
        CollectIfFree(groups, free, i, old(priorityMap).Keys);
        i := i + 1;
      }
      assert groups[..i] == groups;
    }

    /** Collects from one group, if it is free. `known` are the handles known before the
        first group. */
    method CollectIfFree(groups: seq<CallbackGroup>, free: set<Group>, i: nat, ghost known: set<Handle>)
      requires Valid() && Heap.Ordered(allExecutables) && QueueIsCollected() && i < |groups|
      requires forall h :: IsCollected(h) <==> OfferedBy(groups[..i], free, known, h)
      requires forall k, h :: InVector(k, h) ==> ListedAs(groups[..i], free, k, h)
      requires forall k, h :: ListedAs(groups[..i], free, k, h) && IsTaken(k, h, known) ==> InVector(k, h)
      requires known <= priorityMap.Keys && forall h :: h in priorityMap ==> h in known || IsCollected(h)
      modifies this`priorityMap, this`allExecutables
      modifies this`subscriptionHandles, this`serviceHandles, this`clientHandles, this`timerHandles
      ensures Valid() && Heap.Ordered(allExecutables) && QueueIsCollected() && MapGrows()
      ensures forall h :: IsCollected(h) <==> OfferedBy(groups[..i + 1], free, known, h)
      ensures forall k, h :: InVector(k, h) ==> ListedAs(groups[..i + 1], free, k, h)
      ensures forall k, h :: ListedAs(groups[..i + 1], free, k, h) && IsTaken(k, h, known) ==> InVector(k, h)
      ensures forall h :: h in priorityMap ==> h in known || IsCollected(h)
    {
      hide Heap.Ordered, Valid, QueueIsCollected, IsCollected, OfferedBy, ListedAs, InVector;
      OneMoreGroup(groups, free, known, i);
      if groups[i].id in free {
        CollectGroup(groups[i]);
      }
    }

    // ---------- the wait set's answer ----------

    ghost function Executables(): set<PriorityExecutable>
      reads this`priorityMap
    {
      set h | h in priorityMap :: priorityMap[h]
    }

    /** Marks each collected executable with the wait set's answer and drops the
        handles that are not ready. */
    method FilterReady(hs: seq<Handle>, ready: set<Handle>) returns (kept: seq<Handle>)
      requires Valid() && forall h :: h in hs ==> h in priorityMap
      modifies Executables()`canBeRun
      ensures forall h :: h in priorityMap ==>
        priorityMap[h].canBeRun == if h in hs then h in ready else old(priorityMap[h].canBeRun)
      ensures forall h :: h in kept <==> h in hs && h in ready
    {
      kept := [];
      var i := 0;
      while i < |hs|
        invariant 0 <= i <= |hs|
        invariant forall h :: h in priorityMap ==>
          priorityMap[h].canBeRun == if h in hs[..i] then h in ready else old(priorityMap[h].canBeRun)
        invariant forall h :: h in kept <==> h in hs[..i] && h in ready
      {
        if hs[i] in ready {
          priorityMap[hs[i]].canBeRun := true;
          kept := kept + [hs[i]];
        } else {
          priorityMap[hs[i]].canBeRun := false;
        }
        i := i + 1;
      }
    }

    method RemoveNullHandles(ready: set<Handle>)
      requires Valid() && QueueIsCollected()
      modifies this`subscriptionHandles, this`serviceHandles, this`clientHandles, this`timerHandles
      modifies Executables()`canBeRun
      ensures forall e :: e in allExecutables ==> (e.canBeRun <==> e.handle in ready)
      ensures forall h :: h in priorityMap ==>
        priorityMap[h].canBeRun == if old(IsCollected(h)) then h in ready else old(priorityMap[h].canBeRun)
      ensures forall h :: IsCollected(h) <==> old(IsCollected(h)) && h in ready
      ensures forall k, h :: InVector(k, h) <==> old(InVector(k, h)) && h in ready
    {
      subscriptionHandles := FilterReady(subscriptionHandles, ready);
      serviceHandles := FilterReady(serviceHandles, ready);
      clientHandles := FilterReady(clientHandles, ready);
      timerHandles := FilterReady(timerHandles, ready);
    }

    // ---------- selection ----------

    /** The rings of the executables in the map. */
    ghost function KnownRings(): set<DeadlineRing?>
      reads this`priorityMap, priorityMap.Values`deadlines
    {
      set h | h in priorityMap :: priorityMap[h].deadlines
    }

    ghost function Views(): map<Handle, View>
      reads this`priorityMap, priorityMap.Values
    {
      map h | h in priorityMap :: ViewOf(priorityMap[h])
    }

    ghost function RingMap(): map<Handle, DeadlineRing?>
      reads this`priorityMap, priorityMap.Values`deadlines
    {
      map h | h in priorityMap :: priorityMap[h].deadlines
    }

    ghost function Contents(): map<DeadlineRing, Slots>
      reads this`priorityMap, priorityMap.Values`deadlines, KnownRings()`slots
    {
      map x: DeadlineRing | x in KnownRings() :: x.slots
    }

    /** All executables and rings as one value. */
    ghost function Snapshot(): (f: Fleet)
      reads this`priorityMap, priorityMap.Values, KnownRings()`slots
      ensures Fleets.Valid(f)
    {
      Fleet(Views(), RingMap(), Contents())
    }

    /** Every executable of the map could be handed out. */
    ghost predicate CanRun(peer: DeadlineRing?)
      reads this`priorityMap, this`isF1tenth, priorityMap.Values, KnownRings()`slots
    {
      Ready(Snapshot(), isF1tenth, peer)
    }

    /** What the program dereferences to hand out e. */
    ghost predicate Chargeable(e: PriorityExecutable, peer: DeadlineRing?)
      reads this`isF1tenth, e, e.deadlines, peer
    {
      var v := ViewOf(e);
      && ValidView(v)
      && (AtChainEnd(v) ==> e.deadlines != null && |e.deadlines.slots| == SlotCount(v))
      && (Mirrors(v, isF1tenth) && peer != null ==> e.deadlines != peer && SlotCount(v) <= |peer.slots|)
    }

    /** The ring of chain 1, if chain 0's timer is shared with it. */
    ghost predicate FindsPeer(peer: DeadlineRing?)
      reads this`priorityMap, this`isF1tenth, priorityMap.Values`chainId, priorityMap.Values`deadlines
    {
      isF1tenth ==>
        if exists h :: h in priorityMap && priorityMap[h].chainId == 1 then
          forall h :: h in priorityMap && priorityMap[h].chainId == 1 ==> priorityMap[h].deadlines == peer
        else peer == null
    }

    method ChainOneRing(ghost peer: DeadlineRing?) returns (ring: DeadlineRing?)
      requires isF1tenth && FindsPeer(peer)
      ensures ring == peer
    {
      if h :| h in priorityMap && priorityMap[h].chainId == 1 {
        ring := priorityMap[h].deadlines;
      } else {
        ring := null;
      }
    }

    /** Executables and rings are those given, or new; new executables have no ring. */
    twostate predicate Frame(executables: set<PriorityExecutable>, rings: set<DeadlineRing?>)
      reads this`priorityMap, priorityMap.Values`deadlines
    {
      && (forall h :: h in priorityMap ==> priorityMap[h] in executables || fresh(priorityMap[h]))
      && (forall h :: h in priorityMap && priorityMap[h].deadlines != null ==> priorityMap[h].deadlines in rings)
    }

    /** e, with its ring, is what the map gained. */
    twostate predicate Enlists(new e: PriorityExecutable)
      reads this`priorityMap, priorityMap.Values, KnownRings(), e
    {
      && e.handle !in old(priorityMap) && priorityMap == old(priorityMap)[e.handle := e] && e.deadlines != null
      && (forall h :: h in old(priorityMap) ==>
            ViewOf(priorityMap[h]) == old(ViewOf(priorityMap[h]))
            && priorityMap[h].deadlines == old(priorityMap[h].deadlines))
      && (forall x: DeadlineRing :: x in old(KnownRings()) && x in KnownRings() ==> x.slots == old(x.slots))
    }

    twostate lemma SnapshotEnlists(new e: PriorityExecutable)
      requires Enlists(e)
      ensures Snapshot() == Enlist(old(Snapshot()), e.handle, ViewOf(e), e.deadlines, e.deadlines.slots)
    {
      hide ViewOf;
      ghost var f := Enlist(old(Snapshot()), e.handle, ViewOf(e), e.deadlines, e.deadlines.slots);
      assert priorityMap[e.handle] == e;
      assert f.rings == RingMap();
      assert f.slots.Keys + {null} == KnownRings() + {null} by {
        assert KnownRings() == old(KnownRings()) + {e.deadlines};
      }
      SnapshotIs(f);
    }

    /** Sets the release time of a timer. */
    method AssignReleaseTime(h: Handle, release: int)
      requires Valid() && h in priorityMap
      modifies Executables()`releaseTime
      ensures Snapshot() == WithRelease(old(Snapshot()), h, release)
    {
      ghost var f := Snapshot();
      priorityMap[h].releaseTime := release;
      assert RingMap() == f.rings && Contents() == f.slots;
      forall x | x in priorityMap
        ensures Views()[x] == if x == h then f.views[h].(release := release) else f.views[x]
      {
        assert x != h ==> priorityMap[x] != priorityMap[h];
      }
    }

    /** A ring gets one more deadline. */
    method PushDeadline(ring: DeadlineRing, index: nat, deadline: nat)
      requires ring in Snapshot().slots && index < |Snapshot().slots[ring]|
      modifies ring
      ensures Snapshot() == WithPush(old(Snapshot()), ring, index, deadline)
    {
      ghost var f := Snapshot();
      ring.PushBack(index, deadline);
      assert RingMap() == f.rings && Views() == f.views;
      assert KnownRings() == old(KnownRings());
      assert Contents() == f.slots[ring := ring.slots];
    }

    // ---------- what handing out does ----------

    /** The timer's part: the clock advances, and the next instance's deadline goes
        into its slot of the chain's ring and, mirrored, of chain 1's. */
    method ReleaseNext(e: PriorityExecutable, now: int, ghost peer: DeadlineRing?)
      requires Chargeable(e, peer) && Pushes(ViewOf(e)) && FindsPeer(peer)
      modifies e`releaseTime, e.deadlines, peer
      ensures e.releaseTime == NextRelease(old(ViewOf(e)), now)
      ensures e.deadlines.slots == MirrorRing(old(ViewOf(e)), old(e.deadlines.slots), now)
      ensures peer != null && peer != e.deadlines ==>
        peer.slots == if Mirrors(old(ViewOf(e)), isF1tenth) then MirrorRing(old(ViewOf(e)), old(peer.slots), now)
                      else old(peer.slots)
    {
      var index := (e.curIndex + 1) % CeilDiv(e.deadline, e.period);
      e.releaseTime := ReleaseClock.Next(e.releaseTime, e.period, now);
      e.deadlines.PushBack(index, Narrow(e.releaseTime + e.deadline));
      if isF1tenth && e.chainId == 0 {
        var ring := ChainOneRing(peer);
        if ring != null {
          ring.PushBack(index, Narrow(e.releaseTime + e.deadline));
        }
      }
    }

    /** What handing out e does to its chain's release clock and to the rings. */
    method MoveRings(e: PriorityExecutable, now: int, ghost peer: DeadlineRing?)
      requires Chargeable(e, peer) && FindsPeer(peer)
      modifies e`releaseTime, e.deadlines, peer
      ensures e.releaseTime == NextRelease(old(ViewOf(e)), now)
      ensures e.deadlines != null ==> e.deadlines.slots == ChargeRing(old(ViewOf(e)), old(e.deadlines.slots), now)
      ensures peer != null && peer != e.deadlines ==>
        peer.slots == if Mirrors(old(ViewOf(e)), isF1tenth) then MirrorRing(old(ViewOf(e)), old(peer.slots), now)
                      else old(peer.slots)
    {
      if e.isFirstInChain && e.schedule == DEADLINE {
        ReleaseNext(e, now, peer);
      }
      if e.isLastInChain && e.schedule == DEADLINE {
        e.deadlines.PopFront(e.curIndex);
      }
    }

    /** Hands out e: its release clock, rings, index and counters move on. */
    method ChargeExecutable(e: PriorityExecutable, now: int, ghost peer: DeadlineRing?)
      requires Chargeable(e, peer) && FindsPeer(peer)
      modifies e`releaseTime, e`curIndex, e`counter, e`sum, e.deadlines, peer
      ensures ViewOf(e) == Charge(old(ViewOf(e)), now)
      ensures e.deadlines != null ==> e.deadlines.slots == ChargeRing(old(ViewOf(e)), old(e.deadlines.slots), now)
      ensures peer != null && peer != e.deadlines ==>
        peer.slots == if Mirrors(old(ViewOf(e)), isF1tenth) then MirrorRing(old(ViewOf(e)), old(peer.slots), now)
                      else old(peer.slots)
    {
      MoveRings(e, now, peer);
      e.sum := e.sum + 1;
      if e.schedule == DEADLINE {
        e.curIndex := (e.curIndex + 1) % CeilDiv(e.deadline, e.period);
      }
      if e.schedule == CHAIN_AWARE_PRIORITY || e.schedule == DEADLINE {
        e.counter := e.counter + 1;
      }
    }

    /** The snapshot says of e and its rings what the objects say. */
    lemma SnapshotChargeable(e: PriorityExecutable, peer: DeadlineRing?)
      requires Valid() && CanRun(peer) && e.handle in priorityMap && priorityMap[e.handle] == e
      ensures Chargeable(e, peer) && FindsPeer(peer)
      ensures e.handle in Snapshot().views && CanHandOut(Snapshot(), isF1tenth, peer, e.handle)
      ensures Snapshot().views[e.handle] == ViewOf(e) && Snapshot().rings[e.handle] == e.deadlines
      ensures forall x :: x in Snapshot().slots ==> Snapshot().slots[x] == x.slots
      ensures Snapshot().views.Keys == priorityMap.Keys
      ensures forall h :: h in priorityMap ==> Snapshot().views[h] == ViewOf(priorityMap[h])
    {
      assert CanHandOut(Snapshot(), isF1tenth, peer, e.handle);
    }

    /** A snapshot is determined entry by entry. */
    lemma SnapshotIs(f: Fleet)
      requires f.views.Keys == priorityMap.Keys && f.rings == RingMap()
      requires f.slots.Keys + {null} == KnownRings() + {null}
      requires forall h :: h in priorityMap ==> ViewOf(priorityMap[h]) == f.views[h]
      requires forall x :: x in f.slots ==> x.slots == f.slots[x]
      ensures Snapshot() == f
    {
      assert Views() == f.views;
      assert forall x: DeadlineRing :: x in f.slots <==> x in f.slots.Keys + {null};
      assert Contents() == f.slots;
    }

    /** Only e is charged, and every ring is as the fleet's step leaves it. */
    twostate predicate OnlyCharged(new e: PriorityExecutable, now: int, new peer: DeadlineRing?)
      reads this`priorityMap, priorityMap.Values, KnownRings(), e
    {
      && e.handle in old(Snapshot()).views && CanHandOut(old(Snapshot()), old(isF1tenth), peer, e.handle)
      && priorityMap == old(priorityMap) && e.handle in priorityMap && priorityMap[e.handle] == e
      && (forall h :: h in priorityMap ==> priorityMap[h].deadlines == old(priorityMap[h].deadlines))
      && ViewOf(e) == Charge(old(Snapshot()).views[e.handle], now)
      && (forall h :: h in priorityMap && h != e.handle ==> ViewOf(priorityMap[h]) == old(Snapshot()).views[h])
      && (forall x :: x in old(Snapshot()).slots && x in KnownRings() ==>
            x.slots == SlotsAfter(old(Snapshot()), old(isF1tenth), peer, e.handle, now, x))
    }

    /** Charging one executable, seen from all: no other is charged, and every ring is
        as the fleet's step leaves it. */
    method ChargeAmongAll(e: PriorityExecutable, now: int, ghost peer: DeadlineRing?)
      requires Valid() && CanRun(peer) && e.handle in priorityMap && priorityMap[e.handle] == e
      requires CanHandOut(Snapshot(), isF1tenth, peer, e.handle)
      modifies e`releaseTime, e`curIndex, e`counter, e`sum, e.deadlines, peer
      ensures ViewOf(e) == Charge(old(Snapshot()).views[e.handle], now)
      ensures forall h :: h in priorityMap && h != e.handle ==> ViewOf(priorityMap[h]) == old(Snapshot()).views[h]
      ensures forall x :: x in old(Snapshot()).slots ==>
        x.slots == SlotsAfter(old(Snapshot()), isF1tenth, peer, e.handle, now, x)
    {
      hide Ready, CanHandOut, Fleets.Valid, IsPeer, Fleets.Mirrors, ValidView, ChargeRing, MirrorRing, Charge;
      ghost var before := Snapshot();
      SnapshotChargeable(e, peer);
      ChargeExecutable(e, now, peer);
      forall h | h in priorityMap && h != e.handle ensures ViewOf(priorityMap[h]) == before.views[h] {
        assert priorityMap[h] != e;
      }
    }

    twostate lemma ViewsHand(new e: PriorityExecutable, now: int, new peer: DeadlineRing?)
      requires OnlyCharged(e, now, peer)
      ensures Views() == HandOut(old(Snapshot()), old(isF1tenth), peer, e.handle, now).views
      ensures RingMap() == HandOut(old(Snapshot()), old(isF1tenth), peer, e.handle, now).rings
    {
      hide CanHandOut, Fleets.Valid, SlotsAfter, Charge, ViewOf, Contents, KnownRings;
    }

    twostate lemma ContentsHand(new e: PriorityExecutable, now: int, new peer: DeadlineRing?)
      requires OnlyCharged(e, now, peer)
      ensures Contents() == HandOut(old(Snapshot()), old(isF1tenth), peer, e.handle, now).slots
    {
      hide CanHandOut, Fleets.Valid, SlotsAfter, Charge, ViewOf, Views;
    }

    twostate lemma SnapshotHands(new e: PriorityExecutable, now: int, new peer: DeadlineRing?)
      requires OnlyCharged(e, now, peer)
      ensures Snapshot() == HandOut(old(Snapshot()), old(isF1tenth), peer, e.handle, now)
    {
      ViewsHand(e, now, peer);
      ContentsHand(e, now, peer);
      hide OnlyCharged, Views, RingMap, Contents, HandOut;
    }

    /** Handing out one executable is one step of the fleet. */
    method Hand(e: PriorityExecutable, now: int, ghost peer: DeadlineRing?)
      requires Valid() && CanRun(peer) && e.handle in priorityMap && priorityMap[e.handle] == e
      modifies e`releaseTime, e`curIndex, e`counter, e`sum, e.deadlines, peer
      ensures Handed(old(Snapshot()), Snapshot(), isF1tenth, peer, Some(e.handle), now)
    {
      hide Ready, CanHandOut, Fleets.Valid, IsPeer, ViewOf, SlotsAfter, Charge, Snapshot, HandOut, RingMap;
      SnapshotChargeable(e, peer);
      ChargeAmongAll(e, now, peer);
      assert OnlyCharged(e, now, peer);
      SnapshotHands(e, now, peer);
    }

    /** The queue's best entry leaves it. */
    method PopTop() returns (top: PriorityExecutable)
      requires Valid() && Heap.Ordered(allExecutables) && allExecutables != []
      modifies this`allExecutables
      ensures Valid() && Heap.Ordered(allExecutables) && |allExecutables| < |old(allExecutables)|
      ensures top in old(allExecutables)
      ensures Heap.Greatest(old(allExecutables), top)
      ensures forall e :: e in old(allExecutables) ==> e == top || e in allExecutables
      ensures forall e :: e in allExecutables ==> e in old(allExecutables)
    {
      var rest;
      top, rest := Heap.Pop(allExecutables);
      allExecutables := rest;
    }

    /** Pops entries until one can be run and its group is seen free. observed(i)
        is what the i-th pop sees of the flags. */
    method PopServable(groupOf: map<Handle, Group>, observed: nat -> set<Group>) returns (r: Option<PriorityExecutable>)
      requires Valid() && Heap.Ordered(allExecutables)
      requires forall i: nat, j: nat :: i <= j ==> observed(i) <= observed(j)
      modifies this`allExecutables
      ensures Valid() && forall e :: e in allExecutables ==> e in old(allExecutables)
      ensures r == None ==> forall e :: e in old(allExecutables) ==> !old(Servable(e, groupOf, observed(0)))
      ensures r.Some? ==> r.value in old(allExecutables) && IsBest(r.value, old(allExecutables), groupOf, observed)
    {
      ghost var start := allExecutables;
      var i: nat := 0;
      while allExecutables != []
        invariant Valid() && Heap.Ordered(allExecutables)
        invariant forall e :: e in allExecutables ==> e in start
        invariant forall e :: e in start && Servable(e, groupOf, observed(0)) ==> e in allExecutables
        decreases |allExecutables|
      {
        var top := PopTop();
        if top.canBeRun && top.handle in groupOf && groupOf[top.handle] in observed(i) {
          return Some(top);
        }
        assert observed(0) <= observed(i);
        i := i + 1;
      }
      r := None;
    }

    /** Hands out the best servable entry; nothing else moves. */
    method GetNextExecutable(groupOf: map<Handle, Group>, observed: nat -> set<Group>, now: int,
                             ghost peer: DeadlineRing?)
      returns (r: Option<PriorityExecutable>)
      requires Valid() && CanRun(peer) && Heap.Ordered(allExecutables)
      requires forall i: nat, j: nat :: i <= j ==> observed(i) <= observed(j)
      modifies this`allExecutables, allExecutables`releaseTime, allExecutables`curIndex, allExecutables`counter,
               allExecutables`sum, Heap.Rings(allExecutables), peer
      ensures Valid()
      ensures Handed(old(Snapshot()), Snapshot(), isF1tenth, peer, HandleOf(r), now)
      ensures r == None ==> forall e :: e in old(allExecutables) ==> !old(Servable(e, groupOf, observed(0)))
      ensures r.Some? ==> r.value in old(allExecutables) && IsBest(r.value, old(allExecutables), groupOf, observed)
    {
      r := PopServable(groupOf, observed);
      assert Snapshot() == old(Snapshot());
      if r.Some? {
        Hand(r.value, now, peer);
      }
    }

    // ---------- a round ----------

    /** Whatever the round before left in the vectors and the queue is dropped. */
    method CollectAfresh(groups: seq<CallbackGroup>, free: set<Group>)
      requires Valid()
      modifies this`priorityMap, this`allExecutables
      modifies this`subscriptionHandles, this`serviceHandles, this`clientHandles, this`timerHandles
      ensures Valid() && Heap.Ordered(allExecutables) && QueueIsCollected() && MapGrows()
      ensures forall h :: IsCollected(h) <==> OfferedBy(groups, free, old(priorityMap).Keys, h)
      ensures forall k, h :: InVector(k, h) ==> ListedAs(groups, free, k, h)
      ensures forall k, h :: ListedAs(groups, free, k, h) && IsTaken(k, h, old(priorityMap).Keys) ==> InVector(k, h)
    {
      ClearHandles();
      CollectEntities(groups, free);
    }

    /** The part of a round that precedes selection: what it queues is exactly what the
        free groups offer, each entry with this round's answer of the wait set, and the
        vectors keep what is ready. */
    method WaitForWork(groups: seq<CallbackGroup>, free: set<Group>, ready: set<Handle>)
      requires Valid()
      modifies this, Executables()`canBeRun
      ensures Valid() && Heap.Ordered(allExecutables) && isF1tenth == old(isF1tenth) && MapGrows()
      ensures forall e :: e in allExecutables ==>
        OfferedBy(groups, free, old(priorityMap).Keys, e.handle) && (e.canBeRun <==> e.handle in ready)
      ensures forall h :: OfferedBy(groups, free, old(priorityMap).Keys, h) ==>
        h in priorityMap && priorityMap[h] in allExecutables
      ensures forall k, h :: InVector(k, h) ==> ListedAs(groups, free, k, h) && h in ready
      ensures forall k, h :: ListedAs(groups, free, k, h) && IsTaken(k, h, old(priorityMap).Keys) && h in ready ==>
        InVector(k, h)
    {
      hide ListedAs, OfferedBy, IsTaken, InVector;
      CollectAfresh(groups, free);
      RemoveNullHandles(ready);
    }

    lemma KeyInSnapshot(e: PriorityExecutable)
      requires Valid() && e.handle in priorityMap && priorityMap[e.handle] == e
      ensures KeyIn(Snapshot(), e.handle) == KeyOf(e)
    {
    }

    /** Known entities keep their settings and rings, whatever their flags. */
    twostate predicate SettingsStay()
      reads this`priorityMap, priorityMap.Values, KnownRings()
    {
      && MapGrows()
      && (forall h :: h in old(priorityMap) ==>
            ViewOf(priorityMap[h]) == old(ViewOf(priorityMap[h]))
            && priorityMap[h].deadlines == old(priorityMap[h].deadlines))
      && (forall x: DeadlineRing :: x in old(KnownRings()) && x in KnownRings() ==> x.slots == old(x.slots))
    }

    twostate lemma ExtendsSnapshot()
      requires SettingsStay()
      ensures Extends(old(Snapshot()), Snapshot())
    {
      assert KnownRings() - {null} == old(KnownRings()) - {null};
      assert Contents() == old(Contents());
    }

    /** Preparation changes nothing but flags, and adds entities. */
    method Prepare(groups: seq<CallbackGroup>, free: set<Group>, ready: set<Handle>)
      requires Valid()
      modifies this, Executables()`canBeRun
      ensures Valid() && Heap.Ordered(allExecutables) && isF1tenth == old(isF1tenth)
      ensures Extends(old(Snapshot()), Snapshot())
      ensures forall e :: e in allExecutables ==>
        OfferedBy(groups, free, old(priorityMap).Keys, e.handle) && (e.canBeRun <==> e.handle in ready)
      ensures Frame(old(Executables()), old(KnownRings()))
      ensures forall h :: OfferedBy(groups, free, old(priorityMap).Keys, h) ==>
        h in priorityMap && priorityMap[h] in allExecutables
    {
      hide Heap.Ordered, OfferedBy, ListedAs, IsTaken, KeyOf, Below, Snapshot, Views, RingMap, Contents, Extends;
      WaitForWork(groups, free, ready);
      ExtendsSnapshot();
    }

    /** Selection after the preparation: whatever is ready can be served, because its
        group was free when it was collected and has stayed free. */
    method Select(groups: seq<CallbackGroup>, free: set<Group>, ready: set<Handle>,
                  groupOf: map<Handle, Group>, observed: nat -> set<Group>, now: int, ghost peer: DeadlineRing?)
      returns (r: Option<PriorityExecutable>)
      requires Valid() && CanRun(peer) && Heap.Ordered(allExecutables)
      requires forall i: nat, j: nat :: i <= j ==> observed(i) <= observed(j)
      requires free <= observed(0) && GroupsKnown(groups, groupOf)
      requires forall e :: e in allExecutables ==>
        ListedBy(groups, free, e.handle) && (e.canBeRun <==> e.handle in ready)
      modifies this`allExecutables, allExecutables`releaseTime, allExecutables`curIndex, allExecutables`counter,
               allExecutables`sum, Heap.Rings(allExecutables), peer
      ensures Valid()
      ensures Handed(old(Snapshot()), Snapshot(), isF1tenth, peer, HandleOf(r), now)
      ensures r.Some? ==> r.value in old(allExecutables) && r.value.handle in ready
      ensures forall e :: e in old(allExecutables) && e.handle in ready ==>
        && r.Some? && e.handle in old(Snapshot()).views && r.value.handle in old(Snapshot()).views
        && Below(KeyIn(old(Snapshot()), e.handle), KeyIn(old(Snapshot()), r.value.handle))
    {
      forall e | e in allExecutables ensures KeyIn(Snapshot(), e.handle) == KeyOf(e) {
        KeyInSnapshot(e);
      }
      forall e | e in allExecutables && e.handle in ready ensures Servable(e, groupOf, observed(0)) {
        var g :| g in groups && g.id in free && g.Lists(e.handle);
      }
      r := GetNextExecutable(groupOf, observed, now, peer);
    }

    /** A whole round under the lock: `free` are the groups seen free when entities
        are collected, observed(i) those seen free by the i-th pop. Nothing outside
        this round's free groups and this round's ready handles is handed out, the
        choice is best by the keys the round started with, and it alone moves. */
    method Round(groups: seq<CallbackGroup>, free: set<Group>, ready: set<Handle>,
                 groupOf: map<Handle, Group>, observed: nat -> set<Group>, now: int, ghost peer: DeadlineRing?)
      returns (r: Option<PriorityExecutable>)
      requires Valid() && CanRun(peer)
      requires forall i: nat, j: nat :: i <= j ==> observed(i) <= observed(j)
      requires free <= observed(0) && GroupsKnown(groups, groupOf)
      modifies this, Executables(), KnownRings(), peer
      ensures Valid() && CanRun(peer) && isF1tenth == old(isF1tenth)
      ensures Frame(old(Executables()), old(KnownRings()))
      ensures Moves(old(Snapshot()), Snapshot(), isF1tenth, peer, HandleOf(r), now)
      ensures r.Some? ==>
        OfferedBy(groups, free, old(priorityMap).Keys, r.value.handle) && r.value.handle in ready
      ensures forall h :: OfferedBy(groups, free, old(priorityMap).Keys, h) && h in ready ==>
        r.Some? && Below(KeyIn(old(Snapshot()), h), KeyIn(old(Snapshot()), r.value.handle))
    {
      hide Ready, Extends, Handed, Moves, KeyIn, Snapshot, Below, Heap.Ordered, OfferedBy, ListedBy, GroupsKnown, KeyOf;
      ghost var before := Snapshot();
      Prepare(groups, free, ready);
      ghost var mid := Snapshot();
      forall e | e in allExecutables
        ensures e in old(Executables()) || fresh(e)
        ensures e.deadlines != null ==> e.deadlines in old(KnownRings())
      {
        assert priorityMap[e.handle] == e;
      }
      ExtensionReady(before, mid, isF1tenth, peer);
      forall e | e in allExecutables ensures ListedBy(groups, free, e.handle) {
        OfferedIsListed(groups, free, old(priorityMap).Keys, e.handle);
      }
      r := Select(groups, free, ready, groupOf, observed, now, peer);
      RoundMoves(before, mid, Snapshot(), isF1tenth, peer, HandleOf(r), now);
    }

    /** e was servable when it was popped, and in the old state no entry servable
        from the start was preferred to it. */
    twostate predicate IsBest(e: PriorityExecutable, queue: seq<PriorityExecutable>,
                              groupOf: map<Handle, Group>, observed: nat -> set<Group>)
    {
      && (exists i: nat :: old(Servable(e, groupOf, observed(i))))
      && forall x :: x in queue && old(Servable(x, groupOf, observed(0))) ==> Below(old(KeyOf(x)), old(KeyOf(e)))
    }
  }

  function HandleOf(r: Option<PriorityExecutable>): Option<Handle> {
    if r.Some? then Some(r.value.handle) else None
  }

  /** e can be run and its group is among the free ones. */
  predicate Servable(e: PriorityExecutable, groupOf: map<Handle, Group>, free: set<Group>)
    reads e`canBeRun
  {
    e.canBeRun && e.handle in groupOf && groupOf[e.handle] in free
  }

  /** What an entity that was never configured looks like. */
  ghost predicate Unconfigured(e: PriorityExecutable)
    reads e`counter, e`deadlines, e`chainId
  {
    && e.schedule == CHAIN_INDEPENDENT_PRIORITY && e.priority == 0 && e.counter == 0
    && e.deadlines == null && e.chainId == 0
  }

  /** Subscriptions and services that were never configured are passed over. */
  predicate IsTaken(kind: ExecutableType, h: Handle, known: set<Handle>) {
    kind == CLIENT || kind == TIMER || h in known
  }

  /** h is offered by a group that is free. */
  ghost predicate OfferedBy(groups: seq<CallbackGroup>, free: set<Group>, known: set<Handle>, h: Handle) {
    exists g :: g in groups && g.id in free && g.Offers(h, known)
  }

  /** Looking up the group of a listed handle finds the group that lists it. */
  ghost predicate GroupsKnown(groups: seq<CallbackGroup>, groupOf: map<Handle, Group>) {
    forall g, h :: g in groups && g.Lists(h) ==> h in groupOf && groupOf[h] == g.id
  }

  ghost predicate ListedBy(groups: seq<CallbackGroup>, free: set<Group>, h: Handle) {
    exists g :: g in groups && g.id in free && g.Lists(h)
  }

  /** A free group lists h under this kind. */
  ghost predicate ListedAs(groups: seq<CallbackGroup>, free: set<Group>, kind: ExecutableType, h: Handle) {
    exists g :: g in groups && g.id in free && h in g.Of(kind)
  }

  lemma OfferedIsListed(groups: seq<CallbackGroup>, free: set<Group>, known: set<Handle>, h: Handle)
    requires OfferedBy(groups, free, known, h)
    ensures ListedBy(groups, free, h)
  {
    var g :| g in groups && g.id in free && g.Offers(h, known);
    assert g.Lists(h);
  }

  lemma OneMoreGroup(groups: seq<CallbackGroup>, free: set<Group>, known: set<Handle>, i: nat)
    requires i < |groups|
    ensures forall h :: OfferedBy(groups[..i + 1], free, known, h) <==>
      OfferedBy(groups[..i], free, known, h) || (groups[i].id in free && groups[i].Offers(h, known))
    ensures forall k, h :: ListedAs(groups[..i + 1], free, k, h) <==>
      ListedAs(groups[..i], free, k, h) || (groups[i].id in free && h in groups[i].Of(k))
  {
    assert groups[..i + 1] == groups[..i] + [groups[i]];
    forall g ensures g in groups[..i + 1] <==> g in groups[..i] || g == groups[i] {
    }
  }
}
