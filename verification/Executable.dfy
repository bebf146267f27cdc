/** What the strategy schedules: executables with their schedule settings, the
    deadline rings they share, and the comparator of the priority queue. */
module Executable {
  import opened SlotTable

  datatype ExecutableType = SUBSCRIPTION | SERVICE | CLIENT | TIMER

  datatype ScheduleType = CHAIN_INDEPENDENT_PRIORITY | CHAIN_AWARE_PRIORITY | DEADLINE | DEFAULT

  type Handle = nat

  /** The queues of one chain, shared by all its callbacks. */
  class DeadlineRing {
    var slots: Slots

    constructor (n: nat)
      ensures slots == seq(n, s => [])
    {
      slots := seq(n, s => []);
    }

    method PushBack(index: nat, deadline: nat)
      requires index < |slots|
      modifies this
      ensures slots == PushAt(old(slots), index, deadline)
    {
      slots := slots[index := slots[index] + [deadline]];
    }

    method PopFront(index: nat)
      requires index < |slots|
      modifies this
      ensures slots == PopAt(old(slots), index)
    {
      if slots[index] != [] {
        slots := slots[index := slots[index][1..]];
      }
    }
  }

  class PriorityExecutable {
    const handle: Handle
    const kind: ExecutableType
    const schedule: ScheduleType
    const priority: int
    const period: int
    const deadline: int

    var canBeRun: bool
    var releaseTime: int
    var isFirstInChain: bool
    var isLastInChain: bool
    var curIndex: nat
    var deadlines: DeadlineRing?
    var chainId: int
    var counter: int
    var sum: int

    /** A callback scheduled by deadline. */
    constructor WithDeadline(handle: Handle, period: int, deadline: int, kind: ExecutableType, chainId: int)
      ensures this.handle == handle && this.kind == kind && canBeRun
      ensures schedule == DEADLINE && this.period == period && this.deadline == deadline
      ensures !isFirstInChain && !isLastInChain && deadlines == null
      ensures curIndex == 0 && counter == 0 && sum == 0 && this.chainId == chainId
      ensures priority == 0 && releaseTime == 0
    {
      this.handle, this.kind := handle, kind;
      this.schedule, this.priority := DEADLINE, 0;
      this.period, this.deadline := period, deadline;
      canBeRun, releaseTime := true, 0;
      isFirstInChain, isLastInChain := false, false;
      curIndex, deadlines := 0, null;
      this.chainId, counter, sum := chainId, 0, 0;
    }

    /** The settings of an entity that was never configured. */
    constructor (handle: Handle, kind: ExecutableType)
      ensures this.handle == handle && this.kind == kind && canBeRun
      ensures schedule == CHAIN_INDEPENDENT_PRIORITY && priority == 0
      ensures period == 1000 && deadline == 1000 && releaseTime == 0
      ensures !isFirstInChain && !isLastInChain && deadlines == null
      ensures curIndex == 0 && counter == 0 && sum == 0 && chainId == 0
    {
      this.handle, this.kind := handle, kind;
      this.schedule, this.priority := CHAIN_INDEPENDENT_PRIORITY, 0;
      this.period, this.deadline := 1000, 1000;
      canBeRun, releaseTime := true, 0;
      isFirstInChain, isLastInChain := false, false;
      curIndex, deadlines := 0, null;
      chainId, counter, sum := 0, 0, 0;
    }
  }

  // ---------- the comparator ----------

  /** What the comparator reads of an executable; deadline 0 means it found none. */
  datatype Key = Key(schedule: ScheduleType, priority: int, deadline: nat, counter: int)

  function KeyOf(e: PriorityExecutable): Key
    reads e`curIndex, e`deadlines, e`counter, {e.deadlines}`slots
  {
    var found := e.deadlines != null && e.curIndex < |e.deadlines.slots| && e.deadlines.slots[e.curIndex] != [];
    Key(e.schedule, e.priority, if found then e.deadlines.slots[e.curIndex][0] else 0, e.counter)
  }

  /** The comparator's answer: a comes out of the queue after b. */
  predicate Less(a: Key, b: Key) {
    if a.schedule != b.schedule then
      if a.schedule == DEADLINE then false
      else if b.schedule == DEADLINE then true
      else if a.schedule == CHAIN_INDEPENDENT_PRIORITY then false
      else if b.schedule == CHAIN_INDEPENDENT_PRIORITY then true
      else a.schedule != CHAIN_AWARE_PRIORITY
    else
      match a.schedule
      case CHAIN_INDEPENDENT_PRIORITY => a.priority > b.priority
      case CHAIN_AWARE_PRIORITY => if a.priority != b.priority then a.priority < b.priority else false
      case DEADLINE =>
        if a.deadline == 0 then true
        else if b.deadline == 0 then false
        else if a.deadline == b.deadline then a.counter > b.counter
        else a.deadline > b.deadline
      case DEFAULT => false
  }

  // ---------- the order it stands for ----------

  function ClassRank(t: ScheduleType): nat {
    match t
    case DEADLINE => 3
    case CHAIN_INDEPENDENT_PRIORITY => 2
    case CHAIN_AWARE_PRIORITY => 1
    case DEFAULT => 0
  }

  /** a is not preferred to b: first by class, then by the class's own criterion.
      A deadline key that was not found is least in its class. */
  predicate Below(a: Key, b: Key) {
    if a.schedule != b.schedule then ClassRank(a.schedule) < ClassRank(b.schedule)
    else
      match a.schedule
      case CHAIN_INDEPENDENT_PRIORITY => a.priority >= b.priority
      case CHAIN_AWARE_PRIORITY => a.priority <= b.priority
      case DEADLINE =>
        a.deadline == 0
        || (b.deadline != 0
            && (a.deadline > b.deadline || (a.deadline == b.deadline && a.counter >= b.counter)))
      case DEFAULT => true
  }

  lemma BelowIsTotalPreorder(a: Key, b: Key, c: Key)
    ensures Below(a, a)
    ensures Below(a, b) || Below(b, a)
    ensures Below(a, b) && Below(b, c) ==> Below(a, c)
  {
  }

  /** On every pair of keys, found or not, the comparator never contradicts the
      order: this is all a heap needs. */
  lemma LessRespectsOrder(a: Key, b: Key)
    ensures Less(a, b) ==> Below(a, b)
    ensures !Less(a, b) ==> Below(b, a)
  {
  }

  predicate Found(k: Key) {
    k.schedule == DEADLINE ==> k.deadline != 0
  }

  lemma LessIsStrictOrder(a: Key, b: Key)
    requires Found(a) && Found(b)
    ensures Less(a, b) <==> !Below(b, a)
  {
  }

  /** The comparator requirement of section 25.4 of ISO/IEC 14882:2014. */
  ghost predicate StrictWeakOrder(keys: set<Key>) {
    && (forall a :: a in keys ==> !Less(a, a))
    && (forall a, b, c :: a in keys && b in keys && c in keys && Less(a, b) && Less(b, c) ==> Less(a, c))
    && (forall a, b, c :: a in keys && b in keys && c in keys ==>
          (Equivalent(a, b) && Equivalent(b, c) ==> Equivalent(a, c)))
  }

  predicate Equivalent(a: Key, b: Key) {
    !Less(a, b) && !Less(b, a)
  }

  /** The comparator is a strict weak order on exactly the sets whose deadline
      entries all have a deadline queued. */
  lemma StrictWeakOrderExactly(keys: set<Key>)
    ensures StrictWeakOrder(keys) <==> forall k :: k in keys ==> Found(k)
  {
    if forall k :: k in keys ==> Found(k) {
      forall a, b, c | a in keys && b in keys && c in keys
        ensures !Less(a, a)
        ensures Less(a, b) && Less(b, c) ==> Less(a, c)
        ensures Equivalent(a, b) && Equivalent(b, c) ==> Equivalent(a, c)
      {
        FoundTriple(a, b, c);
      }
    } else {
      var k :| k in keys && !Found(k);
      assert Less(k, k);
    }
  }

  lemma FoundTriple(a: Key, b: Key, c: Key)
    requires Found(a) && Found(b) && Found(c)
    ensures !Less(a, a)
    ensures Less(a, b) && Less(b, c) ==> Less(a, c)
    ensures Equivalent(a, b) && Equivalent(b, c) ==> Equivalent(a, c)
  {
    LessIsStrictOrder(a, b);
    LessIsStrictOrder(b, a);
    LessIsStrictOrder(b, c);
    LessIsStrictOrder(c, b);
    LessIsStrictOrder(a, c);
    LessIsStrictOrder(c, a);
    BelowIsTotalPreorder(a, b, c);
    BelowIsTotalPreorder(c, b, a);
    BelowIsTotalPreorder(c, a, b);
    BelowIsTotalPreorder(b, c, a);
  }
}
