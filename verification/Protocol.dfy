/** The thread protocol of the multi-threaded executor: n threads share one lock,
    the set of scheduled timers and one flag per callback group. Flags are cleared
    only by the lock's holder; they are set again outside the lock. */
module Protocol {
  import opened Options

  type Timer = nat
  type Group = nat

  /** What the strategy can hand out: a timer or another entity, with its group. */
  datatype Entity = Entity(timer: Option<Timer>, group: Group)

  /** `late` says whether destroying a discarded executable, after the lock has
      been released, stores the group's flag a second time. The program does; its
      comment intends only the store inside the lock. */
  datatype Config = Config(threads: nat, entities: set<Entity>, exclusive: set<Group>, late: bool)

  /** Where a thread stands in its loop. */
  datatype Phase =
    | AtHead                // outside the lock, nothing in hand
    | Locked                // holds the lock, looking for work
    | Chosen(e: Entity)     // holds the lock, saw e's group free
    | Taken(e: Entity)      // holds the lock, has cleared the group's flag
    | Reset(e: Entity)      // holds the lock, duplicate timer, flag set again
    | Discarded(e: Entity)  // lock released, e about to be destroyed
    | Running(e: Entity)    // executes e's callback
    | Released(e: Entity)   // executed, flag set again
    | Erasing(e: Entity)    // holds the lock, about to erase its timer
  {
    predicate KeepsLock() {
      Locked? || Chosen? || Taken? || Reset? || Erasing?
    }

    /** Between the insertion of the timer and its erasure. */
    predicate HoldsTimer(t: Timer) {
      (Running? || Released? || Erasing?) && e.timer == Some(t)
    }

    /** Between taking and releasing the group. */
    predicate HoldsGroup(g: Group) {
      (Taken? || Running?) && e.group == g
    }

    predicate Runs(g: Group) {
      Running? && e.group == g
    }
  }

  /** `taken` holds the groups whose can_be_taken_from flag is false. */
  datatype State = State(lock: Option<nat>, phases: seq<Phase>, scheduled: set<Timer>, taken: set<Group>)

  function Init(c: Config): State {
    State(None, seq(c.threads, p => AtHead), {}, {})
  }

  datatype Action =
    | Acquire | GiveUp | Choose(e: Entity) | Mark | Start | ResetGroup | Unlock | Destroy
    | Finish | Leave | Lock | Erase

  datatype Move = Move(thread: nat, action: Action)

  /** The timer is already being executed by some thread. */
  predicate Duplicate(s: State, e: Entity) {
    e.timer.Some? && e.timer.value in s.scheduled
  }

  predicate Enabled(c: Config, s: State, m: Move) {
    && m.thread < |s.phases|
    && var ph := s.phases[m.thread];
       match m.action
       case Acquire => ph.AtHead? && s.lock == None
       case GiveUp => ph.Locked?
       case Choose(e) => ph.Locked? && e in c.entities && e.group !in s.taken
       case Mark => ph.Chosen?
       case Start => ph.Taken? && !Duplicate(s, ph.e)
       case ResetGroup => ph.Taken? && Duplicate(s, ph.e)
       case Unlock => ph.Reset?
       case Destroy => ph.Discarded?
       case Finish => ph.Running?
       case Leave => ph.Released? && ph.e.timer == None
       case Lock => ph.Released? && ph.e.timer.Some? && s.lock == None
       case Erase => ph.Erasing? && ph.e.timer.Some?
  }

  function Moves(s: State, p: nat, ph: Phase): State
    requires p < |s.phases|
  {
    s.(phases := s.phases[p := ph])
  }

  function Do(c: Config, s: State, m: Move): State
    requires Enabled(c, s, m)
  {
    var p := m.thread;
    var ph := s.phases[p];
    match m.action
    case Acquire => Moves(s, p, Locked).(lock := Some(p))
    case GiveUp => Moves(s, p, AtHead).(lock := None)
    case Choose(e) => Moves(s, p, Chosen(e))
    case Mark => Moves(s, p, Taken(ph.e)).(taken := s.taken + if ph.e.group in c.exclusive then {ph.e.group} else {})
    case Start => Moves(s, p, Running(ph.e)).(lock := None,
                    scheduled := s.scheduled + if ph.e.timer.Some? then {ph.e.timer.value} else {})
    case ResetGroup => Moves(s, p, Reset(ph.e)).(taken := s.taken - {ph.e.group})
    case Unlock => Moves(s, p, Discarded(ph.e)).(lock := None)
    case Destroy => Moves(s, p, AtHead).(taken := if c.late then s.taken - {ph.e.group} else s.taken)
    case Finish => Moves(s, p, Released(ph.e)).(taken := s.taken - {ph.e.group})
    case Leave => Moves(s, p, AtHead)
    case Lock => Moves(s, p, Erasing(ph.e)).(lock := Some(p))
    case Erase => Moves(s, p, AtHead).(lock := None, scheduled := s.scheduled - {ph.e.timer.value})
  }

  /** The state after a run from s, if every move was possible. */
  function ExecFrom(c: Config, s: State, run: seq<Move>): Option<State> {
    if run == [] then Some(s)
    else
      var before := ExecFrom(c, s, run[..|run| - 1]);
      if before.Some? && Enabled(c, before.value, run[|run| - 1])
      then Some(Do(c, before.value, run[|run| - 1]))
      else None
  }

  function Exec(c: Config, run: seq<Move>): Option<State> {
    ExecFrom(c, Init(c), run)
  }

  ghost predicate Reachable(c: Config, s: State) {
    exists run: seq<Move> :: Exec(c, run) == Some(s)
  }

  // ---------- what every step keeps ----------

  ghost predicate LockHeldByOne(s: State) {
    forall p: nat :: p < |s.phases| ==> (s.phases[p].KeepsLock() <==> s.lock == Some(p))
  }

  /** The chosen entity's group is still free when it is about to be taken. */
  ghost predicate ChosenIsFree(s: State) {
    forall p: nat :: p < |s.phases| && s.phases[p].Chosen? ==> s.phases[p].e.group !in s.taken
  }

  ghost predicate HeldTimersScheduled(s: State) {
    forall p: nat, t: Timer :: p < |s.phases| && s.phases[p].HoldsTimer(t) ==> t in s.scheduled
  }

  ghost predicate ScheduledTimersHeld(s: State) {
    forall t :: t in s.scheduled ==> exists p: nat :: p < |s.phases| && s.phases[p].HoldsTimer(t)
  }

  ghost predicate TimersExclusive(s: State) {
    forall p: nat, q: nat, t: Timer ::
      p < |s.phases| && q < |s.phases| && s.phases[p].HoldsTimer(t) && s.phases[q].HoldsTimer(t) ==> p == q
  }

  ghost predicate TakenGroupsHeld(c: Config, s: State) {
    forall g :: g in s.taken ==>
      g in c.exclusive && exists p: nat :: p < |s.phases| && s.phases[p].HoldsGroup(g)
  }

  ghost predicate WellFormed(c: Config, s: State) {
    && |s.phases| == c.threads && (s.lock.Some? ==> s.lock.value < |s.phases|)
    && forall p: nat :: p < |s.phases| ==>
      var ph := s.phases[p];
      && (!ph.AtHead? && !ph.Locked? ==> ph.e in c.entities)
      && (ph.Reset? || ph.Discarded? || ph.Erasing? ==> ph.e.timer.Some?)
  }

  ghost predicate Inv(c: Config, s: State) {
    && WellFormed(c, s) && LockHeldByOne(s) && ChosenIsFree(s)
    && HeldTimersScheduled(s) && ScheduledTimersHeld(s) && TimersExclusive(s)
    && TakenGroupsHeld(c, s)
  }

  lemma StepKeepsLock(c: Config, s: State, m: Move)
    requires Inv(c, s) && Enabled(c, s, m)
    ensures WellFormed(c, Do(c, s, m)) && LockHeldByOne(Do(c, s, m)) && ChosenIsFree(Do(c, s, m))
  {
  }

  lemma StepKeepsTimers(c: Config, s: State, m: Move)
    requires Inv(c, s) && Enabled(c, s, m)
    ensures HeldTimersScheduled(Do(c, s, m)) && TimersExclusive(Do(c, s, m))
  {
  }

  lemma StepKeepsScheduled(c: Config, s: State, m: Move)
    requires Inv(c, s) && Enabled(c, s, m)
    ensures ScheduledTimersHeld(Do(c, s, m))
  {
    var s' := Do(c, s, m);
    forall t | t in s'.scheduled
      ensures exists p: nat :: p < |s'.phases| && s'.phases[p].HoldsTimer(t)
    {
      if t in s.scheduled {
        var p: nat :| p < |s.phases| && s.phases[p].HoldsTimer(t);
        assert s'.phases[p].HoldsTimer(t);
      } else {
        assert s'.phases[m.thread].HoldsTimer(t);
      }
    }
  }

  lemma StepKeepsTaken(c: Config, s: State, m: Move)
    requires Inv(c, s) && Enabled(c, s, m)
    ensures TakenGroupsHeld(c, Do(c, s, m))
  {
    var s' := Do(c, s, m);
    forall g | g in s'.taken
      ensures g in c.exclusive && exists p: nat :: p < |s'.phases| && s'.phases[p].HoldsGroup(g)
    {
      if g in s.taken {
        var p: nat :| p < |s.phases| && s.phases[p].HoldsGroup(g);
        assert s'.phases[p].HoldsGroup(g);
      } else {
        assert s'.phases[m.thread].HoldsGroup(g);
      }
    }
  }

  lemma StepKeepsInv(c: Config, s: State, m: Move)
    requires Inv(c, s) && Enabled(c, s, m)
    ensures Inv(c, Do(c, s, m))
  {
    StepKeepsLock(c, s, m);
    StepKeepsTimers(c, s, m);
    StepKeepsScheduled(c, s, m);
    StepKeepsTaken(c, s, m);
  }

  lemma {:induction false} RunKeepsInv(c: Config, run: seq<Move>)
    ensures Exec(c, run).Some? ==> Inv(c, Exec(c, run).value)
  {
    if run != [] {
      var init := run[..|run| - 1];
      RunKeepsInv(c, init);
      if Exec(c, run).Some? {
        StepKeepsInv(c, Exec(c, init).value, run[|run| - 1]);
      }
    }
  }

  lemma ReachableInv(c: Config, s: State)
    requires Reachable(c, s)
    ensures Inv(c, s)
  {
    var run :| Exec(c, run) == Some(s);
    RunKeepsInv(c, run);
  }

  lemma Extend(c: Config, s: State, m: Move)
    requires Reachable(c, s) && Enabled(c, s, m)
    ensures Reachable(c, Do(c, s, m))
  {
    var run :| Exec(c, run) == Some(s);
    assert (run + [m])[..|run|] == run;
    assert Exec(c, run + [m]) == Some(Do(c, s, m));
  }

  // ---------- safety over all interleavings ----------

  /** The assertion before a group's flag is cleared never fails, with or without
      the late store. */
  lemma AssertionNeverFails(c: Config, s: State, p: nat)
    requires Reachable(c, s) && Enabled(c, s, Move(p, Mark))
    ensures s.phases[p].e.group !in s.taken
  {
    ReachableInv(c, s);
  }

  /** In every reachable state the scheduled timers are exactly those held between
      insertion and erasure, each by one thread. */
  lemma TimerExclusivity(c: Config, s: State, t: Timer)
    requires Reachable(c, s)
    ensures t in s.scheduled <==> exists p: nat :: p < |s.phases| && s.phases[p].HoldsTimer(t)
    ensures forall p: nat, q: nat ::
      p < |s.phases| && q < |s.phases| && s.phases[p].HoldsTimer(t) && s.phases[q].HoldsTimer(t) ==> p == q
  {
    ReachableInv(c, s);
  }

  /** A flag that is down belongs to a thread that holds the group: no step leaks
      one, with or without the late store. */
  lemma NoLeakedGroup(c: Config, s: State, g: Group)
    requires Reachable(c, s) && g in s.taken
    ensures g in c.exclusive && exists p: nat :: p < |s.phases| && s.phases[p].HoldsGroup(g)
  {
    ReachableInv(c, s);
  }

  /** When every thread is at the head of its loop nothing is left behind. */
  lemma Quiescent(c: Config, s: State)
    requires Reachable(c, s) && forall p: nat :: p < |s.phases| ==> s.phases[p].AtHead?
    ensures s.scheduled == {} && s.taken == {} && s.lock == None
  {
    ReachableInv(c, s);
  }

  // ---------- what the lock's holder can rely on ----------

  /** A move of another thread while p holds the lock frees groups at most. */
  lemma OthersOnlyFree(c: Config, s: State, p: nat, m: Move)
    requires Inv(c, s) && s.lock == Some(p) && p < |s.phases| && m.thread != p && Enabled(c, s, m)
    ensures Do(c, s, m).lock == Some(p) && Do(c, s, m).phases[p] == s.phases[p]
    ensures Do(c, s, m).taken <= s.taken && Do(c, s, m).scheduled == s.scheduled
  {
  }

  /** Over any number of moves of the other threads, the groups p sees free while
      it holds the lock only become more. */
  lemma {:induction false} FreeGroupsGrow(c: Config, s: State, p: nat, run: seq<Move>)
    requires Inv(c, s) && s.lock == Some(p) && p < |s.phases|
    requires forall n :: 0 <= n < |run| ==> run[n].thread != p
    requires ExecFrom(c, s, run).Some?
    ensures var s' := ExecFrom(c, s, run).value;
      Inv(c, s') && s'.lock == Some(p) && p < |s'.phases| && s'.taken <= s.taken && s'.scheduled == s.scheduled
  {
    if run != [] {
      var init := run[..|run| - 1];
      FreeGroupsGrow(c, s, p, init);
      StepKeepsInv(c, ExecFrom(c, s, init).value, run[|run| - 1]);
      OthersOnlyFree(c, ExecFrom(c, s, init).value, p, run[|run| - 1]);
    }
  }
}
