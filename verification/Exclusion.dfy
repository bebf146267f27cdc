/** Mutual exclusion of callback groups, and exactly what the late store of a
    discarded executable does to it. */
module Exclusion {
  import opened Options
  import opened Protocol

  /** At most one thread is between taking and releasing group g. */
  ghost predicate HeldByOne(s: State, g: Group) {
    forall p: nat, q: nat ::
      p < |s.phases| && q < |s.phases| && s.phases[p].HoldsGroup(g) && s.phases[q].HoldsGroup(g) ==> p == q
  }

  /** At most one thread executes a callback of group g. */
  ghost predicate RunByOne(s: State, g: Group) {
    forall p: nat, q: nat ::
      p < |s.phases| && q < |s.phases| && s.phases[p].Runs(g) && s.phases[q].Runs(g) ==> p == q
  }

  predicate HasTimer(c: Config, g: Group) {
    exists x :: x in c.entities && x.group == g && x.timer.Some?
  }

  /** Group g mixes a timer with an entity that is not that timer. */
  predicate Mixed(c: Config, g: Group) {
    exists x, y :: x in c.entities && y in c.entities
                   && x.group == g && y.group == g && x.timer.Some? && y.timer != x.timer
  }

  // ---------- groups the late store cannot reach ----------

  /** Whoever holds g has its flag down, alone. */
  ghost predicate Guarded(s: State, g: Group) {
    && HeldByOne(s, g)
    && forall p: nat :: p < |s.phases| && s.phases[p].HoldsGroup(g) ==> g in s.taken
  }

  lemma StepKeepsGuarded(c: Config, s: State, m: Move, g: Group)
    requires Inv(c, s) && Guarded(s, g) && Enabled(c, s, m)
    requires g in c.exclusive && (c.late ==> !HasTimer(c, g))
    ensures Guarded(Do(c, s, m), g)
  {
  }

  lemma {:induction false} RunKeepsGuarded(c: Config, run: seq<Move>, g: Group)
    requires g in c.exclusive && (c.late ==> !HasTimer(c, g))
    ensures Exec(c, run).Some? ==> Guarded(Exec(c, run).value, g)
  {
    if run != [] {
      var init := run[..|run| - 1];
      RunKeepsGuarded(c, init, g);
      RunKeepsInv(c, init);
      if Exec(c, run).Some? {
        StepKeepsGuarded(c, Exec(c, init).value, run[|run| - 1], g);
      }
    }
  }

  /** With the reset inside the lock only, every mutually exclusive group is held
      by at most one thread in every interleaving of any number of threads. */
  lemma ExclusionAsIntended(c: Config, s: State, g: Group)
    requires !c.late && g in c.exclusive && Reachable(c, s)
    ensures HeldByOne(s, g)
  {
    var run :| Exec(c, run) == Some(s);
    RunKeepsGuarded(c, run, g);
  }

  // ---------- the breaking run ----------

  /** Threads 0 and 1 in the given phases, every other thread at its loop head. */
  function Shape(c: Config, a: Phase, b: Phase, lock: Option<nat>, scheduled: set<Timer>, taken: set<Group>): State {
    State(lock, Phases(c, a, b), scheduled, taken)
  }

  function Phases(c: Config, a: Phase, b: Phase): seq<Phase> {
    seq(c.threads, p => if p == 0 then a else if p == 1 then b else AtHead)
  }

  lemma PhasesMove(c: Config, a: Phase, b: Phase, ph: Phase)
    requires c.threads >= 2
    ensures Phases(c, a, b)[0 := ph] == Phases(c, ph, b)
    ensures Phases(c, a, b)[1 := ph] == Phases(c, a, ph)
  {
  }

  lemma ShapeMoves(c: Config, a: Phase, b: Phase, lock: Option<nat>, scheduled: set<Timer>, taken: set<Group>,
                   ph: Phase)
    requires c.threads >= 2
    ensures Moves(Shape(c, a, b, lock, scheduled, taken), 0, ph) == Shape(c, ph, b, lock, scheduled, taken)
    ensures Moves(Shape(c, a, b, lock, scheduled, taken), 1, ph) == Shape(c, a, ph, lock, scheduled, taken)
  {
    PhasesMove(c, a, b, ph);
  }

  lemma FromNothing(i: nat)
    ensures {} + {i} == {i}
  {
  }

  /** Thread 0, alone at work, takes and starts x. */
  lemma FirstStarts(c: Config, x: Entity, b: Phase)
    requires c.threads >= 2 && x in c.entities && x.group in c.exclusive && x.timer.Some?
    requires Reachable(c, Shape(c, AtHead, b, None, {}, {}))
    ensures Reachable(c, Shape(c, Running(x), b, None, {x.timer.value}, {x.group}))
  {
    var s0 := Shape(c, AtHead, b, None, {}, {});
    Extend(c, s0, Move(0, Acquire));
    ShapeMoves(c, AtHead, b, None, {}, {}, Locked);
    var s1 := Shape(c, Locked, b, Some(0), {}, {});
    Extend(c, s1, Move(0, Choose(x)));
    ShapeMoves(c, Locked, b, Some(0), {}, {}, Chosen(x));
    var s2 := Shape(c, Chosen(x), b, Some(0), {}, {});
    Extend(c, s2, Move(0, Mark));
    FromNothing(x.group);
    FromNothing(x.timer.value);
    ShapeMoves(c, Chosen(x), b, Some(0), {}, {}, Taken(x));
    var s3 := Shape(c, Taken(x), b, Some(0), {}, {x.group});
    Extend(c, s3, Move(0, Start));
    ShapeMoves(c, Taken(x), b, Some(0), {}, {x.group}, Running(x));
  }

  /** Thread 1 takes z, whose group looks free. */
  lemma SecondTakes(c: Config, z: Entity, a: Phase, scheduled: set<Timer>)
    requires c.threads >= 2 && z in c.entities && z.group in c.exclusive
    requires Reachable(c, Shape(c, a, AtHead, None, scheduled, {}))
    ensures Reachable(c, Shape(c, a, Taken(z), Some(1), scheduled, {z.group}))
  {
    var s0 := Shape(c, a, AtHead, None, scheduled, {});
    Extend(c, s0, Move(1, Acquire));
    ShapeMoves(c, a, AtHead, None, scheduled, {}, Locked);
    var s1 := Shape(c, a, Locked, Some(1), scheduled, {});
    Extend(c, s1, Move(1, Choose(z)));
    ShapeMoves(c, a, Locked, Some(1), scheduled, {}, Chosen(z));
    var s2 := Shape(c, a, Chosen(z), Some(1), scheduled, {});
    Extend(c, s2, Move(1, Mark));
    FromNothing(z.group);
    ShapeMoves(c, a, Chosen(z), Some(1), scheduled, {}, Taken(z));
  }

  /** Thread 0 has executed x and set its flag, but not erased its timer; thread 1
      gets the same timer, discards it, and is left with the store to come. */
  lemma SecondDiscards(c: Config, x: Entity)
    requires c.threads >= 2 && x in c.entities && x.group in c.exclusive && x.timer.Some?
    ensures Reachable(c, Shape(c, AtHead, Discarded(x), None, {}, {}))
  {
    assert Exec(c, []) == Some(Init(c));
    assert Init(c).phases == Phases(c, AtHead, AtHead);
    FirstStarts(c, x, AtHead);
    var t := {x.timer.value};
    Extend(c, Shape(c, Running(x), AtHead, None, t, {x.group}), Move(0, Finish));
    ShapeMoves(c, Running(x), AtHead, None, t, {x.group}, Released(x));
    assert {x.group} - {x.group} == {};
    SecondTakes(c, x, Released(x), t);
    Extend(c, Shape(c, Released(x), Taken(x), Some(1), t, {x.group}), Move(1, ResetGroup));
    ShapeMoves(c, Released(x), Taken(x), Some(1), t, {x.group}, Reset(x));
    Extend(c, Shape(c, Released(x), Reset(x), Some(1), t, {}), Move(1, Unlock));
    ShapeMoves(c, Released(x), Reset(x), Some(1), t, {}, Discarded(x));
    Extend(c, Shape(c, Released(x), Discarded(x), None, t, {}), Move(0, Lock));
    ShapeMoves(c, Released(x), Discarded(x), None, t, {}, Erasing(x));
    Extend(c, Shape(c, Erasing(x), Discarded(x), Some(0), t, {}), Move(0, Erase));
    ShapeMoves(c, Erasing(x), Discarded(x), Some(0), t, {}, AtHead);
    assert t - {x.timer.value} == {};
  }

  /** The late store frees x's group while thread 0 executes x, and thread 1 takes
      any z of the group. */
  lemma BreakingRun(c: Config, x: Entity, z: Entity)
    requires c.late && c.threads >= 2 && x in c.entities && z in c.entities
    requires x.group in c.exclusive && z.group == x.group && x.timer.Some?
    ensures Reachable(c, Shape(c, Running(x), Taken(z), Some(1), {x.timer.value}, {x.group}))
  {
    SecondDiscards(c, x);
    FirstStarts(c, x, Discarded(x));
    var t := {x.timer.value};
    Extend(c, Shape(c, Running(x), Discarded(x), None, t, {x.group}), Move(1, Destroy));
    ShapeMoves(c, Running(x), Discarded(x), None, t, {x.group}, AtHead);
    assert {x.group} - {x.group} == {};
    SecondTakes(c, z, Running(x), t);
  }

  // ---------- exactly which groups the program protects ----------

  /** With the late store, a group is held by at most one thread in all runs exactly
      when there is only one thread or no timer belongs to the group. */
  lemma HeldByOneExactly(c: Config, g: Group)
    requires c.late && g in c.exclusive
    ensures (forall s :: Reachable(c, s) ==> HeldByOne(s, g)) <==> c.threads < 2 || !HasTimer(c, g)
  {
    if c.threads < 2 {
      forall s | Reachable(c, s) ensures HeldByOne(s, g) {
        ReachableInv(c, s);
      }
    } else if HasTimer(c, g) {
      var x :| x in c.entities && x.group == g && x.timer.Some?;
      BreakingRun(c, x, x);
      var s := Shape(c, Running(x), Taken(x), Some(1), {x.timer.value}, {x.group});
      assert s.phases[0].HoldsGroup(g) && s.phases[1].HoldsGroup(g);
      assert !HeldByOne(s, g);
    } else {
      forall s | Reachable(c, s) ensures HeldByOne(s, g) {
        var run :| Exec(c, run) == Some(s);
        RunKeepsGuarded(c, run, g);
      }
    }
  }

  /** With the late store, two callbacks of a group never execute at once in any run
      exactly when there is only one thread or the group does not mix a timer with
      anything else. */
  lemma RunByOneExactly(c: Config, g: Group)
    requires c.late && g in c.exclusive
    ensures (forall s :: Reachable(c, s) ==> RunByOne(s, g)) <==> c.threads < 2 || !Mixed(c, g)
  {
    if c.threads < 2 {
      forall s | Reachable(c, s) ensures RunByOne(s, g) {
        ReachableInv(c, s);
      }
    } else if Mixed(c, g) {
      var x, y :| x in c.entities && y in c.entities
                  && x.group == g && y.group == g && x.timer.Some? && y.timer != x.timer;
      MixedBreaks(c, x, y);
    } else {
      forall s | Reachable(c, s) ensures RunByOne(s, g) {
        UnmixedRunByOne(c, s, g);
      }
    }
  }

  lemma MixedBreaks(c: Config, x: Entity, y: Entity)
    requires c.late && c.threads >= 2 && x in c.entities && y in c.entities
    requires x.group in c.exclusive && y.group == x.group && x.timer.Some? && y.timer != x.timer
    ensures exists s :: Reachable(c, s) && !RunByOne(s, x.group)
  {
    BreakingRun(c, x, y);
    var s := Shape(c, Running(x), Taken(y), Some(1), {x.timer.value}, {x.group});
    Extend(c, s, Move(1, Start));
    var s' := Do(c, s, Move(1, Start));
    assert s'.phases[0].Runs(x.group) && s'.phases[1].Runs(x.group);
  }

  lemma UnmixedRunByOne(c: Config, s: State, g: Group)
    requires Reachable(c, s) && g in c.exclusive && !Mixed(c, g)
    ensures RunByOne(s, g)
  {
    ReachableInv(c, s);
    if HasTimer(c, g) {
      var x :| x in c.entities && x.group == g && x.timer.Some?;
      forall p: nat | p < |s.phases| && s.phases[p].Runs(g) ensures s.phases[p].HoldsTimer(x.timer.value) {
      }
    } else {
      var run :| Exec(c, run) == Some(s);
      RunKeepsGuarded(c, run, g);
    }
  }
}
