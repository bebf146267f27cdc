/** What a round of the strategy sees of the group flags while its thread holds
    the lock: the growing sets that the strategy's round is specified with. */
module LockedRound {
  import opened Options
  import opened Executable
  import opened Protocol
  import opened Spinning
  import Fleets
  import Strategy

  lemma {:induction false} PrefixPossible(c: Config, s: State, run: seq<Move>, k: nat)
    requires ExecFrom(c, s, run).Some? && k <= |run|
    ensures ExecFrom(c, s, run[..k]).Some?
  {
    if k < |run| {
      PrefixPossible(c, s, run[..|run| - 1], k);
      assert run[..|run| - 1][..k] == run[..k];
    } else {
      assert run[..k] == run;
    }
  }

  function TakenAfter(c: Config, s: State, run: seq<Move>, k: nat): set<Group>
    requires ExecFrom(c, s, run).Some? && k <= |run|
  {
    PrefixPossible(c, s, run, k);
    ExecFrom(c, s, run[..k]).value.taken
  }

  /** The groups among `all` whose flag is up after the first i moves of the other
      threads; once those are over, the flags stay as they are. */
  function SeenFree(c: Config, s: State, run: seq<Move>, all: set<Group>): nat -> set<Group>
    requires ExecFrom(c, s, run).Some?
  {
    (i: nat) => all - TakenAfter(c, s, run, if i < |run| then i else |run|)
  }

  lemma OneMoreMove(c: Config, s: State, p: nat, run: seq<Move>, k: nat)
    requires Inv(c, s) && s.lock == Some(p) && p < |s.phases|
    requires forall n :: 0 <= n < |run| ==> run[n].thread != p
    requires ExecFrom(c, s, run).Some? && k < |run|
    ensures TakenAfter(c, s, run, k + 1) <= TakenAfter(c, s, run, k)
  {
    hide Enabled, Do, Inv;
    PrefixPossible(c, s, run, k);
    PrefixPossible(c, s, run, k + 1);
    assert run[..k + 1][..k] == run[..k];
    FreeGroupsGrow(c, s, p, run[..k]);
    OthersOnlyFree(c, ExecFrom(c, s, run[..k]).value, p, run[k]);
  }

  lemma {:induction false} FlagsGoUp(c: Config, s: State, p: nat, run: seq<Move>, k: nat, k': nat)
    requires Inv(c, s) && s.lock == Some(p) && p < |s.phases|
    requires forall n :: 0 <= n < |run| ==> run[n].thread != p
    requires ExecFrom(c, s, run).Some? && k <= k' <= |run|
    ensures TakenAfter(c, s, run, k') <= TakenAfter(c, s, run, k)
  {
    hide ExecFrom, Inv;
    if k < k' {
      FlagsGoUp(c, s, p, run, k, k' - 1);
      OneMoreMove(c, s, p, run, k' - 1);
    }
  }

  /** While thread p holds the lock, whatever the other threads do, the groups it
      sees free only become more, starting with those free when it collected. */
  lemma SeenFreeGrows(c: Config, s: State, p: nat, run: seq<Move>, all: set<Group>)
    requires Reachable(c, s) && s.lock == Some(p) && p < |s.phases|
    requires forall n :: 0 <= n < |run| ==> run[n].thread != p
    requires ExecFrom(c, s, run).Some?
    ensures forall i: nat, j: nat :: i <= j ==> SeenFree(c, s, run, all)(i) <= SeenFree(c, s, run, all)(j)
    ensures SeenFree(c, s, run, all)(0) == all - s.taken
  {
    ReachableInv(c, s);
    forall i: nat, j: nat | i <= j
      ensures SeenFree(c, s, run, all)(i) <= SeenFree(c, s, run, all)(j)
    {
      FlagsGoUp(c, s, p, run, if i < |run| then i else |run|, if j < |run| then j else |run|);
    }
    assert run[..0] == [];
    assert TakenAfter(c, s, run, 0) == s.taken;
  }

  // ---------- a round of the strategy between the other threads' moves ----------

  /** What is seen for the i-th pop, after at(i) moves. */
  function PopByPop(seen: nat -> set<Group>, at: nat -> nat): nat -> set<Group> {
    (i: nat) => seen(at(i))
  }

  /** What a round sees that collects in state s and looks at the flags for its i-th
      pop after at(i) moves of the other threads. */
  function RoundInput(c: Config, s: State, run: seq<Move>, all: set<Group>, at: nat -> nat, ready: set<Handle>,
                      now: int): Input
    requires ExecFrom(c, s, run).Some?
  {
    Input(all - s.taken, ready, PopByPop(SeenFree(c, s, run, all), at), now)
  }

  lemma GrowsPopByPop(seen: nat -> set<Group>, at: nat -> nat, free: set<Group>, ready: set<Handle>, now: int)
    requires seen(0) == free && forall i: nat, j: nat :: i <= j ==> seen(i) <= seen(j)
    requires forall i: nat, j: nat :: i <= j ==> at(i) <= at(j)
    ensures Possible(Input(free, ready, PopByPop(seen, at), now))
  {
  }

  /** However many moves fall between two pops, that is an input a round can get. */
  lemma RoundIsPossible(c: Config, s: State, p: nat, run: seq<Move>, all: set<Group>, at: nat -> nat,
                        ready: set<Handle>, now: int)
    requires Reachable(c, s) && s.lock == Some(p) && p < |s.phases|
    requires forall n :: 0 <= n < |run| ==> run[n].thread != p
    requires ExecFrom(c, s, run).Some? && forall i: nat, j: nat :: i <= j ==> at(i) <= at(j)
    ensures Possible(RoundInput(c, s, run, all, at, ready, now))
  {
    hide SeenFree, ExecFrom, Reachable, Possible, PopByPop;
    SeenFreeGrows(c, s, p, run, all);
    GrowsPopByPop(SeenFree(c, s, run, all), at, all - s.taken, ready, now);
  }

  /** Every listed handle is an entity of the protocol, in the group that lists it. */
  ghost predicate Represents(entityOf: map<Handle, Entity>, c: Config, groups: seq<Strategy.CallbackGroup>) {
    forall g, h :: g in groups && g.Lists(h) ==>
      h in entityOf && entityOf[h] in c.entities && entityOf[h].group == g.id
  }

  /** What is listed by a group that was free at collection can be chosen in every
      state that the other threads' moves lead to. */
  lemma ListedIsEnabled(c: Config, s: State, p: nat, run: seq<Move>, k: nat, all: set<Group>,
                        groups: seq<Strategy.CallbackGroup>, entityOf: map<Handle, Entity>, h: Handle)
    requires Reachable(c, s) && p < |s.phases| && s.phases[p] == Locked
    requires forall n :: 0 <= n < |run| ==> run[n].thread != p
    requires ExecFrom(c, s, run).Some? && k <= |run|
    requires Represents(entityOf, c, groups) && Strategy.ListedBy(groups, all - s.taken, h)
    ensures h in entityOf && ExecFrom(c, s, run[..k]).Some?
    ensures Enabled(c, ExecFrom(c, s, run[..k]).value, Move(p, Choose(entityOf[h])))
  {
    ReachableInv(c, s);
    PrefixPossible(c, s, run, k);
    FreeGroupsGrow(c, s, p, run[..k]);
    PhaseStays(c, s, p, run[..k]);
    var g :| g in groups && g.id in all - s.taken && g.Lists(h);
  }

  lemma {:induction false} PhaseStays(c: Config, s: State, p: nat, run: seq<Move>)
    requires p < |s.phases| && ExecFrom(c, s, run).Some?
    requires forall n :: 0 <= n < |run| ==> run[n].thread != p
    ensures p < |ExecFrom(c, s, run).value.phases| && ExecFrom(c, s, run).value.phases[p] == s.phases[p]
  {
    if run != [] {
      PhaseStays(c, s, p, run[..|run| - 1]);
    }
  }

  /** A round of thread p, which holds the lock, while the other threads make any
      moves: what it hands out is a choice that the protocol allows it in each of the
      states in between. */
  method RoundUnderLock(strategy: Strategy.PriorityMemoryStrategy, groups: seq<Strategy.CallbackGroup>,
                        groupOf: map<Handle, Group>,
                        c: Config, s: State, p: nat, run: seq<Move>, all: set<Group>, at: nat -> nat,
                        ready: set<Handle>, now: int, entityOf: map<Handle, Entity>, ghost peer: DeadlineRing?)
    returns (r: Option<Handle>)
    requires strategy.Valid() && strategy.CanRun(peer) && Strategy.GroupsKnown(groups, groupOf)
    requires Reachable(c, s) && p < |s.phases| && s.phases[p] == Locked
    requires forall n :: 0 <= n < |run| ==> run[n].thread != p
    requires ExecFrom(c, s, run).Some? && forall i: nat, j: nat :: i <= j ==> at(i) <= at(j)
    requires Represents(entityOf, c, groups)
    modifies strategy, strategy.Executables(), strategy.KnownRings(), peer
    ensures strategy.Valid() && strategy.CanRun(peer) && strategy.isF1tenth == old(strategy.isF1tenth)
    ensures Fleets.Moves(old(strategy.Snapshot()), strategy.Snapshot(), strategy.isF1tenth, peer, r, now)
    ensures IsChoice(old(strategy.Snapshot()), groups, RoundInput(c, s, run, all, at, ready, now), r)
    ensures r.Some? ==> r.value in ready
    ensures forall h :: h in ready && Strategy.OfferedBy(groups, all - s.taken, old(strategy.priorityMap).Keys, h) ==>
      r.Some? && Below(Fleets.KeyIn(old(strategy.Snapshot()), h), Fleets.KeyIn(old(strategy.Snapshot()), r.value))
    ensures r.Some? ==> r.value in entityOf && forall k: nat :: k <= |run| ==>
      && ExecFrom(c, s, run[..k]).Some?
      && Enabled(c, ExecFrom(c, s, run[..k]).value, Move(p, Choose(entityOf[r.value])))
  {
    hide *;
    HoldsLock(c, s, p);
    RoundIsPossible(c, s, p, run, all, at, ready, now);
    var input := RoundInput(c, s, run, all, at, ready, now);
    InputIs(c, s, run, all, at, ready, now);
    KnownHandles(strategy);
    r := OneRound(strategy, groups, groupOf, input, peer);
    ChoiceIs(old(strategy.Snapshot()), groups, input, r);
    if r.Some? {
      ChosenIsListed(old(strategy.Snapshot()), groups, input, r);
      forall k: nat | k <= |run|
        ensures r.value in entityOf && ExecFrom(c, s, run[..k]).Some?
        ensures Enabled(c, ExecFrom(c, s, run[..k]).value, Move(p, Choose(entityOf[r.value])))
      {
        ListedIsEnabled(c, s, p, run, k, all, groups, entityOf, r.value);
      }
      ListedIsEnabled(c, s, p, run, 0, all, groups, entityOf, r.value);
    }
  }

  lemma HoldsLock(c: Config, s: State, p: nat)
    requires Reachable(c, s) && p < |s.phases| && s.phases[p] == Locked
    ensures s.lock == Some(p)
  {
    ReachableInv(c, s);
  }

  lemma ChosenIsListed(f: Fleets.Fleet, groups: seq<Strategy.CallbackGroup>, input: Input, r: Option<Handle>)
    requires Fleets.Valid(f) && IsChoice(f, groups, input, r) && r.Some?
    ensures Strategy.ListedBy(groups, input.free, r.value)
  {
    Strategy.OfferedIsListed(groups, input.free, f.views.Keys, r.value);
  }

  lemma ChoiceIs(f: Fleets.Fleet, groups: seq<Strategy.CallbackGroup>, input: Input, r: Option<Handle>)
    requires Fleets.Valid(f) && IsChoice(f, groups, input, r)
    ensures r.Some? ==> r.value in input.ready
    ensures forall h :: h in input.ready && Strategy.OfferedBy(groups, input.free, f.views.Keys, h) ==>
      r.Some? && Below(Fleets.KeyIn(f, h), Fleets.KeyIn(f, r.value))
  {
  }

  lemma InputIs(c: Config, s: State, run: seq<Move>, all: set<Group>, at: nat -> nat, ready: set<Handle>, now: int)
    requires ExecFrom(c, s, run).Some?
    ensures RoundInput(c, s, run, all, at, ready, now).free == all - s.taken
    ensures RoundInput(c, s, run, all, at, ready, now).ready == ready
    ensures RoundInput(c, s, run, all, at, ready, now).now == now
  {
  }
}
