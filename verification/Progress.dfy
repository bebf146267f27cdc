/** No thread is ever stuck: whatever state the threads are in, they can all get back
    to the heads of their loops. */
module Progress {
  import opened Options
  import opened Protocol

  /** Thread p never has to wait on its way to the head of its loop: the lock is free
      or its own, or it will not need it. */
  predicate Unhindered(s: State, p: nat)
    requires p < |s.phases|
  {
    || s.lock == None || s.lock == Some(p)
    || match s.phases[p]
       case AtHead => true
       case Discarded(_) => true
       case Running(e) => e.timer == None
       case Released(e) => e.timer == None
       case _ => false
  }

  /** The shortest way home takes at most this many moves. */
  function Distance(ph: Phase): nat {
    match ph
    case AtHead => 0
    case Locked => 1
    case Discarded(_) => 1
    case Erasing(_) => 1
    case Reset(_) => 2
    case Released(_) => 2
    case Running(_) => 3
    case Taken(_) => 4
    case Chosen(_) => 5
  }

  /** The move of thread p that leads on. */
  function Onward(s: State, p: nat): Move
    requires p < |s.phases|
  {
    Move(p, match s.phases[p]
            case AtHead => Acquire
            case Locked => GiveUp
            case Chosen(_) => Mark
            case Taken(e) => if Duplicate(s, e) then ResetGroup else Start
            case Reset(_) => Unlock
            case Discarded(_) => Destroy
            case Running(_) => Finish
            case Released(e) => if e.timer == None then Leave else Lock
            case Erasing(_) => Erase)
  }

  lemma OnwardLeadsHome(c: Config, s: State, p: nat)
    requires Inv(c, s) && p < |s.phases| && !s.phases[p].AtHead? && Unhindered(s, p)
    ensures Enabled(c, s, Onward(s, p))
    ensures var s' := Do(c, s, Onward(s, p));
      && |s'.phases| == |s.phases| && Unhindered(s', p) && Distance(s'.phases[p]) < Distance(s.phases[p])
      && (forall q: nat :: q < |s.phases| && q != p ==> s'.phases[q] == s.phases[q])
      && (s.lock != None && s.lock != Some(p) ==> s'.lock == s.lock)
      && (s.lock == None || s.lock == Some(p) ==> s'.lock == None || s'.lock == Some(p))
  {
  }

  lemma {:induction false} ExecAppends(c: Config, s: State, run: seq<Move>, more: seq<Move>)
    requires ExecFrom(c, s, run).Some?
    ensures ExecFrom(c, s, run + more) == ExecFrom(c, ExecFrom(c, s, run).value, more)
  {
    if more == [] {
      assert run + more == run;
    } else {
      var init := more[..|more| - 1];
      ExecAppends(c, s, run, init);
      assert (run + more)[..|run + more| - 1] == run + init;
    }
  }

  /** s' is reached from s by the run; thread p is home, the others are where they were. */
  ghost predicate LeadsHome(c: Config, s: State, p: nat, run: seq<Move>, s': State)
    requires p < |s.phases|
  {
    && ExecFrom(c, s, run) == Some(s') && Inv(c, s') && |s'.phases| == |s.phases| && s'.phases[p].AtHead?
    && (forall q: nat :: q < |s.phases| && q != p ==> s'.phases[q] == s.phases[q])
    && s'.lock == if s.lock == Some(p) then None else s.lock
  }

  /** An unhindered thread gets home by moves of its own: from looking for work in
      vain, from a callback of its own, from a duplicate timer. */
  lemma {:induction false} GetsHome(c: Config, s: State, p: nat) returns (run: seq<Move>, s': State)
    requires Inv(c, s) && p < |s.phases| && Unhindered(s, p)
    ensures LeadsHome(c, s, p, run, s')
    ensures forall n :: 0 <= n < |run| ==> run[n].thread == p
    decreases Distance(s.phases[p])
  {
    if s.phases[p].AtHead? {
      run, s' := [], s;
    } else {
      hide Inv, Enabled, Do, Unhindered;
      var m := Onward(s, p);
      OnwardLeadsHome(c, s, p);
      StepKeepsInv(c, s, m);
      var more;
      more, s' := GetsHome(c, Do(c, s, m), p);
      FirstMove(c, s, m);
      ExecAppends(c, s, [m], more);
      run := [m] + more;
      AtHeadHasNoLock(c, s', p);
    }
  }

  lemma FirstMove(c: Config, s: State, m: Move)
    requires Enabled(c, s, m)
    ensures ExecFrom(c, s, [m]) == Some(Do(c, s, m))
  {
    assert [m][..0] == [];
    assert ExecFrom(c, s, [m][..0]) == Some(s);
  }

  lemma AtHeadHasNoLock(c: Config, s: State, p: nat)
    requires Inv(c, s) && p < |s.phases| && s.phases[p].AtHead?
    ensures s.lock != Some(p)
  {
  }

  /** With the lock free, the first k threads get home one after the other. */
  lemma {:induction false} FirstGetHome(c: Config, s: State, k: nat) returns (run: seq<Move>, s': State)
    requires Inv(c, s) && s.lock == None && k <= |s.phases|
    ensures ExecFrom(c, s, run) == Some(s') && Inv(c, s') && |s'.phases| == |s.phases| && s'.lock == None
    ensures forall p: nat :: p < k ==> s'.phases[p].AtHead?
  {
    if k == 0 {
      run, s' := [], s;
    } else {
      hide Inv, ExecFrom;
      var mid, more;
      run, mid := FirstGetHome(c, s, k - 1);
      more, s' := GetsHome(c, mid, k - 1);
      ExecAppends(c, s, run, more);
      run := run + more;
    }
  }

  /** From every reachable state, with or without the late store, some run leads to a
      state in which every thread is at the head of its loop, the lock is free, no timer
      is scheduled and no flag is down. */
  lemma AllCanGetHome(c: Config, s: State) returns (run: seq<Move>, s': State)
    requires Reachable(c, s)
    ensures ExecFrom(c, s, run) == Some(s') && Reachable(c, s')
    ensures forall p: nat :: p < |s'.phases| ==> s'.phases[p].AtHead?
    ensures s'.lock == None && s'.scheduled == {} && s'.taken == {}
  {
    ReachableInv(c, s);
    var first, mid := HolderGetsHome(c, s);
    var more;
    more, s' := FirstGetHome(c, mid, |mid.phases|);
    ExecAppends(c, s, first, more);
    run := first + more;
    ReachesFurther(c, s, run);
    Quiescent(c, s');
  }

  lemma HolderGetsHome(c: Config, s: State) returns (run: seq<Move>, s': State)
    requires Inv(c, s)
    ensures ExecFrom(c, s, run) == Some(s') && Inv(c, s') && s'.lock == None
  {
    if s.lock == None {
      run, s' := [], s;
    } else {
      run, s' := GetsHome(c, s, s.lock.value);
    }
  }

  lemma ReachesFurther(c: Config, s: State, run: seq<Move>)
    requires Reachable(c, s) && ExecFrom(c, s, run).Some?
    ensures Reachable(c, ExecFrom(c, s, run).value)
  {
    var before :| Exec(c, before) == Some(s);
    ExecAppends(c, Init(c), before, run);
    assert Exec(c, before + run) == Some(ExecFrom(c, s, run).value);
  }

  /** A thread that found no work, and one that has executed something without a
      timer, gets home on its own in one move, whatever the others do. */
  lemma OneMoveHome(c: Config, s: State, p: nat)
    requires Reachable(c, s) && p < |s.phases|
    requires s.phases[p].Locked? || (s.phases[p].Released? && s.phases[p].e.timer == None)
    ensures exists m: Move :: m.thread == p && Enabled(c, s, m) && Do(c, s, m).phases[p].AtHead?
  {
    ReachableInv(c, s);
    OnwardLeadsHome(c, s, p);
    assert Do(c, s, Onward(s, p)).phases[p].AtHead?;
  }
}
