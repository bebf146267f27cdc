/** One chain of callbacks under the deadline strategy: its deadline ring, the
    release clock of its timer and the callbacks' ring indices, over any run of
    takes. The timer may be another chain's: it then mirrors its pushes. */
module Chain {
  import opened Arithmetic
  import opened Options
  import opened SlotTable
  import ReleaseClock

  /** Callback 0 is the timer, callback `callbacks - 1` the last one. The ring has
      `ring` queues. `deadline` is the chain's relative deadline; `seed` and `push`
      are what is added to a release for the entry of instance 0 and for the entries
      the timer pushes. In a chain with a timer of its own `push` is the deadline;
      in a fed one it is the feeding chain's. */
  datatype Config = Config(period: nat, deadline: nat, callbacks: nat, ring: nat, fed: bool, seed: int, push: nat) {
    /** The turn of the timer's index: the number of slots of its own chain. */
    function Turn(): (n: nat)
      requires period > 0 && push > 0
      ensures n > 0
    {
      CeilDiv(push, period)
    }

    function Last(): nat
      requires callbacks > 0
    {
      callbacks - 1
    }

    /** The turn of callback b's index. */
    function TurnOf(b: nat): nat
      requires period > 0 && push > 0
    {
      if b == 0 then Turn() else ring
    }

    /** How many instances can be unfinished before their deadlines. */
    function Depth(): nat
      requires period > 0
    {
      CeilDiv(deadline, period)
    }

    /** What is added to instance n's release for its entry in the ring. */
    function Entry(n: nat): int {
      if n == 0 then seed else push
    }
  }

  /** Every push lands in the ring. */
  predicate ValidConfig(c: Config) {
    && c.period > 0 && c.deadline > 0 && c.push > 0 && c.callbacks > 0
    && c.Turn() <= c.ring && (c.fed ==> c.callbacks > 1)
  }

  /** The timer's index goes around the whole ring. */
  predicate InStep(c: Config)
    requires ValidConfig(c)
  {
    c.Turn() == c.ring
  }

  /** A chain with a timer of its own and ceil(D / T) queues. */
  function Plain(period: nat, deadline: nat, callbacks: nat): (c: Config)
    requires period > 0 && deadline > 0 && callbacks > 0
    ensures ValidConfig(c) && InStep(c) && c.Depth() <= c.ring
  {
    Config(period, deadline, callbacks, CeilDiv(deadline, period), false, deadline, deadline)
  }

  datatype State = State(slots: Slots, release: int, cur: seq<nat>)

  /** A callback of the chain is handed out at time `now`. */
  datatype Take = Take(callback: nat, now: int)

  predicate ValidState(c: Config, s: State) {
    && ValidConfig(c)
    && |s.slots| == c.ring
    && |s.cur| == c.callbacks
    && forall b :: 0 <= b < |s.cur| ==> s.cur[b] < c.TurnOf(b)
  }

  /** The ring as set up: instance 0's deadline in slot 0. */
  function Seeded(c: Config, release: int): (s: State)
    requires ValidConfig(c)
    ensures ValidState(c, s)
  {
    State(seq(c.ring, s => if s == 0 then [Narrow(release + c.seed)] else []),
          release,
          seq(c.callbacks, b => 0))
  }

  /** What handing out a callback does to its chain: the timer advances the clock
      and pushes the next instance's entry, the last callback pops its slot, and
      the index moves on. */
  function After(c: Config, s: State, e: Take): (s': State)
    requires ValidState(c, s) && e.callback < c.callbacks
    ensures ValidState(c, s')
  {
    var index, n := s.cur[e.callback], c.TurnOf(e.callback);
    var release := if e.callback == 0 then ReleaseClock.Next(s.release, c.period, e.now) else s.release;
    var push := if e.callback == 0 then Some(Narrow(release + c.push)) else None;
    State(MoveRing(s.slots, index, n, push, e.callback == c.Last()), release, s.cur[e.callback := (index + 1) % n])
  }

  // ---------- the ledger a chain's state stands for ----------

  /** The releases of instances 0, 1, .. and how often each callback was taken.
      Callback b's next take is for instance takes[b]. */
  datatype Ledger = Ledger(rel: seq<int>, takes: seq<nat>)

  predicate ValidLedger(c: Config, l: Ledger) {
    ValidConfig(c) && |l.takes| == c.callbacks && |l.rel| == l.takes[0] + 1
  }

  function FirstEntry(c: Config, release: int): (l: Ledger)
    requires ValidConfig(c)
    ensures ValidLedger(c, l)
  {
    Ledger([release], seq(c.callbacks, b => 0))
  }

  function Record(c: Config, l: Ledger, e: Take): (l': Ledger)
    requires ValidLedger(c, l) && e.callback < c.callbacks
    ensures ValidLedger(c, l')
  {
    Ledger(if e.callback == 0 then l.rel + [ReleaseClock.Next(l.rel[|l.rel| - 1], c.period, e.now)] else l.rel,
           l.takes[e.callback := l.takes[e.callback] + 1])
  }

  function Deadlines(c: Config, rel: seq<int>): (t: seq<nat>)
    ensures |t| == |rel|
  {
    seq(|rel|, n requires 0 <= n < |rel| => Narrow(rel[n] + c.Entry(n)))
  }

  /** The oldest instance that has not finished: the last callback's next. */
  function Oldest(c: Config, l: Ledger): nat
    requires ValidLedger(c, l)
  {
    l.takes[c.Last()]
  }

  /** The ring is the table of the unfinished instances' deadlines, the clock is
      the newest release, every index is the callback's instance modulo N. */
  ghost predicate Refines(c: Config, s: State, l: Ledger) {
    && ValidState(c, s) && ValidLedger(c, l)
    && Holds(s.slots, Deadlines(c, l.rel), Oldest(c, l))
    && s.release == l.rel[|l.rel| - 1]
    && forall b: nat :: b < c.callbacks ==> s.cur[b] == l.takes[b] % c.TurnOf(b)
  }

  lemma ZeroInTurn(n: nat)
    requires n > 0
    ensures 0 % n == 0
  {
  }

  /** A table of one entry fills slot 0 only. */
  lemma FirstColumns(table: seq<nat>, n: nat)
    requires n > 0 && |table| == 1
    ensures forall s: nat :: s < n ==> Column(table, 0, s, n) == if s == 0 then table else []
  {
    assert table[..0] == [] && table == [table[0]];
    assert 0 % n == 0;
  }

  lemma SeedRefines(c: Config, release: int)
    requires ValidConfig(c)
    ensures Refines(c, Seeded(c, release), FirstEntry(c, release))
  {
    var t := Deadlines(c, [release]);
    assert t == [Narrow(release + c.seed)];
    FirstColumns(t, c.ring);
    hide Deadlines, Column, CeilDiv;
    forall b: nat | b < c.callbacks ensures 0 == 0 % c.TurnOf(b) {
      ZeroInTurn(c.TurnOf(b));
    }
  }

  // ---------- one take ----------

  /** A pop is admissible when its instance has been released. */
  predicate Admissible(c: Config, l: Ledger, e: Take)
    requires ValidLedger(c, l)
  {
    e.callback == c.Last() ==> Oldest(c, l) <= l.takes[0]
  }

  /** Pushing a newer release's entry one slot ahead of the timer's index. */
  lemma PushRefines(c: Config, s: State, l: Ledger, release: int)
    requires Refines(c, s, l) && InStep(c) && Oldest(c, l) <= l.takes[0] + 1
    ensures Holds(PushAt(s.slots, (s.cur[0] + 1) % c.ring, Narrow(release + c.push)),
                  Deadlines(c, l.rel + [release]), Oldest(c, l))
  {
    NextIndex(l.takes[0], c.ring);
    PushExtends(s.slots, Deadlines(c, l.rel), Oldest(c, l), Narrow(release + c.push));
    assert Deadlines(c, l.rel + [release]) == Deadlines(c, l.rel) + [Narrow(release + c.push)];
  }

  lemma TimerTakeHolds(c: Config, s: State, l: Ledger, now: int)
    requires Refines(c, s, l) && InStep(c) && Oldest(c, l) <= l.takes[0] + 1 && Admissible(c, l, Take(0, now))
    ensures var l' := Record(c, l, Take(0, now));
      Holds(After(c, s, Take(0, now)).slots, Deadlines(c, l'.rel), Oldest(c, l'))
  {
    hide Holds, Column, Deadlines, CeilDiv, ReleaseClock.Next, Narrow, PopAt;
    var release := ReleaseClock.Next(s.release, c.period, now);
    PushRefines(c, s, l, release);
    if c.Last() == 0 {
      PopShrinks(PushAt(s.slots, (s.cur[0] + 1) % c.ring, Narrow(release + c.push)),
                 Deadlines(c, l.rel + [release]), Oldest(c, l));
    }
  }

  lemma CallbackTakeHolds(c: Config, s: State, l: Ledger, e: Take)
    requires Refines(c, s, l) && 0 < e.callback < c.callbacks && Admissible(c, l, e)
    ensures var l' := Record(c, l, e);
      Holds(After(c, s, e).slots, Deadlines(c, l'.rel), Oldest(c, l'))
  {
    if e.callback == c.Last() {
      PopShrinks(s.slots, Deadlines(c, l.rel), Oldest(c, l));
    }
  }

  lemma TakeRefines(c: Config, s: State, l: Ledger, e: Take)
    requires Refines(c, s, l) && InStep(c) && e.callback < c.callbacks && Oldest(c, l) <= l.takes[0] + 1
    requires Admissible(c, l, e)
    ensures Refines(c, After(c, s, e), Record(c, l, e))
  {
    NextIndex(l.takes[e.callback], c.TurnOf(e.callback));
    if e.callback == 0 {
      TimerTakeHolds(c, s, l, e.now);
    } else {
      CallbackTakeHolds(c, s, l, e);
    }
  }

  /** For a chain of two or more callbacks, a last take followed by a timer take
      leaves ring and table in step exactly when the pop was admissible: an early
      pop finds its slot empty, and the deadline pushed later is stranded. */
  lemma EarlyPopStrands(c: Config, s: State, l: Ledger, e: Take, timer: Take)
    requires Refines(c, s, l) && InStep(c) && c.callbacks >= 2 && e.callback == c.Last() && timer.callback == 0
    ensures Refines(c, After(c, After(c, s, e), timer), Record(c, Record(c, l, e), timer))
       <==> Oldest(c, l) <= l.takes[0]
  {
    if Oldest(c, l) <= l.takes[0] {
      TakeRefines(c, s, l, e);
      TakeRefines(c, After(c, s, e), Record(c, l, e), timer);
    } else {
      EarlyPopLeaves(c, s, l, e, timer);
    }
  }

  lemma EarlyPopLeaves(c: Config, s: State, l: Ledger, e: Take, timer: Take)
    requires Refines(c, s, l) && InStep(c) && c.callbacks >= 2 && e.callback == c.Last() && timer.callback == 0
    requires Oldest(c, l) > l.takes[0]
    ensures !Refines(c, After(c, After(c, s, e), timer), Record(c, Record(c, l, e), timer))
  {
    var s1, l2 := After(c, s, e), Record(c, Record(c, l, e), timer);
    var slot := (s.cur[0] + 1) % c.ring;
    assert s1.slots == s.slots;
    assert After(c, s1, timer).slots[slot] != [];
    assert Column(Deadlines(c, l2.rel), Oldest(c, l2), slot, c.ring) == [];
  }

  // ---------- runs ----------

  predicate ValidRun(c: Config, run: seq<Take>) {
    ValidConfig(c) && forall n :: 0 <= n < |run| ==> run[n].callback < c.callbacks
  }

  function Reached(c: Config, first: int, run: seq<Take>): (s: State)
    requires ValidRun(c, run)
    ensures ValidState(c, s)
  {
    if run == [] then Seeded(c, first)
    else After(c, Reached(c, first, run[..|run| - 1]), run[|run| - 1])
  }

  function Recorded(c: Config, first: int, run: seq<Take>): (l: Ledger)
    requires ValidRun(c, run)
    ensures ValidLedger(c, l)
  {
    if run == [] then FirstEntry(c, first)
    else Record(c, Recorded(c, first, run[..|run| - 1]), run[|run| - 1])
  }

  /** Every pop of the run is admissible. */
  ghost predicate AdmissibleRun(c: Config, first: int, run: seq<Take>)
    requires ValidRun(c, run)
  {
    forall n: nat :: n < |run| ==> Admissible(c, Recorded(c, first, run[..n]), run[n])
  }

  lemma AdmissiblePrefix(c: Config, first: int, run: seq<Take>)
    requires ValidRun(c, run) && AdmissibleRun(c, first, run) && run != []
    ensures AdmissibleRun(c, first, run[..|run| - 1])
    ensures Admissible(c, Recorded(c, first, run[..|run| - 1]), run[|run| - 1])
  {
    hide Admissible, Recorded;
    var init := run[..|run| - 1];
    forall n: nat | n < |init| ensures Admissible(c, Recorded(c, first, init[..n]), init[n]) {
      assert init[..n] == run[..n];
    }
    var k: nat := |run| - 1;
    assert Admissible(c, Recorded(c, first, run[..k]), run[k]);
  }

  /** The ring behaves as the unbounded table in every run, and never loses or
      keeps an entry: one queued deadline per unfinished instance. */
  lemma {:induction false} RunRefines(c: Config, first: int, run: seq<Take>)
    requires ValidRun(c, run) && InStep(c) && AdmissibleRun(c, first, run)
    ensures Refines(c, Reached(c, first, run), Recorded(c, first, run))
    ensures Oldest(c, Recorded(c, first, run)) <= Recorded(c, first, run).takes[0] + 1
    ensures Queued(Reached(c, first, run).slots)
         == 1 + Recorded(c, first, run).takes[0] - Oldest(c, Recorded(c, first, run))
  {
    if run == [] {
      SeedRefines(c, first);
    } else {
      AdmissiblePrefix(c, first, run);
      var init := run[..|run| - 1];
      RunRefines(c, first, init);
      TakeRefines(c, Reached(c, first, init), Recorded(c, first, init), run[|run| - 1]);
    }
    var l := Recorded(c, first, run);
    TotalQueued(Reached(c, first, run).slots, Deadlines(c, l.rel), Oldest(c, l));
  }

  /** The ledger's releases are spaced by at least a period in every run. */
  lemma {:induction false} RunSpaced(c: Config, first: int, run: seq<Take>)
    requires ValidRun(c, run)
    ensures ReleaseClock.Spaced(Recorded(c, first, run).rel, c.period)
  {
    if run != [] {
      RunSpaced(c, first, run[..|run| - 1]);
      var l, e := Recorded(c, first, run[..|run| - 1]), run[|run| - 1];
      if e.callback == 0 {
        ReleaseClock.SpacedStep(l.rel, c.period, e.now);
      }
    }
  }

  // ---------- callbacks take their inputs from their predecessors ----------

  /** A callback other than the timer is taken only for an instance that its
      predecessor was taken for. */
  predicate Fed(c: Config, l: Ledger, e: Take)
    requires ValidLedger(c, l) && e.callback < c.callbacks
  {
    e.callback > 0 ==> l.takes[e.callback] < l.takes[e.callback - 1]
  }

  ghost predicate FedRun(c: Config, first: int, run: seq<Take>)
    requires ValidRun(c, run)
  {
    forall n: nat :: n < |run| ==> Fed(c, Recorded(c, first, run[..n]), run[n])
  }

  /** No callback is ahead of an earlier one. */
  ghost predicate Descending(takes: seq<nat>) {
    forall a: nat, b: nat :: a < b < |takes| ==> takes[b] <= takes[a]
  }

  lemma FedPrefix(c: Config, first: int, run: seq<Take>, k: nat)
    requires ValidRun(c, run) && FedRun(c, first, run) && k <= |run|
    ensures FedRun(c, first, run[..k])
  {
    hide Fed, Recorded;
    forall n: nat | n < k ensures Fed(c, Recorded(c, first, run[..k][..n]), run[..k][n]) {
      assert run[..k][..n] == run[..n];
    }
  }

  lemma FedExtends(c: Config, first: int, run: seq<Take>, e: Take)
    requires ValidRun(c, run) && FedRun(c, first, run) && e.callback < c.callbacks
    requires Fed(c, Recorded(c, first, run), e)
    ensures FedRun(c, first, run + [e])
  {
    hide Fed, Recorded;
    forall n: nat | n < |run| + 1 ensures Fed(c, Recorded(c, first, (run + [e])[..n]), (run + [e])[n]) {
      assert (run + [e])[..n] == if n < |run| then run[..n] else run;
    }
  }

  lemma {:induction false} FedKeepsOrder(c: Config, first: int, run: seq<Take>)
    requires ValidRun(c, run) && FedRun(c, first, run)
    ensures Descending(Recorded(c, first, run).takes)
  {
    if run != [] {
      var k: nat := |run| - 1;
      FedPrefix(c, first, run, k);
      FedKeepsOrder(c, first, run[..k]);
      assert Fed(c, Recorded(c, first, run[..k]), run[k]);
    }
  }

  /** Feeding makes every pop admissible. */
  lemma FedIsAdmissible(c: Config, first: int, run: seq<Take>)
    requires ValidRun(c, run) && FedRun(c, first, run)
    ensures AdmissibleRun(c, first, run)
  {
    forall n: nat | n < |run| ensures Admissible(c, Recorded(c, first, run[..n]), run[n]) {
      FedPrefix(c, first, run, n);
      FedKeepsOrder(c, first, run[..n]);
    }
  }

  // ---------- N slots suffice ----------

  /** A timer is taken no earlier than its release, while every unfinished
      instance still has time left. */
  ghost predicate Timely(c: Config, l: Ledger, e: Take)
    requires ValidLedger(c, l)
  {
    e.callback == 0 ==>
      && l.rel[|l.rel| - 1] <= e.now
      && forall n: nat :: Oldest(c, l) <= n < |l.rel| ==> e.now < l.rel[n] + c.deadline
  }

  /** At a timely timer take the unfinished instances are fewer than the slots
      can tell apart. */
  lemma BacklogAtTake(c: Config, l: Ledger, e: Take)
    requires ValidLedger(c, l) && ReleaseClock.Spaced(l.rel, c.period)
    requires e.callback == 0 && Timely(c, l, e) && Oldest(c, l) <= l.takes[0]
    ensures l.takes[0] - Oldest(c, l) < c.Depth()
  {
    var k, j := l.takes[0], Oldest(c, l);
    if j < k {
      assert l.rel[j] + Times(k - j, c.period) <= l.rel[k];
      FactorBelow(k - j, c.Depth(), c.period);
    }
  }

  ghost predicate TimelyRun(c: Config, first: int, run: seq<Take>)
    requires ValidRun(c, run)
  {
    forall n: nat :: n < |run| ==> Timely(c, Recorded(c, first, run[..n]), run[n])
  }

  /** The oldest unfinished instance is pending or next, and the timer is at most
      ceil(D / T) instances ahead of it. */
  ghost predicate Backlogged(c: Config, l: Ledger)
    requires ValidLedger(c, l)
  {
    Oldest(c, l) <= l.takes[0] <= Oldest(c, l) + c.Depth()
  }

  lemma BackloggedStep(c: Config, l: Ledger, e: Take)
    requires ValidLedger(c, l) && e.callback < c.callbacks
    requires ReleaseClock.Spaced(l.rel, c.period) && Descending(l.takes) && Backlogged(c, l)
    requires Fed(c, l, e) && Timely(c, l, e)
    ensures Backlogged(c, Record(c, l, e))
  {
    if e.callback == 0 {
      BacklogAtTake(c, l, e);
    }
  }

  lemma TimelyPrefix(c: Config, first: int, run: seq<Take>, k: nat)
    requires ValidRun(c, run) && TimelyRun(c, first, run) && k <= |run|
    ensures TimelyRun(c, first, run[..k])
  {
    hide Timely, Recorded;
    forall n: nat | n < k ensures Timely(c, Recorded(c, first, run[..k][..n]), run[..k][n]) {
      assert run[..k][..n] == run[..n];
    }
  }

  lemma TimelyExtends(c: Config, first: int, run: seq<Take>, e: Take)
    requires ValidRun(c, run) && TimelyRun(c, first, run) && e.callback < c.callbacks
    requires Timely(c, Recorded(c, first, run), e)
    ensures TimelyRun(c, first, run + [e])
  {
    hide Timely, Recorded;
    forall n: nat | n < |run| + 1 ensures Timely(c, Recorded(c, first, (run + [e])[..n]), (run + [e])[n]) {
      assert (run + [e])[..n] == if n < |run| then run[..n] else run;
    }
  }

  /** In every fed and timely run at most ceil(D / T) + 1 deadlines are queued. */
  lemma {:induction false} RunBacklog(c: Config, first: int, run: seq<Take>)
    requires ValidRun(c, run) && FedRun(c, first, run) && TimelyRun(c, first, run)
    ensures Backlogged(c, Recorded(c, first, run))
  {
    if run != [] {
      var k: nat := |run| - 1;
      FedPrefix(c, first, run, k);
      TimelyPrefix(c, first, run, k);
      RunBacklog(c, first, run[..k]);
      RunSpaced(c, first, run[..k]);
      FedKeepsOrder(c, first, run[..k]);
      assert Fed(c, Recorded(c, first, run[..k]), run[k]);
      assert Timely(c, Recorded(c, first, run[..k]), run[k]);
      BackloggedStep(c, Recorded(c, first, run[..k]), run[k]);
    }
  }

  // ---------- the deadline the comparator reads ----------

  /** The head of a callback's slot, 0 when the slot is empty. */
  function Key(s: State, b: nat): nat
    requires b < |s.cur| && s.cur[b] < |s.slots|
  {
    if s.slots[s.cur[b]] == [] then 0 else s.slots[s.cur[b]][0]
  }

  /** Every entry of the ledger fits the 32-bit queues. */
  ghost predicate NoWrap(c: Config, rel: seq<int>) {
    forall n: nat :: n < |rel| ==> 0 < rel[n] + c.Entry(n) < UINT
  }

  /** No first entry is later than one pushed a turn of the ring after it. This is
      so whenever the first entry is a relative deadline of at most `ring` periods. */
  predicate SeedInOrder(c: Config) {
    c.seed < c.push + Times(c.ring, c.period)
  }

  /** Entries of one slot increase. */
  lemma EntriesIncrease(c: Config, rel: seq<int>, n: nat, n': nat)
    requires ValidConfig(c) && SeedInOrder(c) && ReleaseClock.Spaced(rel, c.period) && NoWrap(c, rel)
    requires n < n' < |rel| && n + c.ring <= n'
    ensures Deadlines(c, rel)[n] < Deadlines(c, rel)[n']
  {
    assert rel[n] + Times(n' - n, c.period) <= rel[n'];
    MulMono(c.ring, n' - n, c.period, c.period);
    MulMono(1, c.ring, 1, c.period);
  }

  /** What the comparator reads for a pending instance i is the entry of the oldest
      instance in i's slot. */
  lemma KeyIsHead(c: Config, s: State, l: Ledger, b: nat)
    requires Refines(c, s, l) && InStep(c) && NoWrap(c, l.rel)
    requires b < c.callbacks && Oldest(c, l) <= l.takes[b] <= l.takes[0]
    ensures var h := HeadInstance(Oldest(c, l), l.takes[b], c.ring);
      Oldest(c, l) <= h <= l.takes[b] && Key(s, b) == l.rel[h] + c.Entry(h) > 0
  {
    HeadOfSlot(s.slots, Deadlines(c, l.rel), Oldest(c, l), l.takes[b]);
  }

  /** Within a turn of the oldest instance that is i's own entry. */
  lemma KeyWithinTurn(c: Config, s: State, l: Ledger, b: nat)
    requires Refines(c, s, l) && InStep(c) && NoWrap(c, l.rel)
    requires b < c.callbacks && Oldest(c, l) <= l.takes[b] <= l.takes[0] && l.takes[b] < Oldest(c, l) + c.ring
    ensures Key(s, b) == l.rel[l.takes[b]] + c.Entry(l.takes[b]) > 0
  {
    KeyIsHead(c, s, l, b);
    HeadIsOwn(Oldest(c, l), l.takes[b], c.ring);
  }

  /** When the first entry is in order, it is i's own entry exactly then, and never a
      later one. */
  lemma KeyOfPending(c: Config, s: State, l: Ledger, b: nat)
    requires Refines(c, s, l) && InStep(c) && SeedInOrder(c)
    requires ReleaseClock.Spaced(l.rel, c.period) && NoWrap(c, l.rel)
    requires b < c.callbacks && Oldest(c, l) <= l.takes[b] <= l.takes[0]
    ensures 0 < Key(s, b) <= l.rel[l.takes[b]] + c.Entry(l.takes[b])
    ensures Key(s, b) == l.rel[l.takes[b]] + c.Entry(l.takes[b]) <==> l.takes[b] < Oldest(c, l) + c.ring
  {
    var i, low, n := l.takes[b], Oldest(c, l), c.ring;
    KeyIsHead(c, s, l, b);
    HeadIsOwn(low, i, n);
    var h := HeadInstance(low, i, n);
    if h < i {
      HeadOneTurnBack(low, i, n);
      EntriesIncrease(c, l.rel, h, i);
    }
  }

  /** The instance a ready callback is about to serve is pending, and one of the
      ceil(D / T) oldest. */
  lemma ReadyWithinTurn(c: Config, l: Ledger, e: Take)
    requires ValidLedger(c, l) && e.callback < c.callbacks
    requires ReleaseClock.Spaced(l.rel, c.period) && Descending(l.takes) && Backlogged(c, l)
    requires Fed(c, l, e) && Timely(c, l, e)
    ensures Oldest(c, l) <= l.takes[e.callback] <= l.takes[0]
    ensures l.takes[e.callback] < Oldest(c, l) + c.Depth()
  {
    if e.callback == 0 {
      BacklogAtTake(c, l, e);
    }
  }

  /** Callback b competes in this ring; a fed chain's timer competes in its own. */
  predicate Competes(c: Config, b: nat) {
    b < c.callbacks && (c.fed ==> b > 0)
  }

  /** The only callback that competes in the ring is the last one. */
  predicate OnlyLastCompetes(c: Config) {
    c.callbacks == if c.fed then 2 else 1
  }

  /** Every callback that competes in the ring reads the right entry: a chain of one
      callback, or a ring around which the timer's index goes and that has a slot for
      every instance that can be unfinished, unless only the last one competes. */
  predicate Sound(c: Config)
    requires ValidConfig(c)
  {
    c.callbacks == 1 || (InStep(c) && (c.Depth() <= c.ring || OnlyLastCompetes(c)))
  }

  /** The run is possible, and after it callback e could be taken. */
  ghost predicate CanRead(c: Config, first: int, run: seq<Take>, e: Take) {
    && ValidRun(c, run) && FedRun(c, first, run) && TimelyRun(c, first, run)
    && NoWrap(c, Recorded(c, first, run).rel) && Competes(c, e.callback)
    && Fed(c, Recorded(c, first, run), e) && Timely(c, Recorded(c, first, run), e)
  }

  /** After the run, callback b reads the entry of the instance it would serve. */
  ghost predicate ReadsOwn(c: Config, first: int, run: seq<Take>, b: nat)
    requires ValidRun(c, run) && Competes(c, b)
  {
    var l, s := Recorded(c, first, run), Reached(c, first, run);
    var i := l.takes[b];
    i <= l.takes[0] && s.cur[b] < c.ring && Key(s, b) == l.rel[i] + c.Entry(i) > 0
  }

  /** A chain of one callback has one entry queued, in the timer's slot, whatever the
      length of the ring. */
  ghost predicate OneEntry(c: Config, s: State, entry: nat)
    requires ValidState(c, s)
  {
    forall slot: nat :: slot < c.ring ==> s.slots[slot] == if slot == s.cur[0] then [entry] else []
  }

  lemma OneEntryStays(c: Config, s: State, e: Take, entry: nat)
    requires ValidState(c, s) && c.callbacks == 1 && e.callback == 0 && OneEntry(c, s, entry)
    ensures After(c, s, e).release == ReleaseClock.Next(s.release, c.period, e.now)
    ensures OneEntry(c, After(c, s, e), Narrow(After(c, s, e).release + c.push))
  {
    hide CeilDiv, ReleaseClock.Next, Narrow;
  }

  lemma OneSeeded(c: Config, first: int)
    requires ValidConfig(c)
    ensures OneEntry(c, Seeded(c, first), Narrow(first + c.Entry(0)))
  {
  }

  lemma {:induction false} SingleEntry(c: Config, first: int, run: seq<Take>)
    requires ValidRun(c, run) && c.callbacks == 1
    ensures var s, l := Reached(c, first, run), Recorded(c, first, run);
      s.release == l.rel[|l.rel| - 1] && OneEntry(c, s, Narrow(s.release + c.Entry(l.takes[0])))
  {
    hide CeilDiv, ReleaseClock.Next, Narrow, OneEntry, After, Seeded;
    if run == [] {
      OneSeeded(c, first);
      SeedRefines(c, first);
    } else {
      var k: nat := |run| - 1;
      SingleEntry(c, first, run[..k]);
      var s, l := Reached(c, first, run[..k]), Recorded(c, first, run[..k]);
      OneEntryStays(c, s, run[k], Narrow(s.release + c.Entry(l.takes[0])));
    }
  }

  /** In every fed and timely run, a ready callback of a sound ring competes with its
      own instance's entry: any callback whose predecessor is ahead of it, and the
      timer whenever it can be taken in time. That is its instance's own deadline
      exactly when the entry was made with the chain's deadline: in a plain chain
      always, in a fed one for instance 0, and for later instances exactly when the
      feeding chain has the same deadline. */
  lemma ReadyReadsOwnDeadline(c: Config, first: int, run: seq<Take>, e: Take)
    requires ValidConfig(c) && Sound(c) && CanRead(c, first, run, e)
    ensures ReadsOwn(c, first, run, e.callback)
    ensures var l, s := Recorded(c, first, run), Reached(c, first, run);
      var i := l.takes[e.callback];
      Key(s, e.callback) == l.rel[i] + c.deadline <==> c.Entry(i) == c.deadline
  {
    hide FedRun, TimelyRun, Recorded, Reached, CeilDiv;
    if c.callbacks == 1 {
      SingleReadsOwn(c, first, run);
    } else {
      InStepReadsOwn(c, first, run, e);
    }
  }

  lemma SingleReadsOwn(c: Config, first: int, run: seq<Take>)
    requires ValidRun(c, run) && c.callbacks == 1 && !c.fed && NoWrap(c, Recorded(c, first, run).rel)
    ensures ReadsOwn(c, first, run, 0)
  {
    hide CeilDiv, Reached, Recorded;
    SingleEntry(c, first, run);
  }

  lemma InStepReadsOwn(c: Config, first: int, run: seq<Take>, e: Take)
    requires ValidConfig(c) && InStep(c) && (c.Depth() <= c.ring || OnlyLastCompetes(c))
    requires CanRead(c, first, run, e)
    ensures ReadsOwn(c, first, run, e.callback)
  {
    RunSpaced(c, first, run);
    RunBacklog(c, first, run);
    FedKeepsOrder(c, first, run);
    ReadyWithinTurn(c, Recorded(c, first, run), e);
    FedIsAdmissible(c, first, run);
    RunRefines(c, first, run);
    KeyWithinTurn(c, Reached(c, first, run), Recorded(c, first, run), e.callback);
  }

  /** A chain with its own timer and ceil(D / T) queues: every ready callback competes
      with its own instance's deadline. */
  lemma PlainReadsOwnDeadline(period: nat, deadline: nat, callbacks: nat, first: int, run: seq<Take>, e: Take)
    requires period > 0 && deadline > 0 && callbacks > 0
    requires CanRead(Plain(period, deadline, callbacks), first, run, e)
    ensures var c := Plain(period, deadline, callbacks);
      var l, s := Recorded(c, first, run), Reached(c, first, run);
      && l.takes[e.callback] <= l.takes[0] && s.cur[e.callback] < c.ring
      && Key(s, e.callback) == l.rel[l.takes[e.callback]] + deadline
  {
    ReadyReadsOwnDeadline(Plain(period, deadline, callbacks), first, run, e);
  }

  // ---------- every slot is sorted ----------

  ghost predicate Increasing(xs: seq<nat>) {
    forall a, b :: 0 <= a < b < |xs| ==> xs[a] < xs[b]
  }

  /** Entries of slot s increase with their instances. */
  ghost predicate IncreasingIn(table: seq<nat>, s: nat, n: nat)
    requires n > 0
  {
    forall a: nat, b: nat :: a < b < |table| && a % n == s && b % n == s ==> table[a] < table[b]
  }

  lemma {:induction false} ColumnSorted(table: seq<nat>, low: nat, s: nat, n: nat)
    requires n > 0 && IncreasingIn(table, s, n)
    ensures Increasing(Column(table, low, s, n))
    ensures forall x :: x in Column(table, low, s, n) ==> exists a: nat :: a < |table| && a % n == s && table[a] == x
  {
    if |table| > low {
      var last: nat := |table| - 1;
      var init := table[..last];
      ColumnSorted(init, low, s, n);
      var before := Column(init, low, s, n);
      forall x | x in before ensures exists a: nat :: a < last && a % n == s && table[a] == x {
        var a: nat :| a < |init| && a % n == s && init[a] == x;
        assert table[a] == x;
      }
      if last % n == s {
        forall k | 0 <= k < |before| ensures before[k] < table[last] {
          assert before[k] in before;
        }
      }
    }
  }

  /** In every admissible run without wrap-around each slot's queue is sorted. */
  lemma SlotsSorted(c: Config, first: int, run: seq<Take>, slot: nat)
    requires ValidRun(c, run) && InStep(c) && SeedInOrder(c) && AdmissibleRun(c, first, run)
    requires NoWrap(c, Recorded(c, first, run).rel) && slot < c.ring
    ensures Increasing(Reached(c, first, run).slots[slot])
  {
    var rel := Recorded(c, first, run).rel;
    RunRefines(c, first, run);
    RunSpaced(c, first, run);
    forall a: nat, b: nat | a < b < |rel| && a % c.ring == slot && b % c.ring == slot
      ensures Deadlines(c, rel)[a] < Deadlines(c, rel)[b]
    {
      if b < a + c.ring {
        OneTurn(a, b, c.ring);
      }
      EntriesIncrease(c, rel, a, b);
    }
    ColumnSorted(Deadlines(c, rel), Oldest(c, Recorded(c, first, run)), slot, c.ring);
  }
}
