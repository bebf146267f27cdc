/** The executor is earliest deadline first on instances, round after round, by the
    deadlines queued for them. */
module EarliestDeadline {
  import opened Options
  import opened Arithmetic
  import opened Executable
  import opened Fleets
  import opened Strategy
  import opened Spinning
  import Chain

  /** The chain's ring is sound, and its run so far fed and timely. */
  ghost predicate OnTrack(t: Track) {
    && Chain.ValidRun(t.line.c, t.run) && Chain.Sound(t.line.c)
    && |t.line.callbacks| == |t.counts| == t.line.c.callbacks
    && Chain.FedRun(t.line.c, t.first, t.run) && Chain.TimelyRun(t.line.c, t.first, t.run)
  }

  ghost function LedgerOf(t: Track): (l: Chain.Ledger)
    requires Chain.ValidRun(t.line.c, t.run)
    ensures Chain.ValidLedger(t.line.c, l)
  {
    Chain.Recorded(t.line.c, t.first, t.run)
  }

  /** Callback b could be taken now: its predecessor is ahead of it, or it is the
      timer and every unfinished instance still has time. */
  ghost predicate CanBeTaken(t: Track, b: nat, now: int)
    requires Chain.ValidRun(t.line.c, t.run)
  {
    && b < t.line.c.callbacks
    && Chain.Fed(t.line.c, LedgerOf(t), Chain.Take(b, now))
    && Chain.Timely(t.line.c, LedgerOf(t), Chain.Take(b, now))
  }

  /** Callback b competes in its chain's ring; a fed chain's timer does not. */
  predicate Competes(t: Track, b: nat) {
    b < |t.line.callbacks| && Chain.Competes(t.line.c, b)
  }

  /** The deadline queued for the instance that callback b would serve next. */
  ghost function Served(t: Track, b: nat): int
    requires Chain.ValidRun(t.line.c, t.run) && b < t.line.c.callbacks
  {
    var l := LedgerOf(t);
    if l.takes[b] < |l.rel| then l.rel[l.takes[b]] + t.line.c.Entry(l.takes[b]) else 0
  }

  /** The absolute deadline of that instance. */
  ghost function Due(t: Track, b: nat): int
    requires Chain.ValidRun(t.line.c, t.run) && b < t.line.c.callbacks
  {
    var l := LedgerOf(t);
    if l.takes[b] < |l.rel| then l.rel[l.takes[b]] + t.line.c.deadline else 0
  }

  /** By how much the queued deadline is later than that: not at all, except where the
      clock and the ring were set from different readings, or the feeding chain has
      another deadline. */
  ghost function Slip(t: Track, b: nat): int
    requires Chain.ValidRun(t.line.c, t.run) && b < t.line.c.callbacks
  {
    t.line.c.Entry(LedgerOf(t).takes[b]) - t.line.c.deadline
  }

  lemma ReadyIsReleased(t: Track, b: nat, now: int)
    requires OnTrack(t) && Competes(t, b) && CanBeTaken(t, b, now)
    ensures Served(t, b) == Due(t, b) + Slip(t, b)
  {
    Chain.FedKeepsOrder(t.line.c, t.first, t.run);
  }

  lemma KeyIsServed(f: Fleet, shared: bool, peer: DeadlineRing?, t: Track, b: nat, now: int)
    requires Follows(f, shared, peer, t) && OnTrack(t) && Chain.NoWrap(t.line.c, LedgerOf(t).rel)
    requires Competes(t, b) && CanBeTaken(t, b, now)
    ensures KeyIn(f, t.line.callbacks[b]).schedule == DEADLINE
    ensures KeyIn(f, t.line.callbacks[b]).deadline == Served(t, b) > 0
    ensures KeyIn(f, t.line.callbacks[b]).counter == Count(t, b)
  {
    Chain.ReadyReadsOwnDeadline(t.line.c, t.first, t.run, Chain.Take(b, now));
    KeyIsChainKey(f, t.line, b);
  }

  /** For ready callbacks of any two chains, not being preferred means not having the
      earlier queued deadline, nor the same and fewer takes; a strictly earlier one, or
      the same and strictly fewer takes, is always preferred. */
  lemma EarliestDeadlineFirst(f: Fleet, shared: bool, peer: DeadlineRing?, t: Track, b: nat, t': Track, b': nat,
                              now: int)
    requires Follows(f, shared, peer, t) && OnTrack(t) && Chain.NoWrap(t.line.c, LedgerOf(t).rel)
    requires Follows(f, shared, peer, t') && OnTrack(t') && Chain.NoWrap(t'.line.c, LedgerOf(t').rel)
    requires Competes(t, b) && CanBeTaken(t, b, now) && Competes(t', b') && CanBeTaken(t', b', now)
    ensures Below(KeyIn(f, t.line.callbacks[b]), KeyIn(f, t'.line.callbacks[b'])) ==>
      Served(t', b') < Served(t, b) || (Served(t', b') == Served(t, b) && Count(t', b') <= Count(t, b))
    ensures Less(KeyIn(f, t.line.callbacks[b]), KeyIn(f, t'.line.callbacks[b'])) <==>
      Served(t', b') < Served(t, b) || (Served(t', b') == Served(t, b) && Count(t', b') < Count(t, b))
  {
    hide OnTrack, CanBeTaken, Follows, KeyIn, Served, Count, LedgerOf, Chain.NoWrap;
    KeyIsServed(f, shared, peer, t, b, now);
    KeyIsServed(f, shared, peer, t', b', now);
  }

  /** Where the queued deadlines are the instances' own, the same holds of those. */
  lemma EarliestDueFirst(f: Fleet, shared: bool, peer: DeadlineRing?, t: Track, b: nat, t': Track, b': nat, now: int)
    requires Follows(f, shared, peer, t) && OnTrack(t) && Chain.NoWrap(t.line.c, LedgerOf(t).rel)
    requires Follows(f, shared, peer, t') && OnTrack(t') && Chain.NoWrap(t'.line.c, LedgerOf(t').rel)
    requires Competes(t, b) && CanBeTaken(t, b, now) && Competes(t', b') && CanBeTaken(t', b', now)
    requires Slip(t, b) == Slip(t', b') == 0
    ensures Below(KeyIn(f, t.line.callbacks[b]), KeyIn(f, t'.line.callbacks[b'])) ==> Due(t', b') <= Due(t, b)
    ensures Due(t', b') < Due(t, b) ==> Less(KeyIn(f, t.line.callbacks[b]), KeyIn(f, t'.line.callbacks[b']))
  {
    hide OnTrack, CanBeTaken, Follows, KeyIn, Served, Due, Slip, Count, LedgerOf, Chain.NoWrap;
    EarliestDeadlineFirst(f, shared, peer, t, b, t', b', now);
    ReadyIsReleased(t, b, now);
    ReadyIsReleased(t', b', now);
  }

  /** Where they are not, an instance is passed over for one that is due later exactly
      when the difference of the two slips exceeds what it is due earlier, or equals it
      and the callback was taken more often. */
  lemma PassedOverExactly(f: Fleet, shared: bool, peer: DeadlineRing?, t: Track, b: nat, t': Track, b': nat, now: int)
    requires Follows(f, shared, peer, t) && OnTrack(t) && Chain.NoWrap(t.line.c, LedgerOf(t).rel)
    requires Follows(f, shared, peer, t') && OnTrack(t') && Chain.NoWrap(t'.line.c, LedgerOf(t').rel)
    requires Competes(t, b) && CanBeTaken(t, b, now) && Competes(t', b') && CanBeTaken(t', b', now)
    ensures var earlier, later := Due(t', b') - Due(t, b), Slip(t, b) - Slip(t', b');
      0 < earlier && Less(KeyIn(f, t.line.callbacks[b]), KeyIn(f, t'.line.callbacks[b']))
      <==> 0 < earlier && (earlier < later || (earlier == later && Count(t, b) > Count(t', b')))
  {
    hide OnTrack, CanBeTaken, Follows, KeyIn, Served, Due, Slip, Count, LedgerOf, Chain.NoWrap;
    EarliestDeadlineFirst(f, shared, peer, t, b, t', b', now);
    ReadyIsReleased(t, b, now);
    ReadyIsReleased(t', b', now);
  }

  // ---------- rounds in turn ----------

  /** The wait set reports a callback of the chain only when it can be taken, and
      no deadline of the chain has wrapped. */
  ghost predicate InTurn(t: Track, input: Input) {
    && Chain.ValidRun(t.line.c, t.run) && |t.line.callbacks| == t.line.c.callbacks
    && Chain.NoWrap(t.line.c, LedgerOf(t).rel)
    && forall b: nat :: b < |t.line.callbacks| && t.line.callbacks[b] in input.ready ==> CanBeTaken(t, b, input.now)
  }

  /** Whatever a round hands out in turn, the chain's run stays fed and timely. */
  lemma RoundStaysInTurn(t: Track, r: Option<Handle>, input: Input)
    requires OnTrack(t) && InTurn(t, input) && (r.Some? ==> r.value in input.ready)
    ensures OnTrack(t.Next(r, input.now))
  {
    if r.Some? && r.value in t.line.callbacks {
      var take := Chain.Take(Position(r.value, t.line.callbacks), input.now);
      Chain.FedExtends(t.line.c, t.first, t.run, take);
      Chain.TimelyExtends(t.line.c, t.first, t.run, take);
    } else {
      assert t.Next(r, input.now) == t;
    }
  }

  /** A chain that was just set up is on track, and its timer can be taken from its
      first release on until the first deadline; no other callback can. */
  lemma FreshIsOnTrack(t: Track, b: nat, now: int)
    requires Chain.ValidConfig(t.line.c) && Chain.Sound(t.line.c)
    requires |t.line.callbacks| == |t.counts| == t.line.c.callbacks && t.run == []
    ensures OnTrack(t)
    ensures CanBeTaken(t, b, now) <==> b == 0 && t.first <= now < t.first + t.line.c.deadline
  {
    var l := LedgerOf(t);
    assert l.rel == [t.first] && forall a: nat :: a < t.line.c.callbacks ==> l.takes[a] == 0;
    if b == 0 {
      assert Chain.Oldest(t.line.c, l) == 0 && l.rel[0] == t.first;
    }
  }

  /** h is offered by a free group and reported ready. */
  ghost predicate IsOffered(groups: seq<CallbackGroup>, input: Input, h: Handle) {
    ListedBy(groups, input.free, h) && h in input.ready
  }

  /** Callback b has no later queued deadline than b', and with the same one no more
      takes. */
  ghost predicate IsServedBefore(t: Track, b: nat, t': Track, b': nat)
    requires OnTrack(t) && OnTrack(t') && Competes(t, b) && Competes(t', b')
  {
    Served(t, b) < Served(t', b') || (Served(t, b) == Served(t', b') && Count(t, b) <= Count(t', b'))
  }

  /** The round that handed out r was earliest deadline first between t and t': if a
      callback of t was offered, something was handed out, and if that is a callback
      of t', the instance it serves has no later deadline, and with the same deadline
      it was taken no more often. */
  ghost predicate WasEarliest(groups: seq<CallbackGroup>, input: Input, r: Option<Handle>, t: Track, t': Track)
    requires OnTrack(t) && OnTrack(t')
  {
    forall b: nat | Competes(t, b) && IsOffered(groups, input, t.line.callbacks[b]) ::
      && r.Some?
      && forall b': nat | Competes(t', b') && t'.line.callbacks[b'] == r.value :: IsServedBefore(t', b', t, b)
  }

  lemma RegisteredIsOffered(groups: seq<CallbackGroup>, free: set<Group>, known: set<Handle>, h: Handle)
    requires ListedBy(groups, free, h) && h in known
    ensures OfferedBy(groups, free, known, h)
  {
    var g :| g in groups && g.id in free && g.Lists(h);
    assert g.Offers(h, known);
  }

  lemma ChoiceIsEarliest(f: Fleet, shared: bool, peer: DeadlineRing?, groups: seq<CallbackGroup>, input: Input,
                         r: Option<Handle>, t: Track, t': Track)
    requires Follows(f, shared, peer, t) && OnTrack(t) && InTurn(t, input)
    requires Follows(f, shared, peer, t') && OnTrack(t') && InTurn(t', input)
    requires Fleets.Valid(f) && IsChoice(f, groups, input, r)
    ensures WasEarliest(groups, input, r, t, t')
  {
    forall b: nat | Competes(t, b) && IsOffered(groups, input, t.line.callbacks[b])
      ensures r.Some?
      ensures forall b': nat | Competes(t', b') && t'.line.callbacks[b'] == r.value :: IsServedBefore(t', b', t, b)
    {
      ChoiceBeats(f, shared, peer, groups, input, r, t, b, t');
    }
  }

  lemma ChoiceBeats(f: Fleet, shared: bool, peer: DeadlineRing?, groups: seq<CallbackGroup>, input: Input,
                    r: Option<Handle>, t: Track, b: nat, t': Track)
    requires Follows(f, shared, peer, t) && OnTrack(t) && InTurn(t, input)
    requires Follows(f, shared, peer, t') && OnTrack(t') && InTurn(t', input)
    requires Fleets.Valid(f) && IsChoice(f, groups, input, r)
    requires Competes(t, b) && IsOffered(groups, input, t.line.callbacks[b])
    ensures r.Some?
    ensures forall b': nat | Competes(t', b') && t'.line.callbacks[b'] == r.value :: IsServedBefore(t', b', t, b)
  {
    var h := t.line.callbacks[b];
    assert IsMember(f, t.line, b, h);
    RegisteredIsOffered(groups, input.free, f.views.Keys, h);
    forall b': nat | Competes(t', b') && t'.line.callbacks[b'] == r.value ensures IsServedBefore(t', b', t, b) {
      EarliestDeadlineFirst(f, shared, peer, t, b, t', b', input.now);
    }
  }

  /** Every entry of the chain's ring is made with the chain's own deadline. */
  predicate OwnEntries(c: Chain.Config) {
    c.seed == c.deadline == c.push
  }

  /** Between chains whose entries are their own, a round that was earliest deadline
      first was so by the instances' absolute deadlines. */
  lemma EarliestIsByDue(groups: seq<CallbackGroup>, input: Input, r: Option<Handle>, t: Track, b: nat, t': Track,
                        b': nat)
    requires OnTrack(t) && OnTrack(t') && WasEarliest(groups, input, r, t, t')
    requires OwnEntries(t.line.c) && OwnEntries(t'.line.c)
    requires Competes(t, b) && IsOffered(groups, input, t.line.callbacks[b])
    ensures r.Some?
    ensures Competes(t', b') && t'.line.callbacks[b'] == r.value ==> Due(t', b') <= Due(t, b)
  {
  }

  // ---------- any number of rounds ----------

  /** The first n rounds found every chain in turn. */
  ghost predicate AllInTurn(tracks: seq<Track>, handed: seq<Option<Handle>>, inputs: seq<Input>, n: nat)
    requires n <= |handed| <= |inputs|
  {
    forall k: nat, t :: k < n && t in tracks ==> InTurn(t.Then(handed[..k], inputs), inputs[k])
  }

  /** Round k was earliest deadline first between any two chains. */
  ghost predicate EarliestAt(tracks: seq<Track>, groups: seq<CallbackGroup>, handed: seq<Option<Handle>>,
                             inputs: seq<Input>, k: nat)
    requires k < |handed| <= |inputs|
  {
    forall t, t' :: t in tracks && t' in tracks ==>
      var u, u' := t.Then(handed[..k], inputs), t'.Then(handed[..k], inputs);
      OnTrack(u) && OnTrack(u') && WasEarliest(groups, inputs[k], handed[k], u, u')
  }

  /** All chains are on track after the rounds so far, and each of them was earliest
      deadline first. */
  ghost predicate EarliestSoFar(tracks: seq<Track>, groups: seq<CallbackGroup>, handed: seq<Option<Handle>>,
                                inputs: seq<Input>)
    requires |handed| <= |inputs|
  {
    && (forall t :: t in tracks ==> OnTrack(t.Then(handed, inputs)))
    && forall k: nat :: k < |handed| ==> EarliestAt(tracks, groups, handed, inputs, k)
  }

  lemma ChoiceIsReady(f: Fleet, groups: seq<CallbackGroup>, input: Input, r: Option<Handle>)
    requires Fleets.Valid(f) && IsChoice(f, groups, input, r)
    ensures r.Some? ==> r.value in input.ready
  {
  }

  lemma NowInTurn(tracks: seq<Track>, handed: seq<Option<Handle>>, inputs: seq<Input>, r: Option<Handle>, t: Track)
    requires |handed| < |inputs| && AllInTurn(tracks, handed + [r], inputs, |handed| + 1) && t in tracks
    ensures InTurn(t.Then(handed, inputs), inputs[|handed|])
  {
    hide InTurn;
    var n: nat := |handed|;
    assert (handed + [r])[..n] == handed;
    assert InTurn(t.Then((handed + [r])[..n], inputs), inputs[n]);
  }

  lemma EarlierRound(tracks: seq<Track>, groups: seq<CallbackGroup>, handed: seq<Option<Handle>>, inputs: seq<Input>,
                     r: Option<Handle>, k: nat)
    requires k < |handed| < |inputs| && EarliestAt(tracks, groups, handed, inputs, k)
    ensures EarliestAt(tracks, groups, handed + [r], inputs, k)
  {
    hide OnTrack, WasEarliest;
    assert (handed + [r])[..k] == handed[..k];
  }

  lemma ThisRound(f: Fleet, shared: bool, peer: DeadlineRing?, tracks: seq<Track>, groups: seq<CallbackGroup>,
                  handed: seq<Option<Handle>>, inputs: seq<Input>, r: Option<Handle>)
    requires |handed| < |inputs| && AllInTurn(tracks, handed + [r], inputs, |handed| + 1)
    requires forall t :: t in tracks ==> OnTrack(t.Then(handed, inputs))
    requires forall t :: t in tracks ==> Follows(f, shared, peer, t.Then(handed, inputs))
    requires Fleets.Valid(f) && IsChoice(f, groups, inputs[|handed|], r)
    ensures EarliestAt(tracks, groups, handed + [r], inputs, |handed|)
  {
    hide OnTrack, InTurn, Follows, WasEarliest, IsChoice, Fleets.Valid, AllInTurn;
    var n: nat := |handed|;
    assert (handed + [r])[..n] == handed;
    forall t, t' | t in tracks && t' in tracks
      ensures WasEarliest(groups, inputs[n], r, t.Then(handed, inputs), t'.Then(handed, inputs))
    {
      NowInTurn(tracks, handed, inputs, r, t);
      NowInTurn(tracks, handed, inputs, r, t');
      ChoiceIsEarliest(f, shared, peer, groups, inputs[n], r, t.Then(handed, inputs), t'.Then(handed, inputs));
    }
  }

  lemma OneMoreEarliest(f: Fleet, shared: bool, peer: DeadlineRing?, tracks: seq<Track>, groups: seq<CallbackGroup>,
                        handed: seq<Option<Handle>>, inputs: seq<Input>, r: Option<Handle>)
    requires |handed| < |inputs| && EarliestSoFar(tracks, groups, handed, inputs)
    requires AllInTurn(tracks, handed + [r], inputs, |handed| + 1)
    requires forall t :: t in tracks ==> Follows(f, shared, peer, t.Then(handed, inputs))
    requires Fleets.Valid(f) && IsChoice(f, groups, inputs[|handed|], r)
    ensures EarliestSoFar(tracks, groups, handed + [r], inputs)
  {
    hide OnTrack, InTurn, Follows, EarliestAt, IsChoice, Fleets.Valid, AllInTurn;
    var n: nat := |handed|;
    ChoiceIsReady(f, groups, inputs[n], r);
    forall t | t in tracks ensures OnTrack(t.Then(handed + [r], inputs)) {
      NowInTurn(tracks, handed, inputs, r, t);
      RoundStaysInTurn(t.Then(handed, inputs), r, inputs[n]);
      ThenOneMore(t, handed, inputs, r);
    }
    ThisRound(f, shared, peer, tracks, groups, handed, inputs, r);
    forall k: nat | k < n ensures EarliestAt(tracks, groups, handed + [r], inputs, k) {
      EarlierRound(tracks, groups, handed, inputs, r, k);
    }
  }

  /** The chains' states and the promise so far. */
  ghost predicate Promise(f: Fleet, shared: bool, peer: DeadlineRing?, tracks: seq<Track>, groups: seq<CallbackGroup>,
                          handed: seq<Option<Handle>>, inputs: seq<Input>)
    requires |handed| <= |inputs|
  {
    && (forall t :: t in tracks ==> Follows(f, shared, peer, t.Then(handed, inputs)))
    && forall n: nat :: n <= |handed| && AllInTurn(tracks, handed, inputs, n) ==>
         EarliestSoFar(tracks, groups, handed[..n], inputs)
  }

  lemma PromiseHolds(tracks: seq<Track>, groups: seq<CallbackGroup>, handed: seq<Option<Handle>>, inputs: seq<Input>,
                     r: Option<Handle>, n: nat)
    requires |handed| < |inputs| && n <= |handed| && AllInTurn(tracks, handed + [r], inputs, n)
    ensures AllInTurn(tracks, handed, inputs, n) && (handed + [r])[..n] == handed[..n]
  {
    hide InTurn;
    forall k: nat, t | k < n && t in tracks ensures InTurn(t.Then(handed[..k], inputs), inputs[k]) {
      assert (handed + [r])[..k] == handed[..k];
      assert InTurn(t.Then((handed + [r])[..k], inputs), inputs[k]);
    }
  }

  lemma PromiseKept(f: Fleet, f': Fleet, shared: bool, peer: DeadlineRing?, tracks: seq<Track>,
                    groups: seq<CallbackGroup>, handed: seq<Option<Handle>>, inputs: seq<Input>, r: Option<Handle>)
    requires |handed| < |inputs| && Ready(f, shared, peer) && Moves(f, f', shared, peer, r, inputs[|handed|].now)
    requires Promise(f, shared, peer, tracks, groups, handed, inputs) && IsChoice(f, groups, inputs[|handed|], r)
    ensures Promise(f', shared, peer, tracks, groups, handed + [r], inputs)
  {
    hide Follows, Ready, Moves, IsChoice, AllInTurn, EarliestSoFar, Fleets.Valid;
    ReadyViews(f, shared, peer);
    var len: nat := |handed|;
    forall t | t in tracks ensures Follows(f', shared, peer, t.Then(handed + [r], inputs)) {
      RoundFollows(f, f', shared, peer, r, inputs[len].now, t.Then(handed, inputs));
      ThenOneMore(t, handed, inputs, r);
    }
    forall n: nat | n <= len + 1 && AllInTurn(tracks, handed + [r], inputs, n)
      ensures EarliestSoFar(tracks, groups, (handed + [r])[..n], inputs)
    {
      if n <= len {
        PromiseHolds(tracks, groups, handed, inputs, r, n);
      } else {
        FewerInTurn(tracks, handed + [r], inputs, n);
        PromiseHolds(tracks, groups, handed, inputs, r, len);
        assert handed[..len] == handed && (handed + [r])[..n] == handed + [r];
        OneMoreEarliest(f, shared, peer, tracks, groups, handed, inputs, r);
      }
    }
  }

  lemma PromiseAtStart(f: Fleet, shared: bool, peer: DeadlineRing?, tracks: seq<Track>, groups: seq<CallbackGroup>,
                       inputs: seq<Input>)
    requires forall t :: t in tracks ==> Follows(f, shared, peer, t) && OnTrack(t)
    ensures Promise(f, shared, peer, tracks, groups, [], inputs)
  {
    NothingHanded(tracks, inputs);
  }

  lemma FewerInTurn(tracks: seq<Track>, handed: seq<Option<Handle>>, inputs: seq<Input>, n: nat)
    requires 0 < n <= |handed| <= |inputs| && AllInTurn(tracks, handed, inputs, n)
    ensures AllInTurn(tracks, handed, inputs, n - 1)
  {
  }

  /** Any number of rounds on any chains. As long as the wait set reports callbacks in
      turn and in time, every chain stays on track, and every round is earliest
      deadline first by queued deadlines among all that compete, whatever the threads, the
      groups and the inputs do. */
  method EarliestSpin(strategy: PriorityMemoryStrategy, groups: seq<CallbackGroup>, groupOf: map<Handle, Group>,
                      inputs: seq<Input>, ghost peer: DeadlineRing?, ghost tracks: seq<Track>)
    returns (handed: seq<Option<Handle>>)
    requires strategy.Valid() && strategy.CanRun(peer) && GroupsKnown(groups, groupOf)
    requires forall n :: 0 <= n < |inputs| ==> Possible(inputs[n])
    requires forall t :: t in tracks ==> Follows(strategy.Snapshot(), strategy.isF1tenth, peer, t) && OnTrack(t)
    modifies strategy, strategy.Executables(), strategy.KnownRings(), peer
    ensures |handed| == |inputs| && strategy.Valid() && strategy.CanRun(peer)
    ensures Promise(strategy.Snapshot(), old(strategy.isF1tenth), peer, tracks, groups, handed, inputs)
  {
    hide Promise, Ready, Moves, IsChoice, PriorityMemoryStrategy.Snapshot, Follows, OnTrack;
    handed := [];
    PromiseAtStart(strategy.Snapshot(), strategy.isF1tenth, peer, tracks, groups, inputs);
    while |handed| < |inputs|
      invariant |handed| <= |inputs|
      invariant strategy.Valid() && strategy.CanRun(peer) && strategy.isF1tenth == old(strategy.isF1tenth)
      invariant strategy.Frame(old(strategy.Executables()), old(strategy.KnownRings()))
      invariant Promise(strategy.Snapshot(), strategy.isF1tenth, peer, tracks, groups, handed, inputs)
    {
      ghost var before := strategy.Snapshot();
      var r := OneRound(strategy, groups, groupOf, inputs[|handed|], peer);
      PromiseKept(before, strategy.Snapshot(), strategy.isF1tenth, peer, tracks, groups, handed, inputs, r);
      handed := handed + [r];
    }
  }
}
