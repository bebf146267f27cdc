/** All executables and rings of a strategy as one value, and what handing out one
    of them does to it. The strategy's objects refine this machine. */
module Fleets {
  import opened Options
  import opened SlotTable
  import opened Executable
  import opened Charging
  import Chain

  /** The settings and the ring of every registered handle, and the contents of
      every ring. */
  datatype Fleet = Fleet(views: map<Handle, View>, rings: map<Handle, DeadlineRing?>, slots: map<DeadlineRing, Slots>)

  ghost predicate Valid(f: Fleet) {
    && f.views.Keys == f.rings.Keys
    && forall h :: h in f.rings && f.rings[h] != null ==> f.rings[h] in f.slots
  }

  /** One more entity with this ring. */
  function Enlist(f: Fleet, h: Handle, v: View, ring: DeadlineRing, slots: Slots): Fleet {
    Fleet(f.views[h := v], f.rings[h := ring], f.slots[ring := slots])
  }

  function WithRelease(f: Fleet, h: Handle, release: int): Fleet
    requires h in f.views
  {
    f.(views := f.views[h := f.views[h].(release := release)])
  }

  function WithPush(f: Fleet, ring: DeadlineRing, index: nat, deadline: nat): Fleet
    requires ring in f.slots && index < |f.slots[ring]|
  {
    f.(slots := f.slots[ring := PushAt(f.slots[ring], index, deadline)])
  }

  /** With a shared timer, chain 0's timer also feeds chain 1. */
  predicate Mirrors(v: View, shared: bool) {
    shared && Pushes(v) && v.chainId == 0
  }

  /** The ring of chain 1, into which chain 0's timer is mirrored; null if there is
      none or the timer is not shared. */
  ghost predicate IsPeer(f: Fleet, shared: bool, peer: DeadlineRing?)
    requires Valid(f)
  {
    if shared && exists h :: h in f.views && f.views[h].chainId == 1 then
      forall h :: h in f.views && f.views[h].chainId == 1 ==> f.rings[h] == peer
    else peer == null
  }

  /** What the program dereferences to hand out h: its index is in its ring, and a
      mirrored push lands inside a ring other than its own. */
  ghost predicate CanHandOut(f: Fleet, shared: bool, peer: DeadlineRing?, h: Handle)
    requires Valid(f) && h in f.views
  {
    var v, ring := f.views[h], f.rings[h];
    && ValidView(v)
    && (AtChainEnd(v) ==> ring != null && |f.slots[ring]| == SlotCount(v))
    && (Mirrors(v, shared) && peer != null ==> ring != peer && peer in f.slots && SlotCount(v) <= |f.slots[peer]|)
  }

  /** Every executable could be handed out. */
  ghost predicate Ready(f: Fleet, shared: bool, peer: DeadlineRing?) {
    && Valid(f) && IsPeer(f, shared, peer)
    && forall h :: h in f.views ==> CanHandOut(f, shared, peer, h)
  }

  /** What handing out h leaves in ring x. */
  ghost function SlotsAfter(f: Fleet, shared: bool, peer: DeadlineRing?, h: Handle, now: int, x: DeadlineRing)
    : (s: Slots)
    requires Valid(f) && h in f.views && CanHandOut(f, shared, peer, h) && x in f.slots
    ensures |s| == |f.slots[x]|
  {
    var v := f.views[h];
    if x == f.rings[h] then ChargeRing(v, f.slots[x], now)
    else if x == peer && Mirrors(v, shared) then MirrorRing(v, f.slots[x], now)
    else f.slots[x]
  }

  /** h is charged; no other executable and no other ring moves. */
  ghost function HandOut(f: Fleet, shared: bool, peer: DeadlineRing?, h: Handle, now: int): Fleet
    requires Valid(f) && h in f.views && CanHandOut(f, shared, peer, h)
  {
    f.(views := f.views[h := Charge(f.views[h], now)],
       slots := map x | x in f.slots :: SlotsAfter(f, shared, peer, h, now, x))
  }

  /** The key under which h competes; an entity not registered yet competes under a
      default key. */
  ghost function KeyIn(f: Fleet, h: Handle): Key
    requires Valid(f)
  {
    if h !in f.views then Key(CHAIN_INDEPENDENT_PRIORITY, 0, 0, 0)
    else
      var v, ring := f.views[h], f.rings[h];
      var found := ring != null && v.index < |f.slots[ring]| && f.slots[ring][v.index] != [];
      Key(v.schedule, v.priority, if found then f.slots[ring][v.index][0] else 0, v.counter)
  }

  /** The settings of an entity that was never configured. */
  predicate IsDefault(v: View) {
    v.schedule == CHAIN_INDEPENDENT_PRIORITY && v.priority == 0 && v.counter == 0 && v.chainId == 0
  }

  /** r, if any, is handed out; nothing else happens. */
  ghost predicate Handed(f: Fleet, f': Fleet, shared: bool, peer: DeadlineRing?, r: Option<Handle>, now: int)
    requires Valid(f)
  {
    match r
    case None => f' == f
    case Some(h) => h in f.views && CanHandOut(f, shared, peer, h) && f' == HandOut(f, shared, peer, h, now)
  }

  /** Registered entities stay as they are; new ones have default settings and no
      ring. */
  ghost predicate Extends(f: Fleet, f': Fleet) {
    && Valid(f) && Valid(f') && f'.slots == f.slots
    && (forall h :: h in f.views ==> h in f'.views && f'.views[h] == f.views[h] && f'.rings[h] == f.rings[h])
    && (forall h :: h in f'.views && h !in f.views ==> f'.rings[h] == null && IsDefault(f'.views[h]))
  }

  /** Of the known executables only r, if known, is charged; new ones have no ring and
      no deadline. */
  ghost predicate ViewsMove(f: Fleet, f': Fleet, r: Option<Handle>, now: int)
    requires Valid(f) && Valid(f') && forall h :: h in f.views ==> ValidView(f.views[h])
  {
    && (forall h :: h in f.views ==>
          && h in f'.views && f'.rings[h] == f.rings[h]
          && f'.views[h] == if r == Some(h) then Charge(f.views[h], now) else f.views[h])
    && (forall h :: h in f'.views && h !in f.views ==> f'.rings[h] == null && IsDefault(f'.views[h]))
  }

  /** Rings move as handing out r, if known, moves them. */
  ghost predicate SlotsMove(f: Fleet, f': Fleet, shared: bool, peer: DeadlineRing?, r: Option<Handle>, now: int)
    requires Ready(f, shared, peer)
  {
    && f'.slots.Keys == f.slots.Keys
    && forall x :: x in f.slots ==>
         f'.slots[x] == if r.Some? && r.value in f.views then SlotsAfter(f, shared, peer, r.value, now, x)
                        else f.slots[x]
  }

  /** One round: entities may be added, and r, if any, is handed out. */
  ghost predicate Moves(f: Fleet, f': Fleet, shared: bool, peer: DeadlineRing?, r: Option<Handle>, now: int)
    requires Ready(f, shared, peer)
  {
    ReadyViews(f, shared, peer);
    Valid(f') && ViewsMove(f, f', r, now) && SlotsMove(f, f', shared, peer, r, now)
  }

  lemma ReadyViews(f: Fleet, shared: bool, peer: DeadlineRing?)
    requires Ready(f, shared, peer)
    ensures Valid(f) && forall h :: h in f.views ==> ValidView(f.views[h])
  {
    assert forall h :: h in f.views ==> CanHandOut(f, shared, peer, h);
  }

  lemma ExtensionReady(f: Fleet, f': Fleet, shared: bool, peer: DeadlineRing?)
    requires Ready(f, shared, peer) && Extends(f, f')
    ensures Ready(f', shared, peer)
  {
    forall h | h in f'.views ensures CanHandOut(f', shared, peer, h) {
      if h in f.views {
        assert CanHandOut(f, shared, peer, h);
      }
    }
  }

  lemma SameSlotsAfter(f: Fleet, mid: Fleet, shared: bool, peer: DeadlineRing?, h: Handle, now: int, x: DeadlineRing)
    requires Ready(f, shared, peer) && Extends(f, mid) && Ready(mid, shared, peer) && h in mid.views && x in f.slots
    ensures SlotsAfter(mid, shared, peer, h, now, x)
         == if h in f.views then SlotsAfter(f, shared, peer, h, now, x) else f.slots[x]
  {
  }

  lemma ChargeKeeps(v: View, now: int)
    requires ValidView(v)
    ensures Charge(v, now).schedule == v.schedule && Charge(v, now).chainId == v.chainId
    ensures IsDefault(v) ==> IsDefault(Charge(v, now))
  {
  }

  lemma HandedIs(f: Fleet, f': Fleet, shared: bool, peer: DeadlineRing?, r: Option<Handle>, now: int)
    requires Valid(f) && Handed(f, f', shared, peer, r, now)
    ensures Valid(f') && f'.rings == f.rings
    ensures r.Some? ==> r.value in f.views && ValidView(f.views[r.value])
    ensures f'.views == if r.Some? then f.views[r.value := Charge(f.views[r.value], now)] else f.views
  {
  }

  lemma HandedViews(f: Fleet, mid: Fleet, f': Fleet, shared: bool, peer: DeadlineRing?, r: Option<Handle>, now: int)
    requires Ready(f, shared, peer) && Extends(f, mid) && Handed(mid, f', shared, peer, r, now)
    ensures Valid(f') && (forall h :: h in f.views ==> ValidView(f.views[h])) && ViewsMove(f, f', r, now)
  {
    hide Ready, Handed, HandOut, SlotsAfter, IsPeer, Mirrors, ValidView, Charge;
    ReadyViews(f, shared, peer);
    HandedIs(mid, f', shared, peer, r, now);
    if r.Some? {
      ChargeKeeps(mid.views[r.value], now);
    }
  }

  lemma HandedSlots(f: Fleet, mid: Fleet, f': Fleet, shared: bool, peer: DeadlineRing?, r: Option<Handle>, now: int)
    requires Ready(f, shared, peer) && Extends(f, mid) && Ready(mid, shared, peer)
    requires Handed(mid, f', shared, peer, r, now)
    ensures SlotsMove(f, f', shared, peer, r, now)
  {
    hide SlotsAfter, IsPeer, Ready, Mirrors, ValidView;
    if r.Some? {
      forall x | x in f.slots
        ensures f'.slots[x] == if r.value in f.views then SlotsAfter(f, shared, peer, r.value, now, x) else f.slots[x]
      {
        SameSlotsAfter(f, mid, shared, peer, r.value, now, x);
      }
    }
  }

  lemma HandedMoves(f: Fleet, mid: Fleet, f': Fleet, shared: bool, peer: DeadlineRing?, r: Option<Handle>, now: int)
    requires Ready(f, shared, peer) && Extends(f, mid) && Ready(mid, shared, peer)
    requires Handed(mid, f', shared, peer, r, now)
    ensures Moves(f, f', shared, peer, r, now)
  {
    HandedViews(f, mid, f', shared, peer, r, now);
    HandedSlots(f, mid, f', shared, peer, r, now);
    hide Ready, Extends, Handed, ViewsMove, SlotsMove, Valid;
  }

  /** A round keeps every executable ready. */
  lemma StaysReady(f: Fleet, f': Fleet, shared: bool, peer: DeadlineRing?, r: Option<Handle>, now: int)
    requires Ready(f, shared, peer) && Moves(f, f', shared, peer, r, now)
    ensures Ready(f', shared, peer)
  {
    forall h | h in f'.views ensures CanHandOut(f', shared, peer, h) {
      if h in f.views {
        assert CanHandOut(f, shared, peer, h);
      }
    }
  }

  lemma KeyStays(f: Fleet, mid: Fleet, h: Handle)
    requires Extends(f, mid) && h in mid.views
    ensures KeyIn(mid, h) == KeyIn(f, h)
  {
  }

  /** Entities are added, then at most one is handed out: that is a round, and every
      executable can be handed out again. The keys it was chosen by are those from
      before. */
  lemma RoundMoves(f: Fleet, mid: Fleet, f': Fleet, shared: bool, peer: DeadlineRing?, r: Option<Handle>, now: int)
    requires Ready(f, shared, peer) && Extends(f, mid) && Handed(mid, f', shared, peer, r, now)
    ensures Moves(f, f', shared, peer, r, now) && Ready(f', shared, peer)
    ensures forall h :: h in mid.views ==> KeyIn(mid, h) == KeyIn(f, h)
  {
    ExtensionReady(f, mid, shared, peer);
    HandedMoves(f, mid, f', shared, peer, r, now);
    StaysReady(f, f', shared, peer, r, now);
    forall h | h in mid.views ensures KeyIn(mid, h) == KeyIn(f, h) {
      KeyStays(f, mid, h);
    }
  }

  // ---------- what rounds count ----------

  function TimesHanded(handed: seq<Option<Handle>>, h: Handle): nat {
    if handed == [] then 0
    else TimesHanded(handed[..|handed| - 1], h) + if handed[|handed| - 1] == Some(h) then 1 else 0
  }

  /** From f to f' exactly these were handed out: every executable has aged by as many
      times, and the ones that were added have default settings. */
  ghost predicate HaveAged(f: Fleet, f': Fleet, handed: seq<Option<Handle>>) {
    && (forall h :: h in f.views ==> h in f'.views && Aged(f.views[h], f'.views[h], TimesHanded(handed, h)))
    && (forall h :: h in f'.views && h !in f.views ==> IsDefault(f'.views[h]))
  }

  lemma NoneHaveAged(f: Fleet)
    ensures HaveAged(f, f, [])
  {
  }

  /** One more round ages what it hands out. */
  lemma RoundAges(f: Fleet, mid: Fleet, f': Fleet, shared: bool, peer: DeadlineRing?, handed: seq<Option<Handle>>,
                  r: Option<Handle>, now: int)
    requires HaveAged(f, mid, handed) && Ready(mid, shared, peer) && Moves(mid, f', shared, peer, r, now)
    ensures HaveAged(f, f', handed + [r])
  {
    hide CanHandOut, IsPeer, SlotsMove, Aged, IsDefault, Charge;
    ReadyViews(mid, shared, peer);
    assert (handed + [r])[..|handed|] == handed;
    forall h | h in f.views
      ensures h in f'.views && Aged(f.views[h], f'.views[h], TimesHanded(handed + [r], h))
    {
      if r == Some(h) {
        ChargeAges(f.views[h], mid.views[h], TimesHanded(handed, h), now);
      }
    }
    forall h | h in f'.views && h !in f.views ensures IsDefault(f'.views[h]) {
      if h in mid.views {
        ChargeKeeps(mid.views[h], now);
      }
    }
  }

  // ---------- a chain in the fleet ----------

  /** A deadline chain by the handles of its callbacks and its ring. */
  datatype Line = Line(c: Chain.Config, callbacks: seq<Handle>, ring: DeadlineRing)

  /** What h must be as callback b: it uses the chain's ring, except that the timer
      of a fed chain uses another one and belongs to chain 0. */
  ghost predicate IsMember(f: Fleet, k: Line, b: nat, h: Handle)
    requires Valid(f) && Chain.ValidConfig(k.c)
  {
    && h in f.views && IsCallback(k.c, f.views[h], b)
    && if b == 0 && k.c.fed then f.rings[h] != k.ring && f.views[h].chainId == 0
       else f.rings[h] == k.ring
  }

  ghost predicate IsChain(f: Fleet, k: Line) {
    && Valid(f) && Chain.ValidConfig(k.c) && |k.callbacks| == k.c.callbacks
    && k.ring in f.slots && |f.slots[k.ring]| == k.c.ring
    && (forall a, b :: 0 <= a < b < |k.callbacks| ==> k.callbacks[a] != k.callbacks[b])
    && forall b: nat :: b < |k.callbacks| ==> IsMember(f, k, b, k.callbacks[b])
  }

  /** Nothing but the chain's callbacks moves its ring. */
  ghost predicate Attached(f: Fleet, shared: bool, peer: DeadlineRing?, k: Line)
    requires IsChain(f, k)
  {
    && (forall h :: h in f.views && f.rings[h] == k.ring ==> h in k.callbacks)
    && if k.c.fed then
         shared && k.ring == peer && forall h :: h in f.views && Mirrors(f.views[h], shared) ==> h == k.callbacks[0]
       else k.ring != peer
  }

  ghost function ViewsOf(f: Fleet, k: Line): (views: seq<View>)
    requires IsChain(f, k)
    ensures |views| == |k.callbacks| && AreCallbacks(k.c, views, f.slots[k.ring])
    ensures forall b :: 0 <= b < |views| ==> views[b] == f.views[k.callbacks[b]]
  {
    assert forall b: nat :: b < |k.callbacks| ==> IsMember(f, k, b, k.callbacks[b]);
    seq(|k.callbacks|, b requires 0 <= b < |k.callbacks| => f.views[k.callbacks[b]])
  }

  ghost function ChainOf(f: Fleet, k: Line): Chain.State
    requires IsChain(f, k)
  {
    StateOf(ViewsOf(f, k), f.slots[k.ring])
  }

  lemma RingStands(f: Fleet, f': Fleet, shared: bool, peer: DeadlineRing?, r: Option<Handle>, now: int, k: Line)
    requires Ready(f, shared, peer) && Moves(f, f', shared, peer, r, now)
    requires IsChain(f, k) && Attached(f, shared, peer, k) && (r.Some? ==> r.value !in k.callbacks)
    ensures f'.slots[k.ring] == f.slots[k.ring]
  {
    if r.Some? && r.value in f.views {
      assert f.rings[r.value] != k.ring;
      if k.c.fed {
        assert k.callbacks[0] in k.callbacks;
      }
    }
  }

  lemma RingMoves(f: Fleet, f': Fleet, shared: bool, peer: DeadlineRing?, b: nat, now: int, k: Line)
    requires Ready(f, shared, peer) && b < |k.callbacks| && IsChain(f, k) && Attached(f, shared, peer, k)
    requires Moves(f, f', shared, peer, Some(k.callbacks[b]), now)
    ensures IsCallback(k.c, f.views[k.callbacks[b]], b)
    ensures f'.slots[k.ring] == RingAfter(k.c, f.views[k.callbacks[b]], b, f.slots[k.ring], now)
  {
    assert IsMember(f, k, b, k.callbacks[b]);
    assert CanHandOut(f, shared, peer, k.callbacks[b]);
  }

  /** A round changes no callback's part in its chain. */
  lemma StaysMember(f: Fleet, f': Fleet, shared: bool, peer: DeadlineRing?, r: Option<Handle>, now: int,
                    k: Line, b: nat)
    requires Ready(f, shared, peer) && Moves(f, f', shared, peer, r, now)
    requires IsChain(f, k) && b < |k.callbacks|
    ensures IsMember(f', k, b, k.callbacks[b])
  {
    assert IsMember(f, k, b, k.callbacks[b]);
  }

  lemma StaysChain(f: Fleet, f': Fleet, shared: bool, peer: DeadlineRing?, r: Option<Handle>, now: int, k: Line)
    requires Ready(f, shared, peer) && Moves(f, f', shared, peer, r, now)
    requires IsChain(f, k) && Attached(f, shared, peer, k)
    ensures IsChain(f', k) && Attached(f', shared, peer, k)
  {
    forall b: nat | b < |k.callbacks| ensures IsMember(f', k, b, k.callbacks[b]) {
      StaysMember(f, f', shared, peer, r, now, k, b);
    }
  }

  /** When something else is handed out, the chain stands still. */
  lemma ChainStands(f: Fleet, f': Fleet, shared: bool, peer: DeadlineRing?, r: Option<Handle>, now: int, k: Line)
    requires Ready(f, shared, peer) && Moves(f, f', shared, peer, r, now)
    requires IsChain(f, k) && Attached(f, shared, peer, k) && (r.Some? ==> r.value !in k.callbacks)
    ensures IsChain(f', k) && ChainOf(f', k) == ChainOf(f, k)
  {
    StaysChain(f, f', shared, peer, r, now, k);
    RingStands(f, f', shared, peer, r, now, k);
    forall b: nat | b < |k.callbacks| ensures f'.views[k.callbacks[b]] == f.views[k.callbacks[b]] {
      assert IsMember(f, k, b, k.callbacks[b]);
    }
    assert ViewsOf(f', k) == ViewsOf(f, k);
  }

  /** Handing out one of its callbacks is the chain's take of it. */
  lemma ChainTaken(f: Fleet, f': Fleet, shared: bool, peer: DeadlineRing?, b: nat, now: int, k: Line)
    requires Ready(f, shared, peer) && b < |k.callbacks| && IsChain(f, k) && Attached(f, shared, peer, k)
    requires Moves(f, f', shared, peer, Some(k.callbacks[b]), now)
    ensures IsChain(f', k)
    ensures ChainOf(f', k) == Chain.After(k.c, ChainOf(f, k), Chain.Take(b, now))
  {
    StaysChain(f, f', shared, peer, Some(k.callbacks[b]), now, k);
    RingMoves(f, f', shared, peer, b, now, k);
    var views := ViewsOf(f, k);
    ChargeIsTake(k.c, views, f.slots[k.ring], b, now);
    forall a: nat | a < |k.callbacks|
      ensures f'.views[k.callbacks[a]] == if a == b then Charge(views[b], now) else views[a]
    {
      assert IsMember(f, k, a, k.callbacks[a]);
    }
    assert ViewsOf(f', k) == views[b := Charge(views[b], now)];
  }

  /** The deadline the comparator reads of a callback is its chain's key. */
  lemma KeyIsChainKey(f: Fleet, k: Line, b: nat)
    requires IsChain(f, k) && b < |k.callbacks| && (k.c.fed ==> b > 0)
    ensures KeyIn(f, k.callbacks[b]).schedule == DEADLINE
    ensures KeyIn(f, k.callbacks[b]).deadline == Chain.Key(ChainOf(f, k), b)
  {
    assert IsMember(f, k, b, k.callbacks[b]);
  }
}
