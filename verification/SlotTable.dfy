/** The deadline ring: N queues that together stand for an unbounded table from
    instance number to absolute deadline. Instance n lives in slot n % N. */
module SlotTable {
  import opened Arithmetic
  import opened Options

  type Slots = seq<seq<nat>>

  // ---------- the ring's two operations ----------

  function PushAt(slots: Slots, index: nat, deadline: nat): Slots
    requires index < |slots|
  {
    slots[index := slots[index] + [deadline]]
  }

  /** The pop is guarded: an empty slot stays empty. */
  function PopAt(slots: Slots, index: nat): Slots
    requires index < |slots|
  {
    if slots[index] == [] then slots else slots[index := slots[index][1..]]
  }

  /** What handing out a callback with this index does to a ring of its turn n:
      a timer pushes one slot ahead, then a last callback pops its own slot. */
  function MoveRing(slots: Slots, index: nat, n: nat, push: Option<nat>, pops: bool): (slots': Slots)
    requires index < n <= |slots|
    ensures |slots'| == |slots|
  {
    var pushed := if push.Some? then PushAt(slots, (index + 1) % n, push.value) else slots;
    if pops then PopAt(pushed, index) else pushed
  }

  // ---------- the table it stands for ----------

  /** The entries of instances low, low + 1, .. of the table that live in slot s,
      in instance order. */
  function Column(table: seq<nat>, low: nat, s: nat, n: nat): seq<nat>
    requires n > 0
  {
    if |table| <= low then []
    else
      var last: nat := |table| - 1;
      Column(table[..last], low, s, n) + if last % n == s then [table[last]] else []
  }

  /** The ring holds exactly the table's instances from `low` on. */
  ghost predicate Holds(slots: Slots, table: seq<nat>, low: nat) {
    && slots != []
    && forall s: nat :: s < |slots| ==> slots[s] == Column(table, low, s, |slots|)
  }

  // ---------- pushing and popping act on the table ----------

  lemma PushExtends(slots: Slots, table: seq<nat>, low: nat, deadline: nat)
    requires Holds(slots, table, low) && low <= |table|
    ensures Holds(PushAt(slots, |table| % |slots|, deadline), table + [deadline], low)
  {
    var table' := table + [deadline];
    assert table'[..|table|] == table;
  }

  /** The head of an instance's slot while that instance is the oldest one. */
  lemma {:induction false} OldestFirst(table: seq<nat>, low: nat, n: nat)
    requires n > 0 && low < |table|
    ensures Column(table, low, low % n, n) == [table[low]] + Column(table, low + 1, low % n, n)
  {
    var last: nat := |table| - 1;
    if low < last {
      OldestFirst(table[..last], low, n);
    }
  }

  lemma {:induction false} OtherColumn(table: seq<nat>, low: nat, s: nat, n: nat)
    requires n > 0 && low < |table| && s != low % n
    ensures Column(table, low, s, n) == Column(table, low + 1, s, n)
  {
    var last: nat := |table| - 1;
    if low < last {
      OtherColumn(table[..last], low, s, n);
    }
  }

  /** Popping the oldest instance's slot removes exactly that instance, and the
      guard finds the slot non-empty. */
  lemma PopShrinks(slots: Slots, table: seq<nat>, low: nat)
    requires Holds(slots, table, low) && low < |table|
    ensures slots[low % |slots|] != [] && slots[low % |slots|][0] == table[low]
    ensures Holds(PopAt(slots, low % |slots|), table, low + 1)
  {
    OldestFirst(table, low, |slots|);
    var slots' := PopAt(slots, low % |slots|);
    forall s: nat | s < |slots'| ensures slots'[s] == Column(table, low + 1, s, |slots'|) {
      if s != low % |slots| {
        OtherColumn(table, low, s, |slots|);
      }
    }
  }

  // ---------- what a slot's head is ----------

  /** The instance whose deadline heads the slot of instance i. */
  function HeadInstance(low: nat, i: nat, n: nat): nat
    requires n > 0 && low <= i
  {
    low + (i - low) % n
  }

  lemma SameColumn(low: nat, i: nat, h: nat, n: nat)
    requires n > 0 && low <= h <= i && (i - h) % n == 0
    ensures h % n == i % n
  {
    assert i == h + (i - h) / n * n;
    AddBlocks(h, (i - h) / n, n);
  }

  lemma AddBlocks(h: nat, q: nat, n: nat)
    requires n > 0 && q * n >= 0
    ensures (h + q * n) % n == h % n
  {
    DivBounds(h, n);
    assert (h / n + q) * n == h / n * n + q * n;
    DivModUnique(h + q * n, h / n + q, h % n, n);
  }

  lemma {:induction false} ColumnSkips(table: seq<nat>, low: nat, h: nat, s: nat, n: nat)
    requires n > 0 && low <= h <= |table|
    requires forall k: nat :: low <= k < h ==> k % n != s
    ensures Column(table, low, s, n) == Column(table, h, s, n)
    decreases h - low
  {
    if low < h {
      OtherColumn(table, low, s, n);
      ColumnSkips(table, low + 1, h, s, n);
    }
  }

  /** Distinct residues within one turn of the ring. */
  lemma OneTurn(k: nat, h: nat, n: nat)
    requires n > 0 && k < h < k + n
    ensures k % n != h % n
  {
    if k % n == h % n {
      DivBounds(k, n);
      DivBounds(h, n);
      assert h - k == (h / n - k / n) * n;
      FactorBelow(0, h / n - k / n, n);
      MulLe(1, h / n - k / n, n);
      assert false;
    }
  }

  /** The slot of a pending instance i is not empty, and its head is the deadline
      of the oldest instance that shares the slot. */
  lemma HeadOfSlot(slots: Slots, table: seq<nat>, low: nat, i: nat)
    requires Holds(slots, table, low) && low <= i < |table|
    ensures low <= HeadInstance(low, i, |slots|) <= i
    ensures slots[i % |slots|] != []
    ensures slots[i % |slots|][0] == table[HeadInstance(low, i, |slots|)]
  {
    var n := |slots|;
    var h := HeadInstance(low, i, n);
    assert i - low == (i - low) / n * n + (i - low) % n;
    assert i - h == (i - low) / n * n;
    AddBlocks(0, (i - low) / n, n);
    SameColumn(low, i, h, n);
    forall k: nat | low <= k < h ensures k % n != i % n {
      OneTurn(k, h, n);
    }
    ColumnSkips(table, low, h, i % n, n);
    OldestFirst(table, h, n);
  }

  /** That oldest instance is i itself exactly within one turn of the ring. */
  lemma HeadIsOwn(low: nat, i: nat, n: nat)
    requires n > 0 && low <= i
    ensures HeadInstance(low, i, n) == i <==> i < low + n
  {
  }

  lemma HeadOneTurnBack(low: nat, i: nat, n: nat)
    requires n > 0 && low <= i && HeadInstance(low, i, n) < i
    ensures HeadInstance(low, i, n) + n <= i
  {
    var q := (i - low) / n;
    assert i - low == q * n + (i - low) % n;
    FactorBelow(0, q, n);
    MulLe(1, q, n);
  }

  // ---------- conservation ----------

  function Queued(slots: Slots): nat {
    if slots == [] then 0 else Queued(slots[..|slots| - 1]) + |slots[|slots| - 1]|
  }

  /** Entries of columns 0 .. m - 1. */
  function InColumns(table: seq<nat>, low: nat, m: nat, n: nat): nat
    requires n > 0
  {
    if m == 0 then 0 else InColumns(table, low, m - 1, n) + |Column(table, low, m - 1, n)|
  }

  lemma {:induction false} QueuedIsInColumns(slots: Slots, table: seq<nat>, low: nat, m: nat)
    requires Holds(slots, table, low) && m <= |slots|
    ensures Queued(slots[..m]) == InColumns(table, low, m, |slots|)
  {
    if m > 0 {
      QueuedIsInColumns(slots, table, low, m - 1);
      assert slots[..m][..m - 1] == slots[..m - 1];
    }
  }

  lemma {:induction false} ColumnsStep(table: seq<nat>, low: nat, m: nat, n: nat)
    requires n > 0 && low < |table| && m <= n
    ensures InColumns(table, low, m, n)
         == InColumns(table[..|table| - 1], low, m, n) + if (|table| - 1) % n < m then 1 else 0
  {
    if m > 0 {
      ColumnsStep(table, low, m - 1, n);
    }
  }

  lemma {:induction false} ColumnsTotal(table: seq<nat>, low: nat, n: nat)
    requires n > 0 && low <= |table|
    ensures InColumns(table, low, n, n) == |table| - low
  {
    if low < |table| {
      ColumnsStep(table, low, n, n);
      ColumnsTotal(table[..|table| - 1], low, n);
    } else {
      NothingQueued(table, low, n, n);
    }
  }

  lemma {:induction false} NothingQueued(table: seq<nat>, low: nat, m: nat, n: nat)
    requires n > 0 && |table| <= low
    ensures InColumns(table, low, m, n) == 0
  {
    if m > 0 {
      NothingQueued(table, low, m - 1, n);
    }
  }

  /** Nothing is lost or duplicated: the ring queues one entry per instance from
      the oldest to the newest. */
  lemma TotalQueued(slots: Slots, table: seq<nat>, low: nat)
    requires Holds(slots, table, low) && low <= |table|
    ensures Queued(slots) == |table| - low
  {
    assert slots[..|slots|] == slots;
    QueuedIsInColumns(slots, table, low, |slots|);
    ColumnsTotal(table, low, |slots|);
  }
}
