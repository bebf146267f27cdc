/** The priority queue of executables: a binary heap that compares live keys. */
module ExecutableHeap {
  import opened Executable

  type Heap = seq<PriorityExecutable>

  function Parent(i: nat): nat
    requires i > 0
  {
    (i - 1) / 2
  }

  ghost function Rings(h: Heap): set<DeadlineRing?>
    reads h`deadlines
  {
    set e | e in h :: e.deadlines
  }

  /** The entry at i is not preferred to the entry at j. */
  ghost predicate Under(h: Heap, i: nat, j: nat)
    requires i < |h| && j < |h|
    reads h`curIndex, h`deadlines, h`counter, Rings(h)`slots
  {
    Below(KeyOf(h[i]), KeyOf(h[j]))
  }

  ghost predicate Ordered(h: Heap)
    reads h`curIndex, h`deadlines, h`counter, Rings(h)`slots
  {
    forall i: nat :: 0 < i < |h| ==> Under(h, i, Parent(i))
  }

  lemma UnderTransitive(h: Heap, i: nat, j: nat, k: nat)
    requires i < |h| && j < |h| && k < |h| && Under(h, i, j) && Under(h, j, k)
    ensures Under(h, i, k)
  {
    BelowIsTotalPreorder(KeyOf(h[i]), KeyOf(h[j]), KeyOf(h[k]));
  }

  /** No entry of an ordered heap is preferred to its root. */
  lemma {:induction false} RootIsGreatest(h: Heap, i: nat)
    requires Ordered(h) && i < |h|
    ensures Under(h, i, 0)
  {
    if i == 0 {
      BelowIsTotalPreorder(KeyOf(h[0]), KeyOf(h[0]), KeyOf(h[0]));
    } else {
      RootIsGreatest(h, Parent(i));
      UnderTransitive(h, i, Parent(i), 0);
    }
  }

  function Swap(h: Heap, i: nat, j: nat): (h': Heap)
    requires i < |h| && j < |h|
    ensures |h'| == |h| && h'[i] == h[j] && h'[j] == h[i]
    ensures forall k :: 0 <= k < |h| && k != i && k != j ==> h'[k] == h[k]
  {
    h[i := h[j]][j := h[i]]
  }

  lemma SwapKeepsEntries(h: Heap, i: nat, j: nat)
    requires i < |h| && j < |h|
    ensures multiset(Swap(h, i, j)) == multiset(h)
  {
  }

  // ---------- push ----------

  lemma SameEntries(h: Heap, h': Heap)
    requires multiset(h) == multiset(h')
    ensures forall e :: e in h <==> e in h'
  {
    forall e: PriorityExecutable
      ensures e in h <==> e in h'
    {
      assert e in h <==> e in multiset(h);
      assert e in h' <==> e in multiset(h');
    }
  }

  /** Ordered except that the entry at i may be preferred to its ancestors. */
  ghost predicate OrderedButUp(h: Heap, i: nat)
    requires i < |h|
    reads h`curIndex, h`deadlines, h`counter, Rings(h)`slots
  {
    && (forall j: nat :: 0 < j < |h| && j != i ==> Under(h, j, Parent(j)))
    && (forall j: nat :: 0 < j < |h| && Parent(j) == i && i > 0 ==> Under(h, j, Parent(i)))
  }

  lemma SwapUp(h: Heap, i: nat)
    requires 0 < i < |h| && OrderedButUp(h, i) && Under(h, Parent(i), i)
    ensures OrderedButUp(Swap(h, Parent(i), i), Parent(i))
  {
    var p := Parent(i);
    var h' := Swap(h, p, i);
    forall j: nat | 0 < j < |h| && j != p ensures Under(h', j, Parent(j)) {
      if j != i && Parent(j) == p {
        UnderTransitive(h, j, p, i);
      }
    }
    forall j: nat | 0 < j < |h| && Parent(j) == p && p > 0 ensures Under(h', j, Parent(p)) {
      if j != i {
        UnderTransitive(h, j, p, Parent(p));
      }
    }
  }

  method Push(h: Heap, e: PriorityExecutable) returns (h': Heap)
    requires Ordered(h)
    ensures Ordered(h')
    ensures multiset(h') == multiset(h) + multiset{e}
    ensures forall x :: x in h' <==> x in h || x == e
  {
    h' := h + [e];
    var i: nat := |h|;
    assert forall j: nat :: 0 < j < |h| ==> Under(h, j, Parent(j));
    assert OrderedButUp(h', i);
    while i > 0 && Less(KeyOf(h'[Parent(i)]), KeyOf(h'[i]))
      invariant i < |h'| && OrderedButUp(h', i)
      invariant multiset(h') == multiset(h) + multiset{e}
    {
      LessRespectsOrder(KeyOf(h'[Parent(i)]), KeyOf(h'[i]));
      SwapUp(h', i);
      SwapKeepsEntries(h', Parent(i), i);
      h' := Swap(h', Parent(i), i);
      i := Parent(i);
    }
    if i > 0 {
      LessRespectsOrder(KeyOf(h'[Parent(i)]), KeyOf(h'[i]));
    }
    SameEntries(h', h + [e]);
  }

  // ---------- pop ----------

  /** Ordered except that the entry at i may be less preferred than its children. */
  ghost predicate OrderedButDown(h: Heap, i: nat)
    requires i < |h|
    reads h`curIndex, h`deadlines, h`counter, Rings(h)`slots
  {
    && (forall j: nat :: 0 < j < |h| && Parent(j) != i ==> Under(h, j, Parent(j)))
    && (forall j: nat :: 0 < j < |h| && Parent(j) == i && i > 0 ==> Under(h, j, Parent(i)))
  }

  /** c is i's child that no other child of i is preferred to. */
  ghost predicate GreatestChild(h: Heap, i: nat, c: nat)
    requires i < |h|
    reads h`curIndex, h`deadlines, h`counter, Rings(h)`slots
  {
    && 0 < c < |h| && Parent(c) == i
    && forall j: nat :: 0 < j < |h| && Parent(j) == i ==> Under(h, j, c)
  }

  lemma SwapDown(h: Heap, i: nat, c: nat)
    requires i < |h| && OrderedButDown(h, i) && GreatestChild(h, i, c) && Under(h, i, c)
    ensures OrderedButDown(Swap(h, i, c), c)
  {
    var h' := Swap(h, i, c);
    forall j: nat | 0 < j < |h| && Parent(j) != c ensures Under(h', j, Parent(j)) {
    }
    forall j: nat | 0 < j < |h| && Parent(j) == c ensures Under(h', j, i) {
      assert Under(h, j, c);
    }
  }

  method ChildToCompare(h: Heap, i: nat) returns (c: nat)
    requires 2 * i + 1 < |h|
    ensures GreatestChild(h, i, c)
  {
    var left: nat := 2 * i + 1;
    c := left;
    BelowIsTotalPreorder(KeyOf(h[left]), KeyOf(h[left]), KeyOf(h[left]));
    if left + 1 < |h| {
      LessRespectsOrder(KeyOf(h[left]), KeyOf(h[left + 1]));
      BelowIsTotalPreorder(KeyOf(h[left + 1]), KeyOf(h[left + 1]), KeyOf(h[left + 1]));
      if Less(KeyOf(h[left]), KeyOf(h[left + 1])) {
        c := left + 1;
      }
    }
  }

  lemma Settled(h: Heap, i: nat, c: nat)
    requires i < |h| && OrderedButDown(h, i) && GreatestChild(h, i, c) && Under(h, c, i)
    ensures Ordered(h)
  {
    forall j: nat | 0 < j < |h| ensures Under(h, j, Parent(j)) {
      if Parent(j) == i {
        UnderTransitive(h, j, c, i);
      }
    }
  }

  /** One level of the descent: either the entry at i is settled, or it trades
      places with the child it has to be compared with. */
  method StepDown(h: Heap, i: nat) returns (h': Heap, c: nat, settled: bool)
    requires 2 * i + 1 < |h| && OrderedButDown(h, i)
    ensures |h'| == |h| && multiset(h') == multiset(h)
    ensures settled ==> Ordered(h')
    ensures !settled ==> i < c < |h'| && OrderedButDown(h', c)
  {
    c := ChildToCompare(h, i);
    LessRespectsOrder(KeyOf(h[i]), KeyOf(h[c]));
    settled := !Less(KeyOf(h[i]), KeyOf(h[c]));
    if settled {
      Settled(h, i, c);
      h' := h;
    } else {
      SwapDown(h, i, c);
      SwapKeepsEntries(h, i, c);
      h' := Swap(h, i, c);
    }
  }

  /** Restores the order below the root. */
  method SiftDown(h: Heap) returns (h': Heap)
    requires h != [] && OrderedButDown(h, 0)
    ensures Ordered(h') && multiset(h') == multiset(h)
  {
    h' := h;
    var i: nat, settled := 0, false;
    while 2 * i + 1 < |h'| && !settled
      invariant i < |h'|
      invariant if settled then Ordered(h') else OrderedButDown(h', i)
      invariant multiset(h') == multiset(h)
      decreases !settled, |h'| - i
    {
      h', i, settled := StepDown(h', i);
      if settled {
        i := 0;
      }
    }
  }

  /** The heap without its root, the last entry in the root's place. */
  function LastToRoot(h: Heap): Heap
    requires |h| > 1
  {
    h[..|h| - 1][0 := h[|h| - 1]]
  }

  lemma LastToRootEntries(h: Heap)
    requires |h| > 1
    ensures multiset(LastToRoot(h)) == multiset(h) - multiset{h[0]}
  {
    var n: nat := |h| - 1;
    assert h == [h[0]] + h[1..n] + [h[n]];
    assert LastToRoot(h) == [h[n]] + h[1..n];
  }

  lemma LastToRootOrder(h: Heap)
    requires |h| > 1 && Ordered(h)
    ensures OrderedButDown(LastToRoot(h), 0)
  {
    var moved := LastToRoot(h);
    forall j: nat | 0 < j < |moved| && Parent(j) != 0 ensures Under(moved, j, Parent(j)) {
      assert Under(h, j, Parent(j));
    }
  }

  /** No entry of the heap is preferred to e. */
  ghost predicate Greatest(h: Heap, e: PriorityExecutable)
    reads h`curIndex, h`deadlines, h`counter, Rings(h)`slots
    reads e`curIndex, e`deadlines, e`counter, {e.deadlines}`slots
  {
    forall x :: x in h ==> Below(KeyOf(x), KeyOf(e))
  }

  lemma RootIsMaximal(h: Heap)
    requires h != [] && Ordered(h)
    ensures Greatest(h, h[0])
  {
    forall e | e in h ensures Below(KeyOf(e), KeyOf(h[0])) {
      var i: nat :| i < |h| && h[i] == e;
      RootIsGreatest(h, i);
    }
  }

  method RemoveRoot(h: Heap) returns (h': Heap)
    requires |h| > 1 && Ordered(h)
    ensures Ordered(h') && multiset(h') == multiset(h) - multiset{h[0]}
  {
    LastToRootEntries(h);
    LastToRootOrder(h);
    h' := SiftDown(LastToRoot(h));
  }

  lemma RootApart(h: Heap, h': Heap)
    requires h != [] && multiset(h') == multiset(h) - multiset{h[0]}
    ensures |h'| == |h| - 1
    ensures forall x :: x in h <==> x in h' || x == h[0]
  {
    assert h[0] in multiset(h);
    assert multiset(h) == multiset(h' + [h[0]]);
    assert |multiset(h)| == |h| && |multiset(h')| == |h'|;
    SameEntries(h, h' + [h[0]]);
  }

  /** Takes the root: an entry to which no other is preferred, whether or not
      every key was found. */
  method Pop(h: Heap) returns (top: PriorityExecutable, h': Heap)
    requires h != [] && Ordered(h)
    ensures top in h
    ensures Greatest(h, top)
    ensures Ordered(h')
    ensures multiset(h') == multiset(h) - multiset{top} && |h'| == |h| - 1
    ensures forall x :: x in h <==> x in h' || x == top
  {
    top := h[0];
    RootIsMaximal(h);
    if |h| == 1 {
      h' := [];
      assert h == [top];
    } else {
      h' := RemoveRoot(h);
    }
    RootApart(h, h');
  }
}
