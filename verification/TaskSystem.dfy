/** The inputs of the response-time analyses: chains of callbacks on m threads. */
module TaskSystem {
  import opened Arithmetic

  /** One chain: its total runtime, the runtime of its last callback, its
      period and its relative deadline. */
  datatype ChainTask = ChainTask(runtime: nat, last: nat, period: nat, deadline: nat) {
    /** The runtime that precedes the last callback. */
    function Head(): nat
      requires last <= runtime
    {
      runtime - last
    }

    /** How many instances of the chain can be unfinished at once. */
    function Backlog(): nat
      requires period >= 1
    {
      CeilDiv(deadline, period)
    }
  }

  datatype System = System(m: nat, chains: seq<ChainTask>)

  predicate ValidChain(c: ChainTask) {
    c.last <= c.runtime && c.period >= 1 && c.deadline >= 1
  }

  predicate Valid(s: System) {
    s.m >= 1 && forall k :: 0 <= k < |s.chains| ==> ValidChain(s.chains[k])
  }

  // ---------- chain runtimes from the flat list of callback runtimes ----------

  function Total(xs: seq<nat>): nat {
    if xs == [] then 0 else Total(xs[..|xs| - 1]) + xs[|xs| - 1]
  }

  /** Position of chain i's first callback in the flat list. */
  function Offset(members: seq<seq<nat>>, i: nat): nat
    requires i <= |members|
  {
    if i == 0 then 0 else Offset(members, i - 1) + |members[i - 1]|
  }

  lemma {:induction false} OffsetMono(members: seq<seq<nat>>, i: nat, j: nat)
    requires i <= j <= |members|
    ensures Offset(members, i) <= Offset(members, j)
  {
    if i < j {
      OffsetMono(members, i, j - 1);
    }
  }

  /** One more callback adds its runtime to the total. */
  lemma TotalStep(xs: seq<nat>, a: nat, b: nat)
    requires a <= b < |xs|
    ensures Total(xs[a..b + 1]) == Total(xs[a..b]) + xs[b]
  {
    assert xs[a..b + 1][..b - a] == xs[a..b];
  }

  /** Wrapping at every step or once at the end is the same. */
  lemma WrapsOnce(a: nat, b: nat)
    ensures Wrap(a % WORD + b) == (a + b) % WORD
  {
    assert a == a / WORD * WORD + a % WORD;
    assert (a + b) % WORD == (a % WORD + b) % WORD;
  }

  /** (runtime, last) describe chain c: the sum of its slice of the flat list, on
      unsigned words, and the slice's last element. */
  ghost predicate Describes(members: seq<seq<nat>>, nodes: seq<nat>, c: nat, runtime: nat, last: nat)
    requires c < |members|
  {
    var from, to := Offset(members, c), Offset(members, c + 1);
    && from < to <= |nodes|
    && runtime == Total(nodes[from..to]) % WORD
    && last == nodes[to - 1]
    && (Total(nodes[from..to]) < WORD ==> last <= runtime == Total(nodes[from..to]))
  }

  /** The inner loop: sums `len` entries of the flat list from `start` on. */
  method SumSlice(nodeRuntimes: seq<nat>, start: nat, len: nat) returns (sum: nat, index: nat)
    requires start + len <= |nodeRuntimes| && forall x :: x in nodeRuntimes ==> x < WORD
    ensures index == start + len && sum == Total(nodeRuntimes[start..index]) % WORD
    ensures len > 0 ==> nodeRuntimes[index - 1] <= Total(nodeRuntimes[start..index])
  {
    sum, index := 0, start;
    var left := len;
    while left > 0
      invariant 0 <= left <= len && index == start + len - left
      invariant sum == Total(nodeRuntimes[start..index]) % WORD
      invariant start < index ==> nodeRuntimes[index - 1] <= Total(nodeRuntimes[start..index])
    {
      TotalStep(nodeRuntimes, start, index);
      WrapsOnce(Total(nodeRuntimes[start..index]), nodeRuntimes[index]);
      sum := Wrap(sum + nodeRuntimes[index]);
      index, left := index + 1, left - 1;
    }
  }

  /** Splits the flat list of callback runtimes into per-chain totals. Only the
      length of each member list matters; every chain has a callback. */
  method ChainTimes(members: seq<seq<nat>>, nodeRuntimes: seq<nat>)
    returns (runtimes: seq<nat>, lasts: seq<nat>)
    requires forall i :: 0 <= i < |members| ==> members[i] != []
    requires Offset(members, |members|) <= |nodeRuntimes|
    requires forall x :: x in nodeRuntimes ==> x < WORD
    ensures |runtimes| == |lasts| == |members|
    ensures forall i: nat :: i < |members| ==> Describes(members, nodeRuntimes, i, runtimes[i], lasts[i])
  {
    runtimes, lasts := [], [];
    var index := 0;
    var i := 0;
    while i < |members|
      invariant 0 <= i <= |members|
      invariant index == Offset(members, i)
      invariant |runtimes| == |lasts| == i
      invariant forall c: nat :: c < i ==> Describes(members, nodeRuntimes, c, runtimes[c], lasts[c])
    {
      OffsetMono(members, i + 1, |members|);
      var sum;
      sum, index := SumSlice(nodeRuntimes, index, |members[i]|);
      runtimes := runtimes + [sum];
      lasts := lasts + [nodeRuntimes[index - 1]];
      assert Describes(members, nodeRuntimes, i, sum, nodeRuntimes[index - 1]);
      i := i + 1;
    }
  }
}
