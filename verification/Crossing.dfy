/** The search both analyses run: walk up from a start value until a demand
    curve falls below the service line m * t. */
module Crossing {
  import opened Arithmetic

  /** The demand at t is less than what m threads supply in t ticks. */
  predicate Crosses(demand: nat -> nat, m: nat, t: nat) {
    demand(t) < Times(m, t)
  }

  /** t is where the search that starts at `from` stops. */
  ghost predicate IsFirst(demand: nat -> nat, m: nat, from: nat, t: nat) {
    && from <= t
    && Crosses(demand, m, t)
    && forall u: nat :: from <= u < t ==> !Crosses(demand, m, u)
  }

  /** A bounded demand is below the service line from Quot(bound, m) + 1 on. */
  lemma BoundedDemandCrosses(demand: nat -> nat, m: nat, bound: nat, t: nat)
    requires m >= 1 && demand(t) <= bound
    ensures t >= Quot(bound, m) + 1 ==> Crosses(demand, m, t)
  {
    DivBounds(bound, m);
    MulLe(Quot(bound, m) + 1, t, m);
  }

  /** The first crossing exists, whatever the shape of the demand: no monotonicity
      is needed, only a bound. */
  function First(demand: nat -> nat, m: nat, bound: nat, from: nat): (r: nat)
    requires m >= 1 && from <= Quot(bound, m) + 1
    requires forall u: nat :: demand(u) <= bound
    ensures IsFirst(demand, m, from, r)
    ensures r <= Quot(bound, m) + 1
    decreases Quot(bound, m) + 1 - from
  {
    if Crosses(demand, m, from) then from
    else
      BoundedDemandCrosses(demand, m, bound, from);
      First(demand, m, bound, from + 1)
  }
}
