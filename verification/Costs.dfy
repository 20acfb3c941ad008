/** Edit costs, distances and the strict search bound. */
module Costs {
  import opened Wrappers

  /** A cost policy. Every cost is a whole number of quanta, and `max` is the
      largest representable cost in the same quanta. Nothing relates the three
      operations to each other, and substituting a token for itself may cost
      something. */
  datatype Policy<!T> = Policy(substitution: (T, T) -> nat, deletion: T -> nat, insertion: T -> nat, max: nat)

  /** A dynamic-programming cell: a cost that fits below `max`, or infinity. */
  datatype Distance = Finite(value: nat) | Infinite {
    predicate Below(other: Distance) {
      match (this, other)
      case (Finite(a), Finite(b)) => a < b
      case (Finite(_), Infinite) => true
      case (Infinite, _) => false
    }
  }

  /** The smaller of two cells. */
  function Min(a: Distance, b: Distance): Distance {
    if b.Below(a) then b else a
  }

  /** The cell that stands for an exact cost. */
  function Capped(max: nat, exact: nat): Distance {
    if exact <= max then Finite(exact) else Infinite
  }

  /** Adds two cells; a sum above the largest cost becomes infinite. */
  function AddDistance(max: nat, left: Distance, right: Distance): Distance {
    match (left, right)
    case (Finite(a), Finite(b)) => Capped(max, a + b)
    case _ => Infinite
  }

  /** A raw `f32` argument, in quanta. */
  datatype RawCost = Number(quanta: int) | NotFinite

  /** Accepts finite, non-negative values. */
  function NewCost(max: nat, raw: RawCost): Result<nat> {
    if raw.Number? && 0 <= raw.quanta <= max then Ok(raw.quanta) else Err(InvalidCost)
  }

  /** A distance qualifies when it is less than the limit. */
  datatype StrictBound = StrictBound(limit: nat) {
    predicate Admits(distance: Distance) {
      distance.Below(Finite(limit))
    }

    function Residual(paid: nat): int {
      limit - paid
    }
  }

  function FromInclusive(max: nat, threshold: nat): (r: Result<StrictBound>)
    ensures r.Ok? <==> threshold != max
    ensures r.Ok? ==> forall d: Distance :: r.value.Admits(d) <==> d.Finite? && d.value <= threshold
    ensures r.Ok? ==> 0 < r.value.limit
  {
    if threshold == max then Err(InvalidThreshold) else Ok(StrictBound(threshold + 1))
  }

  /** Capping commutes with addition, so capped sums are the exact sum capped once. */
  lemma CappedAddition(max: nat, a: nat, b: nat)
    ensures AddDistance(max, Capped(max, a), Capped(max, b)) == Capped(max, a + b)
  {
  }

  /** Capping commutes with minimum. */
  lemma CappedMinimum(max: nat, a: nat, b: nat)
    ensures Min(Capped(max, a), Capped(max, b)) == Capped(max, if b < a then b else a)
  {
  }
}
