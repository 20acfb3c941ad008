/** Selection under rounded addition: whether it succeeds depends only on the
    query-order sum of the contributions, not on the order they are selected in. */
module RoundedSelection {
  import opened Wrappers
  import opened Types
  import opened Costs
  import opened EditScripts
  import opened Neighborhood
  import opened Selection
  import opened Eta
  import opened SinglePrecision

  /** An addition of values that rounds, but monotonically and exactly around
      zero. */
  ghost predicate Rounds(value: nat -> bool, add: (nat, nat) -> nat) {
    && value(0)
    && (forall a: nat, b: nat :: value(a) && value(b) ==> value(add(a, b)))
    && (forall a: nat :: value(a) ==> add(0, a) == a && add(a, 0) == a)
    && (forall a: nat, b: nat, c: nat, d: nat ::
          value(a) && value(b) && value(c) && value(d) && a <= c && b <= d ==> add(a, b) <= add(c, d))
  }

  /** What is left of the bound rounds to something positive below the bound. */
  ghost predicate LeavesResidual(value: nat -> bool, residual: (nat, nat) -> nat) {
    forall limit: nat, paid: nat :: value(limit) && value(paid) && paid < limit ==> 0 < residual(limit, paid)
  }

  ghost predicate AllValues(value: nat -> bool, c: seq<nat>) {
    forall i :: 0 <= i < |c| ==> value(c[i])
  }

  /** The contributions of a set of positions, added in query order. */
  function OrderedSum(add: (nat, nat) -> nat, c: seq<nat>, chosen: set<nat>): nat {
    if c == [] then 0
    else
      var before := OrderedSum(add, c[..|c| - 1], chosen);
      if |c| - 1 in chosen then add(before, c[|c| - 1]) else before
  }

  /** The query-order sum over all positions. */
  function OrderedTotal(add: (nat, nat) -> nat, c: seq<nat>): nat {
    if c == [] then 0 else add(OrderedTotal(add, c[..|c| - 1]), c[|c| - 1])
  }

  lemma {:induction false} PartAtMostWhole(
    value: nat -> bool, add: (nat, nat) -> nat, c: seq<nat>, chosen: set<nat>)
    requires Rounds(value, add) && AllValues(value, c)
    ensures value(OrderedSum(add, c, chosen)) && value(OrderedTotal(add, c))
    ensures OrderedSum(add, c, chosen) <= OrderedTotal(add, c)
    ensures (forall i: nat :: i < |c| && i !in chosen ==> c[i] == 0) ==>
      OrderedSum(add, c, chosen) == OrderedTotal(add, c)
    decreases |c|
  {
    if c != [] {
      var init, last := c[..|c| - 1], c[|c| - 1];
      PartAtMostWhole(value, add, init, chosen);
      assert value(last);
      assert add(OrderedSum(add, init, chosen), 0) <= add(OrderedTotal(add, init), last);
      assert add(OrderedSum(add, init, chosen), last) <= add(OrderedTotal(add, init), last);
    }
  }

  function Chosen(selected: seq<nat>): set<nat> {
    set i | i in selected
  }

  function Unchosen(n: nat, selected: seq<nat>): set<nat> {
    set i: nat | i < n && i !in selected
  }

  /** The selection loop, with the choice among the positions that can still gain
      left open: whatever the rounded ratios prefer, selection succeeds exactly
      when the query-order sum of all contributions leaves the bound. */
  method SelectRounded(
    ghost value: nat -> bool, add: (nat, nat) -> nat, residual: (nat, nat) -> nat, c: seq<nat>, limit: nat)
    returns (r: Result<seq<nat>>)
    requires Rounds(value, add) && LeavesResidual(value, residual) && AllValues(value, c) && value(limit)
    ensures r.Ok? <==> limit <= OrderedTotal(add, c)
    ensures r.Ok? ==> limit <= OrderedSum(add, c, Chosen(r.value)) && forall i :: i in r.value ==> i < |c|
    ensures r.Err? ==> r.error == ThresholdSubsequenceUnavailable
  {
    hide OrderedSum, OrderedTotal, Rounds;
    var selected: seq<nat> := [];
    var contribution: nat := 0;
    NothingChosen(add, c);
    while contribution < limit
      invariant contribution == OrderedSum(add, c, Chosen(selected))
      invariant forall i :: i in selected ==> i < |c|
      decreases Unchosen(|c|, selected)
    {
      var left := residual(limit, contribution);
      var gaining := set i: nat | i < |c| && i !in selected && 0 < Least(c[i], left);
      PartAtMostWhole(value, add, c, Chosen(selected));
      if gaining == {} {
        forall i: nat | i < |c| && i !in Chosen(selected)
          ensures c[i] == 0
        {
          assert i !in gaining;
        }
        return Err(ThresholdSubsequenceUnavailable);
      }
      var best :| best in gaining;
      assert best in Unchosen(|c|, selected) && best !in Unchosen(|c|, selected + [best]);
      selected := selected + [best];
      contribution := OrderedSum(add, c, Chosen(selected));
    }
    PartAtMostWhole(value, add, c, Chosen(selected));
    return Ok(selected);
  }

  lemma {:induction false} NothingChosen(add: (nat, nat) -> nat, c: seq<nat>)
    ensures OrderedSum(add, c, Chosen([])) == 0
    decreases |c|
  {
    if c != [] {
      NothingChosen(add, c[..|c| - 1]);
    }
  }

  /** The caller's check adds the deletions with the same rounding, in the same
      order. */
  predicate AnyRadiusCanSelectRounded(
    add: (nat, nat) -> nat, p: Policy<Symbol>, query: seq<Symbol>, limit: nat)
  {
    limit <= OrderedTotal(add, Deletions(p, query))
  }

  function Deletions(p: Policy<Symbol>, query: seq<Symbol>): (d: seq<nat>)
    ensures |d| == |query| && forall i :: 0 <= i < |d| ==> d[i] == p.deletion(query[i])
  {
    seq(|query|, i requires 0 <= i < |query| => p.deletion(query[i]))
  }

  /** So an admitted query is selectable at the widest radius: the check and the
      selection weigh the same sum. */
  lemma WidestRadiusAgreesWithCheck(
    add: (nat, nat) -> nat, p: Policy<Symbol>, alphabet: seq<Symbol>, query: seq<Symbol>, limit: nat, eta: nat)
    requires forall radius: nat :: IsSubstitutionCost(p, alphabet, query, radius) ==> radius <= eta
    ensures limit <= OrderedTotal(add, Contributions(p, alphabet, query, eta)) <==>
            AnyRadiusCanSelectRounded(add, p, query, limit)
  {
    forall i | 0 <= i < |query|
      ensures WayOut(p, alphabet, query[i], eta) == p.deletion(query[i])
    {
      forall x: Symbol | x in alphabet
        ensures p.substitution(query[i], x) <= eta
      {
        assert query[i] in query;
        assert IsSubstitutionCost(p, alphabet, query, p.substitution(query[i], x));
      }
      OnlyDeletionBeyond(p, alphabet, query[i], eta);
    }
    assert Contributions(p, alphabet, query, eta) == Deletions(p, query);
  }

  // ----- Widening -----

  /** Every cost a search weighs is a value. */
  ghost predicate CostsAreValues(value: nat -> bool, p: Policy<Symbol>) {
    && (forall a: Symbol :: value(p.deletion(a)))
    && (forall a: Symbol, x: Symbol :: value(p.substitution(a, x)))
  }

  lemma ContributionsAreValues(
    value: nat -> bool, p: Policy<Symbol>, alphabet: seq<Symbol>, query: seq<Symbol>, eta: nat)
    requires CostsAreValues(value, p)
    ensures AllValues(value, Contributions(p, alphabet, query, eta)) && AllValues(value, Deletions(p, query))
  {
    forall i | 0 <= i < |query|
      ensures value(WayOut(p, alphabet, query[i], eta))
    {
      WayOutIsAttained(p, alphabet, query[i], eta);
    }
  }

  lemma AddsInOrder(value: nat -> bool, add: (nat, nat) -> nat, a: nat, b: nat, c: nat, d: nat)
    requires Rounds(value, add) && value(a) && value(b) && value(c) && value(d)
    requires a <= c && b <= d
    ensures add(a, b) <= add(c, d)
  {
  }

  lemma {:induction false} OrderedTotalGrows(
    value: nat -> bool, add: (nat, nat) -> nat, c: seq<nat>, wider: seq<nat>)
    requires Rounds(value, add) && AllValues(value, c) && AllValues(value, wider)
    requires |c| == |wider| && forall i :: 0 <= i < |c| ==> c[i] <= wider[i]
    ensures OrderedTotal(add, c) <= OrderedTotal(add, wider)
    decreases |c|
  {
    hide OrderedSum, Rounds;
    if c != [] {
      var init, widerInit := c[..|c| - 1], wider[..|c| - 1];
      OrderedTotalGrows(value, add, init, widerInit);
      PartAtMostWhole(value, add, init, {});
      PartAtMostWhole(value, add, widerInit, {});
      AddsInOrder(value, add, OrderedTotal(add, init), c[|c| - 1], OrderedTotal(add, widerInit), wider[|c| - 1]);
    }
  }

  /** The contributions at `eta`, added in query order, leave the bound. */
  ghost predicate LeavesRounded(
    add: (nat, nat) -> nat, p: Policy<Symbol>, alphabet: seq<Symbol>, query: seq<Symbol>, limit: nat, eta: nat)
  {
    limit <= OrderedTotal(add, Contributions(p, alphabet, query, eta))
  }

  ghost function LeavingRounded(
    add: (nat, nat) -> nat, p: Policy<Symbol>, alphabet: seq<Symbol>, query: seq<Symbol>, limit: nat): nat -> bool
  {
    (eta: nat) => LeavesRounded(add, p, alphabet, query, limit, eta)
  }

  /** Rounding keeps the order, so a wider radius still never loses the bound. */
  lemma LeavingRoundedWidens(
    value: nat -> bool, add: (nat, nat) -> nat, p: Policy<Symbol>, alphabet: seq<Symbol>, query: seq<Symbol>,
    limit: nat)
    requires Rounds(value, add) && CostsAreValues(value, p)
    ensures Widens(p, alphabet, query, LeavingRounded(add, p, alphabet, query, limit))
  {
    hide IsSubstitutionCost, Rounds, CostsAreValues;
    forall eta: nat, wider: nat | eta <= wider
      ensures LeavesRounded(add, p, alphabet, query, limit, eta) ==>
        LeavesRounded(add, p, alphabet, query, limit, wider)
      ensures LeavesRounded(add, p, alphabet, query, limit, wider)
              && !LeavesRounded(add, p, alphabet, query, limit, eta) ==>
        exists radius: nat :: eta < radius <= wider && IsSubstitutionCost(p, alphabet, query, radius)
    {
      RoundedContributionsGrow(value, add, p, alphabet, query, eta, wider);
      if forall radius: nat :: eta < radius <= wider ==> !IsSubstitutionCost(p, alphabet, query, radius) {
        ContributionsStay(p, alphabet, query, eta, wider);
      }
    }
  }

  lemma RoundedContributionsGrow(
    value: nat -> bool, add: (nat, nat) -> nat, p: Policy<Symbol>, alphabet: seq<Symbol>, query: seq<Symbol>,
    eta: nat, wider: nat)
    requires Rounds(value, add) && CostsAreValues(value, p) && eta <= wider
    ensures OrderedTotal(add, Contributions(p, alphabet, query, eta)) <=
            OrderedTotal(add, Contributions(p, alphabet, query, wider))
  {
    ContributionsAreValues(value, p, alphabet, query, eta);
    ContributionsAreValues(value, p, alphabet, query, wider);
    forall i | 0 <= i < |query|
      ensures WayOut(p, alphabet, query[i], eta) <= WayOut(p, alphabet, query[i], wider)
    {
      WayOutGrows(p, alphabet, query[i], eta, wider);
    }
    hide Rounds, CostsAreValues, AllValues;
    OrderedTotalGrows(value, add, Contributions(p, alphabet, query, eta), Contributions(p, alphabet, query, wider));
  }

  /** The up-front check decides under rounding too: it passes exactly when some
      radius leaves the bound. */
  lemma SomeRadiusLeavesRoundedIff(
    value: nat -> bool, add: (nat, nat) -> nat, p: Policy<Symbol>, alphabet: seq<Symbol>, query: seq<Symbol>,
    limit: nat, eta: nat)
    requires Rounds(value, add) && CostsAreValues(value, p)
    ensures AnyRadiusCanSelectRounded(add, p, query, limit) <==>
            !NoneFrom(LeavingRounded(add, p, alphabet, query, limit), eta)
  {
    hide IsSubstitutionCost, Rounds, CostsAreValues, AllValues;
    var widest := WidestRadius(p, alphabet, query, eta);
    WidestRadiusAgreesWithCheck(add, p, alphabet, query, limit, widest);
    var leaves := LeavingRounded(add, p, alphabet, query, limit);
    assert leaves(widest) <==> AnyRadiusCanSelectRounded(add, p, query, limit);
    forall e: nat | LeavesRounded(add, p, alphabet, query, limit, e)
      ensures AnyRadiusCanSelectRounded(add, p, query, limit)
    {
      ContributionsAreValues(value, p, alphabet, query, e);
      forall i | 0 <= i < |query|
        ensures WayOut(p, alphabet, query[i], e) <= p.deletion(query[i])
      {
        NoCheaperWayOut(p, alphabet, query[i], e);
      }
      OrderedTotalGrows(value, add, Contributions(p, alphabet, query, e), Deletions(p, query));
    }
  }

  /** What selecting at a radius has to give: query positions whose contributions
      leave the bound in query order. */
  ghost predicate SelectsRounded(
    add: (nat, nat) -> nat, p: Policy<Symbol>, alphabet: seq<Symbol>, query: seq<Symbol>, limit: nat, eta: nat,
    selected: seq<nat>)
  {
    && (forall i :: i in selected ==> i < |query|)
    && limit <= OrderedSum(add, Contributions(p, alphabet, query, eta), Chosen(selected))
  }

  /** The widening search under rounded addition: it settles on the least radius
      that selects, and never declines a query the up-front check admits. */
  method SelectPositionsRounded(
    ghost value: nat -> bool, add: (nat, nat) -> nat, residual: (nat, nat) -> nat, p: Policy<Symbol>,
    alphabet: seq<Symbol>, query: seq<Symbol>, limit: nat, eta: nat)
    returns (r: Result<(seq<nat>, Option<nat>)>)
    requires Rounds(value, add) && LeavesResidual(value, residual) && CostsAreValues(value, p) && value(limit)
    ensures r.Ok? <==> AnyRadiusCanSelectRounded(add, p, query, limit)
    ensures r.Ok? ==>
      var (selected, adjusted) := r.value;
      var radius := if adjusted.Some? then adjusted.value else eta;
      && (adjusted.Some? ==> eta < radius)
      && IsLeastFrom(LeavingRounded(add, p, alphabet, query, limit), eta, radius)
      && SelectsRounded(add, p, alphabet, query, limit, radius, selected)
    ensures r.Err? ==> r.error == ThresholdSubsequenceUnavailable
  {
    hide Rounds, LeavesResidual, CostsAreValues, WiderRadii, Widens, AnyRadiusCanSelectRounded;
    hide OrderedSum, OrderedTotal;
    ghost var leaves := LeavingRounded(add, p, alphabet, query, limit);
    LeavingRoundedWidens(value, add, p, alphabet, query, limit);
    SomeRadiusLeavesRoundedIff(value, add, p, alphabet, query, limit, eta);
    var first := SelectAtRounded(value, add, residual, p, alphabet, query, limit, eta);
    assert first.Ok? <==> leaves(eta);
    if first.Ok? {
      return Ok((first.value, None));
    }
    var radii := WiderRadii(p, alphabet, query, eta);
    var narrowest: Option<(seq<nat>, Option<nat>)> := None;
    var low, high := 0, |radii|;
    while low < high
      invariant 0 <= low <= high && Narrowed(leaves, radii, low, high)
      invariant high == |radii| ==> narrowest == None
      invariant high < |radii| ==>
        && narrowest.Some? && narrowest.value.1 == Some(radii[high])
        && SelectsRounded(add, p, alphabet, query, limit, radii[high], narrowest.value.0)
      decreases high - low
    {
      var middle := low + (high - low) / 2;
      NarrowDown(p, alphabet, query, leaves, eta, low, middle, high);
      var attempt := SelectAtRounded(value, add, residual, p, alphabet, query, limit, radii[middle]);
      if attempt.Ok? {
        narrowest := Some((attempt.value, Some(radii[middle])));
        high := middle;
      } else {
        low := middle + 1;
      }
    }
    NarrowedIsLeast(p, alphabet, query, leaves, eta, low);
    return if narrowest.Some? then Ok(narrowest.value) else Err(ThresholdSubsequenceUnavailable);
  }

  method SelectAtRounded(
    ghost value: nat -> bool, add: (nat, nat) -> nat, residual: (nat, nat) -> nat, p: Policy<Symbol>,
    alphabet: seq<Symbol>, query: seq<Symbol>, limit: nat, eta: nat)
    returns (r: Result<seq<nat>>)
    requires Rounds(value, add) && LeavesResidual(value, residual) && CostsAreValues(value, p) && value(limit)
    ensures r.Ok? <==> LeavesRounded(add, p, alphabet, query, limit, eta)
    ensures r.Ok? ==> SelectsRounded(add, p, alphabet, query, limit, eta, r.value)
    ensures r.Err? ==> r.error == ThresholdSubsequenceUnavailable
  {
    hide Rounds, LeavesResidual, CostsAreValues, AllValues, OrderedSum, OrderedTotal;
    ContributionsAreValues(value, p, alphabet, query, eta);
    r := SelectRounded(value, add, residual, Contributions(p, alphabet, query, eta), limit);
  }

  // ----- Single precision -----

  ghost function SingleValue(k: nat): nat -> bool {
    (x: nat) => IsSingle(k, x)
  }

  function SingleAddition(k: nat): (nat, nat) -> nat {
    (a: nat, b: nat) => AddSingle(k, a, b)
  }

  /** Single-precision addition, infinity included, and the residual it leaves
      meet the hypotheses. */
  lemma SinglePrecisionRounds(k: nat)
    ensures Rounds(SingleValue(k), SingleAddition(k)) && LeavesResidual(SingleValue(k), SubtractSingle)
  {
    hide AddSingle, IsSingle, SubtractSingle;
    ZeroIsSingle(k);
    forall a: nat, b: nat
      ensures IsSingle(k, AddSingle(k, a, b))
    {
      AddSingleIsValue(k, a, b);
    }
    forall a: nat | IsSingle(k, a)
      ensures AddSingle(k, 0, a) == a == AddSingle(k, a, 0)
    {
      ZeroIsNeutral(k, a);
    }
    forall a: nat, b: nat, c: nat, d: nat | a <= c && b <= d
      ensures AddSingle(k, a, b) <= AddSingle(k, c, d)
    {
      AddSingleIsMonotone(k, a, b, c, d);
    }
    forall limit: nat, paid: nat | paid < limit
      ensures 0 < SubtractSingle(limit, paid)
    {
      SubtractSingleIsPositive(limit, paid);
    }
  }

  lemma ZeroIsSingle(k: nat)
    ensures IsSingle(k, 0)
  {
    hide IsFloat;
    ZeroIsFloat();
  }

  lemma SubtractSingleIsPositive(limit: nat, paid: nat)
    requires paid < limit
    ensures 0 < SubtractSingle(limit, paid)
  {
    RoundKeepsSign(limit - paid);
  }

  /** Selection in single precision succeeds exactly when the query-order sum of
      the contributions leaves the bound. */
  method SelectSinglePrecision(k: nat, c: seq<nat>, limit: nat) returns (r: Result<seq<nat>>)
    requires AllValues(SingleValue(k), c) && IsSingle(k, limit)
    ensures r.Ok? <==> limit <= OrderedTotal(SingleAddition(k), c)
    ensures r.Ok? ==>
      limit <= OrderedSum(SingleAddition(k), c, Chosen(r.value)) && forall i :: i in r.value ==> i < |c|
    ensures r.Err? ==> r.error == ThresholdSubsequenceUnavailable
  {
    hide IsSingle, AddSingle, SubtractSingle, Rounds, LeavesResidual;
    SinglePrecisionRounds(k);
    r := SelectRounded(SingleValue(k), SingleAddition(k), SubtractSingle, c, limit);
  }

  /** Widening in single precision, on single-precision costs. */
  method SelectPositionsSinglePrecision(
    k: nat, p: Policy<Symbol>, alphabet: seq<Symbol>, query: seq<Symbol>, limit: nat, eta: nat)
    returns (r: Result<(seq<nat>, Option<nat>)>)
    requires CostsAreValues(SingleValue(k), p) && IsSingle(k, limit)
    ensures r.Ok? <==> AnyRadiusCanSelectRounded(SingleAddition(k), p, query, limit)
    ensures r.Ok? ==>
      var (selected, adjusted) := r.value;
      var radius := if adjusted.Some? then adjusted.value else eta;
      && (adjusted.Some? ==> eta < radius)
      && IsLeastFrom(LeavingRounded(SingleAddition(k), p, alphabet, query, limit), eta, radius)
      && SelectsRounded(SingleAddition(k), p, alphabet, query, limit, radius, selected)
    ensures r.Err? ==> r.error == ThresholdSubsequenceUnavailable
  {
    hide *;
    SinglePrecisionRounds(k);
    IsSingleValue(k, limit);
    r := SelectPositionsRounded(
      SingleValue(k), SingleAddition(k), SubtractSingle, p, alphabet, query, limit, eta);
  }

  lemma IsSingleValue(k: nat, x: nat)
    requires IsSingle(k, x)
    ensures SingleValue(k)(x)
  {
  }

  lemma SumsAroundTheFirstGap()
    ensures Round(2) == 2 && Round(SIGNIFICAND) == SIGNIFICAND && Round(SIGNIFICAND + 1) == SIGNIFICAND
    ensures Round(SIGNIFICAND + 2) == SIGNIFICAND + 2 && Round(1) == 1
  {
    assert Exponent(1) == Exponent(2) == 0 && Exponent(SIGNIFICAND / 2) == 0;
    assert Exponent(SIGNIFICAND) == Exponent(SIGNIFICAND + 1) == Exponent(SIGNIFICAND + 2) == 1;
    assert Pow2(0) == 1 && Pow2(1) == 2;
    assert (SIGNIFICAND + 1) / 2 == SIGNIFICAND / 2 && (SIGNIFICAND + 1) % 2 == 1;
  }

  /** The order of the additions decides. Two ones vanish into a running total of
      two to the 24th, but not into each other: the same three contributions end
      below a bound in one order and reach it in the other. */
  lemma OrderDecidesSums(k: nat)
    requires 2 <= k
    ensures OrderedTotal(SingleAddition(k), [SIGNIFICAND, 1, 1]) == SIGNIFICAND
    ensures OrderedTotal(SingleAddition(k), [1, 1, SIGNIFICAND]) == SIGNIFICAND + 2
    ensures AllValues(SingleValue(k), [SIGNIFICAND, 1, 1]) && IsSingle(k, SIGNIFICAND + 2)
  {
    hide Round, IsFloat, Max, Beyond, OrderedTotal;
    SumsAroundTheFirstGap();
    RoundIsFloat(1);
    RoundIsFloat(SIGNIFICAND);
    RoundIsFloat(SIGNIFICAND + 2);
    GapIsInRange(k);
    ZeroIsNeutral(k, SIGNIFICAND);
    ZeroIsNeutral(k, 1);
    TotalOfThree(SingleAddition(k), SIGNIFICAND, 1, 1);
    TotalOfThree(SingleAddition(k), 1, 1, SIGNIFICAND);
  }

  lemma GapIsInRange(k: nat)
    requires 2 <= k
    ensures SIGNIFICAND + 2 <= Max(k)
  {
    if 2 < k {
      Pow2Grows(2, k);
    }
    assert Pow2(2) == 4;
  }

  lemma TotalOfThree(add: (nat, nat) -> nat, a: nat, b: nat, c: nat)
    ensures OrderedTotal(add, [a, b, c]) == add(add(add(0, a), b), c)
  {
    assert [a, b, c][..2] == [a, b] && [a, b][..1] == [a] && [a][..0] == [];
    assert OrderedTotal(add, [a]) == add(0, a);
    assert OrderedTotal(add, [a, b]) == add(add(0, a), b);
  }
}
