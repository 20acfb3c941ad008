/** The dynamic-programming kernel shared by the verifiers. */
module Kernel {
  import opened Costs
  import opened EditScripts

  /** Cell `r` holds the distance from the first `r` query symbols to `data`,
      capped at the largest cost. */
  ghost predicate IsColumn<T>(p: Policy<T>, query: seq<T>, data: seq<T>, column: seq<Distance>) {
    && |column| == |query| + 1
    && forall r :: 0 <= r <= |query| ==> column[r] == Capped(p.max, Wed(p, query[..r], data))
  }

  lemma WedDeletingAll<T>(p: Policy<T>, query: seq<T>, k: nat)
    requires k < |query|
    ensures Wed(p, query[..k + 1], []) == Wed(p, query[..k], []) + p.deletion(query[k])
  {
    assert query[..k + 1][..k] == query[..k];
  }

  lemma WedInserting<T>(p: Policy<T>, data: seq<T>, x: T)
    ensures Wed(p, [], data + [x]) == Wed(p, [], data) + p.insertion(x)
  {
    assert (data + [x])[..|data|] == data;
  }

  lemma WedStep<T>(p: Policy<T>, query: seq<T>, data: seq<T>, x: T, k: nat)
    requires k < |query|
    ensures Wed(p, query[..k + 1], data + [x]) ==
            Least(
              Least(
                Wed(p, query[..k], data) + p.substitution(query[k], x),
                Wed(p, query[..k + 1], data) + p.insertion(x)),
              Wed(p, query[..k], data + [x]) + p.deletion(query[k]))
  {
    assert query[..k + 1][..k] == query[..k];
    assert (data + [x])[..|data|] == data;
  }

  /** Deleting every query symbol matches the empty data prefix. */
  method RootColumn<T>(query: seq<T>, p: Policy<T>) returns (column: seq<Distance>)
    ensures IsColumn(p, query, [], column)
  {
    column := [Finite(0)];
    for k := 0 to |query|
      invariant |column| == k + 1
      invariant forall r :: 0 <= r <= k ==> column[r] == Capped(p.max, Wed(p, query[..r], []))
    {
      WedDeletingAll(p, query, k);
      column := column + [AddDistance(p.max, column[|column| - 1], Finite(p.deletion(query[k])))];
    }
  }

  /** The cell of row `k + 1` from its three predecessors. */
  function Cell<T>(p: Policy<T>, from: T, to: T, diagonal: Distance, left: Distance, above: Distance): Distance {
    var substitution := AddDistance(p.max, diagonal, Finite(p.substitution(from, to)));
    var insertion := AddDistance(p.max, left, Finite(p.insertion(to)));
    var deletion := AddDistance(p.max, above, Finite(p.deletion(from)));
    Min(Min(substitution, insertion), deletion)
  }

  lemma CellIsExact<T>(p: Policy<T>, from: T, to: T, diagonal: nat, left: nat, above: nat)
    ensures Cell(p, from, to, Capped(p.max, diagonal), Capped(p.max, left), Capped(p.max, above)) ==
            Capped(p.max,
                   Least(Least(diagonal + p.substitution(from, to), left + p.insertion(to)), above + p.deletion(from)))
  {
    hide AddDistance, Min;
    var s, i, d := p.substitution(from, to), p.insertion(to), p.deletion(from);
    CostIsAdded(p.max, diagonal, s);
    CostIsAdded(p.max, left, i);
    CostIsAdded(p.max, above, d);
    CappedMinimum(p.max, diagonal + s, left + i);
    CappedMinimum(p.max, Least(diagonal + s, left + i), above + d);
  }

  /** Adding an edit cost to a cell adds it to the exact cost. A single cost
      beyond the largest leaves the sum beyond it as well. */
  lemma CostIsAdded(max: nat, exact: nat, cost: nat)
    ensures AddDistance(max, Capped(max, exact), Finite(cost)) == Capped(max, exact + cost)
  {
    if cost <= max {
      CappedAddition(max, exact, cost);
    }
  }

  lemma NextCell<T>(
    p: Policy<T>, query: seq<T>, data: seq<T>, x: T, k: nat, previous: seq<Distance>, above: Distance)
    requires IsColumn(p, query, data, previous) && k < |query|
    requires above == Capped(p.max, Wed(p, query[..k], data + [x]))
    ensures Cell(p, query[k], x, previous[k], previous[k + 1], above) ==
            Capped(p.max, Wed(p, query[..k + 1], data + [x]))
  {
    WedStep(p, query, data, x, k);
    CellIsExact(p, query[k], x, Wed(p, query[..k], data), Wed(p, query[..k + 1], data), Wed(p, query[..k], data + [x]));
  }

  lemma FirstCell<T>(p: Policy<T>, query: seq<T>, data: seq<T>, x: T, previous: seq<Distance>)
    requires IsColumn(p, query, data, previous)
    ensures AddDistance(p.max, previous[0], Finite(p.insertion(x))) == Capped(p.max, Wed(p, query[..0], data + [x]))
  {
    assert query[..0] == [];
    WedInserting(p, data, x);
  }

  lemma LastCell<T>(p: Policy<T>, query: seq<T>, data: seq<T>, column: seq<Distance>)
    requires IsColumn(p, query, data, column)
    ensures column[|query|] == Capped(p.max, Wed(p, query, data))
  {
    assert query[..|query|] == query;
  }

  /** Advances a column past one data symbol. */
  method StepDp<T>(query: seq<T>, symbol: T, previous: seq<Distance>, p: Policy<T>, ghost data: seq<T>)
    returns (current: seq<Distance>)
    requires IsColumn(p, query, data, previous)
    ensures IsColumn(p, query, data + [symbol], current)
  {
    FirstCell(p, query, data, symbol, previous);
    current := [AddDistance(p.max, previous[0], Finite(p.insertion(symbol)))];
    for k := 0 to |query|
      invariant |current| == k + 1
      invariant forall r :: 0 <= r <= k ==> current[r] == Capped(p.max, Wed(p, query[..r], data + [symbol]))
    {
      NextCell(p, query, data, symbol, k, previous, current[k]);
      current := current + [Cell(p, query[k], symbol, previous[k], previous[k + 1], current[k])];
    }
  }

  // ----- The column minimum as a pruning bound -----

  /** The smallest cell of a column. */
  function Floor(column: seq<Distance>): Distance {
    if column == [] then Infinite else Min(Floor(column[..|column| - 1]), column[|column| - 1])
  }

  /** Every cell of the exact column is at least `budget`. */
  ghost predicate Exhausted<T>(p: Policy<T>, query: seq<T>, data: seq<T>, budget: nat) {
    forall r :: 0 <= r <= |query| ==> budget <= Wed(p, query[..r], data)
  }

  lemma {:induction false} FloorIsLeast(column: seq<Distance>, limit: Distance)
    ensures Floor(column).Below(limit) <==> exists r :: 0 <= r < |column| && column[r].Below(limit)
  {
    if column != [] {
      var init := column[..|column| - 1];
      FloorIsLeast(init, limit);
      if Floor(init).Below(limit) {
        var r :| 0 <= r < |init| && init[r].Below(limit);
        assert column[r].Below(limit);
      }
      if exists r :: 0 <= r < |column| && column[r].Below(limit) {
        var r :| 0 <= r < |column| && column[r].Below(limit);
        assert r < |init| ==> init[r].Below(limit);
      }
    }
  }

  /** Comparing the capped minimum with the budget decides exhaustion exactly. */
  lemma FloorDecidesExhaustion<T>(p: Policy<T>, query: seq<T>, data: seq<T>, column: seq<Distance>, budget: nat)
    requires IsColumn(p, query, data, column) && budget <= p.max
    ensures Floor(column).Below(Finite(budget)) <==> !Exhausted(p, query, data, budget)
  {
    FloorIsLeast(column, Finite(budget));
    if !Exhausted(p, query, data, budget) {
      var r :| 0 <= r <= |query| && Wed(p, query[..r], data) < budget;
      assert column[r].Below(Finite(budget));
    }
  }

  lemma ExhaustedAt<T>(p: Policy<T>, query: seq<T>, data: seq<T>, budget: nat, r: nat)
    requires Exhausted(p, query, data, budget) && r <= |query|
    ensures budget <= Wed(p, query[..r], data)
  {
  }

  lemma LeastIsAtLeast(budget: nat, a: nat, b: nat, c: nat)
    requires budget <= a && budget <= b && budget <= c
    ensures budget <= Least(Least(a, b), c)
  {
  }

  lemma {:induction false} OneMoreSymbol<T>(p: Policy<T>, query: seq<T>, data: seq<T>, x: T, budget: nat, r: nat)
    requires Exhausted(p, query, data, budget) && r <= |query|
    ensures budget <= Wed(p, query[..r], data + [x])
  {
    hide *;
    if r == 0 {
      ExhaustedAt(p, query, data, budget, 0);
      WedInserting(p, data, x);
      assert query[..0] == [];
    } else {
      OneMoreSymbol(p, query, data, x, budget, r - 1);
      ExhaustedAt(p, query, data, budget, r - 1);
      ExhaustedAt(p, query, data, budget, r);
      WedStep(p, query, data, x, r - 1);
      LeastIsAtLeast(
        budget,
        Wed(p, query[..r - 1], data) + p.substitution(query[r - 1], x),
        Wed(p, query[..r], data) + p.insertion(x),
        Wed(p, query[..r - 1], data + [x]) + p.deletion(query[r - 1]));
    }
  }

  /** The column minimum never decreases: an exhausted prefix stays exhausted. */
  lemma {:induction false} ExhaustionIsFinal<T>(p: Policy<T>, query: seq<T>, data: seq<T>, more: seq<T>, budget: nat)
    requires Exhausted(p, query, data, budget)
    ensures Exhausted(p, query, data + more, budget)
    decreases |more|
  {
    if more == [] {
      assert data + more == data;
    } else {
      var init, x := more[..|more| - 1], more[|more| - 1];
      ExhaustionIsFinal(p, query, data, init, budget);
      forall r | 0 <= r <= |query|
        ensures budget <= Wed(p, query[..r], data + more)
      {
        OneMoreSymbol(p, query, data + init, x, budget, r);
        assert data + more == data + init + [x];
      }
    }
  }
}
