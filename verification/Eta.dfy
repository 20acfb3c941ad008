/** Widening of the neighborhood radius. */
module Eta {
  import opened Types
  import opened Costs
  import opened Sorting
  import opened Postings
  import opened Neighborhood
  import opened Selection
  import opened Agreement

  /** Whether the query's deletions together leave the bound. */
  predicate AnyRadiusCanSelect(query: seq<Symbol>, bound: StrictBound, p: Policy<Symbol>) {
    !bound.Admits(Finite(TotalDeletion(p, query)))
  }

  /** The substitution costs from one symbol that lie above `eta`. */
  function RadiiOf(p: Policy<Symbol>, alphabet: seq<Symbol>, symbol: Symbol, eta: nat): seq<nat> {
    if alphabet == [] then []
    else
      var before := RadiiOf(p, alphabet[..|alphabet| - 1], symbol, eta);
      var radius := p.substitution(symbol, alphabet[|alphabet| - 1]);
      if radius > eta then before + [radius] else before
  }

  function CollectRadii(p: Policy<Symbol>, alphabet: seq<Symbol>, query: seq<Symbol>, eta: nat): seq<nat> {
    if query == [] then []
    else CollectRadii(p, alphabet, query[..|query| - 1], eta) + RadiiOf(p, alphabet, query[|query| - 1], eta)
  }

  /** The radii above `eta` at which selection can change, in increasing order. */
  function WiderRadii(p: Policy<Symbol>, alphabet: seq<Symbol>, query: seq<Symbol>, eta: nat): seq<nat> {
    Dedup(Sort(NatLeq, CollectRadii(p, alphabet, query, eta)))
  }

  /** `radius` is the cost of substituting some query symbol by some data symbol. */
  ghost predicate IsSubstitutionCost(p: Policy<Symbol>, alphabet: seq<Symbol>, query: seq<Symbol>, radius: nat) {
    exists a, x :: a in query && x in alphabet && p.substitution(a, x) == radius
  }

  lemma {:induction false} RadiiOfHold(p: Policy<Symbol>, alphabet: seq<Symbol>, symbol: Symbol, eta: nat, radius: nat)
    ensures radius in RadiiOf(p, alphabet, symbol, eta) <==>
            eta < radius && exists x :: x in alphabet && p.substitution(symbol, x) == radius
    decreases |alphabet|
  {
    if alphabet != [] {
      var init, last := alphabet[..|alphabet| - 1], alphabet[|alphabet| - 1];
      RadiiOfHold(p, init, symbol, eta, radius);
      assert forall x :: x in alphabet <==> x in init || x == last;
    }
  }

  lemma {:induction false} CollectedRadiiHold(
    p: Policy<Symbol>, alphabet: seq<Symbol>, query: seq<Symbol>, eta: nat, radius: nat)
    ensures radius in CollectRadii(p, alphabet, query, eta) <==>
            eta < radius && IsSubstitutionCost(p, alphabet, query, radius)
    decreases |query|
  {
    if query != [] {
      var init, last := query[..|query| - 1], query[|query| - 1];
      CollectedRadiiHold(p, alphabet, init, eta, radius);
      RadiiOfHold(p, alphabet, last, eta, radius);
      assert forall a :: a in query <==> a in init || a == last;
      assert IsSubstitutionCost(p, alphabet, query, radius) <==>
             IsSubstitutionCost(p, alphabet, init, radius)
             || exists x :: x in alphabet && p.substitution(last, x) == radius;
    }
  }

  /** The ladder holds exactly the substitution costs above `eta`, ascending. */
  lemma WiderRadiiAreTheCostsAbove(p: Policy<Symbol>, alphabet: seq<Symbol>, query: seq<Symbol>, eta: nat)
    ensures forall i, j :: 0 <= i < j < |WiderRadii(p, alphabet, query, eta)| ==>
      WiderRadii(p, alphabet, query, eta)[i] < WiderRadii(p, alphabet, query, eta)[j]
    ensures forall radius: nat :: radius in WiderRadii(p, alphabet, query, eta) <==>
      eta < radius && IsSubstitutionCost(p, alphabet, query, radius)
  {
    var collected := CollectRadii(p, alphabet, query, eta);
    SortIsSorted(NatLeq, collected);
    SortedElements(collected, Sort(NatLeq, collected));
    DedupIsAscending(NatLeq, Sort(NatLeq, collected));
    forall radius: nat
      ensures radius in WiderRadii(p, alphabet, query, eta) <==>
              eta < radius && IsSubstitutionCost(p, alphabet, query, radius)
    {
      CollectedRadiiHold(p, alphabet, query, eta, radius);
    }
  }

  // ----- How the contributions depend on the radius -----

  lemma {:induction false} SumPointwise(v: seq<nat>, w: seq<nat>)
    requires |v| == |w| && forall i :: 0 <= i < |v| ==> v[i] <= w[i]
    ensures Sum(v) <= Sum(w)
    decreases |v|
  {
    if v != [] {
      SumPointwise(v[..|v| - 1], w[..|w| - 1]);
    }
  }

  lemma ContributionsGrow(p: Policy<Symbol>, alphabet: seq<Symbol>, query: seq<Symbol>, eta: nat, wider: nat)
    requires eta <= wider
    ensures Sum(Contributions(p, alphabet, query, eta)) <= Sum(Contributions(p, alphabet, query, wider))
  {
    forall i | 0 <= i < |query|
      ensures WayOut(p, alphabet, query[i], eta) <= WayOut(p, alphabet, query[i], wider)
    {
      WayOutGrows(p, alphabet, query[i], eta, wider);
    }
    SumPointwise(Contributions(p, alphabet, query, eta), Contributions(p, alphabet, query, wider));
  }

  lemma ContributionsStay(p: Policy<Symbol>, alphabet: seq<Symbol>, query: seq<Symbol>, eta: nat, wider: nat)
    requires eta <= wider
    requires forall radius: nat :: eta < radius <= wider ==> !IsSubstitutionCost(p, alphabet, query, radius)
    ensures Contributions(p, alphabet, query, eta) == Contributions(p, alphabet, query, wider)
  {
    forall i | 0 <= i < |query|
      ensures WayOut(p, alphabet, query[i], eta) == WayOut(p, alphabet, query[i], wider)
    {
      forall x: Symbol | x in alphabet
        ensures p.substitution(query[i], x) <= eta || wider < p.substitution(query[i], x)
      {
        assert query[i] in query;
        assert IsSubstitutionCost(p, alphabet, query, p.substitution(query[i], x));
      }
      SameBetweenCosts(p, alphabet, query[i], eta, wider);
    }
  }

  lemma {:induction false} SumOfDeletions(p: Policy<Symbol>, query: seq<Symbol>, v: seq<nat>)
    requires |v| == |query| && forall i :: 0 <= i < |v| ==> v[i] == p.deletion(query[i])
    ensures Sum(v) == TotalDeletion(p, query)
    decreases |v|
  {
    if v != [] {
      SumOfDeletions(p, query[..|query| - 1], v[..|v| - 1]);
    }
  }

  /** Deleting the whole query is the most the positions can ever contribute. */
  lemma ContributionsAtMostDeletion(p: Policy<Symbol>, alphabet: seq<Symbol>, query: seq<Symbol>, eta: nat)
    ensures Sum(Contributions(p, alphabet, query, eta)) <= TotalDeletion(p, query)
  {
    var deletions := seq(|query|, i requires 0 <= i < |query| => p.deletion(query[i]));
    forall i | 0 <= i < |query|
      ensures WayOut(p, alphabet, query[i], eta) <= deletions[i]
    {
      NoCheaperWayOut(p, alphabet, query[i], eta);
    }
    SumPointwise(Contributions(p, alphabet, query, eta), deletions);
    SumOfDeletions(p, query, deletions);
  }

  /** Beyond every substitution cost the contributions are the deletions. */
  lemma WidestContributions(p: Policy<Symbol>, alphabet: seq<Symbol>, query: seq<Symbol>, eta: nat)
    requires forall radius: nat :: IsSubstitutionCost(p, alphabet, query, radius) ==> radius <= eta
    ensures Sum(Contributions(p, alphabet, query, eta)) == TotalDeletion(p, query)
  {
    forall i | 0 <= i < |query|
      ensures WayOut(p, alphabet, query[i], eta) == p.deletion(query[i])
    {
      forall x: Symbol | x in alphabet
        ensures p.substitution(query[i], x) <= eta
      {
        assert query[i] in query;
        assert IsSubstitutionCost(p, alphabet, query, p.substitution(query[i], x));
      }
      OnlyDeletionBeyond(p, alphabet, query[i], eta);
    }
    SumOfDeletions(p, query, Contributions(p, alphabet, query, eta));
  }

  // ----- Candidate counts never overflow on a real index -----

  lemma {:induction false} CountsAreBounded(index: PostingsIndex, neighbors: seq<Symbol>, top: Symbol)
    requires index.WellFormed() && Increasing(neighbors) && top < |index.postingOffsets|
    requires forall x :: x in neighbors ==> x < top
    ensures CandidateCount(index, neighbors) <= index.postingOffsets[top]
    decreases |neighbors|
  {
    if neighbors != [] {
      var init, last := neighbors[..|neighbors| - 1], neighbors[|neighbors| - 1];
      assert last in neighbors;
      forall x | x in init
        ensures x < last
      {
      }
      CountsAreBounded(index, init, last);
      assert index.postingOffsets[last] <= index.postingOffsets[last + 1] <= index.postingOffsets[top];
    }
  }

  lemma CountsFitOnRealIndex(p: Policy<Symbol>, index: PostingsIndex, query: seq<Symbol>, eta: nat)
    requires index.WellFormed() && |index.postings| <= USIZE_MAX
    ensures CountsFit(Counts(p, index.Alphabet(), index, query, eta))
  {
    var top := |index.postingOffsets| - 1;
    index.AlphabetBelowIsComplete(top);
    forall i | 0 <= i < |query|
      ensures CandidateCount(index, Neighbors(p, index.Alphabet(), query[i], eta)) <= |index.postings|
    {
      NeighborsAscend(p, index.Alphabet(), query[i], eta);
      CountsAreBounded(index, Neighbors(p, index.Alphabet(), query[i], eta), top);
    }
  }

  /** On a real index, selection succeeds exactly when the contributions together
      leave the bound. */
  lemma CanSelectIffContributionsLeave(
    p: Policy<Symbol>, index: PostingsIndex, query: seq<Symbol>, bound: StrictBound, eta: nat)
    requires index.WellFormed() && |index.postings| <= USIZE_MAX
    ensures CanSelect(p, index.Alphabet(), index, query, bound, eta) <==>
            bound.limit <= Sum(Contributions(p, index.Alphabet(), query, eta))
  {
    CountsFitOnRealIndex(p, index, query, eta);
  }

  // ----- The least radius that selects -----

  /** Contributions at `eta` leave the bound. */
  ghost predicate Leaves(p: Policy<Symbol>, alphabet: seq<Symbol>, query: seq<Symbol>, bound: StrictBound, eta: nat) {
    bound.limit <= Sum(Contributions(p, alphabet, query, eta))
  }

  /** The radii at which they do. */
  ghost function Leaving(
    p: Policy<Symbol>, alphabet: seq<Symbol>, query: seq<Symbol>, bound: StrictBound): nat -> bool
  {
    (eta: nat) => Leaves(p, alphabet, query, bound, eta)
  }

  /** A property of radii that widening keeps, and that only crossing a
      substitution cost can bring about. */
  ghost predicate Widens(p: Policy<Symbol>, alphabet: seq<Symbol>, query: seq<Symbol>, leaves: nat -> bool) {
    forall eta: nat, wider: nat :: eta <= wider ==>
      && (leaves(eta) ==> leaves(wider))
      && (leaves(wider) && !leaves(eta) ==>
            exists radius: nat :: eta < radius <= wider && IsSubstitutionCost(p, alphabet, query, radius))
  }

  lemma LeavingWidens(p: Policy<Symbol>, alphabet: seq<Symbol>, query: seq<Symbol>, bound: StrictBound)
    ensures Widens(p, alphabet, query, Leaving(p, alphabet, query, bound))
  {
    hide IsSubstitutionCost;
    forall eta: nat, wider: nat | eta <= wider
      ensures Leaves(p, alphabet, query, bound, eta) ==> Leaves(p, alphabet, query, bound, wider)
      ensures Leaves(p, alphabet, query, bound, wider) && !Leaves(p, alphabet, query, bound, eta) ==>
        exists radius: nat :: eta < radius <= wider && IsSubstitutionCost(p, alphabet, query, radius)
    {
      ContributionsGrow(p, alphabet, query, eta, wider);
      if forall radius: nat :: eta < radius <= wider ==> !IsSubstitutionCost(p, alphabet, query, radius) {
        ContributionsStay(p, alphabet, query, eta, wider);
      }
    }
  }

  /** The least radius from `eta` on with the property. */
  ghost predicate IsLeastFrom(leaves: nat -> bool, eta: nat, radius: nat) {
    && eta <= radius && leaves(radius)
    && forall e: nat :: eta <= e < radius ==> !leaves(e)
  }

  ghost predicate NoneFrom(leaves: nat -> bool, eta: nat) {
    forall e: nat :: eta <= e ==> !leaves(e)
  }

  lemma NotBetweenRungs(radii: seq<nat>, rung: nat, e: nat, radius: nat)
    requires forall i, j :: 0 <= i < j < |radii| ==> radii[i] < radii[j]
    requires rung < |radii| && radii[rung] < radius <= e && (rung + 1 < |radii| ==> e < radii[rung + 1])
    ensures radius !in radii
  {
    forall i | 0 <= i < |radii|
      ensures radii[i] != radius
    {
      assert i <= rung || i == rung + 1 || radii[rung + 1] < radii[i];
    }
  }

  /** A radius with the property is preceded by a rung of the ladder that already
      has it. */
  lemma LadderReaches(
    p: Policy<Symbol>, alphabet: seq<Symbol>, query: seq<Symbol>, leaves: nat -> bool, eta: nat, e: nat)
    returns (rung: nat)
    requires Widens(p, alphabet, query, leaves) && eta <= e && leaves(e) && !leaves(eta)
    ensures rung < |WiderRadii(p, alphabet, query, eta)| && WiderRadii(p, alphabet, query, eta)[rung] <= e
    ensures leaves(WiderRadii(p, alphabet, query, eta)[rung])
  {
    hide IsSubstitutionCost, WiderRadii;
    var radii := WiderRadii(p, alphabet, query, eta);
    WiderRadiiAreTheCostsAbove(p, alphabet, query, eta);
    var radius: nat :| eta < radius <= e && IsSubstitutionCost(p, alphabet, query, radius);
    assert radius in radii;
    rung :| 0 <= rung < |radii| && radii[rung] == radius;
    while rung + 1 < |radii| && radii[rung + 1] <= e
      invariant 0 <= rung < |radii| && radii[rung] <= e
    {
      rung := rung + 1;
    }
    assert radii[rung] in radii;
    forall radius: nat | radii[rung] < radius <= e
      ensures !IsSubstitutionCost(p, alphabet, query, radius)
    {
      NotBetweenRungs(radii, rung, e, radius);
    }
  }

  /** A binary search has narrowed the ladder to `low..high`. */
  ghost predicate Narrowed(leaves: nat -> bool, radii: seq<nat>, low: nat, high: nat) {
    && low <= high <= |radii|
    && (forall i :: 0 <= i < low ==> !leaves(radii[i]))
    && (high < |radii| ==> leaves(radii[high]))
  }

  lemma NarrowDown(
    p: Policy<Symbol>, alphabet: seq<Symbol>, query: seq<Symbol>, leaves: nat -> bool, eta: nat, low: nat,
    middle: nat, high: nat)
    requires Widens(p, alphabet, query, leaves)
    requires Narrowed(leaves, WiderRadii(p, alphabet, query, eta), low, high) && low <= middle < high
    ensures var radii := WiderRadii(p, alphabet, query, eta);
            if leaves(radii[middle]) then Narrowed(leaves, radii, low, middle)
            else Narrowed(leaves, radii, middle + 1, high)
  {
    hide WiderRadii;
    var radii := WiderRadii(p, alphabet, query, eta);
    WiderRadiiAreTheCostsAbove(p, alphabet, query, eta);
    assert forall i :: 0 <= i <= middle ==> radii[i] <= radii[middle];
  }

  lemma NarrowedIsLeast(
    p: Policy<Symbol>, alphabet: seq<Symbol>, query: seq<Symbol>, leaves: nat -> bool, eta: nat, found: nat)
    requires Widens(p, alphabet, query, leaves) && !leaves(eta)
    requires Narrowed(leaves, WiderRadii(p, alphabet, query, eta), found, found)
    ensures var radii := WiderRadii(p, alphabet, query, eta);
            if found < |radii| then eta < radii[found] && IsLeastFrom(leaves, eta, radii[found])
            else NoneFrom(leaves, eta)
  {
    hide WiderRadii, Widens;
    var radii := WiderRadii(p, alphabet, query, eta);
    WiderRadiiAreTheCostsAbove(p, alphabet, query, eta);
    assert found < |radii| ==> radii[found] in radii;
    forall e: nat | eta <= e && (found < |radii| ==> e < radii[found])
      ensures !leaves(e)
    {
      if leaves(e) {
        var _ := LadderReaches(p, alphabet, query, leaves, eta, e);
      }
    }
  }

  lemma {:induction false} MemberAtMostSum(v: seq<nat>, x: nat)
    requires x in v
    ensures x <= Sum(v)
    decreases |v|
  {
    if x != v[|v| - 1] {
      MemberAtMostSum(v[..|v| - 1], x);
    }
  }

  /** A radius from `eta` on that no substitution cost exceeds. */
  lemma WidestRadius(p: Policy<Symbol>, alphabet: seq<Symbol>, query: seq<Symbol>, eta: nat) returns (widest: nat)
    ensures eta <= widest
    ensures forall radius: nat :: IsSubstitutionCost(p, alphabet, query, radius) ==> radius <= widest
  {
    hide WiderRadii, Sum;
    widest := eta + Sum(WiderRadii(p, alphabet, query, eta));
    WiderRadiiAreTheCostsAbove(p, alphabet, query, eta);
    forall radius: nat | eta < radius && IsSubstitutionCost(p, alphabet, query, radius)
      ensures radius <= widest
    {
      MemberAtMostSum(WiderRadii(p, alphabet, query, eta), radius);
    }
  }

  /** Some radius selects exactly when the query's deletions leave the bound. */
  lemma SomeRadiusLeavesIff(p: Policy<Symbol>, alphabet: seq<Symbol>, query: seq<Symbol>, bound: StrictBound, eta: nat)
    ensures AnyRadiusCanSelect(query, bound, p) <==>
            !NoneFrom(Leaving(p, alphabet, query, bound), eta)
  {
    var widest := WidestRadius(p, alphabet, query, eta);
    WidestContributions(p, alphabet, query, widest);
    var leaves := Leaving(p, alphabet, query, bound);
    assert leaves(widest) <==> AnyRadiusCanSelect(query, bound, p);
    forall e: nat | Leaves(p, alphabet, query, bound, e)
      ensures AnyRadiusCanSelect(query, bound, p)
    {
      ContributionsAtMostDeletion(p, alphabet, query, e);
    }
  }
}
