/** Substitution neighborhoods: which data symbols a query symbol may turn into
    within a radius, and the cheapest way out of them. */
module Neighborhood {
  import opened Wrappers
  import opened Types
  import opened Collections
  import opened Costs
  import opened EditScripts

  /** The alphabet symbols within `eta` of `symbol`, in alphabet order. */
  function Neighbors(p: Policy<Symbol>, alphabet: seq<Symbol>, symbol: Symbol, eta: nat): (r: seq<Symbol>)
    ensures forall x: Symbol :: x in r ==> x in alphabet && p.substitution(symbol, x) <= eta
  {
    if alphabet == [] then []
    else
      var before, x := Neighbors(p, alphabet[..|alphabet| - 1], symbol, eta), alphabet[|alphabet| - 1];
      if p.substitution(symbol, x) <= eta then before + [x] else before
  }

  /** The least cost of deleting `symbol` or substituting it beyond `eta`. */
  function WayOut(p: Policy<Symbol>, alphabet: seq<Symbol>, symbol: Symbol, eta: nat): nat {
    if alphabet == [] then p.deletion(symbol)
    else
      var before, x := WayOut(p, alphabet[..|alphabet| - 1], symbol, eta), alphabet[|alphabet| - 1];
      if p.substitution(symbol, x) <= eta then before else Least(before, p.substitution(symbol, x))
  }

  lemma {:induction false} NeighborsAreComplete(
    p: Policy<Symbol>, alphabet: seq<Symbol>, symbol: Symbol, eta: nat, x: Symbol)
    requires x in alphabet && p.substitution(symbol, x) <= eta
    ensures x in Neighbors(p, alphabet, symbol, eta)
    decreases |alphabet|
  {
    if x != alphabet[|alphabet| - 1] {
      NeighborsAreComplete(p, alphabet[..|alphabet| - 1], symbol, eta, x);
    }
  }

  ghost predicate Increasing(s: seq<Symbol>) {
    forall i, j :: 0 <= i < j < |s| ==> s[i] < s[j]
  }

  lemma {:induction false} NeighborsAscend(p: Policy<Symbol>, alphabet: seq<Symbol>, symbol: Symbol, eta: nat)
    requires Increasing(alphabet)
    ensures Increasing(Neighbors(p, alphabet, symbol, eta))
    decreases |alphabet|
  {
    if alphabet != [] {
      var init := alphabet[..|alphabet| - 1];
      NeighborsAscend(p, init, symbol, eta);
      var before := Neighbors(p, init, symbol, eta);
      forall i | 0 <= i < |before|
        ensures before[i] < alphabet[|alphabet| - 1]
      {
        assert before[i] in before;
        assert before[i] in init;
      }
    }
  }

  /** Leaving the neighborhood costs at least the way out, whichever way. */
  lemma {:induction false} NoCheaperWayOut(p: Policy<Symbol>, alphabet: seq<Symbol>, symbol: Symbol, eta: nat)
    ensures WayOut(p, alphabet, symbol, eta) <= p.deletion(symbol)
    ensures forall x: Symbol :: x in alphabet && eta < p.substitution(symbol, x) ==>
      WayOut(p, alphabet, symbol, eta) <= p.substitution(symbol, x)
    decreases |alphabet|
  {
    if alphabet != [] {
      var init, last := alphabet[..|alphabet| - 1], alphabet[|alphabet| - 1];
      NoCheaperWayOut(p, init, symbol, eta);
      assert forall x: Symbol :: x in alphabet <==> x in init || x == last;
    }
  }

  /** The way out is one of the ways. */
  lemma {:induction false} WayOutIsAttained(p: Policy<Symbol>, alphabet: seq<Symbol>, symbol: Symbol, eta: nat)
    ensures var cost := WayOut(p, alphabet, symbol, eta);
            || cost == p.deletion(symbol)
            || exists x: Symbol :: x in alphabet && eta < p.substitution(symbol, x) && cost == p.substitution(symbol, x)
    decreases |alphabet|
  {
    if alphabet != [] {
      WayOutIsAttained(p, alphabet[..|alphabet| - 1], symbol, eta);
    }
  }

  /** A wider radius never makes the way out cheaper. */
  lemma {:induction false} WayOutGrows(p: Policy<Symbol>, alphabet: seq<Symbol>, symbol: Symbol, eta: nat, wider: nat)
    requires eta <= wider
    ensures WayOut(p, alphabet, symbol, eta) <= WayOut(p, alphabet, symbol, wider)
    decreases |alphabet|
  {
    NoCheaperWayOut(p, alphabet, symbol, wider);
    if alphabet != [] {
      WayOutGrows(p, alphabet[..|alphabet| - 1], symbol, eta, wider);
    }
  }

  /** Nothing changes between two radii with no substitution cost between them. */
  lemma {:induction false} SameBetweenCosts(
    p: Policy<Symbol>, alphabet: seq<Symbol>, symbol: Symbol, eta: nat, wider: nat)
    requires eta <= wider
    requires forall x: Symbol :: x in alphabet ==>
      p.substitution(symbol, x) <= eta || wider < p.substitution(symbol, x)
    ensures WayOut(p, alphabet, symbol, eta) == WayOut(p, alphabet, symbol, wider)
    ensures Neighbors(p, alphabet, symbol, eta) == Neighbors(p, alphabet, symbol, wider)
    decreases |alphabet|
  {
    if alphabet != [] {
      var init, last := alphabet[..|alphabet| - 1], alphabet[|alphabet| - 1];
      assert last in alphabet && forall x: Symbol :: x in init ==> x in alphabet;
      SameBetweenCosts(p, init, symbol, eta, wider);
    }
  }

  /** Beyond every substitution cost only deletion leads out. */
  lemma {:induction false} OnlyDeletionBeyond(p: Policy<Symbol>, alphabet: seq<Symbol>, symbol: Symbol, eta: nat)
    requires forall x: Symbol :: x in alphabet ==> p.substitution(symbol, x) <= eta
    ensures WayOut(p, alphabet, symbol, eta) == p.deletion(symbol)
    decreases |alphabet|
  {
    if alphabet != [] {
      var init := alphabet[..|alphabet| - 1];
      assert alphabet[|alphabet| - 1] in alphabet && forall x: Symbol :: x in init ==> x in alphabet;
      OnlyDeletionBeyond(p, init, symbol, eta);
    }
  }

  datatype SubstitutionNeighborhood = SubstitutionNeighborhood(alphabet: seq<Symbol>) {

    /** Splits the alphabet at `eta` in one pass. */
    method Scan(symbol: Symbol, eta: nat, p: Policy<Symbol>) returns (neighbors: seq<Symbol>, outsideCost: nat)
      ensures neighbors == Neighbors(p, alphabet, symbol, eta)
      ensures outsideCost == WayOut(p, alphabet, symbol, eta)
    {
      neighbors := [];
      outsideCost := p.deletion(symbol);
      for k := 0 to |alphabet|
        invariant neighbors == Neighbors(p, alphabet[..k], symbol, eta)
        invariant outsideCost == WayOut(p, alphabet[..k], symbol, eta)
      {
        assert alphabet[..k + 1][..k] == alphabet[..k];
        var substitution := p.substitution(symbol, alphabet[k]);
        if substitution <= eta {
          neighbors := neighbors + [alphabet[k]];
        } else {
          outsideCost := Least(outsideCost, substitution);
        }
      }
      assert alphabet[..|alphabet|] == alphabet;
    }
  }

  /** Accepts exactly the alphabets without repetition. */
  method NewNeighborhood(alphabet: seq<Symbol>) returns (r: Result<SubstitutionNeighborhood>)
    ensures r == if Distinct(alphabet) then Ok(SubstitutionNeighborhood(alphabet)) else Err(DuplicateAlphabetSymbol)
  {
    var unique: set<Symbol> := {};
    for k := 0 to |alphabet|
      invariant forall i :: 0 <= i < k ==> alphabet[i] in unique
      invariant forall x :: x in unique ==> exists i :: 0 <= i < k && alphabet[i] == x
      invariant Distinct(alphabet[..k])
    {
      if alphabet[k] in unique {
        return Err(DuplicateAlphabetSymbol);
      }
      unique := unique + {alphabet[k]};
    }
    assert alphabet[..|alphabet|] == alphabet;
    return Ok(SubstitutionNeighborhood(alphabet));
  }
}
