/** Selection of the query positions whose neighborhoods become candidates. */
module Selection {
  import opened Wrappers
  import opened Types
  import opened Costs
  import opened Postings
  import opened Neighborhood
  import opened KnapsackCover

  /** A selected query position with the neighborhood it was scored on. */
  datatype SelectedPosition = SelectedPosition(position: nat, neighbors: seq<Symbol>)

  datatype Item = Item(neighbors: seq<Symbol>, contribution: nat, candidateCount: nat, paid: real, selected: bool) {
    function Gain(residual: nat): nat {
      if contribution < residual then contribution else residual
    }

    /** The unpaid candidates per unit of gain. */
    function Ratio(residual: nat): real
      requires 0 < Gain(residual)
    {
      var unpaid := candidateCount as real - paid;
      (if unpaid < 0.0 then 0.0 else unpaid) / Gain(residual) as real
    }

    /** A selected item is settled; any other pays its gain times the value. */
    function AfterPaying(residual: nat, value: real): Item {
      if selected then this else this.(paid := paid + Times(Gain(residual), value))
    }
  }

  // ----- What selection is about -----

  /** Every posting of every neighbor. */
  function CandidateCount(index: PostingsIndex, neighbors: seq<Symbol>): nat
    requires index.WellFormed()
  {
    if neighbors == [] then 0
    else CandidateCount(index, neighbors[..|neighbors| - 1]) + index.Frequency(neighbors[|neighbors| - 1])
  }

  function Contributions(p: Policy<Symbol>, alphabet: seq<Symbol>, query: seq<Symbol>, eta: nat): (c: seq<nat>)
    ensures |c| == |query| && forall i :: 0 <= i < |c| ==> c[i] == WayOut(p, alphabet, query[i], eta)
  {
    seq(|query|, i requires 0 <= i < |query| => WayOut(p, alphabet, query[i], eta))
  }

  function Counts(
    p: Policy<Symbol>, alphabet: seq<Symbol>, index: PostingsIndex, query: seq<Symbol>, eta: nat): (w: seq<nat>)
    requires index.WellFormed()
    ensures |w| == |query|
    ensures forall i :: 0 <= i < |w| ==> w[i] == CandidateCount(index, Neighbors(p, alphabet, query[i], eta))
  {
    seq(|query|, i requires 0 <= i < |query| => CandidateCount(index, Neighbors(p, alphabet, query[i], eta)))
  }

  function Sum(v: seq<nat>): nat {
    if v == [] then 0 else Sum(v[..|v| - 1]) + v[|v| - 1]
  }

  lemma {:induction false} TotalIsPartOfSum(v: seq<nat>, s: set<nat>)
    ensures Total(v, s) <= Sum(v)
    ensures (forall i: nat :: i < |v| && i !in s ==> v[i] == 0) ==> Total(v, s) == Sum(v)
    decreases |v|
  {
    if v != [] {
      TotalIsPartOfSum(v[..|v| - 1], s);
    }
  }

  ghost predicate CountsFit(w: seq<nat>) {
    forall i :: 0 <= i < |w| ==> w[i] <= USIZE_MAX
  }

  /** All contributions together leave the bound, and no candidate count
      overflows. */
  ghost predicate CanSelect(
    p: Policy<Symbol>, alphabet: seq<Symbol>, index: PostingsIndex, query: seq<Symbol>, bound: StrictBound, eta: nat)
    requires index.WellFormed()
  {
    && CountsFit(Counts(p, alphabet, index, query, eta))
    && bound.limit <= Sum(Contributions(p, alphabet, query, eta))
  }

  function Positions(selected: seq<SelectedPosition>): (s: set<nat>)
    ensures forall i: nat :: i in s <==> exists k :: 0 <= k < |selected| && selected[k].position == i
  {
    set k | 0 <= k < |selected| :: selected[k].position
  }

  /** Distinct query positions, each with its own neighborhood. */
  ghost predicate Scored(
    p: Policy<Symbol>, alphabet: seq<Symbol>, query: seq<Symbol>, eta: nat, selected: seq<SelectedPosition>)
  {
    && (forall k :: 0 <= k < |selected| ==>
          && selected[k].position < |query|
          && selected[k].neighbors == Neighbors(p, alphabet, query[selected[k].position], eta))
    && (forall j, k :: 0 <= j < k < |selected| ==> selected[j].position != selected[k].position)
  }

  /** Together the selected positions leave the bound, with at most twice the
      candidates of any other choice that does. */
  ghost predicate IsSelection(
    p: Policy<Symbol>, alphabet: seq<Symbol>, index: PostingsIndex, query: seq<Symbol>, bound: StrictBound, eta: nat,
    selected: seq<SelectedPosition>)
    requires index.WellFormed()
  {
    && Scored(p, alphabet, query, eta, selected)
    && bound.limit <= Total(Contributions(p, alphabet, query, eta), Positions(selected))
    && forall cover: set<nat> :: bound.limit <= Total(Contributions(p, alphabet, query, eta), cover) ==>
         Total(Counts(p, alphabet, index, query, eta), Positions(selected))
         <= 2 * Total(Counts(p, alphabet, index, query, eta), cover)
  }

  // ----- Scoring -----

  lemma {:induction false} CountGrows(index: PostingsIndex, neighbors: seq<Symbol>, k: nat)
    requires index.WellFormed() && k <= |neighbors|
    ensures CandidateCount(index, neighbors[..k]) <= CandidateCount(index, neighbors)
    decreases |neighbors| - k
  {
    if k == |neighbors| {
      assert neighbors[..k] == neighbors;
    } else {
      CountGrows(index, neighbors, k + 1);
      assert neighbors[..k + 1][..k] == neighbors[..k];
    }
  }

  /** Adds posting-list lengths, giving up where the sum exceeds `usize`. */
  method CountNeighbors(index: PostingsIndex, neighbors: seq<Symbol>) returns (r: Result<nat>)
    requires index.WellFormed()
    ensures r == if CandidateCount(index, neighbors) <= USIZE_MAX then Ok(CandidateCount(index, neighbors))
                 else Err(ThresholdSubsequenceUnavailable)
  {
    var count := 0;
    for k := 0 to |neighbors|
      invariant count == CandidateCount(index, neighbors[..k]) <= USIZE_MAX
    {
      assert neighbors[..k + 1][..k] == neighbors[..k];
      CountGrows(index, neighbors, k + 1);
      if count + index.Frequency(neighbors[k]) > USIZE_MAX {
        return Err(ThresholdSubsequenceUnavailable);
      }
      count := count + index.Frequency(neighbors[k]);
    }
    assert neighbors[..|neighbors|] == neighbors;
    return Ok(count);
  }

  /** The item of a query symbol before any round. */
  function Unpaid(p: Policy<Symbol>, alphabet: seq<Symbol>, index: PostingsIndex, symbol: Symbol, eta: nat): Item
    requires index.WellFormed()
  {
    var neighbors := Neighbors(p, alphabet, symbol, eta);
    Item(neighbors, WayOut(p, alphabet, symbol, eta), CandidateCount(index, neighbors), 0.0, false)
  }

  /** Scores every query position in order. */
  method Score(
    query: seq<Symbol>, eta: nat, index: PostingsIndex, p: Policy<Symbol>, neighborhood: SubstitutionNeighborhood)
    returns (r: Result<seq<Item>>)
    requires index.WellFormed()
    ensures var w := Counts(p, neighborhood.alphabet, index, query, eta);
            if CountsFit(w) then r.Ok? else r == Err(ThresholdSubsequenceUnavailable)
    ensures r.Ok? ==> |r.value| == |query|
    ensures r.Ok? ==> forall i :: 0 <= i < |query| ==>
      r.value[i] == Unpaid(p, neighborhood.alphabet, index, query[i], eta)
  {
    hide Neighbors, WayOut, CandidateCount;
    var items: seq<Item> := [];
    ghost var w := Counts(p, neighborhood.alphabet, index, query, eta);
    for k := 0 to |query|
      invariant |items| == k
      invariant forall i :: 0 <= i < k ==>
        w[i] <= USIZE_MAX && items[i] == Unpaid(p, neighborhood.alphabet, index, query[i], eta)
    {
      var neighbors, outsideCost := neighborhood.Scan(query[k], eta, p);
      var count := CountNeighbors(index, neighbors);
      if count.Err? {
        return Err(count.error);
      }
      items := items + [Item(neighbors, outsideCost, count.value, 0.0, false)];
    }
    return Ok(items);
  }

  // ----- One round -----

  /** The items carry these contributions, weights and payments, and exactly the
      chosen ones are marked. */
  ghost predicate Reflects(items: seq<Item>, c: seq<nat>, w: seq<nat>, paid: seq<real>, chosen: set<nat>) {
    && |items| == |c| == |w| == |paid|
    && forall i :: 0 <= i < |items| ==>
         && items[i].contribution == c[i] && items[i].candidateCount == w[i]
         && items[i].paid == paid[i] && (items[i].selected <==> i in chosen)
  }

  ghost predicate CanGain(item: Item, residual: nat) {
    !item.selected && 0 < item.Gain(residual)
  }

  /** The first unselected item with the least ratio, and that ratio. */
  ghost predicate IsBest(items: seq<Item>, residual: nat, best: nat, value: real) {
    && best < |items| && CanGain(items[best], residual) && value == items[best].Ratio(residual)
    && (forall i :: 0 <= i < |items| && CanGain(items[i], residual) ==> value <= items[i].Ratio(residual))
    && (forall i :: 0 <= i < best && CanGain(items[i], residual) ==> value < items[i].Ratio(residual))
  }

  ghost predicate NoneGains(items: seq<Item>, residual: nat) {
    forall i :: 0 <= i < |items| ==> !CanGain(items[i], residual)
  }

  /** The first unselected item with the least ratio, if any can still gain. */
  method PickBest(items: array<Item>, residual: nat) returns (best: Option<(nat, real)>)
    ensures best.None? ==> NoneGains(items[..], residual)
    ensures best.Some? ==> IsBest(items[..], residual, best.value.0, best.value.1)
  {
    best := None;
    for position := 0 to items.Length
      invariant best.None? ==> NoneGains(items[..position], residual)
      invariant best.Some? ==> IsBest(items[..position], residual, best.value.0, best.value.1)
    {
      assert items[..position + 1] == items[..position] + [items[position]];
      var item := items[position];
      if !item.selected && item.Gain(residual) > 0 {
        var value := item.Ratio(residual);
        if best.None? || value < best.value.1 {
          best := Some((position, value));
        }
      }
    }
    assert items[..items.Length] == items[..];
  }

  /** The items after a round: the unselected ones paid, and the best one was
      marked and its neighbors taken out. */
  ghost function AfterRoundItems(items: seq<Item>, residual: nat, best: nat, value: real): (now: seq<Item>)
    requires best < |items|
    ensures |now| == |items|
    ensures forall i :: 0 <= i < |items| ==>
      var paid := items[i].AfterPaying(residual, value);
      now[i] == if i == best then paid.(selected := true, neighbors := []) else paid
  {
    seq(|items|, i requires 0 <= i < |items| =>
      var paid := items[i].AfterPaying(residual, value);
      if i == best then paid.(selected := true, neighbors := []) else paid)
  }

  /** Every unselected item that can gain pays its gain times the value; then the
      best one is marked. */
  method PayAndMark(items: array<Item>, residual: nat, best: nat, value: real)
    requires best < items.Length
    modifies items
    ensures items[..] == AfterRoundItems(old(items[..]), residual, best, value)
  {
    hide Times;
    TimesZero(value);
    for k := 0 to items.Length
      invariant forall i :: k <= i < items.Length ==> items[i] == old(items[i])
      invariant forall i :: 0 <= i < k ==> items[i] == old(items[i]).AfterPaying(residual, value)
    {
      var item := items[k];
      if !item.selected && item.Gain(residual) > 0 {
        items[k] := item.(paid := item.paid + Times(item.Gain(residual), value));
      }
    }
    items[best] := items[best].(selected := true, neighbors := []);
  }

  /** Adds the selected contributions in query-position order. */
  method SumSelected(
    items: array<Item>, ghost c: seq<nat>, ghost w: seq<nat>, ghost paid: seq<real>, ghost chosen: set<nat>)
    returns (sum: nat)
    requires Reflects(items[..], c, w, paid, chosen)
    ensures sum == Total(c, chosen)
  {
    sum := 0;
    for k := 0 to items.Length
      invariant sum == Total(c[..k], chosen)
    {
      assert c[..k + 1][..k] == c[..k];
      if items[k].selected {
        sum := sum + items[k].contribution;
      }
    }
    assert c[..items.Length] == c;
  }

  lemma RatioIsAffordable(item: Item, residual: nat, value: real)
    requires 0 < item.Gain(residual) && item.paid <= item.candidateCount as real
    requires value <= item.Ratio(residual)
    ensures item.paid + Times(item.Gain(residual), value) <= item.candidateCount as real
    ensures value == item.Ratio(residual) ==>
      item.paid + Times(item.Gain(residual), value) == item.candidateCount as real
  {
    var gain, unpaid := item.Gain(residual) as real, item.candidateCount as real - item.paid;
    assert gain * (unpaid / gain) == unpaid;
    assert gain * value <= gain * (unpaid / gain);
  }

  /** The least ratio keeps the payments feasible and pays the best item off. */
  lemma RoundIsFeasible(
    items: seq<Item>, c: seq<nat>, w: seq<nat>, residual: nat, before: seq<real>, after: seq<real>,
    chosen: set<nat>, best: nat, value: real)
    requires Reflects(items, c, w, before, chosen) && Feasible(w, before, chosen)
    requires PaysRound(c, residual, chosen, value, before, after)
    requires IsBest(items, residual, best, value)
    ensures Feasible(w, after, chosen + {best}) && 0.0 <= value
  {
    forall i | 0 <= i < |w|
      ensures after[i] <= w[i] as real && (i in chosen + {best} ==> after[i] == w[i] as real)
    {
      if i !in chosen {
        assert items[i].Gain(residual) == Gains(c, residual)[i];
        if 0 < items[i].Gain(residual) {
          hide Times;
          assert CanGain(items[i], residual);
          RatioIsAffordable(items[i], residual, value);
        }
      }
    }
  }

  // ----- Selection -----

  /** The state of the selection loop. */
  ghost predicate InRound(
    items: seq<Item>, c: seq<nat>, w: seq<nat>, limit: nat, paid: seq<real>, chosen: set<nat>, dual: real)
  {
    Reflects(items, c, w, paid, chosen) && Certified(c, w, limit, paid, chosen, dual)
  }

  /** The payments after a round. */
  ghost function AfterRound(
    c: seq<nat>, residual: nat, chosen: set<nat>, value: real, paid: seq<real>): (after: seq<real>)
    requires |paid| == |c|
    ensures PaysRound(c, residual, chosen, value, paid, after)
  {
    seq(|c|, i requires 0 <= i < |c| => if i in chosen then paid[i] else paid[i] + Times(Gains(c, residual)[i], value))
  }

  lemma MarkedReflects(
    items: seq<Item>, c: seq<nat>, w: seq<nat>, residual: nat, paid: seq<real>, chosen: set<nat>,
    best: nat, value: real)
    requires Reflects(items, c, w, paid, chosen) && best < |items| && best !in chosen
    ensures Reflects(AfterRoundItems(items, residual, best, value), c, w,
                     AfterRound(c, residual, chosen, value, paid), chosen + {best})
  {
    hide Times;
  }

  lemma BestIsUnchosen(
    items: seq<Item>, c: seq<nat>, w: seq<nat>, paid: seq<real>, chosen: set<nat>, residual: nat, best: nat,
    value: real)
    requires Reflects(items, c, w, paid, chosen) && IsBest(items, residual, best, value)
    ensures best !in chosen && best < |items| && |items| == |c| == |w| == |paid|
  {
  }

  /** A round keeps the payments a certificate for the chosen positions. */
  lemma RoundKeepsInvariant(
    items: seq<Item>, c: seq<nat>, w: seq<nat>, limit: nat, paid: seq<real>, chosen: set<nat>, dual: real,
    residual: nat, best: nat, value: real)
    returns (after: seq<real>, grown: real)
    requires InRound(items, c, w, limit, paid, chosen, dual)
    requires Total(c, chosen) < limit && residual == limit - Total(c, chosen)
    requires IsBest(items, residual, best, value)
    ensures InRound(AfterRoundItems(items, residual, best, value), c, w, limit, after, chosen + {best}, grown)
  {
    hide *;
    PartsOfRound(items, c, w, limit, paid, chosen, dual);
    BestIsUnchosen(items, c, w, paid, chosen, residual, best, value);
    after := AfterRound(c, residual, chosen, value, paid);
    grown := dual + Times(residual, value);
    MarkedReflects(items, c, w, residual, paid, chosen, best, value);
    RoundIsFeasible(items, c, w, residual, paid, after, chosen, best, value);
    RoundKeepsCertificate(c, w, limit, chosen, best, value, paid, after, dual);
    BothMakeRound(AfterRoundItems(items, residual, best, value), c, w, limit, after, chosen + {best}, grown);
  }

  lemma PartsOfRound(
    items: seq<Item>, c: seq<nat>, w: seq<nat>, limit: nat, paid: seq<real>, chosen: set<nat>, dual: real)
    requires InRound(items, c, w, limit, paid, chosen, dual)
    ensures Reflects(items, c, w, paid, chosen) && Certified(c, w, limit, paid, chosen, dual)
    ensures Feasible(w, paid, chosen)
  {
  }

  lemma BothMakeRound(
    items: seq<Item>, c: seq<nat>, w: seq<nat>, limit: nat, paid: seq<real>, chosen: set<nat>, dual: real)
    requires Reflects(items, c, w, paid, chosen) && Certified(c, w, limit, paid, chosen, dual)
    ensures InRound(items, c, w, limit, paid, chosen, dual)
  {
  }

  lemma NothingLeftToGain(items: seq<Item>, c: seq<nat>, w: seq<nat>, paid: seq<real>, chosen: set<nat>, residual: nat)
    requires Reflects(items, c, w, paid, chosen) && 0 < residual && NoneGains(items, residual)
    ensures Total(c, chosen) == Sum(c)
  {
    forall i: nat | i < |c| && i !in chosen
      ensures c[i] == 0
    {
      assert !CanGain(items[i], residual);
    }
    TotalIsPartOfSum(c, chosen);
  }

  /** What the loop knows after selecting some positions. */
  ghost predicate Selecting(
    p: Policy<Symbol>, alphabet: seq<Symbol>, query: seq<Symbol>, eta: nat, limit: nat, c: seq<nat>, w: seq<nat>,
    items: seq<Item>, selected: seq<SelectedPosition>, paid: seq<real>, dual: real)
  {
    && |items| == |query|
    && InRound(items, c, w, limit, paid, Positions(selected), dual)
    && Scored(p, alphabet, query, eta, selected)
    && forall i :: 0 <= i < |items| && i !in Positions(selected) ==>
         items[i].neighbors == Neighbors(p, alphabet, query[i], eta)
  }

  function Unselected(n: nat, selected: seq<SelectedPosition>): set<nat> {
    set i: nat | i < n && i !in Positions(selected)
  }

  lemma PositionsGrow(selected: seq<SelectedPosition>, next: SelectedPosition)
    ensures Positions(selected + [next]) == Positions(selected) + {next.position}
  {
    var more := selected + [next];
    assert more[|selected|] == next;
    assert forall k :: 0 <= k < |selected| ==> more[k] == selected[k];
  }

  lemma OneMorePosition(
    p: Policy<Symbol>, alphabet: seq<Symbol>, query: seq<Symbol>, eta: nat, selected: seq<SelectedPosition>,
    position: nat)
    requires Scored(p, alphabet, query, eta, selected)
    requires position < |query| && position !in Positions(selected)
    ensures var more := selected + [SelectedPosition(position, Neighbors(p, alphabet, query[position], eta))];
            && Scored(p, alphabet, query, eta, more)
            && Positions(more) == Positions(selected) + {position}
            && Unselected(|query|, more) < Unselected(|query|, selected)
  {
    hide Neighbors;
    var next := SelectedPosition(position, Neighbors(p, alphabet, query[position], eta));
    PositionsGrow(selected, next);
    assert forall k :: 0 <= k < |selected| ==> selected[k].position in Positions(selected);
    hide Positions;
    assert position in Unselected(|query|, selected) && position !in Unselected(|query|, selected + [next]);
  }

  lemma SelectingReflects(
    p: Policy<Symbol>, alphabet: seq<Symbol>, query: seq<Symbol>, eta: nat, limit: nat, c: seq<nat>, w: seq<nat>,
    items: seq<Item>, selected: seq<SelectedPosition>, paid: seq<real>, dual: real)
    requires Selecting(p, alphabet, query, eta, limit, c, w, items, selected, paid, dual)
    ensures |items| == |query| && Reflects(items, c, w, paid, Positions(selected))
  {
  }

  lemma SelectingStarts(
    p: Policy<Symbol>, alphabet: seq<Symbol>, query: seq<Symbol>, eta: nat, limit: nat, c: seq<nat>, w: seq<nat>,
    items: seq<Item>, paid: seq<real>)
    requires |items| == |query| == |c| == |w| == |paid|
    requires forall i :: 0 <= i < |query| ==> paid[i] == 0.0
    requires forall i :: 0 <= i < |query| ==>
      items[i] == Item(Neighbors(p, alphabet, query[i], eta), c[i], w[i], 0.0, false)
    ensures Selecting(p, alphabet, query, eta, limit, c, w, items, [], paid, 0.0)
    ensures Total(c, Positions([])) == 0
  {
    assert Positions([]) == {};
    CertifiedAtStart(c, w, limit, paid);
    TotalOfNothing(c);
  }

  lemma SelectionIsCertified(
    p: Policy<Symbol>, alphabet: seq<Symbol>, index: PostingsIndex, query: seq<Symbol>, bound: StrictBound, eta: nat,
    items: seq<Item>, selected: seq<SelectedPosition>, paid: seq<real>, dual: real)
    requires index.WellFormed()
    requires var c, w := Contributions(p, alphabet, query, eta), Counts(p, alphabet, index, query, eta);
             && Selecting(p, alphabet, query, eta, bound.limit, c, w, items, selected, paid, dual)
             && bound.limit <= Total(c, Positions(selected))
    ensures IsSelection(p, alphabet, index, query, bound, eta, selected)
    ensures bound.limit <= Sum(Contributions(p, alphabet, query, eta))
  {
    var c, w := Contributions(p, alphabet, query, eta), Counts(p, alphabet, index, query, eta);
    TotalIsPartOfSum(c, Positions(selected));
    forall cover: set<nat> | bound.limit <= Total(c, cover)
      ensures Total(w, Positions(selected)) <= 2 * Total(w, cover)
    {
      CertifiedIsTwoApproximation(c, w, bound.limit, paid, Positions(selected), dual, cover);
    }
  }

  /** One round, on the whole state of the loop. */
  lemma RoundKeepsSelecting(
    p: Policy<Symbol>, alphabet: seq<Symbol>, query: seq<Symbol>, eta: nat, limit: nat, c: seq<nat>, w: seq<nat>,
    items: seq<Item>, selected: seq<SelectedPosition>, paid: seq<real>, dual: real,
    residual: nat, best: nat, value: real)
    returns (after: seq<real>, grown: real)
    requires Selecting(p, alphabet, query, eta, limit, c, w, items, selected, paid, dual)
    requires Total(c, Positions(selected)) < limit && residual == limit - Total(c, Positions(selected))
    requires IsBest(items, residual, best, value)
    ensures best < |query| && items[best].neighbors == Neighbors(p, alphabet, query[best], eta)
    ensures var more := selected + [SelectedPosition(best, items[best].neighbors)];
            && Selecting(p, alphabet, query, eta, limit, c, w, AfterRoundItems(items, residual, best, value), more,
                         after, grown)
            && Unselected(|query|, more) < Unselected(|query|, selected)
  {
    hide Times, Total, RealTotal, Certified, Neighbors;
    assert best !in Positions(selected);
    after, grown := RoundKeepsInvariant(items, c, w, limit, paid, Positions(selected), dual, residual, best, value);
    OneMorePosition(p, alphabet, query, eta, selected, best);
  }

  /** Selects positions until their contributions leave the bound; fails when no
      unselected position can gain. */
  method SelectFrom(
    items: array<Item>, bound: StrictBound,
    ghost p: Policy<Symbol>, ghost alphabet: seq<Symbol>, ghost query: seq<Symbol>, ghost eta: nat,
    ghost c: seq<nat>, ghost w: seq<nat>, ghost unpaid: seq<real>)
    returns (r: Result<seq<SelectedPosition>>, ghost paid: seq<real>, ghost dual: real)
    requires Selecting(p, alphabet, query, eta, bound.limit, c, w, items[..], [], unpaid, 0.0)
    modifies items
    ensures r.Ok? ==>
      && Selecting(p, alphabet, query, eta, bound.limit, c, w, items[..], r.value, paid, dual)
      && bound.limit <= Total(c, Positions(r.value))
    ensures r.Err? ==>
      || (r.error == ThresholdSubsequenceUnavailable && Sum(c) < bound.limit)
      || (r.error == PositionOverflow && U32_MAX + 1 < |query|)
  {
    var selected: seq<SelectedPosition> := [];
    var selectedContribution := 0;
    paid, dual := unpaid, 0.0;
    SelectingReflects(p, alphabet, query, eta, bound.limit, c, w, items[..], selected, paid, dual);
    TotalOfNothing(c);
    assert Positions(selected) == {};
    hide Total, Sum, Selecting, Reflects, NoneGains, Unselected, AfterRoundItems;
    while bound.Admits(Finite(selectedContribution))
      invariant selectedContribution == Total(c, Positions(selected)) && items.Length == |query|
      invariant Selecting(p, alphabet, query, eta, bound.limit, c, w, items[..], selected, paid, dual)
      decreases Unselected(|query|, selected)
    {
      var residual := bound.Residual(selectedContribution);
      var best := PickBest(items, residual);
      if best.None? {
        SelectingReflects(p, alphabet, query, eta, bound.limit, c, w, items[..], selected, paid, dual);
        NothingLeftToGain(items[..], c, w, paid, Positions(selected), residual);
        return Err(ThresholdSubsequenceUnavailable), paid, dual;
      }
      var (bestPosition, bestValue) := best.value;
      paid, dual := RoundKeepsSelecting(
        p, alphabet, query, eta, bound.limit, c, w, items[..], selected, paid, dual, residual, bestPosition, bestValue);
      var neighbors := items[bestPosition].neighbors;
      PayAndMark(items, residual, bestPosition, bestValue);
      var position := PositionFromUsize(bestPosition);
      if position.Err? {
        return Err(position.error), paid, dual;
      }
      selected := selected + [SelectedPosition(position.value, neighbors)];
      SelectingReflects(p, alphabet, query, eta, bound.limit, c, w, items[..], selected, paid, dual);
      selectedContribution := SumSelected(items, c, w, paid, Positions(selected));
    }
    return Ok(selected), paid, dual;
  }

  /** A selection with at most twice the candidates of any other, or the reason
      there is none. */
  method Select(
    query: seq<Symbol>, bound: StrictBound, eta: nat, index: PostingsIndex, p: Policy<Symbol>,
    neighborhood: SubstitutionNeighborhood)
    returns (r: Result<seq<SelectedPosition>>)
    requires index.WellFormed()
    ensures r.Ok? ==>
      && CanSelect(p, neighborhood.alphabet, index, query, bound, eta)
      && IsSelection(p, neighborhood.alphabet, index, query, bound, eta, r.value)
    ensures r.Err? ==>
      || (r.error == ThresholdSubsequenceUnavailable && !CanSelect(p, neighborhood.alphabet, index, query, bound, eta))
      || (r.error == PositionOverflow && U32_MAX + 1 < |query|)
  {
    ghost var alphabet := neighborhood.alphabet;
    ghost var c := Contributions(p, alphabet, query, eta);
    ghost var w := Counts(p, alphabet, index, query, eta);
    var scored := Score(query, eta, index, p, neighborhood);
    if scored.Err? {
      return Err(scored.error);
    }
    var items := new Item[|scored.value|](i requires 0 <= i < |scored.value| => scored.value[i]);
    assert items[..] == scored.value;
    ghost var paid, dual := seq(|c|, _ => 0.0), 0.0;
    SelectingStarts(p, alphabet, query, eta, bound.limit, c, w, items[..], paid);
    r, paid, dual := SelectFrom(items, bound, p, alphabet, query, eta, c, w, paid);
    if r.Ok? {
      SelectionIsCertified(p, alphabet, index, query, bound, eta, items[..], r.value, paid, dual);
    }
  }

  lemma {:induction false} TotalOfNothing(v: seq<nat>)
    ensures Total(v, {}) == 0
    decreases |v|
  {
    if v != [] {
      TotalOfNothing(v[..|v| - 1]);
    }
  }
}
