/** Candidate generation, and why no admitted alignment avoids every candidate. */
module Filtering {
  import opened Types
  import opened Collections
  import opened Costs
  import opened EditScripts
  import opened Postings
  import opened Store
  import opened Neighborhood
  import opened KnapsackCover
  import opened Selection
  import opened AnchoredVerification
  import opened Agreement

  // ----- Generation -----

  function Anchors(position: nat, postings: seq<Posting>): (r: seq<Candidate>)
    ensures |r| == |postings|
    ensures forall t :: 0 <= t < |r| ==> r[t] == Candidate(postings[t].stringId, postings[t].position, position)
  {
    seq(|postings|, t requires 0 <= t < |postings| => Candidate(postings[t].stringId, postings[t].position, position))
  }

  /** The anchors of one position: its neighbors' postings, in neighbor order. */
  function PositionCandidates(index: PostingsIndex, position: nat, neighbors: seq<Symbol>): seq<Candidate>
    requires index.WellFormed()
  {
    if neighbors == [] then []
    else
      PositionCandidates(index, position, neighbors[..|neighbors| - 1])
      + Anchors(position, index.PostingSlice(neighbors[|neighbors| - 1]))
  }

  /** All anchors, in selection order. */
  function Candidates(index: PostingsIndex, selected: seq<SelectedPosition>): seq<Candidate>
    requires index.WellFormed()
  {
    if selected == [] then []
    else
      var last := selected[|selected| - 1];
      Candidates(index, selected[..|selected| - 1]) + PositionCandidates(index, last.position, last.neighbors)
  }

  method GenerateCandidates(selected: seq<SelectedPosition>, index: PostingsIndex) returns (candidates: seq<Candidate>)
    requires index.WellFormed()
    ensures candidates == Candidates(index, selected)
  {
    candidates := [];
    for k := 0 to |selected|
      invariant candidates == Candidates(index, selected[..k])
    {
      assert selected[..k + 1][..k] == selected[..k];
      candidates := AppendPosition(selected[k], index, candidates);
    }
    WholePrefix(selected);
  }

  lemma OneMoreNeighbor(index: PostingsIndex, position: nat, neighbors: seq<Symbol>, n: nat)
    requires index.WellFormed() && n < |neighbors|
    ensures PositionCandidates(index, position, neighbors[..n + 1]) ==
            PositionCandidates(index, position, neighbors[..n]) + Anchors(position, index.PostingSlice(neighbors[n]))
  {
    assert neighbors[..n + 1][..n] == neighbors[..n];
  }

  lemma CountOfNone(index: PostingsIndex, neighbors: seq<Symbol>)
    requires index.WellFormed()
    ensures CandidateCount(index, neighbors[..0]) == 0
  {
  }

  lemma CandidatesOfNone(index: PostingsIndex, position: nat, neighbors: seq<Symbol>)
    requires index.WellFormed()
    ensures PositionCandidates(index, position, neighbors[..0]) == []
  {
  }

  lemma OneMoreCount(index: PostingsIndex, neighbors: seq<Symbol>, n: nat)
    requires index.WellFormed() && n < |neighbors|
    ensures CandidateCount(index, neighbors[..n + 1]) ==
            CandidateCount(index, neighbors[..n]) + index.Frequency(neighbors[n])
  {
    assert neighbors[..n + 1][..n] == neighbors[..n];
  }

  lemma WholePrefix<A>(s: seq<A>)
    ensures s[..|s|] == s
  {
  }

  method AppendPosition(selected: SelectedPosition, index: PostingsIndex, before: seq<Candidate>)
    returns (candidates: seq<Candidate>)
    requires index.WellFormed()
    ensures candidates == before + PositionCandidates(index, selected.position, selected.neighbors)
  {
    hide PositionCandidates, Anchors, CandidateCount, OffsetsFit;
    candidates := before;
    var position, neighbors := selected.position, selected.neighbors;
    CandidatesOfNone(index, position, neighbors);
    for n := 0 to |neighbors|
      invariant candidates == before + PositionCandidates(index, position, neighbors[..n])
    {
      candidates := AppendAnchors(position, index.PostingSlice(neighbors[n]), candidates);
      OneMoreNeighbor(index, position, neighbors, n);
    }
    WholePrefix(neighbors);
  }

  method AppendAnchors(position: nat, postings: seq<Posting>, before: seq<Candidate>)
    returns (candidates: seq<Candidate>)
    ensures candidates == before + Anchors(position, postings)
  {
    candidates := before;
    for t := 0 to |postings|
      invariant candidates == before + Anchors(position, postings)[..t]
    {
      candidates := candidates + [Candidate(postings[t].stringId, postings[t].position, position)];
    }
  }

  // ----- Counting before generating -----

  lemma {:induction false} PositionCandidateCount(index: PostingsIndex, position: nat, neighbors: seq<Symbol>)
    requires index.WellFormed()
    ensures |PositionCandidates(index, position, neighbors)| == CandidateCount(index, neighbors)
    decreases |neighbors|
  {
    if neighbors != [] {
      PositionCandidateCount(index, position, neighbors[..|neighbors| - 1]);
    }
  }

  lemma {:induction false} PositionCandidateAt(
    index: PostingsIndex, position: nat, neighbors: seq<Symbol>, n: nat, t: nat)
    requires index.WellFormed() && n < |neighbors| && t < |index.PostingSlice(neighbors[n])|
    ensures var at := CandidateCount(index, neighbors[..n]) + t;
            var posting := index.PostingSlice(neighbors[n])[t];
            && at < |PositionCandidates(index, position, neighbors)|
            && PositionCandidates(index, position, neighbors)[at] ==
               Candidate(posting.stringId, posting.position, position)
    decreases |neighbors|
  {
    hide PositionCandidates, CandidateCount, OffsetsFit, PostingsIndex.PostingSlice;
    var init := neighbors[..|neighbors| - 1];
    assert neighbors[..|neighbors|] == neighbors;
    OneMoreNeighbor(index, position, neighbors, |init|);
    PositionCandidateCount(index, position, init);
    if n < |init| {
      PositionCandidateAt(index, position, init, n, t);
      assert init[..n] == neighbors[..n];
    } else {
      assert init == neighbors[..n];
    }
  }

  lemma LastPosition(index: PostingsIndex, selected: seq<SelectedPosition>)
    requires index.WellFormed() && selected != []
    ensures var last := selected[|selected| - 1];
            Candidates(index, selected) ==
            Candidates(index, selected[..|selected| - 1]) + PositionCandidates(index, last.position, last.neighbors)
  {
  }

  /** Candidates come in the order of the selected positions, then of their
      neighbors, then of their postings. */
  lemma {:induction false} CandidateAt(
    index: PostingsIndex, selected: seq<SelectedPosition>, k: nat, n: nat, t: nat)
    requires index.WellFormed() && k < |selected| && n < |selected[k].neighbors|
    requires t < |index.PostingSlice(selected[k].neighbors[n])|
    ensures var at := |Candidates(index, selected[..k])| + CandidateCount(index, selected[k].neighbors[..n]) + t;
            var posting := index.PostingSlice(selected[k].neighbors[n])[t];
            && at < |Candidates(index, selected)|
            && Candidates(index, selected)[at] ==
               Candidate(posting.stringId, posting.position, selected[k].position)
    decreases |selected|
  {
    hide Candidates, PositionCandidates, CandidateCount, OffsetsFit;
    var init := selected[..|selected| - 1];
    LastPosition(index, selected);
    PositionCandidateAt(index, selected[k].position, selected[k].neighbors, n, t);
    if k < |init| {
      CandidateAt(index, init, k, n, t);
      assert init[..k] == selected[..k];
    } else {
      assert init == selected[..k];
    }
  }

  function Saturated(exact: nat): nat {
    if exact <= USIZE_MAX then exact else USIZE_MAX
  }

  lemma SaturationAdds(a: nat, b: nat)
    ensures Saturated(Saturated(a) + b) == Saturated(a + b)
  {
  }

  lemma NoPositionNoCandidates(index: PostingsIndex, selected: seq<SelectedPosition>)
    requires index.WellFormed()
    ensures Candidates(index, selected[..0]) == [] && Saturated(0) == 0
  {
  }

  lemma OneMorePositionCount(index: PostingsIndex, selected: seq<SelectedPosition>, k: nat)
    requires index.WellFormed() && k < |selected|
    ensures |Candidates(index, selected[..k + 1])| ==
            |Candidates(index, selected[..k])| + CandidateCount(index, selected[k].neighbors)
  {
    assert selected[..k + 1][..k] == selected[..k];
    PositionCandidateCount(index, selected[k].position, selected[k].neighbors);
  }

  /** Adds posting-list lengths, saturating, without reading a posting. */
  method CountCandidates(selected: seq<SelectedPosition>, index: PostingsIndex) returns (count: nat)
    requires index.WellFormed()
    ensures count == Saturated(|Candidates(index, selected)|)
  {
    hide Saturated, Candidates, CandidateCount, OffsetsFit;
    count := 0;
    NoPositionNoCandidates(index, selected);
    for k := 0 to |selected|
      invariant count == Saturated(|Candidates(index, selected[..k])|)
    {
      count := AddFrequencies(index, selected[k].neighbors, count, |Candidates(index, selected[..k])|);
      OneMorePositionCount(index, selected, k);
    }
    WholePrefix(selected);
  }

  method AddFrequencies(index: PostingsIndex, neighbors: seq<Symbol>, before: nat, ghost exact: nat)
    returns (count: nat)
    requires index.WellFormed() && before == Saturated(exact)
    ensures count == Saturated(exact + CandidateCount(index, neighbors))
  {
    hide Saturated, CandidateCount, OffsetsFit;
    count := before;
    CountOfNone(index, neighbors);
    for n := 0 to |neighbors|
      invariant count == Saturated(exact + CandidateCount(index, neighbors[..n]))
    {
      OneMoreCount(index, neighbors, n);
      SaturationAdds(exact + CandidateCount(index, neighbors[..n]), index.Frequency(neighbors[n]));
      count := Saturated(count + index.Frequency(neighbors[n]));
    }
    WholePrefix(neighbors);
  }

  /** Comparing the saturated count with a limit decides like the exact count, for
      every count, if and only if the limit is below the largest integer. */
  lemma LimitDecisionIsExactIff(limit: nat)
    requires limit <= USIZE_MAX
    ensures (forall exact: nat :: limit < Saturated(exact) <==> limit < exact) <==> limit < USIZE_MAX
  {
    assert Saturated(USIZE_MAX + 1) == USIZE_MAX;
  }

  // ----- Membership and uniqueness -----

  lemma {:induction false} PositionCandidatesHold(
    index: PostingsIndex, position: nat, neighbors: seq<Symbol>, c: Candidate)
    requires index.WellFormed()
    ensures c in PositionCandidates(index, position, neighbors) <==>
            && c.queryPosition == position
            && exists x :: x in neighbors && Posting(c.stringId, c.stringPosition) in index.PostingSlice(x)
    decreases |neighbors|
  {
    if neighbors != [] {
      var init, last := neighbors[..|neighbors| - 1], neighbors[|neighbors| - 1];
      PositionCandidatesHold(index, position, init, c);
      AnchorsHold(position, index.PostingSlice(last), c);
      assert forall x :: x in neighbors <==> x in init || x == last;
      assert PositionCandidates(index, position, neighbors) ==
             PositionCandidates(index, position, init) + Anchors(position, index.PostingSlice(last));
    }
  }

  lemma AnchorsHold(position: nat, postings: seq<Posting>, c: Candidate)
    ensures c in Anchors(position, postings) <==>
            c.queryPosition == position && Posting(c.stringId, c.stringPosition) in postings
  {
    var anchors := Anchors(position, postings);
    if c.queryPosition == position && Posting(c.stringId, c.stringPosition) in postings {
      var t :| 0 <= t < |postings| && postings[t] == Posting(c.stringId, c.stringPosition);
      assert anchors[t] == c;
    }
    if c in anchors {
      var t :| 0 <= t < |anchors| && anchors[t] == c;
      assert postings[t] == Posting(c.stringId, c.stringPosition);
    }
  }

  ghost predicate SomePositionHolds(index: PostingsIndex, selected: seq<SelectedPosition>, c: Candidate)
    requires index.WellFormed()
  {
    exists k :: 0 <= k < |selected| && c in PositionCandidates(index, selected[k].position, selected[k].neighbors)
  }

  lemma OneMoreHolder(index: PostingsIndex, selected: seq<SelectedPosition>, last: SelectedPosition, c: Candidate)
    requires index.WellFormed()
    ensures SomePositionHolds(index, selected + [last], c) <==>
            SomePositionHolds(index, selected, c) || c in PositionCandidates(index, last.position, last.neighbors)
  {
    hide PositionCandidates, OffsetsFit;
    var more := selected + [last];
    if SomePositionHolds(index, more, c) {
      var k :| 0 <= k < |more| && c in PositionCandidates(index, more[k].position, more[k].neighbors);
      if k < |selected| {
        assert c in PositionCandidates(index, selected[k].position, selected[k].neighbors);
      }
    }
    if SomePositionHolds(index, selected, c) {
      var k :| 0 <= k < |selected| && c in PositionCandidates(index, selected[k].position, selected[k].neighbors);
      assert c in PositionCandidates(index, more[k].position, more[k].neighbors);
    }
    if c in PositionCandidates(index, last.position, last.neighbors) {
      assert c in PositionCandidates(index, more[|selected|].position, more[|selected|].neighbors);
    }
  }

  lemma NoneHolds(index: PostingsIndex, c: Candidate)
    requires index.WellFormed()
    ensures c !in Candidates(index, []) && !SomePositionHolds(index, [], c)
  {
  }

  lemma LastPositionLast(index: PostingsIndex, init: seq<SelectedPosition>, last: SelectedPosition)
    requires index.WellFormed()
    ensures Candidates(index, init + [last]) ==
            Candidates(index, init) + PositionCandidates(index, last.position, last.neighbors)
  {
    hide PositionCandidates, OffsetsFit;
    assert (init + [last])[..|init|] == init;
  }

  lemma {:induction false} CandidatesHold(index: PostingsIndex, selected: seq<SelectedPosition>, c: Candidate)
    requires index.WellFormed()
    ensures c in Candidates(index, selected) <==> SomePositionHolds(index, selected, c)
    decreases |selected|
  {
    hide *;
    if selected == [] {
      NoneHolds(index, c);
    } else {
      var init, last := selected[..|selected| - 1], selected[|selected| - 1];
      assert selected == init + [last];
      CandidatesHold(index, init, c);
      OneMoreHolder(index, init, last, c);
      LastPositionLast(index, init, last);
      InEither(Candidates(index, init), PositionCandidates(index, last.position, last.neighbors), c);
    }
  }

  lemma InEither<A>(a: seq<A>, b: seq<A>, x: A)
    ensures x in a + b <==> x in a || x in b
  {
  }

  /** Which position and neighbor a candidate comes from. */
  lemma CandidateSource(index: PostingsIndex, selected: seq<SelectedPosition>, c: Candidate) returns (k: nat, x: Symbol)
    requires index.WellFormed() && c in Candidates(index, selected)
    ensures k < |selected| && c.queryPosition == selected[k].position && x in selected[k].neighbors
    ensures Posting(c.stringId, c.stringPosition) in index.PostingSlice(x)
  {
    hide Candidates, PositionCandidates;
    CandidatesHold(index, selected, c);
    k :| 0 <= k < |selected| && c in PositionCandidates(index, selected[k].position, selected[k].neighbors);
    PositionCandidatesHold(index, selected[k].position, selected[k].neighbors, c);
    x :| x in selected[k].neighbors && Posting(c.stringId, c.stringPosition) in index.PostingSlice(x);
  }

  lemma AppendedDistinct<A>(a: seq<A>, b: seq<A>)
    requires Distinct(a) && Distinct(b) && forall x :: x in a ==> x !in b
    ensures Distinct(a + b)
  {
    assert forall i :: 0 <= i < |a| ==> a[i] in a;
    assert forall j :: 0 <= j < |b| ==> b[j] in b;
  }

  lemma {:induction false} PositionCandidatesAreDistinct(
    index: PostingsIndex, corpus: seq<seq<Symbol>>, symbolCount: nat, position: nat, neighbors: seq<Symbol>)
    requires index.Inverts(corpus, symbolCount) && Increasing(neighbors)
    requires forall x :: x in neighbors ==> x < symbolCount
    ensures Distinct(PositionCandidates(index, position, neighbors))
    decreases |neighbors|
  {
    if neighbors != [] {
      var init, last := neighbors[..|neighbors| - 1], neighbors[|neighbors| - 1];
      assert forall x :: x in init ==> x in neighbors;
      PositionCandidatesAreDistinct(index, corpus, symbolCount, position, init);
      var before, more := PositionCandidates(index, position, init), Anchors(position, index.PostingSlice(last));
      forall c | c in before
        ensures c !in more
      {
        PositionCandidatesHold(index, position, init, c);
        AnchorsHold(position, index.PostingSlice(last), c);
        var x :| x in init && Posting(c.stringId, c.stringPosition) in index.PostingSlice(x);
        assert x < last;
        assert Occurs(corpus, x, Posting(c.stringId, c.stringPosition));
        assert !Occurs(corpus, last, Posting(c.stringId, c.stringPosition));
      }
      AppendedDistinct(before, more);
    }
  }

  /** The candidates of a selection contain no duplicates. */
  lemma {:induction false} CandidatesAreDistinct(
    index: PostingsIndex, corpus: seq<seq<Symbol>>, symbolCount: nat, p: Policy<Symbol>, query: seq<Symbol>, eta: nat,
    selected: seq<SelectedPosition>)
    requires index.Inverts(corpus, symbolCount) && symbolCount <= UNKNOWN
    requires Scored(p, index.Alphabet(), query, eta, selected)
    ensures Distinct(Candidates(index, selected))
    decreases |selected|
  {
    if selected != [] {
      var init, last := selected[..|selected| - 1], selected[|selected| - 1];
      CandidatesAreDistinct(index, corpus, symbolCount, p, query, eta, init);
      AlphabetOccurs(index, corpus, symbolCount);
      NeighborsAscend(p, index.Alphabet(), query[last.position], eta);
      PositionCandidatesAreDistinct(index, corpus, symbolCount, last.position, last.neighbors);
      var before, more := Candidates(index, init), PositionCandidates(index, last.position, last.neighbors);
      forall c | c in before
        ensures c !in more
      {
        CandidatesHold(index, init, c);
        var k :| 0 <= k < |init| && c in PositionCandidates(index, init[k].position, init[k].neighbors);
        PositionCandidatesHold(index, init[k].position, init[k].neighbors, c);
        PositionCandidatesHold(index, last.position, last.neighbors, c);
      }
      AppendedDistinct(before, more);
    }
  }

  // ----- Completeness -----

  /** Step `k` pairs a selected query position with a symbol of its neighborhood. */
  ghost predicate HitsAt(p: Policy<Symbol>, s: Script<Symbol>, eta: nat, chosen: set<nat>, k: nat) {
    && k < |s| && s[k].Pair? && |Source(s[..k])| in chosen
    && p.substitution(s[k].from, s[k].to) <= eta
  }

  /** A script that avoids every selected neighborhood pays every selected way out. */
  lemma {:induction false} AvoidingCost(
    p: Policy<Symbol>, alphabet: seq<Symbol>, eta: nat, chosen: set<nat>, s: Script<Symbol>)
    requires forall x :: x in Target(s) ==> x in alphabet
    requires forall k: nat :: !HitsAt(p, s, eta, chosen, k)
    ensures Total(Contributions(p, alphabet, Source(s), eta), chosen) <= Cost(p, s)
    decreases |s|
  {
    if s != [] {
      var init, last := s[..|s| - 1], s[|s| - 1];
      forall k: nat
        ensures !HitsAt(p, init, eta, chosen, k)
      {
        if k < |init| {
          assert init[..k] == s[..k];
          assert !HitsAt(p, s, eta, chosen, k);
        }
      }
      assert Target(s) == Target(init) + StepTarget(last);
      AvoidingCost(p, alphabet, eta, chosen, init);
      assert !HitsAt(p, s, eta, chosen, |s| - 1);
      AvoidingStep(p, alphabet, eta, chosen, Source(init), Cost(p, init), last);
    }
  }

  lemma AvoidingStep(
    p: Policy<Symbol>, alphabet: seq<Symbol>, eta: nat, chosen: set<nat>, source: seq<Symbol>, cost: nat,
    last: Step<Symbol>)
    requires Total(Contributions(p, alphabet, source, eta), chosen) <= cost
    requires last.Pair? ==> last.to in alphabet && (|source| in chosen ==> eta < p.substitution(last.from, last.to))
    ensures Total(Contributions(p, alphabet, source + StepSource(last), eta), chosen) <= cost + StepCost(p, last)
  {
    if last.Insert? {
      assert source + StepSource(last) == source;
    } else {
      var from := StepSource(last)[0];
      NoCheaperWayOut(p, alphabet, from, eta);
      var more := Contributions(p, alphabet, source + [from], eta);
      assert more[..|source|] == Contributions(p, alphabet, source, eta);
    }
  }

  /** Every symbol of the corpus belongs to the vocabulary. */
  ghost predicate WithinVocabulary(corpus: seq<seq<Symbol>>, symbolCount: nat) {
    forall id, i :: 0 <= id < |corpus| && 0 <= i < |corpus[id]| ==> corpus[id][i] < symbolCount
  }

  lemma SegmentIsInAlphabet(
    index: PostingsIndex, corpus: seq<seq<Symbol>>, symbolCount: nat, id: nat, start: nat, end: nat)
    requires index.Inverts(corpus, symbolCount) && symbolCount <= UNKNOWN && WithinVocabulary(corpus, symbolCount)
    requires id < |corpus| && start <= end <= |corpus[id]|
    ensures forall x :: x in corpus[id][start..end] ==> x in index.Alphabet()
  {
    AlphabetOccurs(index, corpus, symbolCount);
    forall x | x in corpus[id][start..end]
      ensures x in index.Alphabet()
    {
      var i :| start <= i < end && corpus[id][i] == x;
      assert Occurs(corpus, x, Posting(id, i));
    }
  }

  /** Where a hit lies in the query and in the segment. */
  lemma HitPositions(
    p: Policy<Symbol>, query: seq<Symbol>, segment: seq<Symbol>, eta: nat, chosen: set<nat>, s: Script<Symbol>, k: nat)
    returns (i: nat, j: nat)
    requires Aligns(s, query, segment) && HitsAt(p, s, eta, chosen, k)
    ensures i < |query| && j < |segment| && i in chosen && Pairs(s, i, j)
    ensures p.substitution(query[i], segment[j]) <= eta
  {
    i, j := |Source(s[..k])|, |Target(s[..k])|;
    assert PairsAt(s, k, i, j);
    hide Source, Target, Cost;
    SplitAt(p, s, k);
    PartsOf(query, Source(s[..k]), s[k].from, Source(s[k + 1..]));
    PartsOf(segment, Target(s[..k]), s[k].to, Target(s[k + 1..]));
  }

  /** A selected position and a neighbor in the segment make a candidate. */
  lemma NeighborIsCandidate(
    p: Policy<Symbol>, query: seq<Symbol>, corpus: seq<seq<Symbol>>, symbolCount: nat, index: PostingsIndex,
    eta: nat, selected: seq<SelectedPosition>, id: nat, position: nat, i: nat)
    requires index.Inverts(corpus, symbolCount) && symbolCount <= UNKNOWN && WithinVocabulary(corpus, symbolCount)
    requires Scored(p, index.Alphabet(), query, eta, selected)
    requires id < |corpus| && position < |corpus[id]| && i < |query| && i in Positions(selected)
    requires p.substitution(query[i], corpus[id][position]) <= eta
    ensures Candidate(id, position, i) in Candidates(index, selected)
  {
    var n :| 0 <= n < |selected| && selected[n].position == i;
    var x, c := corpus[id][position], Candidate(id, position, i);
    SegmentIsInAlphabet(index, corpus, symbolCount, id, position, position + 1);
    assert x in corpus[id][position..position + 1];
    hide Neighbors, PositionCandidates, Candidates;
    NeighborsAreComplete(p, index.Alphabet(), query[i], eta, x);
    assert Occurs(corpus, x, Posting(id, position));
    PositionCandidatesHold(index, i, selected[n].neighbors, c);
    CandidatesHold(index, selected, c);
  }

  /** The pairing found in a script is one of the generated candidates. */
  lemma HitIsCandidate(
    p: Policy<Symbol>, query: seq<Symbol>, corpus: seq<seq<Symbol>>, symbolCount: nat, index: PostingsIndex,
    eta: nat, selected: seq<SelectedPosition>, key: Key, s: Script<Symbol>, k: nat)
    requires index.Inverts(corpus, symbolCount) && symbolCount <= UNKNOWN && WithinVocabulary(corpus, symbolCount)
    requires Scored(p, index.Alphabet(), query, eta, selected)
    requires key.0 < |corpus| && key.1 <= key.2 <= |corpus[key.0]|
    requires Aligns(s, query, corpus[key.0][key.1..key.2]) && HitsAt(p, s, eta, Positions(selected), k)
    ensures UsesCandidate(query, corpus, Candidates(index, selected), key, s)
  {
    hide Source, Target, Cost, Pairs, Scored, Candidates;
    var i, j := HitPositions(p, query, corpus[key.0][key.1..key.2], eta, Positions(selected), s, k);
    NeighborIsCandidate(p, query, corpus, symbolCount, index, eta, selected, key.0, key.1 + j, i);
    var c := Candidate(key.0, key.1 + j, i);
    assert Covers(query, corpus, c, key) && Pairs(s, c.queryPosition, c.stringPosition - key.1);
  }

  /** Filtering is complete: a script cheaper than the bound pairs a selected
      position with a neighbor, at one of the generated candidates. */
  lemma FilteringIsComplete(
    p: Policy<Symbol>, query: seq<Symbol>, corpus: seq<seq<Symbol>>, symbolCount: nat, index: PostingsIndex,
    bound: StrictBound, eta: nat, selected: seq<SelectedPosition>, key: Key, s: Script<Symbol>)
    requires index.Inverts(corpus, symbolCount) && symbolCount <= UNKNOWN && WithinVocabulary(corpus, symbolCount)
    requires IsSelection(p, index.Alphabet(), index, query, bound, eta, selected)
    requires key.0 < |corpus| && key.1 <= key.2 <= |corpus[key.0]|
    requires Aligns(s, query, corpus[key.0][key.1..key.2]) && Cost(p, s) < bound.limit
    ensures UsesCandidate(query, corpus, Candidates(index, selected), key, s)
  {
    if k: nat :| HitsAt(p, s, eta, Positions(selected), k) {
      HitIsCandidate(p, query, corpus, symbolCount, index, eta, selected, key, s, k);
    } else {
      SegmentIsInAlphabet(index, corpus, symbolCount, key.0, key.1, key.2);
      AvoidingCost(p, index.Alphabet(), eta, Positions(selected), s);
    }
  }

  // ----- Filtering and anchored verification together -----

  /** On the generated candidates, the anchored answers within the bound are the
      edit distances within the bound. */
  lemma AnsweredIffWithinBound(
    p: Policy<Symbol>, query: seq<Symbol>, corpus: seq<seq<Symbol>>, symbolCount: nat, index: PostingsIndex,
    bound: StrictBound, eta: nat, selected: seq<SelectedPosition>, key: Key, d: nat)
    requires index.Inverts(corpus, symbolCount) && symbolCount <= UNKNOWN && WithinVocabulary(corpus, symbolCount)
    requires IsSelection(p, index.Alphabet(), index, query, bound, eta, selected)
    requires key.0 < |corpus| && key.1 < key.2 <= |corpus[key.0]| && d < bound.limit
    ensures IsAnchoredAnswer(p, query, corpus, Candidates(index, selected), key, d) <==>
            d == Wed(p, query, corpus[key.0][key.1..key.2])
  {
    var segment, candidates := corpus[key.0][key.1..key.2], Candidates(index, selected);
    if Wed(p, query, segment) < bound.limit {
      var c := OptimalCandidate(p, query, corpus, symbolCount, index, bound, eta, selected, key);
      OptimalAnchorAnswersExactly(p, query, corpus, candidates, key, c, d);
    } else if IsAnchoredAnswer(p, query, corpus, candidates, key, d) {
      AnchoredNeverBelowWed(p, query, corpus, candidates, key, d);
    }
  }

  lemma AnchoredNeverBelowWed(
    p: Policy<Symbol>, query: seq<Symbol>, corpus: seq<seq<Symbol>>, candidates: seq<Candidate>, key: Key, d: nat)
    requires IsAnchoredAnswer(p, query, corpus, candidates, key, d)
    ensures Wed(p, query, corpus[key.0][key.1..key.2]) <= d
  {
    hide Source, Target, Cost, Wed, UsesCandidate;
    var s: Script<Symbol> :|
      Aligns(s, query, corpus[key.0][key.1..key.2]) && UsesCandidate(query, corpus, candidates, key, s)
      && Cost(p, s) == d;
    NoScriptIsCheaper(p, s);
  }

  /** A segment within the bound has a candidate on a cheapest alignment. */
  lemma OptimalCandidate(
    p: Policy<Symbol>, query: seq<Symbol>, corpus: seq<seq<Symbol>>, symbolCount: nat, index: PostingsIndex,
    bound: StrictBound, eta: nat, selected: seq<SelectedPosition>, key: Key)
    returns (c: Candidate)
    requires index.Inverts(corpus, symbolCount) && symbolCount <= UNKNOWN && WithinVocabulary(corpus, symbolCount)
    requires IsSelection(p, index.Alphabet(), index, query, bound, eta, selected)
    requires key.0 < |corpus| && key.1 < key.2 <= |corpus[key.0]|
    requires Wed(p, query, corpus[key.0][key.1..key.2]) < bound.limit
    ensures c in Candidates(index, selected) && Covers(query, corpus, c, key)
    ensures Via(p, query, corpus, c, key) == Wed(p, query, corpus[key.0][key.1..key.2])
  {
    hide Source, Target, Cost, Wed, Candidates, IsSelection, Pairs;
    var segment := corpus[key.0][key.1..key.2];
    var best := BestScript(p, query, segment);
    FilteringIsComplete(p, query, corpus, symbolCount, index, bound, eta, selected, key, best);
    c :| c in Candidates(index, selected) && Covers(query, corpus, c, key)
         && Pairs(best, c.queryPosition, c.stringPosition - key.1);
    ViaIsLeast(p, query, corpus, c, key, best);
    AnchoredNeverCheaper(p, query, segment, c.queryPosition, c.stringPosition - key.1);
  }
}
