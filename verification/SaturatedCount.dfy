/** A search the largest limit fails to decline: one symbol, 2^32 strings of 256
    of them, and a query of 2^24 positions. In single precision no cost sum of this
    search is rounded. */
module SaturatedCount {
  import opened Wrappers
  import opened Types
  import opened Costs
  import opened Sorting
  import opened Postings
  import opened Neighborhood
  import opened IndexVerification
  import opened KnapsackCover
  import opened Selection
  import opened Agreement
  import opened Filtering
  import opened SinglePrecision
  import opened RoundedSelection

  /** As many strings as 32-bit identifiers can name. */
  const CROWD: nat := U32_MAX + 1

  const LENGTH: nat := 0x100

  /** Substituting is free, deleting and inserting cost one. */
  function FreeSubstitution(max: nat): Policy<Symbol> {
    Policy((a: Symbol, b: Symbol) => 0, (a: Symbol) => 1, (a: Symbol) => 1, max)
  }

  /** `m` strings of one symbol. */
  function CrowdedCorpus(m: nat): seq<seq<Symbol>> {
    seq(m, i => seq(LENGTH, j => 0))
  }

  function CrowdedIndex(m: nat): PostingsIndex {
    PostingsIndex(seq(LENGTH * m, t requires 0 <= t => Posting(t / LENGTH, t % LENGTH)), [0, LENGTH * m])
  }

  function CrowdedQuery(n: nat): seq<Symbol> {
    seq(n, i => 0)
  }

  /** Every query position, each with the one symbol as its neighborhood. */
  function WholeSelection(n: nat): seq<SelectedPosition> {
    seq(n, i requires 0 <= i => SelectedPosition(i, [0]))
  }

  // ----- The index -----

  lemma CrowdedPostings(m: nat, posting: Posting)
    ensures posting in CrowdedIndex(m).postings <==> Occurs(CrowdedCorpus(m), 0, posting)
  {
    var postings, corpus := CrowdedIndex(m).postings, CrowdedCorpus(m);
    if Occurs(corpus, 0, posting) {
      assert postings[posting.stringId * LENGTH + posting.position] == posting;
    }
    if posting in postings {
      var t :| 0 <= t < |postings| && postings[t] == posting;
      assert posting.stringId < m;
    }
  }

  lemma CrowdedOrder(m: nat)
    ensures Ascending(PostingLeq, CrowdedIndex(m).postings)
  {
  }

  lemma CrowdedIndexInverts(m: nat)
    requires 0 < m
    ensures CrowdedIndex(m).Inverts(CrowdedCorpus(m), 1) && CrowdedIndex(m).Alphabet() == [0]
    ensures CandidateCount(CrowdedIndex(m), [0]) == LENGTH * m
  {
    hide Occurs, Ascending;
    var index := CrowdedIndex(m);
    assert index.WellFormed() && index.PostingSlice(0) == index.postings;
    CrowdedOrder(m);
    forall posting
      ensures posting in index.postings <==> Occurs(CrowdedCorpus(m), 0, posting)
    {
      CrowdedPostings(m, posting);
    }
    assert index.AlphabetBelow(0) == [];
    assert CandidateCount(index, [0][..0]) == 0;
  }

  // ----- The selection -----

  /** Whatever the radius, the symbol stays in its neighborhood and only deletion
      leads out. */
  lemma CrowdedScan(max: nat, n: nat, eta: nat)
    ensures Neighbors(FreeSubstitution(max), [0], 0, eta) == [0]
    ensures AllOnes(Contributions(FreeSubstitution(max), [0], CrowdedQuery(n), eta), n)
  {
    assert [0][..0] == [];
    assert WayOut(FreeSubstitution(max), [0], 0, eta) == 1;
  }

  ghost predicate AllOnes(c: seq<nat>, n: nat) {
    |c| == n && forall i :: 0 <= i < n ==> c[i] == 1
  }

  /** Ones reach their number only all together. */
  lemma {:induction false} AllAreNeeded(c: seq<nat>, n: nat, cover: set<nat>)
    requires AllOnes(c, n)
    ensures Total(c, cover) <= n
    ensures Total(c, cover) == n <==> forall i: nat :: i < n ==> i in cover
    decreases n
  {
    if c != [] {
      AllAreNeeded(c[..n - 1], n - 1, cover);
    }
  }

  lemma {:induction false} SameTotal(w: seq<nat>, a: set<nat>, b: set<nat>)
    requires forall i: nat :: i < |w| ==> i in a && i in b
    ensures Total(w, a) == Total(w, b)
    decreases |w|
  {
    if w != [] {
      SameTotal(w[..|w| - 1], a, b);
    }
  }

  /** Selecting every position is what the bound asks for. */
  lemma WholeSelectionIsSelection(m: nat, n: nat, max: nat, eta: nat)
    requires 0 < m
    ensures CrowdedIndex(m).WellFormed()
    ensures IsSelection(
              FreeSubstitution(max), [0], CrowdedIndex(m), CrowdedQuery(n), StrictBound(n), eta, WholeSelection(n))
  {
    hide Neighbors, WayOut, CandidateCount, Total, AllOnes, CrowdedIndex, FreeSubstitution;
    CrowdedIndexInverts(m);
    CrowdedScan(max, n, eta);
    var p, index, query, selected := FreeSubstitution(max), CrowdedIndex(m), CrowdedQuery(n), WholeSelection(n);
    var c, w := Contributions(p, [0], query, eta), Counts(p, [0], index, query, eta);
    forall i: nat | i < n
      ensures i in Positions(selected)
    {
      assert selected[i].position == i;
    }
    AllAreNeeded(c, n, Positions(selected));
    forall cover: set<nat> | n <= Total(c, cover)
      ensures Total(w, Positions(selected)) <= 2 * Total(w, cover)
    {
      AllAreNeeded(c, n, cover);
      SameTotal(w, Positions(selected), cover);
    }
  }

  function PositionsInOrder(selected: seq<SelectedPosition>): (r: seq<nat>)
    ensures |r| == |selected| && forall k :: 0 <= k < |r| ==> r[k] == selected[k].position
  {
    seq(|selected|, k requires 0 <= k < |selected| => selected[k].position)
  }

  /** No other selection is smaller: it has to take every position. */
  lemma EverySelectionIsWhole(m: nat, n: nat, max: nat, eta: nat, selected: seq<SelectedPosition>)
    requires CrowdedIndex(m).WellFormed()
    requires IsSelection(
               FreeSubstitution(max), [0], CrowdedIndex(m), CrowdedQuery(n), StrictBound(n), eta, selected)
    ensures |selected| == n && forall k :: 0 <= k < n ==> selected[k].neighbors == [0]
  {
    hide Neighbors, WayOut, CandidateCount, Total, AllOnes, CrowdedIndex, FreeSubstitution, Counts;
    CrowdedScan(max, n, eta);
    var c := Contributions(FreeSubstitution(max), [0], CrowdedQuery(n), eta);
    AllAreNeeded(c, n, Positions(selected));
    assert n <= Total(c, Positions(selected));
    var positions := PositionsInOrder(selected);
    forall i: nat
      ensures i in positions <==> i < n
    {
      if i < n {
        assert i in Positions(selected);
        var k :| 0 <= k < |selected| && selected[k].position == i;
        assert positions[k] == i;
      }
    }
    Pigeonhole(positions, n);
  }

  lemma {:induction false} CandidatesMultiply(index: PostingsIndex, selected: seq<SelectedPosition>, k: nat)
    requires index.WellFormed() && k <= |selected|
    requires forall i :: 0 <= i < k ==> selected[i].neighbors == [0]
    ensures |Candidates(index, selected[..k])| == k * CandidateCount(index, [0])
    decreases k
  {
    hide Candidates, CandidateCount;
    if k == 0 {
      NoPositionNoCandidates(index, selected);
    } else {
      CandidatesMultiply(index, selected, k - 1);
      OneMorePositionCount(index, selected, k - 1);
    }
  }

  /** Every selection for this query has 2^64 candidates. */
  lemma CrowdedCandidates(max: nat, eta: nat, selected: seq<SelectedPosition>)
    requires CrowdedIndex(CROWD).WellFormed()
    requires IsSelection(FreeSubstitution(max), [0], CrowdedIndex(CROWD), CrowdedQuery(SIGNIFICAND),
                         StrictBound(SIGNIFICAND), eta, selected)
    ensures |Candidates(CrowdedIndex(CROWD), selected)| == USIZE_MAX + 1
  {
    hide Candidates, IsSelection, CandidateCount, CrowdedIndex, CrowdedCorpus;
    CrowdedIndexInverts(CROWD);
    EverySelectionIsWhole(CROWD, SIGNIFICAND, max, eta, selected);
    CandidatesMultiply(CrowdedIndex(CROWD), selected, SIGNIFICAND);
    WholePrefix(selected);
    CrowdedProduct();
  }

  lemma CrowdedProduct()
    ensures SIGNIFICAND * (LENGTH * CROWD) == USIZE_MAX + 1
  {
  }

  // ----- The sums -----

  lemma OneMoreOne(k: nat, a: nat)
    requires a < SIGNIFICAND <= Max(k)
    ensures AddSingle(k, a, 1) == a + 1
  {
    hide Max, Beyond, Round;
    SmallIsFloat(a + 1);
    FloatIsExact(a + 1);
  }

  /** Up to 24 bits, whole numbers of quanta are values. */
  lemma SmallIsFloat(x: nat)
    requires x <= SIGNIFICAND
    ensures IsFloat(x)
  {
    if x < SIGNIFICAND {
      MulConstants(Pow2(0));
      assert Scaled(x, x, 0);
    } else {
      SumsAroundTheFirstGap();
      RoundIsFloat(SIGNIFICAND);
    }
  }

  /** At most 2^24 ones are added without rounding, in any selection. */
  lemma {:induction false} OnesAddExactly(k: nat, c: seq<nat>, n: nat, chosen: set<nat>)
    requires AllOnes(c, n) && n <= SIGNIFICAND <= Max(k)
    ensures OrderedTotal(SingleAddition(k), c) == n
    ensures OrderedSum(SingleAddition(k), c, chosen) == Total(c, chosen) <= n
    decreases n
  {
    hide AddSingle, Max;
    if c != [] {
      OnesAddExactly(k, c[..n - 1], n - 1, chosen);
      OneMoreOne(k, n - 1);
      OneMoreOne(k, Total(c[..n - 1], chosen));
    }
  }

  lemma CrowdedDeletions(max: nat, n: nat)
    ensures AllOnes(Deletions(FreeSubstitution(max), CrowdedQuery(n)), n)
  {
  }

  lemma {:induction false} CrowdedDeletion(max: nat, n: nat)
    ensures TotalDeletion(FreeSubstitution(max), CrowdedQuery(n)) == n
    decreases n
  {
    if n > 0 {
      CrowdedDeletion(max, n - 1);
      assert CrowdedQuery(n)[..n - 1] == CrowdedQuery(n - 1);
    }
  }

  /** Single precision admits the search, and rounds none of its numbers. */
  lemma CrowdedSearchIsExact(k: nat)
    requires 0 < k
    ensures FromInclusive(Max(k), SIGNIFICAND - 1) == Ok(StrictBound(SIGNIFICAND))
    ensures IsSingle(k, SIGNIFICAND - 1) && IsSingle(k, SIGNIFICAND)
    ensures CostsAreValues(SingleValue(k), FreeSubstitution(Max(k)))
    ensures AnyRadiusCanSelectRounded(
              SingleAddition(k), FreeSubstitution(Max(k)), CrowdedQuery(SIGNIFICAND), SIGNIFICAND)
  {
    hide OrderedTotal, IsFloat, AllOnes, SingleAddition, CrowdedQuery, Deletions;
    CrowdIsInRange(k);
    SmallIsFloat(0);
    SmallIsFloat(1);
    SmallIsFloat(SIGNIFICAND - 1);
    SmallIsFloat(SIGNIFICAND);
    CrowdedDeletions(Max(k), SIGNIFICAND);
    OnesAddExactly(k, Deletions(FreeSubstitution(Max(k)), CrowdedQuery(SIGNIFICAND)), SIGNIFICAND, {});
  }

  lemma CrowdIsInRange(k: nat)
    requires 0 < k
    ensures SIGNIFICAND < Max(k)
  {
    Pow2Grows(0, k);
  }

  /** Selecting in single precision takes every position too. */
  lemma RoundedSelectionIsWhole(k: nat, eta: nat, selected: seq<nat>)
    requires 0 < k
    requires SelectsRounded(
               SingleAddition(k), FreeSubstitution(Max(k)), [0], CrowdedQuery(SIGNIFICAND), SIGNIFICAND, eta, selected)
    ensures forall i: nat :: i < SIGNIFICAND ==> i in selected
  {
    hide OrderedSum, OrderedTotal, Total, AllOnes, SingleAddition, CrowdedQuery, FreeSubstitution, Max;
    CrowdIsInRange(k);
    CrowdedScan(Max(k), SIGNIFICAND, eta);
    var c := Contributions(FreeSubstitution(Max(k)), [0], CrowdedQuery(SIGNIFICAND), eta);
    OnesAddExactly(k, c, SIGNIFICAND, Chosen(selected));
    AllAreNeeded(c, SIGNIFICAND, Chosen(selected));
    assert forall i: nat :: i in Chosen(selected) ==> i in selected;
  }

  /** The saturated count does not stay above every limit. On an inverted index
      and for a query the up-front check admits, every selection has more
      candidates than the largest limit, and the count does not exceed it. */
  lemma LargestLimitIsNotExceeded(k: nat, eta: nat)
    requires 0 < k
    ensures var p, query, limit := FreeSubstitution(Max(k)), CrowdedQuery(SIGNIFICAND), SIGNIFICAND;
            var index := CrowdedIndex(CROWD);
            && FromInclusive(p.max, limit - 1) == Ok(StrictBound(limit))
            && IsSingle(k, limit - 1) && IsSingle(k, limit) && CostsAreValues(SingleValue(k), p)
            && AnyRadiusCanSelectRounded(SingleAddition(k), p, query, limit)
            && limit <= TotalDeletion(p, query)
            && index.Inverts(CrowdedCorpus(CROWD), 1) && index.Alphabet() == [0]
            && IsSelection(p, [0], index, query, StrictBound(limit), eta, WholeSelection(limit))
            && forall selected :: IsSelection(p, [0], index, query, StrictBound(limit), eta, selected) ==>
                 && USIZE_MAX < |Candidates(index, selected)|
                 && !(USIZE_MAX < Saturated(|Candidates(index, selected)|))
  {
    hide Candidates, IsSelection, Saturated, TotalDeletion, Max, IsSingle, CostsAreValues, AnyRadiusCanSelectRounded;
    hide CrowdedIndex, CrowdedCorpus, CrowdedQuery, WholeSelection;
    CrowdedSearchIsExact(k);
    CrowdedDeletion(Max(k), SIGNIFICAND);
    CrowdedIndexInverts(CROWD);
    WholeSelectionIsSelection(CROWD, SIGNIFICAND, Max(k), eta);
    forall selected | IsSelection(FreeSubstitution(Max(k)), [0], CrowdedIndex(CROWD), CrowdedQuery(SIGNIFICAND),
                                  StrictBound(SIGNIFICAND), eta, selected)
      ensures USIZE_MAX < |Candidates(CrowdedIndex(CROWD), selected)|
      ensures !(USIZE_MAX < Saturated(|Candidates(CrowdedIndex(CROWD), selected)|))
    {
      CrowdedCandidates(Max(k), eta, selected);
      SaturatedAtMost(|Candidates(CrowdedIndex(CROWD), selected)|);
    }
  }

  lemma SaturatedAtMost(exact: nat)
    ensures Saturated(exact) <= USIZE_MAX
  {
  }
}
