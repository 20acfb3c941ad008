/** Explicit verification of an index against its corpus. The check only looks at
    what is indexed; that nothing is missing follows by counting. */
module IndexVerification {
  import opened Wrappers
  import opened Types
  import opened Collections
  import opened Sorting
  import opened Store
  import opened Postings

  // ----- Counting -----

  function Below(n: nat): (s: set<nat>)
    ensures forall v: nat :: v in s <==> v < n
    ensures |s| == n
  {
    if n == 0 then {} else Below(n - 1) + {n - 1}
  }

  /** `n` distinct numbers below `n` are all of them; fewer miss one, and there
      cannot be more. */
  lemma Pigeonhole(s: seq<nat>, n: nat)
    requires Distinct(s) && forall v: nat :: v in s ==> v < n
    ensures |s| <= n
    ensures |s| == n <==> forall v: nat :: v < n ==> v in s
  {
    var elements := set v | v in s;
    DistinctCardinality(s, elements);
    SubsetCardinality(elements, Below(n));
    if forall v: nat :: v < n ==> v in s {
      SubsetCardinality(Below(n), elements);
    }
  }

  // ----- Places of the corpus as flat positions -----

  ghost predicate Place(corpus: seq<seq<Symbol>>, posting: Posting) {
    posting.stringId < |corpus| && posting.position < |corpus[posting.stringId]|
  }

  ghost function Flat(store: CorpusStore, posting: Posting): nat
    requires store.WellFormed() && Place(store.Corpus(), posting)
  {
    store.stringOffsets[posting.stringId] + posting.position
  }

  lemma FlatIsInRange(store: CorpusStore, posting: Posting)
    requires store.WellFormed() && Place(store.Corpus(), posting)
    ensures store.stringOffsets[posting.stringId] <= Flat(store, posting) < store.stringOffsets[posting.stringId + 1]
    ensures Flat(store, posting) < |store.symbols|
  {
    var id := posting.stringId;
    assert store.StringWithoutSymbolValidation(id) == Some(store.Corpus()[id]);
  }

  lemma FlatFollowsStrings(store: CorpusStore, a: Posting, b: Posting)
    requires store.WellFormed() && Place(store.Corpus(), a) && Place(store.Corpus(), b) && a.stringId < b.stringId
    ensures Flat(store, a) < Flat(store, b)
  {
    FlatIsInRange(store, a);
    FlatIsInRange(store, b);
    assert store.stringOffsets[a.stringId + 1] <= store.stringOffsets[b.stringId];
  }

  lemma FlatIsInjective(store: CorpusStore, a: Posting, b: Posting)
    requires store.WellFormed() && Place(store.Corpus(), a) && Place(store.Corpus(), b)
    requires Flat(store, a) == Flat(store, b)
    ensures a == b
  {
    hide CorpusStore.WellFormed;
    if a.stringId < b.stringId {
      FlatFollowsStrings(store, a, b);
    } else if b.stringId < a.stringId {
      FlatFollowsStrings(store, b, a);
    }
  }

  /** The slice of a monotone offset array that contains position `t`. */
  lemma SliceOf(offsets: seq<nat>, len: nat, t: nat) returns (k: nat)
    requires OffsetsFit(offsets, len) && t < len
    ensures k + 1 < |offsets| && offsets[k] <= t < offsets[k + 1]
  {
    k := 0;
    while offsets[k + 1] <= t
      invariant k + 1 < |offsets| && offsets[k] <= t
      decreases |offsets| - k
    {
      k := k + 1;
    }
  }

  lemma PlaceOf(store: CorpusStore, v: nat) returns (posting: Posting)
    requires store.WellFormed() && v < |store.symbols|
    ensures Place(store.Corpus(), posting) && Flat(store, posting) == v
  {
    var id := SliceOf(store.stringOffsets, |store.symbols|, v);
    assert store.StringWithoutSymbolValidation(id) == Some(store.Corpus()[id]);
    posting := Posting(id, v - store.stringOffsets[id]);
  }

  // ----- Accepted indexes are complete -----

  /** What the loop over one symbol checks. */
  ghost predicate SliceMatches(index: PostingsIndex, corpus: seq<seq<Symbol>>, symbol: Symbol)
    requires index.WellFormed()
  {
    && Ascending(PostingLeq, index.PostingSlice(symbol))
    && forall posting :: posting in index.PostingSlice(symbol) ==> Occurs(corpus, symbol, posting)
  }

  ghost predicate AllSlicesMatch(index: PostingsIndex, corpus: seq<seq<Symbol>>)
    requires index.WellFormed()
  {
    && |index.postingOffsets| - 1 <= UNKNOWN
    && forall symbol: Symbol :: symbol + 1 < |index.postingOffsets| ==> SliceMatches(index, corpus, symbol)
  }

  /** Every posting lies in the slice of the symbol it occurs with. */
  lemma PostingInSlice(index: PostingsIndex, corpus: seq<seq<Symbol>>, t: nat) returns (symbol: Symbol)
    requires index.WellFormed() && AllSlicesMatch(index, corpus) && t < |index.postings|
    ensures symbol + 1 < |index.postingOffsets|
    ensures index.postingOffsets[symbol] <= t < index.postingOffsets[symbol + 1]
    ensures index.postings[t] in index.PostingSlice(symbol) && Occurs(corpus, symbol, index.postings[t])
  {
    symbol := SliceOf(index.postingOffsets, |index.postings|, t);
    assert index.PostingSlice(symbol)[t - index.postingOffsets[symbol]] == index.postings[t];
    assert SliceMatches(index, corpus, symbol);
  }

  lemma SliceIsDistinct(index: PostingsIndex, symbol: Symbol, t: nat, u: nat)
    requires index.WellFormed() && symbol + 1 < |index.postingOffsets| && symbol < UNKNOWN
    requires index.postingOffsets[symbol] <= t < u < index.postingOffsets[symbol + 1]
    requires Ascending(PostingLeq, index.PostingSlice(symbol))
    ensures index.postings[t] != index.postings[u]
  {
    var start, slice := index.postingOffsets[symbol], index.PostingSlice(symbol);
    assert slice[t - start] == index.postings[t] && slice[u - start] == index.postings[u];
  }

  lemma PostingsAreDistinct(index: PostingsIndex, corpus: seq<seq<Symbol>>, t: nat, u: nat)
    requires index.WellFormed() && AllSlicesMatch(index, corpus) && t < u < |index.postings|
    ensures index.postings[t] != index.postings[u]
  {
    var a := PostingInSlice(index, corpus, t);
    var b := PostingInSlice(index, corpus, u);
    if a == b {
      assert SliceMatches(index, corpus, a);
      hide Occurs;
      SliceIsDistinct(index, a, t, u);
    }
  }

  /** The flat positions of the postings, in index order. */
  lemma FlatPositions(index: PostingsIndex, store: CorpusStore) returns (flat: seq<nat>)
    requires store.WellFormed() && index.WellFormed() && AllSlicesMatch(index, store.Corpus())
    ensures |flat| == |index.postings| && Distinct(flat)
    ensures forall t :: 0 <= t < |flat| ==>
      Place(store.Corpus(), index.postings[t]) && flat[t] == Flat(store, index.postings[t]) < |store.symbols|
  {
    forall t | 0 <= t < |index.postings|
      ensures Place(store.Corpus(), index.postings[t]) && Flat(store, index.postings[t]) < |store.symbols|
    {
      var _ := PostingInSlice(index, store.Corpus(), t);
      FlatIsInRange(store, index.postings[t]);
    }
    flat := seq(|index.postings|, t requires 0 <= t < |index.postings| => Flat(store, index.postings[t]));
    forall t, u | 0 <= t < u < |flat|
      ensures flat[t] != flat[u]
    {
      PostingsAreDistinct(index, store.Corpus(), t, u);
      if flat[t] == flat[u] {
        FlatIsInjective(store, index.postings[t], index.postings[u]);
      }
    }
  }

  /** Equal totals leave no room for a missing occurrence. */
  lemma CountingFindsEveryOccurrence(index: PostingsIndex, store: CorpusStore, symbol: Symbol, posting: Posting)
    requires store.WellFormed() && index.WellFormed() && AllSlicesMatch(index, store.Corpus())
    requires |index.postings| == |store.symbols|
    requires Occurs(store.Corpus(), symbol, posting)
    ensures symbol + 1 < |index.postingOffsets| && posting in index.PostingSlice(symbol)
  {
    var flat := FlatPositions(index, store);
    Pigeonhole(flat, |store.symbols|);
    FlatIsInRange(store, posting);
    assert Flat(store, posting) in flat;
    var t :| 0 <= t < |flat| && flat[t] == Flat(store, posting);
    FlatIsInjective(store, index.postings[t], posting);
    var found := PostingInSlice(index, store.Corpus(), t);
  }

  /** An inverted index holds as many postings as the corpus holds symbols. */
  lemma InvertedIndexIsFull(index: PostingsIndex, store: CorpusStore)
    requires store.WellFormed() && index.WellFormed() && index.Inverts(store.Corpus(), |index.postingOffsets| - 1)
    requires AllSlicesMatch(index, store.Corpus())
    requires forall symbol: Symbol :: symbol in store.symbols ==> symbol + 1 < |index.postingOffsets|
    ensures |index.postings| == |store.symbols|
  {
    var flat := FlatPositions(index, store);
    forall v: nat | v < |store.symbols|
      ensures v in flat
    {
      var posting := PlaceOf(store, v);
      var t := IndexedPlace(index, store, posting);
      assert flat[t] == v;
    }
    Pigeonhole(flat, |store.symbols|);
  }

  /** In an inverted index every place of the corpus is some posting. */
  lemma IndexedPlace(index: PostingsIndex, store: CorpusStore, posting: Posting) returns (t: nat)
    requires store.WellFormed() && index.WellFormed() && index.Inverts(store.Corpus(), |index.postingOffsets| - 1)
    requires forall symbol: Symbol :: symbol in store.symbols ==> symbol + 1 < |index.postingOffsets|
    requires |index.postingOffsets| - 1 <= UNKNOWN && Place(store.Corpus(), posting)
    ensures t < |index.postings| && index.postings[t] == posting
  {
    var text := store.Corpus()[posting.stringId];
    var symbol := text[posting.position];
    FlatIsInRange(store, posting);
    assert store.StringWithoutSymbolValidation(posting.stringId) == Some(text);
    assert store.symbols[Flat(store, posting)] == symbol;
    assert symbol in store.symbols;
    assert Occurs(store.Corpus(), symbol, posting);
    var slice := index.PostingSlice(symbol);
    assert posting in slice;
    var u :| 0 <= u < |slice| && slice[u] == posting;
    t := index.postingOffsets[symbol] + u;
  }

  // ----- The checks -----

  /** Whether a posting list has no adjacent pair out of strict order. */
  method StrictlyIncreasing(postings: seq<Posting>) returns (ok: bool)
    ensures ok <==> Ascending(PostingLeq, postings)
  {
    var k := 1;
    while k < |postings|
      invariant 1 <= k
      invariant forall i, j :: 0 <= i < j < k && j < |postings| ==>
        PostingLeq(postings[i], postings[j]) && postings[i] != postings[j]
    {
      if PostingLeq(postings[k], postings[k - 1]) {
        return false;
      }
      k := k + 1;
    }
    return true;
  }

  /** Checks that one symbol's postings are ordered and match the corpus. */
  method VerifySlice(index: PostingsIndex, store: CorpusStore, symbol: Symbol) returns (r: Result<()>)
    requires store.WellFormed() && index.WellFormed()
    ensures r.Ok? <==> SliceMatches(index, store.Corpus(), symbol)
  {
    hide OffsetsFit, PostingsIndex.PostingSlice;
    var slice := index.PostingSlice(symbol);
    var ordered := StrictlyIncreasing(slice);
    if !ordered {
      return Err(InvalidFile("postings are not strictly ordered"));
    }
    for k := 0 to |slice|
      invariant forall j :: 0 <= j < k ==> Occurs(store.Corpus(), symbol, slice[j])
    {
      var posting := slice[k];
      assert posting in slice;
      var text := store.StringWithoutSymbolValidation(posting.stringId);
      if text.None? {
        return Err(InvalidFile("posting sequence id is out of range"));
      }
      if posting.position >= |text.value| || text.value[posting.position] != symbol {
        return Err(InvalidFile("posting does not match the corpus"));
      }
    }
    return Ok(());
  }

  lemma AcceptedIffInverted(index: PostingsIndex, store: CorpusStore)
    requires store.WellFormed() && index.WellFormed() && |index.postingOffsets| - 1 <= UNKNOWN
    requires forall symbol: Symbol :: symbol in store.symbols ==> symbol + 1 < |index.postingOffsets|
    ensures index.Inverts(store.Corpus(), |index.postingOffsets| - 1) <==>
            |index.postings| == |store.symbols| && AllSlicesMatch(index, store.Corpus())
  {
    if |index.postings| == |store.symbols| && AllSlicesMatch(index, store.Corpus()) {
      forall symbol: Symbol | symbol + 1 < |index.postingOffsets|
        ensures Ascending(PostingLeq, index.PostingSlice(symbol))
        ensures forall posting :: posting in index.PostingSlice(symbol) <==> Occurs(store.Corpus(), symbol, posting)
      {
        assert SliceMatches(index, store.Corpus(), symbol);
        forall posting | Occurs(store.Corpus(), symbol, posting)
          ensures posting in index.PostingSlice(symbol)
        {
          CountingFindsEveryOccurrence(index, store, symbol, posting);
        }
      }
    } else if index.Inverts(store.Corpus(), |index.postingOffsets| - 1) {
      assert AllSlicesMatch(index, store.Corpus());
      InvertedIndexIsFull(index, store);
    }
  }

  /** Accepts exactly the inverted index of the corpus, once the corpus symbols
      are known to lie in the vocabulary. */
  method VerifyIndex(index: PostingsIndex, store: CorpusStore) returns (r: Result<()>)
    requires store.WellFormed() && index.WellFormed()
    requires forall symbol: Symbol :: symbol in store.symbols ==> symbol + 1 < |index.postingOffsets|
    ensures r.Ok? <==> |index.postingOffsets| - 1 <= UNKNOWN
                       && index.Inverts(store.Corpus(), |index.postingOffsets| - 1)
  {
    assert 0 < |index.postingOffsets|;
    hide OffsetsFit, SliceMatches, PostingsIndex.Inverts;
    if |index.postingOffsets| - 1 <= UNKNOWN {
      AcceptedIffInverted(index, store);
    }
    if |index.postings| != |store.symbols| {
      return Err(InvalidFile("posting count does not match corpus symbol count"));
    }
    for symbol := 0 to |index.postingOffsets| - 1
      invariant symbol <= UNKNOWN
      invariant forall s: Symbol :: s < symbol ==> SliceMatches(index, store.Corpus(), s)
    {
      if symbol == UNKNOWN {
        return Err(SymbolOverflow);
      }
      var checked := VerifySlice(index, store, symbol);
      if checked.Err? {
        return checked;
      }
    }
    return Ok(());
  }

  /** Accepts exactly the stores whose symbols all lie in the vocabulary and whose
      strings can be identified. */
  method VerifyStore(store: CorpusStore) returns (r: Result<()>)
    requires store.WellFormed()
    ensures r.Ok? <==>
      && store.Len() <= U32_MAX + 1
      && forall symbol :: symbol in store.symbols ==> symbol != UNKNOWN && symbol < store.symbolCount
    ensures r.Err? ==>
      || (r.error == SequenceIdOverflow && U32_MAX + 1 < store.Len())
      || (r.error.UnknownStringSymbol? && r.error.symbol in store.symbols
          && (r.error.symbol == UNKNOWN || store.symbolCount <= r.error.symbol))
  {
    for id := 0 to store.Len()
      invariant id <= U32_MAX + 1
      invariant forall i :: 0 <= i < store.stringOffsets[id] ==>
        store.symbols[i] != UNKNOWN && store.symbols[i] < store.symbolCount
    {
      var checkedId := SequenceIdFromUsize(id);
      if checkedId.Err? {
        return Err(checkedId.error);
      }
      var start, end := store.stringOffsets[id], store.stringOffsets[id + 1];
      var text := store.StringWithoutSymbolValidation(id).value;
      var valid := store.ValidateSymbols(text);
      if valid.Err? {
        assert forall symbol :: symbol in text ==> symbol in store.symbols;
        return valid;
      }
      forall i | start <= i < end
        ensures store.symbols[i] != UNKNOWN && store.symbols[i] < store.symbolCount
      {
        assert text[i - start] in text;
      }
    }
    return Ok(());
  }

  // ----- The inverted index is unique -----

  lemma SlicesAgree(a: PostingsIndex, b: PostingsIndex, corpus: seq<seq<Symbol>>, symbolCount: nat, symbol: Symbol)
    requires a.Inverts(corpus, symbolCount) && b.Inverts(corpus, symbolCount) && symbol < symbolCount
    ensures a.PostingSlice(symbol) == b.PostingSlice(symbol)
  {
    PostingsAreOrdered();
    forall posting
      ensures posting in a.PostingSlice(symbol) <==> posting in b.PostingSlice(symbol)
    {
      assert posting in a.PostingSlice(symbol) <==> Occurs(corpus, symbol, posting);
      assert posting in b.PostingSlice(symbol) <==> Occurs(corpus, symbol, posting);
    }
    AscendingIsUnique(PostingLeq, a.PostingSlice(symbol), b.PostingSlice(symbol));
  }

  lemma {:induction false} OffsetsAgree(
    a: PostingsIndex, b: PostingsIndex, corpus: seq<seq<Symbol>>, symbolCount: nat, k: nat)
    requires a.Inverts(corpus, symbolCount) && b.Inverts(corpus, symbolCount) && k <= symbolCount <= UNKNOWN
    ensures a.postingOffsets[k] == b.postingOffsets[k]
  {
    if k > 0 {
      OffsetsAgree(a, b, corpus, symbolCount, k - 1);
      SlicesAgree(a, b, corpus, symbolCount, k - 1);
      assert |a.PostingSlice(k - 1)| == |b.PostingSlice(k - 1)|;
    }
  }

  /** A corpus has one inverted index, so an accepted index is the built one. */
  lemma InvertedIndexIsUnique(a: PostingsIndex, b: PostingsIndex, corpus: seq<seq<Symbol>>, symbolCount: nat)
    requires a.Inverts(corpus, symbolCount) && b.Inverts(corpus, symbolCount) && symbolCount <= UNKNOWN
    ensures a == b
  {
    forall k | 0 <= k <= symbolCount
      ensures a.postingOffsets[k] == b.postingOffsets[k]
    {
      OffsetsAgree(a, b, corpus, symbolCount, k);
    }
    assert a.postingOffsets == b.postingOffsets;
    forall t | 0 <= t < |a.postings|
      ensures a.postings[t] == b.postings[t]
    {
      var symbol := SliceOf(a.postingOffsets, |a.postings|, t);
      SlicesAgree(a, b, corpus, symbolCount, symbol);
      assert a.PostingSlice(symbol)[t - a.postingOffsets[symbol]] == a.postings[t];
      assert b.PostingSlice(symbol)[t - a.postingOffsets[symbol]] == b.postings[t];
    }
  }
}
