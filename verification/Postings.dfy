/** The flat postings index: every occurrence of every symbol, cut by offsets. */
module Postings {
  import opened Wrappers
  import opened Types
  import opened Sorting
  import opened Store

  predicate PostingLeq(a: Posting, b: Posting) {
    a.stringId < b.stringId || (a.stringId == b.stringId && a.position <= b.position)
  }

  /** The posting names a place of the corpus that holds the symbol. */
  ghost predicate Occurs(corpus: seq<seq<Symbol>>, symbol: Symbol, posting: Posting) {
    && posting.stringId < |corpus| && posting.position < |corpus[posting.stringId]|
    && corpus[posting.stringId][posting.position] == symbol
  }

  datatype PostingsIndex = PostingsIndex(postings: seq<Posting>, postingOffsets: seq<nat>) {

    ghost predicate WellFormed() {
      OffsetsFit(postingOffsets, |postings|)
    }

    /** The postings of a symbol; none for a symbol the index does not know. */
    function PostingSlice(symbol: Symbol): seq<Posting>
      requires WellFormed()
    {
      if symbol == UNKNOWN || symbol + 1 >= |postingOffsets| then []
      else postings[postingOffsets[symbol]..postingOffsets[symbol + 1]]
    }

    function Frequency(symbol: Symbol): nat
      requires WellFormed()
    {
      |PostingSlice(symbol)|
    }

    /** The symbols below `n` whose posting list is not empty. */
    function AlphabetBelow(n: nat): seq<Symbol>
      requires n < |postingOffsets|
    {
      if n == 0 then []
      else if postingOffsets[n - 1] == postingOffsets[n] then AlphabetBelow(n - 1)
      else AlphabetBelow(n - 1) + [n - 1]
    }

    /** The symbol's offset pair delimits at least one posting. */
    predicate Occupied(symbol: Symbol) {
      symbol + 1 < |postingOffsets| && postingOffsets[symbol] != postingOffsets[symbol + 1]
    }

    lemma {:induction false} AlphabetBelowIsComplete(n: nat)
      requires n < |postingOffsets|
      ensures forall symbol: Symbol :: symbol in AlphabetBelow(n) <==> symbol < n && Occupied(symbol)
      ensures forall i, j :: 0 <= i < j < |AlphabetBelow(n)| ==> AlphabetBelow(n)[i] < AlphabetBelow(n)[j]
    {
      if n != 0 {
        AlphabetBelowIsComplete(n - 1);
        var before := AlphabetBelow(n - 1);
        assert forall i :: 0 <= i < |before| ==> before[i] in before;
      }
    }

    function Alphabet(): seq<Symbol>
      requires WellFormed()
    {
      AlphabetBelow(|postingOffsets| - 1)
    }

    /** For every symbol of the vocabulary, exactly its occurrences, in order. */
    ghost predicate Inverts(corpus: seq<seq<Symbol>>, symbolCount: nat) {
      && WellFormed() && |postingOffsets| == symbolCount + 1
      && forall symbol: Symbol :: symbol < symbolCount ==>
        && Ascending(PostingLeq, PostingSlice(symbol))
        && forall posting :: posting in PostingSlice(symbol) <==> Occurs(corpus, symbol, posting)
    }
  }

  lemma PostingsAreOrdered()
    ensures TotalOrder(PostingLeq)
  {
  }

  ghost predicate OccursSomewhere(corpus: seq<seq<Symbol>>, symbol: Symbol) {
    exists posting :: Occurs(corpus, symbol, posting)
  }

  lemma OccupiedIffOccurs(index: PostingsIndex, corpus: seq<seq<Symbol>>, symbolCount: nat, symbol: Symbol)
    requires index.Inverts(corpus, symbolCount) && symbol < symbolCount <= UNKNOWN
    ensures index.Occupied(symbol) <==> OccursSomewhere(corpus, symbol)
  {
    var slice := index.PostingSlice(symbol);
    if slice != [] {
      assert slice[0] in slice && Occurs(corpus, symbol, slice[0]);
    }
  }

  /** The alphabet is the set of symbols occurring in the corpus, in increasing
      order. */
  lemma AlphabetOccurs(index: PostingsIndex, corpus: seq<seq<Symbol>>, symbolCount: nat)
    requires index.Inverts(corpus, symbolCount) && symbolCount <= UNKNOWN
    ensures forall symbol: Symbol :: symbol in index.Alphabet() <==>
      symbol < symbolCount && OccursSomewhere(corpus, symbol)
    ensures forall i, j :: 0 <= i < j < |index.Alphabet()| ==> index.Alphabet()[i] < index.Alphabet()[j]
  {
    index.AlphabetBelowIsComplete(symbolCount);
    forall symbol: Symbol | symbol < symbolCount
      ensures index.Occupied(symbol) <==> OccursSomewhere(corpus, symbol)
    {
      OccupiedIffOccurs(index, corpus, symbolCount, symbol);
    }
  }

  // ----- Building -----

  predicate PairLeq(a: (Symbol, Posting), b: (Symbol, Posting)) {
    KeyLeq((a.0, a.1.stringId, a.1.position), (b.0, b.1.stringId, b.1.position))
  }

  lemma PairsAreOrdered()
    ensures TotalOrder(PairLeq)
  {
  }

  function CountAt(pairs: seq<(Symbol, Posting)>, symbol: Symbol): nat {
    if pairs == [] then 0
    else CountAt(pairs[..|pairs| - 1], symbol) + if pairs[|pairs| - 1].0 == symbol then 1 else 0
  }

  function CountBelow(pairs: seq<(Symbol, Posting)>, symbol: Symbol): nat {
    if pairs == [] then 0
    else CountBelow(pairs[..|pairs| - 1], symbol) + if pairs[|pairs| - 1].0 < symbol then 1 else 0
  }

  lemma {:induction false} CountBelowNext(pairs: seq<(Symbol, Posting)>, symbol: Symbol)
    ensures CountBelow(pairs, symbol + 1) == CountBelow(pairs, symbol) + CountAt(pairs, symbol)
    decreases |pairs|
  {
    if pairs != [] {
      CountBelowNext(pairs[..|pairs| - 1], symbol);
    }
  }

  lemma {:induction false} CountBelowBounds(pairs: seq<(Symbol, Posting)>, symbol: Symbol)
    ensures CountBelow(pairs, 0) == 0
    ensures CountBelow(pairs, symbol) <= |pairs|
    ensures (forall t :: 0 <= t < |pairs| ==> pairs[t].0 < symbol) ==> CountBelow(pairs, symbol) == |pairs|
    decreases |pairs|
  {
    if pairs != [] {
      CountBelowBounds(pairs[..|pairs| - 1], symbol);
    }
  }

  /** In a sorted sequence, the count is the boundary. */
  lemma {:induction false} CountBelowIsBoundary(pairs: seq<(Symbol, Posting)>, symbol: Symbol, t: nat)
    requires Sorted(PairLeq, pairs) && t < |pairs|
    ensures t < CountBelow(pairs, symbol) <==> pairs[t].0 < symbol
    decreases |pairs|
  {
    var init, last := pairs[..|pairs| - 1], pairs[|pairs| - 1];
    CountBelowBounds(init, symbol);
    if t < |init| {
      CountBelowIsBoundary(init, symbol, t);
      assert PairLeq(pairs[t], last);
    } else if last.0 < symbol {
      assert forall u :: 0 <= u < |init| ==> PairLeq(init[u], last);
    }
  }

  /** Offsets from a sorted sequence: how many pairs lie below each symbol. */
  method CountOffsets(symbolCount: nat, pairs: seq<(Symbol, Posting)>) returns (offsets: seq<nat>)
    requires forall t :: 0 <= t < |pairs| ==> pairs[t].0 < symbolCount
    ensures |offsets| == symbolCount + 1
    ensures forall k :: 0 <= k <= symbolCount ==> offsets[k] == CountBelow(pairs, k)
  {
    var counts := new nat[symbolCount + 1](_ => 0);
    for t := 0 to |pairs|
      invariant counts[0] == 0
      invariant forall k :: 0 <= k < symbolCount ==> counts[k + 1] == CountAt(pairs[..t], k)
    {
      assert pairs[..t + 1][..t] == pairs[..t];
      counts[pairs[t].0 + 1] := counts[pairs[t].0 + 1] + 1;
    }
    assert pairs[..|pairs|] == pairs;
    CountBelowBounds(pairs, 0);
    for index := 0 to symbolCount
      invariant forall k :: 0 <= k <= index ==> counts[k] == CountBelow(pairs, k)
      invariant forall k :: index <= k < symbolCount ==> counts[k + 1] == CountAt(pairs, k)
    {
      CountBelowNext(pairs, index);
      counts[index + 1] := counts[index + 1] + counts[index];
    }
    return counts[..];
  }

  /** Exactly the added postings of each symbol, in order and once. */
  ghost predicate Indexes(index: PostingsIndex, symbolCount: nat, added: seq<(Symbol, Posting)>) {
    && index.WellFormed() && |index.postingOffsets| == symbolCount + 1
    && forall symbol: Symbol :: symbol < symbolCount ==>
      && Ascending(PostingLeq, index.PostingSlice(symbol))
      && forall posting :: posting in index.PostingSlice(symbol) <==> (symbol, posting) in added
  }

  lemma {:induction false} CountBelowGrows(pairs: seq<(Symbol, Posting)>, a: Symbol, b: Symbol)
    requires a <= b
    ensures CountBelow(pairs, a) <= CountBelow(pairs, b)
    decreases |pairs|
  {
    if pairs != [] {
      CountBelowGrows(pairs[..|pairs| - 1], a, b);
    }
  }

  function Payload(pairs: seq<(Symbol, Posting)>): (r: seq<Posting>)
    ensures |r| == |pairs| && forall t :: 0 <= t < |r| ==> r[t] == pairs[t].1
  {
    seq(|pairs|, t requires 0 <= t < |pairs| => pairs[t].1)
  }

  lemma OffsetsFromCounts(symbolCount: nat, pairs: seq<(Symbol, Posting)>, offsets: seq<nat>)
    requires forall t :: 0 <= t < |pairs| ==> pairs[t].0 < symbolCount
    requires |offsets| == symbolCount + 1
    requires forall k :: 0 <= k <= symbolCount ==> offsets[k] == CountBelow(pairs, k)
    ensures OffsetsFit(offsets, |pairs|)
  {
    CountBelowBounds(pairs, symbolCount);
    forall i, j | 0 <= i <= j < |offsets|
      ensures offsets[i] <= offsets[j]
    {
      CountBelowGrows(pairs, i, j);
    }
  }

  /** In a sorted sequence the pairs of one symbol lie between two counts. */
  lemma RunBoundaries(pairs: seq<(Symbol, Posting)>, symbol: Symbol, t: nat)
    requires Ascending(PairLeq, pairs) && t < |pairs|
    ensures pairs[t].0 == symbol <==> CountBelow(pairs, symbol) <= t < CountBelow(pairs, symbol + 1)
  {
    hide CountBelow;
    CountBelowIsBoundary(pairs, symbol, t);
    CountBelowIsBoundary(pairs, symbol + 1, t);
  }

  /** A run of sorted pairs, without its symbol, is ascending and complete. */
  lemma RunHolds(pairs: seq<(Symbol, Posting)>, symbol: Symbol, start: nat, end: nat)
    requires Ascending(PairLeq, pairs) && start <= end <= |pairs|
    requires forall t :: 0 <= t < |pairs| ==> (pairs[t].0 == symbol <==> start <= t < end)
    ensures Ascending(PostingLeq, Payload(pairs)[start..end])
    ensures forall posting :: posting in Payload(pairs)[start..end] <==> (symbol, posting) in pairs
  {
    var run := Payload(pairs)[start..end];
    assert forall u :: 0 <= u < |run| ==> pairs[start + u] == (symbol, run[u]);
    forall posting | (symbol, posting) in pairs
      ensures posting in run
    {
      var t :| 0 <= t < |pairs| && pairs[t] == (symbol, posting);
      assert run[t - start] == posting;
    }
  }

  /** The slice of a symbol is the run of sorted pairs that carry it. */
  lemma SliceIsRun(symbolCount: nat, pairs: seq<(Symbol, Posting)>, index: PostingsIndex, symbol: Symbol)
    requires Ascending(PairLeq, pairs) && symbol < symbolCount <= UNKNOWN
    requires index.WellFormed() && |index.postingOffsets| == symbolCount + 1 && index.postings == Payload(pairs)
    requires forall k :: 0 <= k <= symbolCount ==> index.postingOffsets[k] == CountBelow(pairs, k)
    ensures Ascending(PostingLeq, index.PostingSlice(symbol))
    ensures forall posting :: posting in index.PostingSlice(symbol) <==> (symbol, posting) in pairs
  {
    hide CountBelow, Ascending;
    var start, end := index.postingOffsets[symbol], index.postingOffsets[symbol + 1];
    forall t: nat | t < |pairs|
      ensures pairs[t].0 == symbol <==> start <= t < end
    {
      RunBoundaries(pairs, symbol, t);
    }
    RunHolds(pairs, symbol, start, end);
  }

  class PostingsIndexBuilder {
    const symbolCount: nat
    var postings: seq<(Symbol, Posting)>

    ghost predicate Valid()
      reads this
    {
      symbolCount <= UNKNOWN && forall pair :: pair in postings ==> pair.0 < symbolCount
    }

    constructor (symbolCount: nat)
      requires symbolCount <= UNKNOWN
      ensures Valid() && this.symbolCount == symbolCount && postings == []
    {
      this.symbolCount := symbolCount;
      this.postings := [];
    }

    /** Rejects symbols outside the vocabulary. */
    method AddPosting(symbol: Symbol, posting: Posting) returns (r: Result<()>)
      requires Valid()
      modifies this
      ensures Valid()
      ensures r == if symbol == UNKNOWN || symbol >= symbolCount then Err(UnknownStringSymbol(symbol)) else Ok(())
      ensures postings == if r.Ok? then old(postings) + [(symbol, posting)] else old(postings)
    {
      if symbol == UNKNOWN || symbol >= symbolCount {
        return Err(UnknownStringSymbol(symbol));
      }
      postings := postings + [(symbol, posting)];
      return Ok(());
    }

    /** Sorts, removes duplicates, counts per symbol and accumulates the counts. */
    method Build() returns (index: PostingsIndex)
      requires Valid()
      ensures Indexes(index, symbolCount, postings)
    {
      PairsAreOrdered();
      SortIsSorted(PairLeq, postings);
      var sorted := Sort(PairLeq, postings);
      DedupIsAscending(PairLeq, sorted);
      var unique := Dedup(sorted);
      SortedElements(postings, sorted);
      assert forall t :: 0 <= t < |unique| ==> unique[t] in unique;
      var offsets := CountOffsets(symbolCount, unique);
      index := PostingsIndex(Payload(unique), offsets);
      OffsetsFromCounts(symbolCount, unique, offsets);
      forall symbol | 0 <= symbol < symbolCount
        ensures Ascending(PostingLeq, index.PostingSlice(symbol))
        ensures forall posting :: posting in index.PostingSlice(symbol) <==> (symbol, posting) in postings
      {
        SliceIsRun(symbolCount, unique, index, symbol);
      }
    }
  }

  lemma SortedElements<A>(s: seq<A>, sorted: seq<A>)
    requires multiset(sorted) == multiset(s)
    ensures forall x :: x in sorted <==> x in s
  {
    assert forall x :: x in sorted <==> x in multiset(sorted);
    assert forall x :: x in s <==> x in multiset(s);
  }
}
