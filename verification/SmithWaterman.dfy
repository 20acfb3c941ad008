/** Exhaustive verification of every substring, the reference for the anchored one. */
module SmithWaterman {
  import opened Wrappers
  import opened Types
  import opened Costs
  import opened EditScripts
  import opened Kernel
  import opened Store
  import opened Sorting
  import opened AnchoredVerification

  /** The first `n` cells of the buffer are the first cells of the column. */
  ghost predicate Filled(p: Policy<Symbol>, query: seq<Symbol>, data: seq<Symbol>, cells: seq<Distance>, n: nat) {
    && |cells| == |query| + 1 && n <= |cells|
    && forall r :: 0 <= r < n ==> cells[r] == Capped(p.max, Wed(p, query[..r], data))
  }

  /** Refills a buffer with the column of the empty data prefix. */
  method RefillRoot(query: seq<Symbol>, column: array<Distance>, p: Policy<Symbol>)
    requires column.Length == |query| + 1
    modifies column
    ensures IsColumn(p, query, [], column[..])
  {
    hide Wed;
    column[0] := Finite(0);
    NoDeletions(p, query);
    for k := 0 to |query|
      invariant Filled(p, query, [], column[..], k + 1)
    {
      WedDeletingAll(p, query, k);
      CappedDeletion(p, query, k);
      column[k + 1] := AddDistance(p.max, column[k], Finite(p.deletion(query[k])));
    }
  }

  lemma NoDeletions(p: Policy<Symbol>, query: seq<Symbol>)
    ensures Wed(p, query[..0], []) == 0
  {
  }

  lemma CappedDeletion(p: Policy<Symbol>, query: seq<Symbol>, k: nat)
    requires k < |query|
    ensures AddDistance(p.max, Capped(p.max, Wed(p, query[..k], [])), Finite(p.deletion(query[k]))) ==
            Capped(p.max, Wed(p, query[..k], []) + p.deletion(query[k]))
  {
    CostIsAdded(p.max, Wed(p, query[..k], []), p.deletion(query[k]));
  }

  /** Refills the spare buffer with the column that follows `previous`. */
  method NextColumn(
    query: seq<Symbol>, symbol: Symbol, previous: array<Distance>, current: array<Distance>, p: Policy<Symbol>,
    ghost data: seq<Symbol>)
    requires previous != current && current.Length == |query| + 1 && IsColumn(p, query, data, previous[..])
    modifies current
    ensures IsColumn(p, query, data + [symbol], current[..])
  {
    hide Wed, Capped, AddDistance, Min;
    FirstCell(p, query, data, symbol, previous[..]);
    current[0] := AddDistance(p.max, previous[0], Finite(p.insertion(symbol)));
    for k := 0 to |query|
      invariant Filled(p, query, data + [symbol], current[..], k + 1)
    {
      NextCell(p, query, data, symbol, k, previous[..], current[k]);
      var substitution := AddDistance(p.max, previous[k], Finite(p.substitution(query[k], symbol)));
      var deletion := AddDistance(p.max, current[k], Finite(p.deletion(query[k])));
      var insertion := AddDistance(p.max, previous[k + 1], Finite(p.insertion(symbol)));
      MinOrder(substitution, deletion, insertion);
      current[k + 1] := Min(Min(substitution, deletion), insertion);
    }
  }

  lemma MinOrder(a: Distance, b: Distance, c: Distance)
    ensures Min(Min(a, b), c) == Min(Min(a, c), b)
  {
  }

  /** The matches of one string that start before `start`, or start there and
      end by `end`. */
  ghost predicate Enumerated(
    p: Policy<Symbol>, query: seq<Symbol>, corpus: seq<seq<Symbol>>, bound: StrictBound, id: nat,
    matches: seq<Match>, start: nat, end: nat)
  {
    && StrictlyOrdered(matches)
    && forall m: Match :: m in matches <==>
       && IsAnswer(p, query, corpus, bound, m)
       && m.sequenceId == id && (m.start < start || (m.start == start && m.end <= end))
  }

  lemma AppendedInOrder(matches: seq<Match>, m: Match)
    requires StrictlyOrdered(matches)
    requires forall o :: o in matches ==> MatchLeq(o, m) && !MatchLeq(m, o)
    ensures StrictlyOrdered(matches + [m])
  {
    assert forall i :: 0 <= i < |matches| ==> matches[i] in matches;
  }

  /** Pushes the match ending at `end`, if the final cell is admitted. */
  method PushMatch(
    query: seq<Symbol>, ghost corpus: seq<seq<Symbol>>, id: nat, start: nat, end: nat, cell: Distance,
    bound: StrictBound, ghost p: Policy<Symbol>, before: seq<Match>)
    returns (matches: seq<Match>)
    requires id < |corpus| && start < end <= |corpus[id]| && bound.limit <= p.max
    requires cell == Capped(p.max, Wed(p, query, corpus[id][start..end]))
    requires Enumerated(p, query, corpus, bound, id, before, start, end - 1)
    ensures Enumerated(p, query, corpus, bound, id, matches, start, end)
  {
    matches := before;
    forall m: Match | m.sequenceId == id && m.start == start && m.end == end
      ensures IsAnswer(p, query, corpus, bound, m) <==> bound.Admits(cell) && m == Match(id, start, end, cell.value)
    {
      AnswerIsWed(p, query, corpus, bound, m);
    }
    if bound.Admits(cell) {
      AppendedInOrder(before, Match(id, start, end, cell.value));
      matches := before + [Match(id, start, end, cell.value)];
    }
  }

  /** Enumerates the substrings starting at `start`: the two buffers are refilled
      and swapped at every end. */
  method EnumerateFrom(
    query: seq<Symbol>, text: seq<Symbol>, ghost corpus: seq<seq<Symbol>>, id: nat, start: nat,
    bound: StrictBound, p: Policy<Symbol>, before: seq<Match>, first: array<Distance>, second: array<Distance>)
    returns (matches: seq<Match>)
    requires id < |corpus| && corpus[id] == text && start < |text| && bound.limit <= p.max
    requires Enumerated(p, query, corpus, bound, id, before, start, start)
    requires first != second && first.Length == second.Length == |query| + 1
    modifies first, second
    ensures Enumerated(p, query, corpus, bound, id, matches, start, |text|)
  {
    hide Enumerated, IsColumn, Wed, Capped;
    matches := before;
    var previous, current := first, second;
    RefillRoot(query, previous, p);
    assert text[start..start] == [];
    for end := start to |text|
      invariant {previous, current} == {first, second} && previous != current
      invariant IsColumn(p, query, text[start..end], previous[..])
      invariant Enumerated(p, query, corpus, bound, id, matches, start, end)
    {
      ColumnPast(query, text, start, end, previous, current, p);
      matches := PushMatch(query, corpus, id, start, end + 1, current[|query|], bound, p, matches);
      previous, current := current, previous;
    }
  }

  method ColumnPast(
    query: seq<Symbol>, text: seq<Symbol>, ghost start: nat, end: nat, previous: array<Distance>,
    current: array<Distance>, p: Policy<Symbol>)
    requires start <= end < |text| && previous != current && current.Length == |query| + 1
    requires IsColumn(p, query, text[start..end], previous[..])
    modifies current
    ensures IsColumn(p, query, text[start..end + 1], current[..])
    ensures current[|query|] == Capped(p.max, Wed(p, query, text[start..end + 1]))
  {
    hide IsColumn, Wed, Capped;
    NextColumn(query, text[end], previous, current, p, text[start..end]);
    assert text[start..end + 1] == text[start..end] + [text[end]];
    LastCell(p, query, text[start..end + 1], current[..]);
  }

  /** Every non-empty substring the bound admits, by start and then end. The two
      buffers serve every start. */
  method EnumerateSubstringMatches(
    query: seq<Symbol>, text: seq<Symbol>, ghost corpus: seq<seq<Symbol>>, id: nat, bound: StrictBound,
    p: Policy<Symbol>)
    returns (matches: seq<Match>)
    requires id < |corpus| && corpus[id] == text && bound.limit <= p.max
    ensures StrictlyOrdered(matches)
    ensures forall m: Match :: m in matches <==> IsAnswer(p, query, corpus, bound, m) && m.sequenceId == id
  {
    var previous := new Distance[|query| + 1];
    var current := new Distance[|query| + 1];
    matches := [];
    for start := 0 to |text|
      invariant Enumerated(p, query, corpus, bound, id, matches, start, start)
    {
      matches := EnumerateFrom(query, text, corpus, id, start, bound, p, matches, previous, current);
      assert Enumerated(p, query, corpus, bound, id, matches, start + 1, start + 1);
    }
  }

  lemma ConcatenatedInOrder(a: seq<Match>, b: seq<Match>)
    requires StrictlyOrdered(a) && StrictlyOrdered(b)
    requires forall x, y :: x in a && y in b ==> x.sequenceId < y.sequenceId
    ensures StrictlyOrdered(a + b)
  {
    assert forall i :: 0 <= i < |a| ==> a[i] in a;
    assert forall j :: 0 <= j < |b| ==> b[j] in b;
  }

  /** The matches are exactly the answers in these strings. */
  ghost predicate AnswersOf(
    p: Policy<Symbol>, query: seq<Symbol>, corpus: seq<seq<Symbol>>, bound: StrictBound, ids: seq<nat>,
    matches: seq<Match>)
  {
    && StrictlyOrdered(matches)
    && forall m: Match :: m in matches <==> IsAnswer(p, query, corpus, bound, m) && m.sequenceId in ids
  }

  lemma OneMoreString(
    p: Policy<Symbol>, query: seq<Symbol>, corpus: seq<seq<Symbol>>, bound: StrictBound, ids: seq<nat>,
    matches: seq<Match>, id: nat, more: seq<Match>)
    requires AnswersOf(p, query, corpus, bound, ids, matches) && AnswersOf(p, query, corpus, bound, [id], more)
    requires forall j :: j in ids ==> j < id
    ensures AnswersOf(p, query, corpus, bound, ids + [id], matches + more)
  {
    hide IsAnswer;
    ConcatenatedInOrder(matches, more);
  }

  lemma SelectedStringIsKnown(query: seq<Symbol>, candidates: seq<Candidate>, store: CorpusStore, id: nat)
    requires store.WellFormed() && AllValid(query, candidates, store)
    requires exists c :: c in candidates && c.stringId == id
    ensures id < |store.Corpus()| && store.String(id) == Ok(Some(store.Corpus()[id]))
  {
    var c :| c in candidates && c.stringId == id;
    assert ValidatedCandidateString(query, c, store).Ok?;
  }

  /** Enumerates the selected strings in identifier order. */
  method EnumerateStrings(
    query: seq<Symbol>, ids: seq<nat>, store: CorpusStore, bound: StrictBound, p: Policy<Symbol>)
    returns (matches: seq<Match>)
    requires store.WellFormed() && bound.limit <= p.max && Ascending(NatLeq, ids)
    requires forall id :: id in ids ==> id < |store.Corpus()| && store.String(id) == Ok(Some(store.Corpus()[id]))
    ensures AnswersOf(p, query, store.Corpus(), bound, ids, matches)
  {
    matches := [];
    hide IsAnswer;
    for k := 0 to |ids|
      invariant AnswersOf(p, query, store.Corpus(), bound, ids[..k], matches)
    {
      assert ids[k] in ids;
      var text := store.String(ids[k]).value.value;
      var more := EnumerateSubstringMatches(query, text, store.Corpus(), ids[k], bound, p);
      OneMoreString(p, query, store.Corpus(), bound, ids[..k], matches, ids[k], more);
      assert ids[..k + 1] == ids[..k] + [ids[k]];
      matches := matches + more;
    }
    assert ids[..|ids|] == ids;
  }

  /** Candidates only select data strings; every substring of a selected string
      is measured over all alignments. */
  method Verify(
    query: seq<Symbol>, candidates: seq<Candidate>, store: CorpusStore, bound: StrictBound, p: Policy<Symbol>)
    returns (r: Result<seq<Match>>)
    requires store.WellFormed() && bound.limit <= p.max
    ensures r.Ok? <==> AllValid(query, candidates, store)
    ensures r.Err? ==> FirstInvalid(query, candidates, store, r.error)
    ensures r.Ok? ==> StrictlyOrdered(r.value)
    ensures r.Ok? ==> forall m: Match :: m in r.value <==>
      IsAnswer(p, query, store.Corpus(), bound, m) && exists c :: c in candidates && c.stringId == m.sequenceId
  {
    var validated := ValidateCandidates(query, candidates, store);
    if validated.Err? {
      return Err(validated.error);
    }
    hide IsAnswer, ValidatedCandidateString;
    var stringIds := set c | c in candidates :: c.stringId;
    var ids := InOrder(NatLeq, stringIds);
    forall id | id in ids
      ensures id < |store.Corpus()| && store.String(id) == Ok(Some(store.Corpus()[id]))
    {
      SelectedStringIsKnown(query, candidates, store, id);
    }
    var matches := EnumerateStrings(query, ids, store, bound, p);
    return Ok(matches);
  }
}
