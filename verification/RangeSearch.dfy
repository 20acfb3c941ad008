/** Fixed-threshold range search: filter, then verify. */
module RangeSearch {
  import opened Wrappers
  import opened Types
  import opened Costs
  import opened EditScripts
  import opened Store
  import opened Postings
  import opened Selection
  import opened AnchoredVerification
  import opened Agreement
  import opened Filtering
  import opened Eta
  import opened Encoding
  import opened Engine
  import V = Vocabulary

  datatype RangeSearchParams = RangeSearchParams(threshold: RawCost, maxCandidates: Option<nat>)

  datatype RangeSearchMetrics = RangeSearchMetrics(
    adjustedEta: Option<nat>, selectedQueryPositions: nat, generatedCandidates: nat)

  /** The threshold shared out over the query positions. A whole number of quanta is
      within the real quotient exactly when it is within the rounded-down one. */
  ghost predicate IsShare(threshold: nat, queryLen: nat, radius: nat) {
    if queryLen == 0 then radius == 0 else radius * queryLen <= threshold < (radius + 1) * queryLen
  }

  /** The starting radius. */
  function AutomaticEta(threshold: nat, queryLen: nat): nat {
    if queryLen == 0 then 0 else threshold / queryLen
  }

  lemma StartingRadiusIsShare(threshold: nat, queryLen: nat)
    ensures IsShare(threshold, queryLen, AutomaticEta(threshold, queryLen))
  {
    if queryLen != 0 {
      assert threshold == threshold / queryLen * queryLen + threshold % queryLen;
    }
  }

  // ----- Selecting positions, widening the radius -----

  /** The radius a search settles on: the starting one, or the least wider one
      at which the contributions leave the bound. */
  ghost predicate IsLeastRadius(
    p: Policy<Symbol>, alphabet: seq<Symbol>, query: seq<Symbol>, bound: StrictBound, eta: nat, radius: nat)
  {
    IsLeastFrom(Leaving(p, alphabet, query, bound), eta, radius)
  }

  ghost predicate NoRadius(p: Policy<Symbol>, alphabet: seq<Symbol>, query: seq<Symbol>, bound: StrictBound, eta: nat) {
    NoneFrom(Leaving(p, alphabet, query, bound), eta)
  }

  /** Selects at the starting radius, or else at the least wider one that can. */
  method SelectPositions<T>(
    engine: SearchEngine<T>, query: seq<Symbol>, bound: StrictBound, eta: nat, p: Policy<Symbol>)
    returns (r: Result<(seq<SelectedPosition>, Option<nat>)>)
    requires engine.index.WellFormed() && |engine.index.postings| <= USIZE_MAX
    requires engine.neighborhood.alphabet == engine.index.Alphabet()
    ensures r.Ok? ==>
      var (selected, adjusted) := r.value;
      var radius := if adjusted.Some? then adjusted.value else eta;
      && (adjusted.Some? ==> eta < radius)
      && IsLeastRadius(p, engine.neighborhood.alphabet, query, bound, eta, radius)
      && IsSelection(p, engine.neighborhood.alphabet, engine.index, query, bound, radius, selected)
    ensures r.Err? ==>
      || (r.error == ThresholdSubsequenceUnavailable && NoRadius(p, engine.neighborhood.alphabet, query, bound, eta))
      || (r.error == PositionOverflow && U32_MAX + 1 < |query|)
  {
    hide Leaves, IsSelection, WiderRadii, Widens;
    ghost var alphabet := engine.neighborhood.alphabet;
    ghost var leaves := Leaving(p, alphabet, query, bound);
    LeavingWidens(p, alphabet, query, bound);
    var first := SelectAt(engine, query, bound, eta, p);
    if first.Ok? {
      return Ok((first.value, None));
    } else if first.error != ThresholdSubsequenceUnavailable {
      return Err(first.error);
    }
    var radii := WiderRadii(p, engine.neighborhood.alphabet, query, eta);
    var narrowest: Option<(seq<SelectedPosition>, Option<nat>)> := None;
    var low, high := 0, |radii|;
    while low < high
      invariant 0 <= low <= high && Narrowed(leaves, radii, low, high)
      invariant high == |radii| ==> narrowest == None
      invariant high < |radii| ==>
        && narrowest.Some? && narrowest.value.1 == Some(radii[high])
        && IsSelection(p, alphabet, engine.index, query, bound, radii[high], narrowest.value.0)
      decreases high - low
    {
      var middle := low + (high - low) / 2;
      NarrowDown(p, alphabet, query, leaves, eta, low, middle, high);
      var attempt := SelectAt(engine, query, bound, radii[middle], p);
      if attempt.Ok? {
        narrowest := Some((attempt.value, Some(radii[middle])));
        high := middle;
      } else if attempt.error == ThresholdSubsequenceUnavailable {
        low := middle + 1;
      } else {
        return Err(attempt.error);
      }
    }
    NarrowedIsLeast(p, alphabet, query, leaves, eta, low);
    return if narrowest.Some? then Ok(narrowest.value) else Err(ThresholdSubsequenceUnavailable);
  }

  /** Selection at one radius succeeds exactly when the contributions leave the
      bound, whatever the order they are reached in. */
  method SelectAt<T>(engine: SearchEngine<T>, query: seq<Symbol>, bound: StrictBound, eta: nat, p: Policy<Symbol>)
    returns (r: Result<seq<SelectedPosition>>)
    requires engine.index.WellFormed() && |engine.index.postings| <= USIZE_MAX
    requires engine.neighborhood.alphabet == engine.index.Alphabet()
    ensures r.Ok? ==>
      && Leaves(p, engine.neighborhood.alphabet, query, bound, eta)
      && IsSelection(p, engine.neighborhood.alphabet, engine.index, query, bound, eta, r.value)
    ensures r.Err? ==>
      || (r.error == ThresholdSubsequenceUnavailable && !Leaves(p, engine.neighborhood.alphabet, query, bound, eta))
      || (r.error == PositionOverflow && U32_MAX + 1 < |query|)
  {
    CanSelectIffContributionsLeave(p, engine.index, query, bound, eta);
    r := Select(query, bound, eta, engine.index, p, engine.neighborhood);
  }

  // ----- Symbol-level search -----

  /** A generated candidate lies within the query. */
  lemma CandidatesLieInQuery(
    p: Policy<Symbol>, alphabet: seq<Symbol>, index: PostingsIndex, query: seq<Symbol>, eta: nat,
    selected: seq<SelectedPosition>, c: Candidate)
    requires index.WellFormed() && Scored(p, alphabet, query, eta, selected)
    requires c in Candidates(index, selected)
    ensures c.queryPosition < |query|
  {
    hide Candidates;
    var k, x := CandidateSource(index, selected, c);
  }

  /** A generated candidate is a place of the corpus and of the query. */
  lemma CandidatesFit<T>(
    engine: SearchEngine<T>, sequences: seq<seq<T>>, p: Policy<Symbol>, query: seq<Symbol>, eta: nat,
    selected: seq<SelectedPosition>, c: Candidate)
    requires engine.Represents(sequences) && Scored(p, engine.index.Alphabet(), query, eta, selected)
    requires c in Candidates(engine.index, selected)
    ensures Fits(query, engine.store.Corpus(), c)
  {
    hide Candidates, Occurs;
    var k, x := CandidateSource(engine.index, selected, c);
    assert x < engine.vocabulary.Len() by {
      AlphabetOccurs(engine.index, engine.store.Corpus(), engine.vocabulary.Len());
      assert x in engine.index.Alphabet();
    }
    assert Occurs(engine.store.Corpus(), x, Posting(c.stringId, c.stringPosition));
    OccursSomewhereFits(engine.store.Corpus(), x, c);
  }

  lemma OccursSomewhereFits(corpus: seq<seq<Symbol>>, x: Symbol, c: Candidate)
    requires Occurs(corpus, x, Posting(c.stringId, c.stringPosition))
    ensures c.stringId < |corpus| && c.stringPosition < |corpus[c.stringId]|
  {
  }

  /** So no candidate is ever reported as invalid, on a built or an opened store. */
  lemma CandidatesValidate<T>(
    engine: SearchEngine<T>, sequences: seq<seq<T>>, p: Policy<Symbol>, query: seq<Symbol>, eta: nat,
    selected: seq<SelectedPosition>, c: Candidate)
    requires engine.Represents(sequences) && Scored(p, engine.index.Alphabet(), query, eta, selected)
    requires c in Candidates(engine.index, selected)
    ensures ValidatedCandidateString(query, c, engine.store).Ok?
  {
    hide Candidates, Scored, OffsetsFit, V.Numbers, EncodesAll, Occurs;
    CandidatesFit(engine, sequences, p, query, eta, selected, c);
    EncodedSymbolsAreKnown(engine.vocabulary, engine.store.Corpus(), sequences);
    var text := engine.store.Corpus()[c.stringId];
    assert engine.store.StringWithoutSymbolValidation(c.stringId) == Some(text);
    forall symbol | symbol in text
      ensures symbol != UNKNOWN && symbol < engine.store.symbolCount
    {
      var i :| 0 <= i < |text| && text[i] == symbol;
    }
  }

  /** What verification reports on the generated candidates is the exact answer. */
  lemma VerifiedIsExact<T>(
    engine: SearchEngine<T>, sequences: seq<seq<T>>, p: Policy<Symbol>, query: seq<Symbol>, bound: StrictBound,
    eta: nat, selected: seq<SelectedPosition>, m: Match)
    requires engine.Represents(sequences)
    requires IsSelection(p, engine.index.Alphabet(), engine.index, query, bound, eta, selected)
    ensures m.distance < bound.limit
            && IsAnchoredAnswer(p, query, engine.store.Corpus(), Candidates(engine.index, selected),
                                (m.sequenceId, m.start, m.end), m.distance)
            <==> IsAnswer(p, query, engine.store.Corpus(), bound, m)
  {
    hide IsSelection, IsAnswer, IsAnchoredAnswer, Candidates, Wed, EncodesAll;
    var corpus, key := engine.store.Corpus(), (m.sequenceId, m.start, m.end);
    AnswersLieInCorpus(p, query, corpus, Candidates(engine.index, selected), bound, m);
    if key.0 < |corpus| && key.1 < key.2 <= |corpus[key.0]| && m.distance < bound.limit {
      EncodedSymbolsAreKnown(engine.vocabulary, corpus, sequences);
      AnswerIsWed(p, query, corpus, bound, m);
      AnsweredIffWithinBound(
        p, query, corpus, engine.vocabulary.Len(), engine.index, bound, eta, selected, key, m.distance);
    }
  }

  lemma AnswersLieInCorpus(
    p: Policy<Symbol>, query: seq<Symbol>, corpus: seq<seq<Symbol>>, candidates: seq<Candidate>, bound: StrictBound,
    m: Match)
    ensures IsAnswer(p, query, corpus, bound, m)
            || IsAnchoredAnswer(p, query, corpus, candidates, (m.sequenceId, m.start, m.end), m.distance) ==>
            m.sequenceId < |corpus| && m.start < m.end <= |corpus[m.sequenceId]|
    ensures IsAnswer(p, query, corpus, bound, m) ==> m.distance < bound.limit
  {
  }

  /** The state of a search once positions are selected. */
  ghost predicate Selected<T>(
    engine: SearchEngine<T>, p: Policy<Symbol>, query: seq<Symbol>, bound: StrictBound, eta: nat,
    adjusted: Option<nat>, selected: seq<SelectedPosition>)
    requires engine.index.WellFormed()
  {
    var radius := if adjusted.Some? then adjusted.value else eta;
    && (adjusted.Some? ==> eta < radius)
    && IsLeastRadius(p, engine.neighborhood.alphabet, query, bound, eta, radius)
    && IsSelection(p, engine.neighborhood.alphabet, engine.index, query, bound, radius, selected)
  }

  /** No limit, or no more candidates than it allows. */
  ghost predicate WithinLimit(maxCandidates: Option<nat>, candidates: nat) {
    maxCandidates.Some? ==> Saturated(candidates) <= maxCandidates.value
  }

  /** The errors a file whose postings do not invert its corpus can bring about. */
  predicate Unreadable(error: Error) {
    error.UnknownString? || error.InvalidStringPosition? || error.UnknownStringSymbol?
  }

  /** The matches are the admitted anchored answers of valid candidates. */
  ghost predicate Verified<T>(
    engine: SearchEngine<T>, p: Policy<Symbol>, query: seq<Symbol>, bound: StrictBound,
    selected: seq<SelectedPosition>, matches: seq<Match>)
    requires engine.StructureFits()
  {
    && AllValid(query, Candidates(engine.index, selected), engine.store)
    && Reports(p, query, engine.store.Corpus(), Candidates(engine.index, selected), bound, matches)
  }

  /** Some candidate is invalid, and the error is the first one's. */
  ghost predicate Refused<T>(
    engine: SearchEngine<T>, query: seq<Symbol>, selected: seq<SelectedPosition>, error: Error)
    requires engine.StructureFits()
  {
    && !AllValid(query, Candidates(engine.index, selected), engine.store)
    && FirstInvalid(query, Candidates(engine.index, selected), engine.store, error)
    && Unreadable(error)
  }

  lemma InvalidIsUnreadable<T>(
    engine: SearchEngine<T>, p: Policy<Symbol>, alphabet: seq<Symbol>, query: seq<Symbol>, eta: nat,
    selected: seq<SelectedPosition>, error: Error)
    requires engine.StructureFits() && Scored(p, alphabet, query, eta, selected)
    requires FirstInvalid(query, Candidates(engine.index, selected), engine.store, error)
    ensures Unreadable(error)
  {
    hide Candidates, Scored, OffsetsFit;
    var candidates := Candidates(engine.index, selected);
    var k :| 0 <= k < |candidates| && ValidatedCandidateString(query, candidates[k], engine.store) == Err(error);
    CandidatesLieInQuery(p, alphabet, engine.index, query, eta, selected, candidates[k]);
  }

  /** Where the index inverts the corpus, every candidate is valid and the matches
      are the exact answers. */
  lemma RepresentedIsExact<T>(
    engine: SearchEngine<T>, sequences: seq<seq<T>>, p: Policy<Symbol>, query: seq<Symbol>, bound: StrictBound,
    eta: nat, selected: seq<SelectedPosition>)
    requires engine.Represents(sequences)
    requires IsSelection(p, engine.index.Alphabet(), engine.index, query, bound, eta, selected)
    ensures AllValid(query, Candidates(engine.index, selected), engine.store)
    ensures forall matches, m: Match :: Verified(engine, p, query, bound, selected, matches) ==>
      (m in matches <==> IsAnswer(p, query, engine.store.Corpus(), bound, m))
  {
    hide IsAnswer, IsAnchoredAnswer, Candidates, Wed, IsSubstitutionCost;
    forall c | c in Candidates(engine.index, selected)
      ensures ValidatedCandidateString(query, c, engine.store).Ok?
    {
      CandidatesValidate(engine, sequences, p, query, eta, selected, c);
    }
    forall matches, m: Match | Verified(engine, p, query, bound, selected, matches)
      ensures m in matches <==> IsAnswer(p, query, engine.store.Corpus(), bound, m)
    {
      VerifiedIsExact(engine, sequences, p, query, bound, eta, selected, m);
      var key: Key := (m.sequenceId, m.start, m.end);
      assert m == Match(key.0, key.1, key.2, m.distance);
    }
  }

  lemma SelectionIsScored(
    p: Policy<Symbol>, alphabet: seq<Symbol>, index: PostingsIndex, query: seq<Symbol>, bound: StrictBound, eta: nat,
    selected: seq<SelectedPosition>)
    requires index.WellFormed() && IsSelection(p, alphabet, index, query, bound, eta, selected)
    ensures Scored(p, alphabet, query, eta, selected)
  {
  }

  /** Verifies the candidates of a selection. */
  method VerifySelected<T>(
    engine: SearchEngine<T>, query: seq<Symbol>, bound: StrictBound, ghost eta: nat, p: Policy<Symbol>,
    selected: seq<SelectedPosition>)
    returns (r: Result<(seq<Match>, nat)>)
    requires Searchable(engine) && bound.limit <= p.max
    requires Scored(p, engine.neighborhood.alphabet, query, eta, selected)
    ensures r.Ok? ==> StrictlyOrdered(r.value.0) && Verified(engine, p, query, bound, selected, r.value.0)
    ensures r.Ok? ==> r.value.1 == |Candidates(engine.index, selected)|
    ensures r.Err? ==> Refused(engine, query, selected, r.error)
  {
    hide AllValid, FirstInvalid, Reports, Scored, Candidates, Unreadable, StrictlyOrdered;
    var candidates := GenerateCandidates(selected, engine.index);
    var verified := AnchoredVerification.Verify(query, candidates, engine.store, bound, p);
    if verified.Err? {
      InvalidIsUnreadable(engine, p, engine.neighborhood.alphabet, query, eta, selected, verified.error);
      return Err(verified.error);
    }
    return Ok((verified.value, |candidates|));
  }

  /** The sequences are in the engine, and its index inverts them. */
  ghost predicate Represented<T(!new)>(engine: SearchEngine<T>) {
    exists sequences: seq<seq<T>> :: engine.Represents(sequences)
  }

  /** Searches for an encoded query. On an engine opened from a file, postings that
      name no place of the corpus, or a string with an unknown symbol, end the
      search before anything is measured; otherwise the matches are the answers
      the postings lead to, and exact once the index inverts the corpus. */
  method SearchQueryString<T(!new)>(
    engine: SearchEngine<T>, query: seq<Symbol>, bound: StrictBound, eta: nat, maxCandidates: Option<nat>,
    p: Policy<Symbol>)
    returns (r: Result<(seq<Match>, RangeSearchMetrics)>, ghost selected: seq<SelectedPosition>)
    requires Searchable(engine) && |engine.index.postings| <= USIZE_MAX && bound.limit <= p.max
    ensures r.Ok? ==> StrictlyOrdered(r.value.0) && Verified(engine, p, query, bound, selected, r.value.0)
    ensures Represented(engine) && r.Ok? ==>
      forall m: Match :: m in r.value.0 <==> IsAnswer(p, query, engine.store.Corpus(), bound, m)
    ensures r.Ok? ==> Selected(engine, p, query, bound, eta, r.value.1.adjustedEta, selected)
    ensures r.Ok? ==> r.value.1.selectedQueryPositions == |selected|
    ensures r.Ok? ==> r.value.1.generatedCandidates == |Candidates(engine.index, selected)|
    ensures r.Ok? ==> bound.limit <= TotalDeletion(p, query)
    ensures r == Err(ThresholdSubsequenceUnavailable) <==> TotalDeletion(p, query) < bound.limit
    ensures r.Err? && r.error.SearchTooExpensive? ==>
      && maxCandidates == Some(r.error.limit) && r.error.limit < r.error.candidates
      && (exists adjusted :: Selected(engine, p, query, bound, eta, adjusted, selected))
      && r.error.candidates == Saturated(|Candidates(engine.index, selected)|)
    ensures r.Ok? || Unreadable(r.error) ==> WithinLimit(maxCandidates, |Candidates(engine.index, selected)|)
    ensures r.Err? && Unreadable(r.error) ==>
      && (exists adjusted :: Selected(engine, p, query, bound, eta, adjusted, selected))
      && Refused(engine, query, selected, r.error) && !Represented(engine)
    ensures r.Err? ==>
      || r.error == ThresholdSubsequenceUnavailable || r.error.SearchTooExpensive? || Unreadable(r.error)
      || (r.error == PositionOverflow && U32_MAX + 1 < |query|)
  {
    hide Leaves, IsSelection, Candidates, TotalDeletion, Saturated, Verified, AllValid, FirstInvalid, IsAnswer, Scored;
    hide OffsetsFit, V.Numbers, NoneFrom, IsLeastFrom, StrictlyOrdered;
    selected := [];
    SomeRadiusLeavesIff(p, engine.neighborhood.alphabet, query, bound, eta);
    if !AnyRadiusCanSelect(query, bound, p) {
      return Err(ThresholdSubsequenceUnavailable), selected;
    }
    var positions := SelectPositions(engine, query, bound, eta, p);
    if positions.Err? {
      return Err(positions.error), selected;
    }
    var chosen := positions.value.0;
    selected := chosen;
    assert Selected(engine, p, query, bound, eta, positions.value.1, chosen);
    if maxCandidates.Some? {
      var candidates := CountCandidates(chosen, engine.index);
      if candidates > maxCandidates.value {
        return Err(SearchTooExpensive(candidates, maxCandidates.value)), selected;
      }
    }
    ghost var radius := if positions.value.1.Some? then positions.value.1.value else eta;
    SelectionIsScored(p, engine.neighborhood.alphabet, engine.index, query, bound, radius, chosen);
    var verified := VerifySelected(engine, query, bound, radius, p, chosen);
    if Represented(engine) {
      ghost var sequences: seq<seq<T>> :| engine.Represents(sequences);
      RepresentedIsExact(engine, sequences, p, query, bound, radius, chosen);
    }
    if verified.Err? {
      return Err(verified.error), selected;
    }
    return Ok((verified.value.0, RangeSearchMetrics(positions.value.1, |chosen|, verified.value.1))), selected;
  }

  // ----- Token-level search -----

  /** A non-empty segment of a data sequence whose least edit-script cost from
      the query is at most the threshold, with exactly that cost. */
  ghost predicate IsResult<T(!new)>(
    costs: Policy<T>, query: seq<T>, sequences: seq<seq<T>>, threshold: nat, m: Match)
  {
    && m.sequenceId < |sequences| && m.start < m.end <= |sequences[m.sequenceId]|
    && m.distance <= threshold
    && IsDistance(costs, query, sequences[m.sequenceId][m.start..m.end], m.distance)
  }

  lemma SegmentDecodes<T>(
    engine: SearchEngine<T>, sequences: seq<seq<T>>, unknownTokens: seq<T>, id: nat, start: nat, end: nat)
    requires engine.Represents(sequences)
    requires id < |sequences| && start <= end <= |sequences[id]|
    ensures |engine.store.Corpus()| == |sequences| && |engine.store.Corpus()[id]| == |sequences[id]|
    ensures Decodes(engine.vocabulary, unknownTokens, engine.store.Corpus()[id][start..end], sequences[id][start..end])
  {
    EncodedSymbolsAreKnown(engine.vocabulary, engine.store.Corpus(), sequences);
  }

  lemma SymbolAnswerIsResult<T(!new)>(
    engine: SearchEngine<T>, sequences: seq<seq<T>>, costs: Policy<T>, query: seq<T>, encoded: EncodedQuery<T>,
    threshold: nat, m: Match)
    requires engine.Represents(sequences)
    requires Decodes(engine.vocabulary, encoded.unknownTokens, encoded.text, query)
    ensures IsAnswer(EncodedCosts(costs, engine.vocabulary, encoded.unknownTokens), encoded.text,
                     engine.store.Corpus(), StrictBound(threshold + 1), m)
            <==> IsResult(costs, query, sequences, threshold, m)
  {
    hide IsDistance;
    if m.sequenceId < |sequences| && m.start < m.end <= |sequences[m.sequenceId]| {
      SegmentDecodes(engine, sequences, encoded.unknownTokens, m.sequenceId, m.start, m.end);
      EncodingPreservesDistance(
        costs, engine.vocabulary, encoded.unknownTokens, encoded.text,
        engine.store.Corpus()[m.sequenceId][m.start..m.end], query, sequences[m.sequenceId][m.start..m.end],
        m.distance);
    }
  }

  /** What any match is, whatever file the engine was opened from: a segment of a
      stored string that spells vocabulary tokens, with the cost of an edit script
      from the query to those tokens. So it is never below their distance, and
      within the threshold. */
  ghost predicate IsAlignment<T(!new)>(
    engine: SearchEngine<T>, costs: Policy<T>, query: seq<T>, threshold: nat, m: Match)
    requires engine.StructureFits()
  {
    var corpus := engine.store.Corpus();
    && m.sequenceId < |corpus| && m.start < m.end <= |corpus[m.sequenceId]| && m.distance <= threshold
    && exists tokens: seq<T>, s: Script<T> ::
         && Decodes(engine.vocabulary, [], corpus[m.sequenceId][m.start..m.end], tokens)
         && Aligns(s, query, tokens) && Wed(costs, query, tokens) <= Cost(costs, s) == m.distance
  }

  /** The tokens known symbols spell, during any search. */
  lemma KnownSymbolsDecode<T>(v: V.Vocabulary<T>, unknownTokens: seq<T>, text: seq<Symbol>) returns (tokens: seq<T>)
    requires v.Valid() && forall symbol :: symbol in text ==> symbol < v.Len()
    ensures Decodes(v, [], text, tokens) && Decodes(v, unknownTokens, text, tokens)
  {
    assert forall i :: 0 <= i < |text| ==> text[i] in text;
    tokens := seq(|text|, i requires 0 <= i < |text| => v.tokens[text[i]]);
  }

  /** A verified candidate's string consists of vocabulary symbols. */
  lemma CandidateStringIsKnown<T>(engine: SearchEngine<T>, query: seq<Symbol>, c: Candidate)
    requires Searchable(engine) && ValidatedCandidateString(query, c, engine.store).Ok?
    ensures c.stringId < |engine.store.Corpus()|
    ensures forall symbol :: symbol in engine.store.Corpus()[c.stringId] ==> symbol < engine.vocabulary.Len()
  {
    AccessedStringIsKnown(engine, c.stringId);
  }

  /** Every symbol a search asks the price of stands for a token: those of the
      query, those selection substitutes by, and those of the strings it verifies. */
  lemma OnlyTokensArePriced<T>(engine: SearchEngine<T>, query: seq<T>, encoded: EncodedQuery<T>)
    requires Searchable(engine) && Decodes(engine.vocabulary, encoded.unknownTokens, encoded.text, query)
    ensures forall symbol :: symbol in encoded.text || symbol in engine.neighborhood.alphabet ==>
      TokenOf(engine.vocabulary, encoded.unknownTokens, symbol).Some?
    ensures forall c, symbol ::
      ValidatedCandidateString(encoded.text, c, engine.store).Ok?
      && symbol in ValidatedCandidateString(encoded.text, c, engine.store).value ==>
        TokenOf(engine.vocabulary, encoded.unknownTokens, symbol).Some?
  {
    AlphabetIsKnown(engine);
    forall c | ValidatedCandidateString(encoded.text, c, engine.store).Ok?
      ensures forall symbol :: symbol in ValidatedCandidateString(encoded.text, c, engine.store).value ==>
        symbol < engine.vocabulary.Len()
    {
      CandidateStringIsKnown(engine, encoded.text, c);
    }
  }

  /** A verified match comes from a script through a valid candidate. */
  lemma VerifiedScript<T>(
    engine: SearchEngine<T>, p: Policy<Symbol>, query: seq<Symbol>, bound: StrictBound,
    selected: seq<SelectedPosition>, matches: seq<Match>, m: Match)
    returns (s: Script<Symbol>, c: Candidate)
    requires engine.StructureFits() && Verified(engine, p, query, bound, selected, matches) && m in matches
    ensures var corpus := engine.store.Corpus();
            && c.stringId == m.sequenceId < |corpus| && m.start < m.end <= |corpus[m.sequenceId]|
            && Aligns(s, query, corpus[m.sequenceId][m.start..m.end]) && Cost(p, s) == m.distance < bound.limit
    ensures ValidatedCandidateString(query, c, engine.store).Ok?
  {
    hide Candidates, Aligns, Cost, Pairs, ValidatedCandidateString, OffsetsFit;
    var corpus, key := engine.store.Corpus(), (m.sequenceId, m.start, m.end);
    var candidates := Candidates(engine.index, selected);
    assert m == Match(key.0, key.1, key.2, m.distance);
    s :| Aligns(s, query, corpus[key.0][key.1..key.2]) && UsesCandidate(query, corpus, candidates, key, s)
         && Cost(p, s) == m.distance;
    c :| c in candidates && Covers(query, corpus, c, key);
  }

  /** Every verified match measures tokens. */
  lemma VerifiedIsAlignment<T(!new)>(
    engine: SearchEngine<T>, costs: Policy<T>, query: seq<T>, encoded: EncodedQuery<T>, threshold: nat,
    selected: seq<SelectedPosition>, matches: seq<Match>, m: Match)
    requires Searchable(engine) && Decodes(engine.vocabulary, encoded.unknownTokens, encoded.text, query)
    requires Verified(engine, EncodedCosts(costs, engine.vocabulary, encoded.unknownTokens), encoded.text,
                      StrictBound(threshold + 1), selected, matches)
    requires m in matches
    ensures IsAlignment(engine, costs, query, threshold, m)
  {
    hide Aligns, Cost, EncodedCosts, ValidatedCandidateString, Decodes, Verified, IsAlignment, OffsetsFit, V.Numbers;
    var p := EncodedCosts(costs, engine.vocabulary, encoded.unknownTokens);
    var s, c := VerifiedScript(engine, p, encoded.text, StrictBound(threshold + 1), selected, matches, m);
    CandidateStringIsKnown(engine, encoded.text, c);
    ScriptOverTokens(engine, costs, query, encoded, threshold, m, s);
  }

  lemma ScriptOverTokens<T(!new)>(
    engine: SearchEngine<T>, costs: Policy<T>, query: seq<T>, encoded: EncodedQuery<T>, threshold: nat, m: Match,
    s: Script<Symbol>)
    requires engine.StructureFits() && engine.vocabulary.Valid()
    requires Decodes(engine.vocabulary, encoded.unknownTokens, encoded.text, query)
    requires m.sequenceId < |engine.store.Corpus()| && m.start < m.end <= |engine.store.Corpus()[m.sequenceId]|
    requires forall symbol :: symbol in engine.store.Corpus()[m.sequenceId] ==> symbol < engine.vocabulary.Len()
    requires Aligns(s, encoded.text, engine.store.Corpus()[m.sequenceId][m.start..m.end])
    requires Cost(EncodedCosts(costs, engine.vocabulary, encoded.unknownTokens), s) == m.distance <= threshold
    ensures IsAlignment(engine, costs, query, threshold, m)
  {
    hide Source, Target, Cost, Wed, EncodedCosts, Decodes, OffsetsFit, V.Numbers;
    var segment := engine.store.Corpus()[m.sequenceId][m.start..m.end];
    assert forall symbol :: symbol in segment ==> symbol in engine.store.Corpus()[m.sequenceId];
    var tokens := KnownSymbolsDecode(engine.vocabulary, encoded.unknownTokens, segment);
    var decoded := DecodedScript(costs, engine.vocabulary, encoded.unknownTokens, s, query, tokens);
    NoScriptIsCheaper(costs, decoded);
  }

  lemma {:induction false} EncodingPreservesDeletion<T>(
    p: Policy<T>, v: V.Vocabulary<T>, unknownTokens: seq<T>, text: seq<Symbol>, query: seq<T>)
    requires Decodes(v, unknownTokens, text, query)
    ensures TotalDeletion(EncodedCosts(p, v, unknownTokens), text) == TotalDeletion(p, query)
    decreases |text|
  {
    if text != [] {
      EncodingPreservesDeletion(p, v, unknownTokens, text[..|text| - 1], query[..|query| - 1]);
    }
  }

  /** The threshold is a cost with a representable successor. */
  predicate ValidThreshold(max: nat, threshold: RawCost) {
    threshold.Number? && 0 <= threshold.quanta < max
  }

  /** The query's tokens fit the symbol range. */
  ghost predicate Encodable<T>(v: V.Vocabulary<T>, query: seq<T>) {
    v.Len() + |UnknownIn(v, query)| <= UNKNOWN
  }

  /** The encoded query decodes to the query, and the selection is the one made
      for it at the radius the search settled on, from the query's share of the
      threshold upwards. */
  ghost predicate Settled<T>(
    engine: SearchEngine<T>, costs: Policy<T>, query: seq<T>, threshold: nat, encoded: EncodedQuery<T>,
    adjusted: Option<nat>, selected: seq<SelectedPosition>)
    requires engine.index.WellFormed()
  {
    && Decodes(engine.vocabulary, encoded.unknownTokens, encoded.text, query)
    && exists eta: nat ::
         && IsShare(threshold, |query|, eta)
         && Selected(engine, EncodedCosts(costs, engine.vocabulary, encoded.unknownTokens), encoded.text,
                     StrictBound(threshold + 1), eta, adjusted, selected)
  }

  /** Range search is exact for any non-negative costs: on an engine that holds
      the data sequences it returns the segments within the threshold, each once,
      in order and with their edit distance, or declines. It declines as
      unavailable exactly when the threshold reaches the cost of deleting the whole
      query, and as too expensive only when the selection it settled on has more
      candidates than the limit. On an engine opened from a file and not verified
      it reports only alignments of stored segments, or the first candidate that
      the file cannot back. */
  method SearchWithMetrics<T(==, !new)>(
    engine: SearchEngine<T>, query: seq<T>, params: RangeSearchParams, costs: Policy<T>)
    returns (r: Result<(seq<Match>, RangeSearchMetrics)>, ghost encoded: EncodedQuery<T>,
             ghost selected: seq<SelectedPosition>)
    requires Searchable(engine) && |engine.index.postings| <= USIZE_MAX
    ensures r.Ok? ==>
      && ValidThreshold(costs.max, params.threshold)
      && StrictlyOrdered(r.value.0)
      && forall m :: m in r.value.0 ==> IsAlignment(engine, costs, query, params.threshold.quanta, m)
    ensures forall sequences: seq<seq<T>> :: r.Ok? && engine.Represents(sequences) ==>
      forall m: Match :: m in r.value.0 <==> IsResult(costs, query, sequences, params.threshold.quanta, m)
    ensures r.Ok? ==>
      && Settled(engine, costs, query, params.threshold.quanta, encoded, r.value.1.adjustedEta, selected)
      && Verified(engine, EncodedCosts(costs, engine.vocabulary, encoded.unknownTokens), encoded.text,
                  StrictBound(params.threshold.quanta + 1), selected, r.value.0)
      && r.value.1.selectedQueryPositions == |selected|
      && r.value.1.generatedCandidates == |Candidates(engine.index, selected)|
    ensures r == Err(ThresholdSubsequenceUnavailable) <==>
      && ValidThreshold(costs.max, params.threshold) && Encodable(engine.vocabulary, query)
      && TotalDeletion(costs, query) <= params.threshold.quanta
    ensures r == Err(InvalidCost) <==> !(params.threshold.Number? && 0 <= params.threshold.quanta <= costs.max)
    ensures r == Err(InvalidThreshold) <==> params.threshold == Number(costs.max)
    ensures r == Err(SymbolOverflow) <==>
      ValidThreshold(costs.max, params.threshold) && !Encodable(engine.vocabulary, query)
    ensures r.Err? && r.error.SearchTooExpensive? ==>
      && ValidThreshold(costs.max, params.threshold)
      && params.maxCandidates == Some(r.error.limit) && r.error.limit < r.error.candidates
      && r.error.candidates == Saturated(|Candidates(engine.index, selected)|)
      && exists adjusted :: Settled(engine, costs, query, params.threshold.quanta, encoded, adjusted, selected)
    ensures r.Ok? || Unreadable(r.error) ==>
      WithinLimit(params.maxCandidates, |Candidates(engine.index, selected)|)
    ensures r.Err? && Unreadable(r.error) ==>
      && ValidThreshold(costs.max, params.threshold)
      && (exists adjusted :: Settled(engine, costs, query, params.threshold.quanta, encoded, adjusted, selected))
      && Refused(engine, encoded.text, selected, r.error) && !Represented(engine)
    ensures r.Err? ==>
      || r.error in {InvalidCost, InvalidThreshold, SymbolOverflow, ThresholdSubsequenceUnavailable}
      || r.error.SearchTooExpensive? || Unreadable(r.error)
      || (r.error == PositionOverflow && U32_MAX + 1 < |query|)
  {
    hide TotalDeletion, IsAnswer, IsResult, IsAlignment, Selected, Candidates, Saturated, Verified, Refused;
    hide OffsetsFit, V.Numbers, StrictlyOrdered, UnknownIn, Decodes, IsShare, AutomaticEta;
    encoded, selected := EncodedQuery([], []), [];
    var threshold := NewCost(costs.max, params.threshold);
    if threshold.Err? {
      return Err(threshold.error), encoded, selected;
    }
    var bound := FromInclusive(costs.max, threshold.value);
    if bound.Err? {
      return Err(bound.error), encoded, selected;
    }
    var encoding := Encode(query, engine.vocabulary);
    if encoding.Err? {
      return Err(encoding.error), encoded, selected;
    }
    encoded := encoding.value;
    SameLength(engine.vocabulary, encoded.unknownTokens, encoded.text, query);
    var text := encoding.value.text;
    var p := EncodedCosts(costs, engine.vocabulary, encoding.value.unknownTokens);
    var eta := AutomaticEta(threshold.value, |text|);
    StartingRadiusIsShare(threshold.value, |text|);
    EncodingPreservesDeletion(costs, engine.vocabulary, encoded.unknownTokens, text, query);
    r, selected := SearchQueryString(engine, text, bound.value, eta, params.maxCandidates, p);
    if r.Ok? {
      FoundInTokens(engine, costs, query, encoded, threshold.value, selected, r.value.0);
    }
    forall adjusted: Option<nat> | Selected(engine, p, text, bound.value, eta, adjusted, selected)
      ensures Settled(engine, costs, query, threshold.value, encoded, adjusted, selected)
    {
    }
  }

  /** From symbols to tokens. */
  lemma FoundInTokens<T(!new)>(
    engine: SearchEngine<T>, costs: Policy<T>, query: seq<T>, encoded: EncodedQuery<T>, threshold: nat,
    selected: seq<SelectedPosition>, matches: seq<Match>)
    requires Searchable(engine) && Decodes(engine.vocabulary, encoded.unknownTokens, encoded.text, query)
    requires Verified(engine, EncodedCosts(costs, engine.vocabulary, encoded.unknownTokens), encoded.text,
                      StrictBound(threshold + 1), selected, matches)
    requires Represented(engine) ==> forall m: Match :: m in matches <==>
      IsAnswer(EncodedCosts(costs, engine.vocabulary, encoded.unknownTokens), encoded.text, engine.store.Corpus(),
               StrictBound(threshold + 1), m)
    ensures forall m :: m in matches ==> IsAlignment(engine, costs, query, threshold, m)
    ensures forall sequences: seq<seq<T>> :: engine.Represents(sequences) ==>
      forall m: Match :: m in matches <==> IsResult(costs, query, sequences, threshold, m)
  {
    hide IsAnswer, IsResult, IsAlignment, Verified, EncodedCosts, Decodes;
    forall m | m in matches
      ensures IsAlignment(engine, costs, query, threshold, m)
    {
      VerifiedIsAlignment(engine, costs, query, encoded, threshold, selected, matches, m);
    }
    forall sequences: seq<seq<T>>, m: Match | engine.Represents(sequences)
      ensures m in matches <==> IsResult(costs, query, sequences, threshold, m)
    {
      SymbolAnswerIsResult(engine, sequences, costs, query, encoded, threshold, m);
    }
  }

  /** The answer is determined: the radius a search settled on, and how it got
      there, cannot show in the matches. */
  lemma AnswersAreUnique<T(!new)>(
    costs: Policy<T>, query: seq<T>, sequences: seq<seq<T>>, threshold: nat, a: seq<Match>, b: seq<Match>)
    requires StrictlyOrdered(a) && StrictlyOrdered(b)
    requires forall m: Match :: m in a <==> IsResult(costs, query, sequences, threshold, m)
    requires forall m: Match :: m in b <==> IsResult(costs, query, sequences, threshold, m)
    ensures a == b
  {
    hide IsResult;
    ReportsAreUnique(a, b);
  }

  /** What a search answers once its selection is settled: too many candidates for
      the limit decline it, whatever the candidates are; otherwise an invalid one
      does; otherwise the matches are the verified ones. */
  ghost predicate Outcome<T>(
    engine: SearchEngine<T>, costs: Policy<T>, params: RangeSearchParams, encoded: EncodedQuery<T>,
    selected: seq<SelectedPosition>, r: Result<seq<Match>>)
    requires engine.StructureFits() && ValidThreshold(costs.max, params.threshold)
  {
    var count := |Candidates(engine.index, selected)|;
    if !WithinLimit(params.maxCandidates, count) then
      r == Err(SearchTooExpensive(Saturated(count), params.maxCandidates.value))
    else
      match r
      case Err(error) => Refused(engine, encoded.text, selected, error)
      case Ok(matches) =>
        Verified(engine, EncodedCosts(costs, engine.vocabulary, encoded.unknownTokens), encoded.text,
                 StrictBound(params.threshold.quanta + 1), selected, matches)
  }

  /** Dropping the measurements. */
  method Search<T(==, !new)>(
    engine: SearchEngine<T>, query: seq<T>, params: RangeSearchParams, costs: Policy<T>)
    returns (r: Result<seq<Match>>)
    requires Searchable(engine) && |engine.index.postings| <= USIZE_MAX
    ensures r.Ok? ==>
      && ValidThreshold(costs.max, params.threshold)
      && StrictlyOrdered(r.value)
      && forall m :: m in r.value ==> IsAlignment(engine, costs, query, params.threshold.quanta, m)
    ensures forall sequences: seq<seq<T>> :: r.Ok? && engine.Represents(sequences) ==>
      forall m: Match :: m in r.value <==> IsResult(costs, query, sequences, params.threshold.quanta, m)
    ensures ValidThreshold(costs.max, params.threshold) && params.threshold.quanta < TotalDeletion(costs, query)
            && params.maxCandidates == None && Encodable(engine.vocabulary, query) && |query| <= U32_MAX + 1
            ==> r.Ok? || Unreadable(r.error)
    ensures Represented(engine) && r.Err? ==> !Unreadable(r.error)
    ensures r == Err(ThresholdSubsequenceUnavailable) <==>
      && ValidThreshold(costs.max, params.threshold) && Encodable(engine.vocabulary, query)
      && TotalDeletion(costs, query) <= params.threshold.quanta
    ensures r == Err(InvalidCost) <==> !(params.threshold.Number? && 0 <= params.threshold.quanta <= costs.max)
    ensures r == Err(InvalidThreshold) <==> params.threshold == Number(costs.max)
    ensures r == Err(SymbolOverflow) <==>
      ValidThreshold(costs.max, params.threshold) && !Encodable(engine.vocabulary, query)
    ensures r.Ok? || r.error.SearchTooExpensive? || Unreadable(r.error) ==>
      ValidThreshold(costs.max, params.threshold)
      && exists encoded, adjusted, selected ::
        && Settled(engine, costs, query, params.threshold.quanta, encoded, adjusted, selected)
        && Outcome(engine, costs, params, encoded, selected, r)
    ensures r.Err? ==>
      || r.error in {InvalidCost, InvalidThreshold, SymbolOverflow, ThresholdSubsequenceUnavailable}
      || r.error.SearchTooExpensive? || Unreadable(r.error)
      || (r.error == PositionOverflow && U32_MAX + 1 < |query|)
  {
    hide Settled, IsResult, IsAlignment, TotalDeletion, Candidates, Saturated, Encodable, Verified, Refused;
    var found, encoded, selected := SearchWithMetrics(engine, query, params, costs);
    if found.Err? {
      return Err(found.error);
    }
    return Ok(found.value.0);
  }
}
