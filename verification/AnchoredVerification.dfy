/** Verification local to candidate anchors: each candidate forces one pairing,
    and the two directions around it are extended independently. */
module AnchoredVerification {
  import opened Wrappers
  import opened Types
  import opened Costs
  import opened EditScripts
  import opened Store
  import opened Sorting
  import opened BidirectionalTrie

  /** The candidate's data string, once its identifier and positions are checked. */
  function ValidatedCandidateString(query: seq<Symbol>, c: Candidate, store: CorpusStore): (r: Result<seq<Symbol>>)
    requires store.WellFormed()
    ensures r.Ok? ==> Fits(query, store.Corpus(), c) && r.value == store.Corpus()[c.stringId]
    ensures r.Ok? ==> store.String(c.stringId) == Ok(Some(r.value))
    ensures r.Ok? <==> Fits(query, store.Corpus(), c) && (store.mapped ==> AllKnown(store, store.Corpus()[c.stringId]))
    ensures r.Err? ==> Rejected(query, c, store, r.error)
  {
    var text :- store.String(c.stringId);
    if text.None? then Err(UnknownString(c.stringId))
    else if c.stringPosition >= |text.value| then Err(InvalidStringPosition(c.stringPosition, |text.value|))
    else if c.queryPosition >= |query| then Err(InvalidQueryPosition(c.queryPosition, |query|))
    else Ok(text.value)
  }

  /** Every symbol is one of the vocabulary the store was written for. */
  ghost predicate AllKnown(store: CorpusStore, text: seq<Symbol>) {
    forall symbol :: symbol in text ==> symbol != UNKNOWN && symbol < store.symbolCount
  }

  /** The first check a candidate fails names the error: its string, a symbol of a
      mapped string, its data position, its query position. */
  ghost predicate Rejected(query: seq<Symbol>, c: Candidate, store: CorpusStore, error: Error)
    requires store.WellFormed()
  {
    var corpus := store.Corpus();
    if |corpus| <= c.stringId then error == UnknownString(c.stringId)
    else
      var text := corpus[c.stringId];
      if store.mapped && !AllKnown(store, text) then
        error.UnknownStringSymbol? && FirstUnknown(text, store.symbolCount, error.symbol)
      else if |text| <= c.stringPosition then error == InvalidStringPosition(c.stringPosition, |text|)
      else |query| <= c.queryPosition && error == InvalidQueryPosition(c.queryPosition, |query|)
  }

  ghost predicate Fits(query: seq<Symbol>, corpus: seq<seq<Symbol>>, c: Candidate) {
    c.stringId < |corpus| && c.stringPosition < |corpus[c.stringId]| && c.queryPosition < |query|
  }

  // ----- What the candidates can reach -----

  /** The candidate is an anchor inside the segment. */
  ghost predicate Covers(query: seq<Symbol>, corpus: seq<seq<Symbol>>, c: Candidate, key: Key) {
    && c.queryPosition < |query|
    && key.0 == c.stringId < |corpus| && key.1 <= c.stringPosition < key.2 <= |corpus[key.0]|
  }

  /** The least cost of aligning the query with the segment through the anchor. */
  ghost function Via(p: Policy<Symbol>, query: seq<Symbol>, corpus: seq<seq<Symbol>>, c: Candidate, key: Key): nat
    requires Covers(query, corpus, c, key)
  {
    AnchoredWed(p, query, corpus[key.0][key.1..key.2], c.queryPosition, c.stringPosition - key.1)
  }

  /** `d` is the least cost of the segment over all candidates that cover it. */
  ghost predicate IsLeastVia(
    p: Policy<Symbol>, query: seq<Symbol>, corpus: seq<seq<Symbol>>, candidates: seq<Candidate>, key: Key, d: nat)
  {
    && (exists c :: c in candidates && Covers(query, corpus, c, key) && Via(p, query, corpus, c, key) == d)
    && (forall c :: c in candidates && Covers(query, corpus, c, key) ==> d <= Via(p, query, corpus, c, key))
  }

  /** The script pairs the positions of some candidate inside the segment. */
  ghost predicate UsesCandidate(
    query: seq<Symbol>, corpus: seq<seq<Symbol>>, candidates: seq<Candidate>, key: Key, s: Script<Symbol>)
  {
    exists c :: c in candidates && Covers(query, corpus, c, key) && Pairs(s, c.queryPosition, c.stringPosition - key.1)
  }

  /** `d` is the least cost over the edit scripts from the query to the segment
      that pair some candidate's positions. */
  ghost predicate IsAnchoredAnswer(
    p: Policy<Symbol>, query: seq<Symbol>, corpus: seq<seq<Symbol>>, candidates: seq<Candidate>, key: Key, d: nat)
  {
    && key.0 < |corpus| && key.1 < key.2 <= |corpus[key.0]|
    && var segment := corpus[key.0][key.1..key.2];
    && (exists s: Script<Symbol> ::
          Aligns(s, query, segment) && UsesCandidate(query, corpus, candidates, key, s) && Cost(p, s) == d)
    && (forall s: Script<Symbol> ::
          Aligns(s, query, segment) && UsesCandidate(query, corpus, candidates, key, s) ==> d <= Cost(p, s))
  }

  /** The segment's edit distance, when the bound admits it. */
  ghost predicate IsAnswer(
    p: Policy<Symbol>, query: seq<Symbol>, corpus: seq<seq<Symbol>>, bound: StrictBound, m: Match)
  {
    && m.sequenceId < |corpus| && m.start < m.end <= |corpus[m.sequenceId]|
    && m.distance < bound.limit
    && IsDistance(p, query, corpus[m.sequenceId][m.start..m.end], m.distance)
  }

  lemma AnswerIsWed(p: Policy<Symbol>, query: seq<Symbol>, corpus: seq<seq<Symbol>>, bound: StrictBound, m: Match)
    requires m.sequenceId < |corpus| && m.start < m.end <= |corpus[m.sequenceId]|
    ensures IsAnswer(p, query, corpus, bound, m) <==>
            m.distance < bound.limit && m.distance == Wed(p, query, corpus[m.sequenceId][m.start..m.end])
  {
    var segment := corpus[m.sequenceId][m.start..m.end];
    WedIsDistance(p, query, segment);
    if IsAnswer(p, query, corpus, bound, m) {
      DistanceIsUnique(p, query, segment, m.distance, Wed(p, query, segment));
    }
  }

  lemma ViaIsAttained(p: Policy<Symbol>, query: seq<Symbol>, corpus: seq<seq<Symbol>>, c: Candidate, key: Key)
    returns (s: Script<Symbol>)
    requires Covers(query, corpus, c, key)
    ensures Aligns(s, query, corpus[key.0][key.1..key.2])
    ensures Pairs(s, c.queryPosition, c.stringPosition - key.1) && Cost(p, s) == Via(p, query, corpus, c, key)
  {
    hide Wed, Source, Target, Cost;
    s := AnchoredScript(p, query, corpus[key.0][key.1..key.2], c.queryPosition, c.stringPosition - key.1);
  }

  lemma ViaIsLeast(
    p: Policy<Symbol>, query: seq<Symbol>, corpus: seq<seq<Symbol>>, c: Candidate, key: Key, s: Script<Symbol>)
    requires Covers(query, corpus, c, key)
    requires Aligns(s, query, corpus[key.0][key.1..key.2])
    requires Pairs(s, c.queryPosition, c.stringPosition - key.1)
    ensures Via(p, query, corpus, c, key) <= Cost(p, s)
  {
    hide Wed, Source, Target, Cost;
    NoAnchoredScriptIsCheaper(p, s, c.queryPosition, c.stringPosition - key.1);
  }

  lemma LeastViaIsAnchoredAnswer(
    p: Policy<Symbol>, query: seq<Symbol>, corpus: seq<seq<Symbol>>, candidates: seq<Candidate>, key: Key, d: nat)
    requires IsLeastVia(p, query, corpus, candidates, key, d)
    ensures IsAnchoredAnswer(p, query, corpus, candidates, key, d)
  {
    hide Source, Target, Cost, Via, Pairs;
    var c :| c in candidates && Covers(query, corpus, c, key) && Via(p, query, corpus, c, key) == d;
    var best := ViaIsAttained(p, query, corpus, c, key);
    assert UsesCandidate(query, corpus, candidates, key, best);
    forall s: Script<Symbol> |
      Aligns(s, query, corpus[key.0][key.1..key.2]) && UsesCandidate(query, corpus, candidates, key, s)
      ensures d <= Cost(p, s)
    {
      var used :| used in candidates && Covers(query, corpus, used, key)
                  && Pairs(s, used.queryPosition, used.stringPosition - key.1);
      ViaIsLeast(p, query, corpus, used, key, s);
    }
  }

  /** The two descriptions of an answer agree. */
  lemma AnchoredAnswerIsLeastVia(
    p: Policy<Symbol>, query: seq<Symbol>, corpus: seq<seq<Symbol>>, candidates: seq<Candidate>, key: Key, d: nat)
    requires IsAnchoredAnswer(p, query, corpus, candidates, key, d)
    ensures IsLeastVia(p, query, corpus, candidates, key, d)
  {
    hide Source, Target, Cost, Via, Pairs;
    var s: Script<Symbol> :|
      Aligns(s, query, corpus[key.0][key.1..key.2]) && UsesCandidate(query, corpus, candidates, key, s)
      && Cost(p, s) == d;
    var used :| used in candidates && Covers(query, corpus, used, key)
                && Pairs(s, used.queryPosition, used.stringPosition - key.1);
    ViaIsLeast(p, query, corpus, used, key, s);
    forall c | c in candidates && Covers(query, corpus, c, key)
      ensures d <= Via(p, query, corpus, c, key)
    {
      var other := ViaIsAttained(p, query, corpus, c, key);
      assert UsesCandidate(query, corpus, candidates, key, other);
    }
  }

  // ----- One candidate -----

  function Lookup(table: map<Key, nat>, key: Key): Option<nat> {
    if key in table then Some(table[key]) else None
  }

  function Smaller(a: Option<nat>, b: Option<nat>): Option<nat> {
    match (a, b)
    case (None, _) => b
    case (_, None) => a
    case (Some(x), Some(y)) => Some(Least(x, y))
  }

  /** What one anchor offers for a segment: the sum of its three parts, when the
      bound admits it. */
  function Offer(
    max: nat, bound: StrictBound, id: nat, position: nat, anchor: nat,
    backward: seq<Distance>, forward: seq<Distance>, key: Key): Option<nat>
  {
    if key.0 == id && key.1 <= position < key.2
       && position - key.1 < |backward| && key.2 - position - 1 < |forward| then
      var distance := AddDistance(max, AddDistance(max, Finite(anchor), backward[position - key.1]),
                                  forward[key.2 - position - 1]);
      if bound.Admits(distance) then Some(distance.value) else None
    else None
  }

  /** Records every segment the anchor reaches, keeping the smaller distance. */
  method RecordAnchor(
    max: nat, bound: StrictBound, id: nat, position: nat, anchor: nat,
    backward: seq<Distance>, forward: seq<Distance>, table: map<Key, nat>)
    returns (substrings: map<Key, nat>)
    requires |backward| <= position + 1
    ensures forall key: Key ::
      Lookup(substrings, key) ==
      Smaller(Lookup(table, key), Offer(max, bound, id, position, anchor, backward, forward, key))
  {
    substrings := table;
    for b := 0 to |backward|
      invariant forall key: Key ::
        Lookup(substrings, key) ==
        Smaller(Lookup(table, key), Offer(max, bound, id, position, anchor, backward[..b], forward, key))
    {
      substrings := RecordRow(max, bound, id, position, anchor, backward, forward, table, b, substrings);
    }
    assert backward[..|backward|] == backward;
  }

  /** Records the segments that start `b` symbols before the anchor. */
  method RecordRow(
    max: nat, bound: StrictBound, id: nat, position: nat, anchor: nat,
    backward: seq<Distance>, forward: seq<Distance>, ghost table: map<Key, nat>, b: nat, before: map<Key, nat>)
    returns (substrings: map<Key, nat>)
    requires b < |backward| <= position + 1
    requires forall key: Key ::
      Lookup(before, key) ==
      Smaller(Lookup(table, key), Offer(max, bound, id, position, anchor, backward[..b], forward, key))
    ensures forall key: Key ::
      Lookup(substrings, key) ==
      Smaller(Lookup(table, key), Offer(max, bound, id, position, anchor, backward[..b + 1], forward, key))
  {
    substrings := before;
    var start := position - b;
    for f := 0 to |forward|
      invariant forall key: Key ::
        Lookup(substrings, key) ==
        if key.0 == id && key.1 == start && key.2 <= position + f then
          Smaller(Lookup(table, key), Offer(max, bound, id, position, anchor, backward, forward, key))
        else Lookup(before, key)
    {
      var distance := AddDistance(max, AddDistance(max, Finite(anchor), backward[b]), forward[f]);
      if bound.Admits(distance) {
        var key: Key := (id, start, position + f + 1);
        substrings := substrings[key :=
          if key in substrings then Least(substrings[key], distance.value) else distance.value];
      }
    }
  }

  lemma BackwardCell(p: Policy<Symbol>, query: seq<Symbol>, text: seq<Symbol>, i: nat, position: nat, start: nat)
    requires i < |query| && start <= position < |text|
    ensures Wed(p, Reversed(query[..i]), Reversed(text[..position])[..position - start]) ==
            Wed(p, query[..i], text[start..position])
  {
    assert Reversed(text[..position])[..position - start] == Reversed(text[start..position]);
    ReversalKeepsDistance(p, query[..i], text[start..position]);
  }

  lemma ViaParts(p: Policy<Symbol>, query: seq<Symbol>, corpus: seq<seq<Symbol>>, c: Candidate, key: Key)
    requires Covers(query, corpus, c, key)
    ensures var text, i, position := corpus[c.stringId], c.queryPosition, c.stringPosition;
            Via(p, query, corpus, c, key) ==
            Wed(p, query[..i], text[key.1..position]) + p.substitution(query[i], text[position])
            + Wed(p, query[i + 1..], text[position + 1..][..key.2 - position - 1])
  {
    hide Wed;
    var text, position := corpus[c.stringId], c.stringPosition;
    var segment, j := text[key.1..key.2], position - key.1;
    assert segment[..j] == text[key.1..position];
    assert segment[j + 1..] == text[position + 1..][..key.2 - position - 1];
  }

  /** The candidate's anchor cost and the two walks away from it. */
  ghost predicate Walked(
    p: Policy<Symbol>, query: seq<Symbol>, text: seq<Symbol>, c: Candidate, bound: StrictBound,
    anchor: nat, backward: seq<Distance>, forward: seq<Distance>)
    requires c.queryPosition < |query| && c.stringPosition < |text|
  {
    && anchor == p.substitution(query[c.queryPosition], text[c.stringPosition]) < bound.limit
    && IsPrunedWalk(p, Reversed(query[..c.queryPosition]), Reversed(text[..c.stringPosition]),
                    bound.limit - anchor, backward)
    && IsPrunedWalk(p, query[c.queryPosition + 1..], text[c.stringPosition + 1..], bound.limit - anchor, forward)
  }

  lemma AdmittedSum(max: nat, bound: StrictBound, a: nat, x: nat, y: nat)
    requires bound.limit <= max
    ensures var distance := AddDistance(max, AddDistance(max, Finite(a), Capped(max, x)), Capped(max, y));
            if bound.Admits(distance) then a + x + y < bound.limit && distance == Finite(a + x + y)
            else bound.limit <= a + x + y
  {
  }

  /** A walk's cell at distance `k`, or the reason it stopped before. */
  ghost predicate CellOrExhausted(max: nat, distances: seq<Distance>, k: nat, exact: nat, budget: nat) {
    if k < |distances| then distances[k] == Capped(max, exact) else budget <= exact
  }

  lemma WalkCell(
    p: Policy<Symbol>, query: seq<Symbol>, symbols: seq<Symbol>, budget: nat, distances: seq<Distance>, k: nat)
    requires IsPrunedWalk(p, query, symbols, budget, distances) && k <= |symbols|
    ensures CellOrExhausted(p.max, distances, k, Wed(p, query, symbols[..k]), budget)
  {
    if k >= |distances| {
      WalkLosesNothing(p, query, symbols, budget, distances, k);
    }
  }

  lemma OfferFromCells(
    max: nat, bound: StrictBound, c: Candidate, anchor: nat, backward: seq<Distance>, forward: seq<Distance>,
    key: Key, x: nat, y: nat)
    requires anchor < bound.limit <= max && key.0 == c.stringId && key.1 <= c.stringPosition < key.2
    requires CellOrExhausted(max, backward, c.stringPosition - key.1, x, bound.limit - anchor)
    requires CellOrExhausted(max, forward, key.2 - c.stringPosition - 1, y, bound.limit - anchor)
    ensures Offer(max, bound, c.stringId, c.stringPosition, anchor, backward, forward, key) ==
            if x + anchor + y < bound.limit then Some(x + anchor + y) else None
  {
    AdmittedSum(max, bound, anchor, x, y);
  }

  lemma CellsAround(
    p: Policy<Symbol>, query: seq<Symbol>, text: seq<Symbol>, c: Candidate, bound: StrictBound,
    anchor: nat, backward: seq<Distance>, forward: seq<Distance>, start: nat, end: nat)
    requires c.queryPosition < |query| && start <= c.stringPosition < end <= |text|
    requires Walked(p, query, text, c, bound, anchor, backward, forward)
    ensures CellOrExhausted(p.max, backward, c.stringPosition - start,
                            Wed(p, query[..c.queryPosition], text[start..c.stringPosition]), bound.limit - anchor)
    ensures CellOrExhausted(
              p.max, forward, end - c.stringPosition - 1,
              Wed(p, query[c.queryPosition + 1..], text[c.stringPosition + 1..][..end - c.stringPosition - 1]),
              bound.limit - anchor)
  {
    hide Wed, IsPrunedWalk, CellOrExhausted;
    var i, position, budget := c.queryPosition, c.stringPosition, bound.limit - anchor;
    WalkCell(p, Reversed(query[..i]), Reversed(text[..position]), budget, backward, position - start);
    WalkCell(p, query[i + 1..], text[position + 1..], budget, forward, end - position - 1);
    BackwardCell(p, query, text, i, position, start);
  }

  /** The segments an anchor offers are exactly those it reaches within the bound. */
  lemma OfferIsVia(
    p: Policy<Symbol>, query: seq<Symbol>, corpus: seq<seq<Symbol>>, c: Candidate, bound: StrictBound,
    anchor: nat, backward: seq<Distance>, forward: seq<Distance>, key: Key)
    requires Fits(query, corpus, c) && bound.limit <= p.max
    requires Walked(p, query, corpus[c.stringId], c, bound, anchor, backward, forward)
    ensures Offer(p.max, bound, c.stringId, c.stringPosition, anchor, backward, forward, key) ==
            if Covers(query, corpus, c, key) && Via(p, query, corpus, c, key) < bound.limit
            then Some(Via(p, query, corpus, c, key)) else None
  {
    if Covers(query, corpus, c, key) {
      CoveredOffer(p, query, corpus, c, bound, anchor, backward, forward, key);
    }
  }

  lemma CoveredOffer(
    p: Policy<Symbol>, query: seq<Symbol>, corpus: seq<seq<Symbol>>, c: Candidate, bound: StrictBound,
    anchor: nat, backward: seq<Distance>, forward: seq<Distance>, key: Key)
    requires Covers(query, corpus, c, key) && bound.limit <= p.max
    requires Walked(p, query, corpus[c.stringId], c, bound, anchor, backward, forward)
    ensures Offer(p.max, bound, c.stringId, c.stringPosition, anchor, backward, forward, key) ==
            if Via(p, query, corpus, c, key) < bound.limit then Some(Via(p, query, corpus, c, key)) else None
  {
    hide Wed, Via, Offer, CellOrExhausted, IsPrunedWalk, Capped;
    var text, i, position := corpus[c.stringId], c.queryPosition, c.stringPosition;
    var x := Wed(p, query[..i], text[key.1..position]);
    var y := Wed(p, query[i + 1..], text[position + 1..][..key.2 - position - 1]);
    assert CellOrExhausted(p.max, backward, position - key.1, x, bound.limit - anchor)
        && CellOrExhausted(p.max, forward, key.2 - position - 1, y, bound.limit - anchor) by {
      CellsAround(p, query, text, c, bound, anchor, backward, forward, key.1, key.2);
    }
    ViaParts(p, query, corpus, c, key);
    OfferFromCells(p.max, bound, c, anchor, backward, forward, key, x, y);
  }

  // ----- The whole verification -----

  /** The table holds the least cost of each segment the candidates reach. */
  ghost predicate Tabulates(
    p: Policy<Symbol>, query: seq<Symbol>, corpus: seq<seq<Symbol>>, candidates: seq<Candidate>, bound: StrictBound,
    table: map<Key, nat>)
  {
    && (forall key: Key, c :: c in candidates && Covers(query, corpus, c, key) ==>
          var via := Via(p, query, corpus, c, key);
          via < bound.limit ==> key in table && table[key] <= via)
    && (forall key: Key :: key in table ==>
          && table[key] < bound.limit
          && exists c ::
               c in candidates && Covers(query, corpus, c, key) && Via(p, query, corpus, c, key) == table[key])
  }

  lemma NothingTabulated(
    p: Policy<Symbol>, query: seq<Symbol>, corpus: seq<seq<Symbol>>, candidates: seq<Candidate>, bound: StrictBound)
    requires candidates == []
    ensures Tabulates(p, query, corpus, candidates, bound, map[])
  {
  }

  lemma TabledIsLeast(
    p: Policy<Symbol>, query: seq<Symbol>, corpus: seq<seq<Symbol>>, candidates: seq<Candidate>, bound: StrictBound,
    table: map<Key, nat>, key: Key)
    requires Tabulates(p, query, corpus, candidates, bound, table) && key in table
    ensures table[key] < bound.limit && IsLeastVia(p, query, corpus, candidates, key, table[key])
  {
    hide Via, Covers;
    forall c | c in candidates && Covers(query, corpus, c, key)
      ensures table[key] <= Via(p, query, corpus, c, key)
    {
    }
  }

  lemma LeastIsTabled(
    p: Policy<Symbol>, query: seq<Symbol>, corpus: seq<seq<Symbol>>, candidates: seq<Candidate>, bound: StrictBound,
    table: map<Key, nat>, key: Key, d: nat)
    requires Tabulates(p, query, corpus, candidates, bound, table)
    requires d < bound.limit && IsLeastVia(p, query, corpus, candidates, key, d)
    ensures key in table && table[key] == d
  {
    hide Via, Covers;
    var c :| c in candidates && Covers(query, corpus, c, key) && Via(p, query, corpus, c, key) == d;
    assert key in table && table[key] <= d;
    TabledIsLeast(p, query, corpus, candidates, bound, table, key);
  }

  /** The table gained exactly what one candidate reaches within the bound. */
  ghost predicate Adds(
    p: Policy<Symbol>, query: seq<Symbol>, corpus: seq<seq<Symbol>>, c: Candidate, bound: StrictBound,
    before: map<Key, nat>, after: map<Key, nat>)
  {
    forall key: Key ::
      Lookup(after, key) ==
      Smaller(Lookup(before, key),
              if Covers(query, corpus, c, key) && Via(p, query, corpus, c, key) < bound.limit
              then Some(Via(p, query, corpus, c, key)) else None)
  }

  lemma TabledStaysReached(
    p: Policy<Symbol>, query: seq<Symbol>, corpus: seq<seq<Symbol>>, candidates: seq<Candidate>, c: Candidate,
    bound: StrictBound, before: map<Key, nat>, after: map<Key, nat>, key: Key)
    requires Tabulates(p, query, corpus, candidates, bound, before)
    requires Adds(p, query, corpus, c, bound, before, after) && key in after
    ensures after[key] < bound.limit
    ensures exists o ::
      o in candidates + [c] && Covers(query, corpus, o, key) && Via(p, query, corpus, o, key) == after[key]
  {
    hide Via, Covers;
    assert Lookup(after, key) == Some(after[key]);
    if Lookup(before, key) == Some(after[key]) {
      var o :| o in candidates && Covers(query, corpus, o, key) && Via(p, query, corpus, o, key) == before[key];
      assert o in candidates + [c];
    } else {
      assert c in candidates + [c];
    }
  }

  lemma ReachedStaysTabled(
    p: Policy<Symbol>, query: seq<Symbol>, corpus: seq<seq<Symbol>>, candidates: seq<Candidate>, c: Candidate,
    bound: StrictBound, before: map<Key, nat>, after: map<Key, nat>, key: Key, o: Candidate)
    requires Tabulates(p, query, corpus, candidates, bound, before)
    requires Adds(p, query, corpus, c, bound, before, after)
    requires o in candidates + [c] && Covers(query, corpus, o, key) && Via(p, query, corpus, o, key) < bound.limit
    ensures key in after && after[key] <= Via(p, query, corpus, o, key)
  {
    hide Via, Covers;
    assert Lookup(after, key).Some?;
  }

  lemma OneMoreCandidate(
    p: Policy<Symbol>, query: seq<Symbol>, corpus: seq<seq<Symbol>>, candidates: seq<Candidate>, c: Candidate,
    bound: StrictBound, before: map<Key, nat>, after: map<Key, nat>)
    requires Tabulates(p, query, corpus, candidates, bound, before)
    requires Adds(p, query, corpus, c, bound, before, after)
    ensures Tabulates(p, query, corpus, candidates + [c], bound, after)
  {
    hide Via, Covers, Adds;
    forall key: Key | key in after
      ensures after[key] < bound.limit
      ensures exists o ::
        o in candidates + [c] && Covers(query, corpus, o, key) && Via(p, query, corpus, o, key) == after[key]
    {
      TabledStaysReached(p, query, corpus, candidates, c, bound, before, after, key);
    }
    forall key: Key, o | o in candidates + [c] && Covers(query, corpus, o, key)
                         && Via(p, query, corpus, o, key) < bound.limit
      ensures key in after && after[key] <= Via(p, query, corpus, o, key)
    {
      ReachedStaysTabled(p, query, corpus, candidates, c, bound, before, after, key, o);
    }
  }

  predicate MatchLeq(a: Match, b: Match) {
    KeyLeq((a.sequenceId, a.start, a.end), (b.sequenceId, b.start, b.end))
  }

  /** Ordered by sequence, start and end, with no segment twice. */
  ghost predicate StrictlyOrdered(matches: seq<Match>) {
    forall i, j :: 0 <= i < j < |matches| ==> MatchLeq(matches[i], matches[j]) && !MatchLeq(matches[j], matches[i])
  }

  predicate ReportLeq(a: Match, b: Match) {
    !MatchLeq(b, a) || (MatchLeq(a, b) && a.distance <= b.distance)
  }

  /** Ordered reports of the same matches are equal. */
  lemma ReportsAreUnique(a: seq<Match>, b: seq<Match>)
    requires StrictlyOrdered(a) && StrictlyOrdered(b) && forall m: Match :: m in a <==> m in b
    ensures a == b
  {
    assert TotalOrder(ReportLeq);
    assert Ascending(ReportLeq, a) && Ascending(ReportLeq, b);
    AscendingIsUnique(ReportLeq, a, b);
  }

  lemma KeysAreOrdered()
    ensures TotalOrder(KeyLeq)
  {
  }

  /** Visits the table in key order. */
  method CollectMatches(table: map<Key, nat>) returns (matches: seq<Match>)
    ensures StrictlyOrdered(matches)
    ensures forall key: Key, d: nat :: Match(key.0, key.1, key.2, d) in matches <==> Lookup(table, key) == Some(d)
  {
    KeysAreOrdered();
    var keys := InOrder(KeyLeq, table.Keys);
    assert forall i :: 0 <= i < |keys| ==> keys[i] in keys;
    matches := seq(|keys|, i requires 0 <= i < |keys| =>
      Match(keys[i].0, keys[i].1, keys[i].2, table[keys[i]]));
    forall key: Key, d: nat | Lookup(table, key) == Some(d)
      ensures Match(key.0, key.1, key.2, d) in matches
    {
      assert key in keys;
      var i :| 0 <= i < |keys| && keys[i] == key;
      assert matches[i] == Match(key.0, key.1, key.2, d);
    }
  }

  ghost predicate AllValid(query: seq<Symbol>, candidates: seq<Candidate>, store: CorpusStore)
    requires store.WellFormed()
  {
    forall c :: c in candidates ==> ValidatedCandidateString(query, c, store).Ok?
  }

  /** `error` is what the first invalid candidate reports. */
  ghost predicate FirstInvalid(query: seq<Symbol>, candidates: seq<Candidate>, store: CorpusStore, error: Error)
    requires store.WellFormed()
  {
    exists k :: 0 <= k < |candidates|
      && ValidatedCandidateString(query, candidates[k], store) == Err(error)
      && AllValid(query, candidates[..k], store)
  }

  /** The first validation error, if any candidate has one. */
  method ValidateCandidates(query: seq<Symbol>, candidates: seq<Candidate>, store: CorpusStore) returns (r: Result<()>)
    requires store.WellFormed()
    ensures r.Ok? <==> AllValid(query, candidates, store)
    ensures r.Err? ==> FirstInvalid(query, candidates, store, r.error)
  {
    for k := 0 to |candidates|
      invariant AllValid(query, candidates[..k], store)
    {
      var validated := ValidatedCandidateString(query, candidates[k], store);
      if validated.Err? {
        assert candidates[k] in candidates;
        return Err(validated.error);
      }
      assert candidates[..k + 1] == candidates[..k] + [candidates[k]];
    }
    assert candidates[..|candidates|] == candidates;
    return Ok(());
  }

  /** Extends one admitted anchor in both directions and records what it reaches. */
  method ExtendAnchor(
    query: seq<Symbol>, c: Candidate, text: seq<Symbol>, ghost corpus: seq<seq<Symbol>>, bound: StrictBound,
    anchor: nat, p: Policy<Symbol>, forest: TrieForest, table: map<Key, nat>)
    returns (substrings: map<Key, nat>)
    requires forest.Valid(p, query)
    requires Fits(query, corpus, c) && corpus[c.stringId] == text
    requires anchor == p.substitution(query[c.queryPosition], text[c.stringPosition]) < bound.limit <= p.max
    modifies forest, forest.nodes
    ensures forest.Valid(p, query) && fresh(forest.nodes - old(forest.nodes))
    ensures Adds(p, query, corpus, c, bound, table, substrings)
  {
    var i, position := c.queryPosition, c.stringPosition;
    var budget := bound.Residual(anchor);
    var backward := forest.WalkBackward(query, i, Reversed(text[..position]), budget, p);
    var forward := forest.WalkForward(query, i, text[position + 1..], budget, p);
    substrings := RecordAnchor(p.max, bound, c.stringId, position, anchor, backward, forward, table);
    forall key: Key
      ensures Offer(p.max, bound, c.stringId, position, anchor, backward, forward, key) ==
              if Covers(query, corpus, c, key) && Via(p, query, corpus, c, key) < bound.limit
              then Some(Via(p, query, corpus, c, key)) else None
    {
      OfferIsVia(p, query, corpus, c, bound, anchor, backward, forward, key);
    }
  }

  /** An anchor the bound does not admit reaches nothing. */
  lemma DearAnchorReachesNothing(
    p: Policy<Symbol>, query: seq<Symbol>, corpus: seq<seq<Symbol>>, c: Candidate, bound: StrictBound, key: Key)
    requires Covers(query, corpus, c, key)
    requires bound.limit <= p.substitution(query[c.queryPosition], corpus[c.stringId][c.stringPosition])
    ensures bound.limit <= Via(p, query, corpus, c, key)
  {
  }

  /** Records what one candidate reaches, unless its anchor alone is too dear. */
  method VerifyCandidate(
    query: seq<Symbol>, c: Candidate, store: CorpusStore, bound: StrictBound, p: Policy<Symbol>, forest: TrieForest,
    table: map<Key, nat>)
    returns (substrings: map<Key, nat>)
    requires store.WellFormed() && ValidatedCandidateString(query, c, store).Ok? && bound.limit <= p.max
    requires forest.Valid(p, query)
    modifies forest, forest.nodes
    ensures forest.Valid(p, query) && fresh(forest.nodes - old(forest.nodes))
    ensures Adds(p, query, store.Corpus(), c, bound, table, substrings)
  {
    ghost var corpus := store.Corpus();
    var text := store.String(c.stringId).value.value;
    var anchor := p.substitution(query[c.queryPosition], text[c.stringPosition]);
    if bound.Admits(Finite(anchor)) {
      substrings := ExtendAnchor(query, c, text, corpus, bound, anchor, p, forest, table);
    } else {
      substrings := table;
      forall key: Key | Covers(query, corpus, c, key)
        ensures bound.limit <= Via(p, query, corpus, c, key)
      {
        DearAnchorReachesNothing(p, query, corpus, c, bound, key);
      }
    }
  }

  /** Verifies the candidates in turn, sharing the tries. */
  method VerifyCandidates(
    query: seq<Symbol>, candidates: seq<Candidate>, store: CorpusStore, bound: StrictBound, p: Policy<Symbol>)
    returns (substrings: map<Key, nat>)
    requires store.WellFormed() && AllValid(query, candidates, store) && bound.limit <= p.max
    ensures Tabulates(p, query, store.Corpus(), candidates, bound, substrings)
  {
    hide Tabulates, Adds, ValidatedCandidateString, OffsetsFit;
    ghost var corpus := store.Corpus();
    var forest := new TrieForest();
    substrings := map[];
    NothingTabulated(p, query, corpus, candidates[..0], bound);
    for k := 0 to |candidates|
      invariant forest.Valid(p, query) && fresh(forest) && fresh(forest.nodes)
      invariant Tabulates(p, query, corpus, candidates[..k], bound, substrings)
    {
      ghost var before := substrings;
      assert candidates[k] in candidates;
      substrings := VerifyCandidate(query, candidates[k], store, bound, p, forest, substrings);
      OneMoreCandidate(p, query, corpus, candidates[..k], candidates[k], bound, before, substrings);
      assert candidates[..k + 1] == candidates[..k] + [candidates[k]];
    }
    assert candidates[..|candidates|] == candidates;
  }

  /** The matches are exactly the admitted anchored answers. */
  ghost predicate Reports(
    p: Policy<Symbol>, query: seq<Symbol>, corpus: seq<seq<Symbol>>, candidates: seq<Candidate>, bound: StrictBound,
    matches: seq<Match>)
  {
    forall key: Key, d: nat ::
      Match(key.0, key.1, key.2, d) in matches <==>
      d < bound.limit && IsAnchoredAnswer(p, query, corpus, candidates, key, d)
  }

  /** Neither the order of the candidates nor a duplicate among them can show in
      the matches. */
  lemma DuplicatesDoNotShow(
    p: Policy<Symbol>, query: seq<Symbol>, corpus: seq<seq<Symbol>>, a: seq<Candidate>, b: seq<Candidate>,
    bound: StrictBound, first: seq<Match>, second: seq<Match>)
    requires forall c :: c in a <==> c in b
    requires StrictlyOrdered(first) && Reports(p, query, corpus, a, bound, first)
    requires StrictlyOrdered(second) && Reports(p, query, corpus, b, bound, second)
    ensures first == second
  {
    hide StrictlyOrdered, Source, Target, Cost, Pairs;
    forall key: Key, d: nat
      ensures IsAnchoredAnswer(p, query, corpus, a, key, d) <==> IsAnchoredAnswer(p, query, corpus, b, key, d)
    {
      assert forall s: Script<Symbol> ::
        UsesCandidate(query, corpus, a, key, s) <==> UsesCandidate(query, corpus, b, key, s);
    }
    forall m: Match
      ensures m in first <==> m in second
    {
      var key: Key := (m.sequenceId, m.start, m.end);
      assert m == Match(key.0, key.1, key.2, m.distance);
    }
    ReportsAreUnique(first, second);
  }

  /** Reports exactly the segments whose least cost over scripts through some
      candidate is admitted, each once, in order and with that cost. */
  method Verify(
    query: seq<Symbol>, candidates: seq<Candidate>, store: CorpusStore, bound: StrictBound, p: Policy<Symbol>)
    returns (r: Result<seq<Match>>)
    requires store.WellFormed() && bound.limit <= p.max
    ensures r.Ok? <==> AllValid(query, candidates, store)
    ensures r.Err? ==> FirstInvalid(query, candidates, store, r.error)
    ensures r.Ok? ==> StrictlyOrdered(r.value) && Reports(p, query, store.Corpus(), candidates, bound, r.value)
  {
    var validated := ValidateCandidates(query, candidates, store);
    if validated.Err? {
      return Err(validated.error);
    }
    var substrings := VerifyCandidates(query, candidates, store, bound, p);
    hide Tabulates, IsAnchoredAnswer;
    TableAnswers(p, query, store.Corpus(), candidates, bound, substrings);
    var matches := CollectMatches(substrings);
    return Ok(matches);
  }

  lemma TableAnswers(
    p: Policy<Symbol>, query: seq<Symbol>, corpus: seq<seq<Symbol>>, candidates: seq<Candidate>, bound: StrictBound,
    table: map<Key, nat>)
    requires Tabulates(p, query, corpus, candidates, bound, table)
    ensures forall key: Key, d: nat ::
      Lookup(table, key) == Some(d) <==>
      d < bound.limit && IsAnchoredAnswer(p, query, corpus, candidates, key, d)
  {
    hide IsLeastVia, IsAnchoredAnswer, Tabulates;
    forall key: Key, d: nat | Lookup(table, key) == Some(d)
      ensures d < bound.limit && IsAnchoredAnswer(p, query, corpus, candidates, key, d)
    {
      TabledIsLeast(p, query, corpus, candidates, bound, table, key);
      LeastViaIsAnchoredAnswer(p, query, corpus, candidates, key, d);
    }
    forall key: Key, d: nat | d < bound.limit && IsAnchoredAnswer(p, query, corpus, candidates, key, d)
      ensures Lookup(table, key) == Some(d)
    {
      AnchoredAnswerIsLeastVia(p, query, corpus, candidates, key, d);
      LeastIsTabled(p, query, corpus, candidates, bound, table, key, d);
    }
  }
}
