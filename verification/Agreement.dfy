/** When anchored verification and exhaustive verification agree. */
module Agreement {
  import opened Types
  import opened Costs
  import opened EditScripts
  import opened AnchoredVerification

  // ----- Scripts that pair nothing -----

  /** The cost of deleting the whole query. */
  function TotalDeletion<T>(p: Policy<T>, query: seq<T>): nat {
    if query == [] then 0 else TotalDeletion(p, query[..|query| - 1]) + p.deletion(query[|query| - 1])
  }

  /** The cost of inserting the whole data segment. */
  function TotalInsertion<T>(p: Policy<T>, data: seq<T>): nat {
    if data == [] then 0 else TotalInsertion(p, data[..|data| - 1]) + p.insertion(data[|data| - 1])
  }

  /** A script that pairs nothing deletes the whole query and inserts the whole
      segment. */
  lemma {:induction false} PairlessCost<T>(p: Policy<T>, s: Script<T>)
    requires forall k :: 0 <= k < |s| ==> !s[k].Pair?
    ensures Cost(p, s) == TotalDeletion(p, Source(s)) + TotalInsertion(p, Target(s))
    decreases |s|
  {
    if s != [] {
      var init, last := s[..|s| - 1], s[|s| - 1];
      PairlessCost(p, init);
      if last.Delete? {
        assert Source(s)[..|Source(s)| - 1] == Source(init) && Target(s) == Target(init);
      } else {
        assert Target(s)[..|Target(s)| - 1] == Target(init) && Source(s) == Source(init);
      }
    }
  }

  lemma {:induction false} UnpairedIsPossible<T>(p: Policy<T>, query: seq<T>, data: seq<T>)
    ensures Wed(p, query, data) <= TotalDeletion(p, query) + TotalInsertion(p, data)
    decreases |query| + |data|
  {
    if query != [] {
      UnpairedIsPossible(p, query[..|query| - 1], data);
    } else if data != [] {
      UnpairedIsPossible(p, query, data[..|data| - 1]);
    }
  }

  lemma {:induction false} DeletionFromFront<T>(p: Policy<T>, query: seq<T>)
    requires query != []
    ensures TotalDeletion(p, query) == p.deletion(query[0]) + TotalDeletion(p, query[1..])
    decreases |query|
  {
    if |query| > 1 {
      DeletionFromFront(p, query[..|query| - 1]);
      assert query[1..][..|query| - 2] == query[..|query| - 1][1..];
    }
  }

  lemma {:induction false} InsertionFromFront<T>(p: Policy<T>, data: seq<T>)
    requires data != []
    ensures TotalInsertion(p, data) == p.insertion(data[0]) + TotalInsertion(p, data[1..])
    decreases |data|
  {
    if |data| > 1 {
      InsertionFromFront(p, data[..|data| - 1]);
      assert data[1..][..|data| - 2] == data[..|data| - 1][1..];
    }
  }

  // ----- When an anchored alignment is optimal -----

  /** Some pairing is part of a cheapest alignment. */
  ghost predicate BestIsAnchored<T>(p: Policy<T>, query: seq<T>, data: seq<T>) {
    exists i: nat, j: nat ::
      i < |query| && j < |data| && AnchoredWed(p, query, data, i, j) == Wed(p, query, data)
  }

  /** Substituting never costs more than deleting and inserting. */
  ghost predicate SubstitutionWithinEdits<T>(p: Policy<T>, query: seq<T>, data: seq<T>) {
    forall a, b :: a in query && b in data ==> p.substitution(a, b) <= p.deletion(a) + p.insertion(b)
  }

  lemma PairedScriptIsAnchored<T>(p: Policy<T>, query: seq<T>, data: seq<T>, s: Script<T>, k: nat)
    requires Aligns(s, query, data) && Cost(p, s) == Wed(p, query, data)
    requires k < |s| && s[k].Pair?
    ensures BestIsAnchored(p, query, data)
  {
    var i, j := |Source(s[..k])|, |Target(s[..k])|;
    assert PairsAt(s, k, i, j);
    hide Source, Target, Cost, Wed;
    NoAnchoredScriptIsCheaper(p, s, i, j);
    AnchoredNeverCheaper(p, query, data, i, j);
  }

  /** Replacing the first deletion and insertion by a pairing costs no more. */
  lemma FirstPairingIsOptimal<T>(p: Policy<T>, query: seq<T>, data: seq<T>)
    requires query != [] && data != []
    requires p.substitution(query[0], data[0]) <= p.deletion(query[0]) + p.insertion(data[0])
    requires Wed(p, query, data) == TotalDeletion(p, query) + TotalInsertion(p, data)
    ensures BestIsAnchored(p, query, data)
  {
    DeletionFromFront(p, query);
    InsertionFromFront(p, data);
    UnpairedIsPossible(p, query[1..], data[1..]);
    assert query[..0] == [] && data[..0] == [];
    AnchoredNeverCheaper(p, query, data, 0, 0);
    assert AnchoredWed(p, query, data, 0, 0) == Wed(p, query, data);
  }

  lemma AnchoringLosesNothing<T>(p: Policy<T>, query: seq<T>, data: seq<T>)
    requires query != [] && data != [] && SubstitutionWithinEdits(p, query, data)
    ensures BestIsAnchored(p, query, data)
  {
    var s := BestScript(p, query, data);
    if k: nat :| k < |s| && s[k].Pair? {
      PairedScriptIsAnchored(p, query, data, s, k);
    } else {
      PairlessCost(p, s);
      assert query[0] in query && data[0] in data;
      FirstPairingIsOptimal(p, query, data);
    }
  }

  /** Anchored measurement is the edit distance on every pair of non-empty
      strings exactly when substituting never costs more than deleting and
      inserting: a single pair of symbols that breaks the inequality is measured
      too high. */
  lemma AnchoringIsExactIff<T(!new)>(p: Policy<T>)
    ensures (forall query: seq<T>, data: seq<T> :: query != [] && data != [] ==> BestIsAnchored(p, query, data))
            <==> forall a: T, b: T :: p.substitution(a, b) <= p.deletion(a) + p.insertion(b)
  {
    if forall a: T, b: T :: p.substitution(a, b) <= p.deletion(a) + p.insertion(b) {
      forall query: seq<T>, data: seq<T> | query != [] && data != []
        ensures BestIsAnchored(p, query, data)
      {
        AnchoringLosesNothing(p, query, data);
      }
    }
    forall a: T, b: T | BestIsAnchored(p, [a], [b])
      ensures p.substitution(a, b) <= p.deletion(a) + p.insertion(b)
    {
      SingleSymbols(p, a, b);
    }
  }

  lemma SingleSymbols<T>(p: Policy<T>, a: T, b: T)
    ensures AnchoredWed(p, [a], [b], 0, 0) == p.substitution(a, b)
    ensures Wed(p, [a], [b]) <= p.deletion(a) + p.insertion(b)
  {
    assert [a][..0] == [] && [b][..0] == [] && [a][1..] == [] && [b][1..] == [];
    UnpairedIsPossible(p, [a], [b]);
    assert TotalDeletion(p, [a]) == p.deletion(a) && TotalInsertion(p, [b]) == p.insertion(b);
  }

  // ----- The two verifiers -----

  /** Once a candidate lies on a cheapest alignment of the segment, the anchored
      answer for it is the edit distance. */
  lemma OptimalAnchorAnswersExactly(
    p: Policy<Symbol>, query: seq<Symbol>, corpus: seq<seq<Symbol>>, candidates: seq<Candidate>, key: Key,
    c: Candidate, d: nat)
    requires c in candidates && Covers(query, corpus, c, key)
    requires Via(p, query, corpus, c, key) == Wed(p, query, corpus[key.0][key.1..key.2])
    ensures IsAnchoredAnswer(p, query, corpus, candidates, key, d) <==>
            d == Wed(p, query, corpus[key.0][key.1..key.2])
  {
    var exact := Wed(p, query, corpus[key.0][key.1..key.2]);
    assert IsLeastVia(p, query, corpus, candidates, key, exact) by {
      forall o | o in candidates && Covers(query, corpus, o, key)
        ensures exact <= Via(p, query, corpus, o, key)
      {
        AnchoredNeverCheaper(p, query, corpus[key.0][key.1..key.2], o.queryPosition, o.stringPosition - key.1);
      }
    }
    LeastViaIsAnchoredAnswer(p, query, corpus, candidates, key, exact);
    if IsAnchoredAnswer(p, query, corpus, candidates, key, d) {
      AnchoredAnswerIsLeastVia(p, query, corpus, candidates, key, d);
    }
  }

  /** The candidates are all the in-bounds anchors. */
  ghost predicate AllAnchors(query: seq<Symbol>, corpus: seq<seq<Symbol>>, candidates: seq<Candidate>) {
    forall c: Candidate :: c in candidates <==> Fits(query, corpus, c)
  }

  /** Within the inequality, some anchor lies on a cheapest alignment. */
  lemma BestAnchor(
    p: Policy<Symbol>, query: seq<Symbol>, corpus: seq<seq<Symbol>>, candidates: seq<Candidate>, key: Key)
    returns (c: Candidate)
    requires query != [] && AllAnchors(query, corpus, candidates)
    requires forall text :: text in corpus ==> SubstitutionWithinEdits(p, query, text)
    requires key.0 < |corpus| && key.1 < key.2 <= |corpus[key.0]|
    ensures c in candidates && c.stringId == key.0 && Covers(query, corpus, c, key)
    ensures Via(p, query, corpus, c, key) == Wed(p, query, corpus[key.0][key.1..key.2])
  {
    hide Wed, AnchoredWed;
    var text := corpus[key.0];
    var segment := text[key.1..key.2];
    assert SubstitutionWithinEdits(p, query, text);
    AnchoringLosesNothing(p, query, segment);
    var i: nat, j: nat :|
      i < |query| && j < |segment| && AnchoredWed(p, query, segment, i, j) == Wed(p, query, segment);
    c := Candidate(key.0, key.1 + j, i);
    assert Fits(query, corpus, c);
  }

  /** Within the inequality and on all anchors, the anchored answer of a segment
      within the bound is its edit distance. */
  lemma AnswersAgree(
    p: Policy<Symbol>, query: seq<Symbol>, corpus: seq<seq<Symbol>>, candidates: seq<Candidate>,
    bound: StrictBound, key: Key, d: nat)
    requires query != [] && AllAnchors(query, corpus, candidates)
    requires forall text :: text in corpus ==> SubstitutionWithinEdits(p, query, text)
    ensures d < bound.limit && IsAnchoredAnswer(p, query, corpus, candidates, key, d) <==>
            IsAnswer(p, query, corpus, bound, Match(key.0, key.1, key.2, d))
    ensures IsAnswer(p, query, corpus, bound, Match(key.0, key.1, key.2, d)) ==>
      exists c :: c in candidates && c.stringId == key.0
  {
    if key.0 < |corpus| && key.1 < key.2 <= |corpus[key.0]| {
      hide *;
      var c := BestAnchor(p, query, corpus, candidates, key);
      OptimalAnchorAnswersExactly(p, query, corpus, candidates, key, c, d);
      AnswerIsWed(p, query, corpus, bound, Match(key.0, key.1, key.2, d));
    }
  }

  /** On all anchors, a non-empty query and costs within the inequality, the two
      verifiers return the same matches: whatever one may report by its contract,
      and whatever the other may, are one list. */
  lemma VerifiersAgree(
    p: Policy<Symbol>, query: seq<Symbol>, corpus: seq<seq<Symbol>>, candidates: seq<Candidate>,
    bound: StrictBound, anchored: seq<Match>, exhaustive: seq<Match>)
    requires query != [] && AllAnchors(query, corpus, candidates)
    requires forall text :: text in corpus ==> SubstitutionWithinEdits(p, query, text)
    requires StrictlyOrdered(anchored) && Reports(p, query, corpus, candidates, bound, anchored)
    requires StrictlyOrdered(exhaustive)
    requires forall m: Match :: m in exhaustive <==>
      IsAnswer(p, query, corpus, bound, m) && exists c :: c in candidates && c.stringId == m.sequenceId
    ensures anchored == exhaustive
  {
    hide IsAnswer, IsAnchoredAnswer, AllAnchors, SubstitutionWithinEdits, StrictlyOrdered;
    forall m: Match
      ensures m in anchored <==> m in exhaustive
    {
      var key := (m.sequenceId, m.start, m.end);
      AnswersAgree(p, query, corpus, candidates, bound, key, m.distance);
      assert m == Match(key.0, key.1, key.2, m.distance);
    }
    ReportsAreUnique(anchored, exhaustive);
  }
}
