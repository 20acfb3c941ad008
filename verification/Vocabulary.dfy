/** The bijection between the distinct data tokens and compact symbols. */
module Vocabulary {
  import opened Wrappers
  import opened Types
  import opened Collections
  import opened Sorting

  datatype Vocabulary<T> = Vocabulary(tokens: seq<T>, symbols: map<T, Symbol>) {

    /** Tokens and symbols are each other's inverses. */
    ghost predicate Valid() {
      |tokens| <= UNKNOWN && Numbers(tokens, |tokens|, symbols)
    }

    function Len(): nat {
      |tokens|
    }

    function Symbol(token: T): Symbol {
      if token in symbols then symbols[token] else UNKNOWN
    }

    function Token(symbol: Symbol): Option<T> {
      if symbol == UNKNOWN || symbol >= |tokens| then None else Some(tokens[symbol])
    }

    function Encode(sequence: seq<T>): (r: seq<Symbol>)
      ensures |r| == |sequence| && forall i :: 0 <= i < |r| ==> r[i] == Symbol(sequence[i])
    {
      seq(|sequence|, i requires 0 <= i < |sequence| => Symbol(sequence[i]))
    }
  }

  /** Symbol and token lookups undo each other. */
  lemma LookupsAreInverse<T>(v: Vocabulary<T>, token: T, symbol: Symbol)
    requires v.Valid()
    ensures v.Symbol(token) == symbol && symbol != UNKNOWN <==> v.Token(symbol) == Some(token)
  {
  }

  /** The map that numbers the first `n` tokens. */
  ghost predicate Numbers<T>(tokens: seq<T>, n: nat, symbols: map<T, Symbol>)
    requires n <= |tokens|
  {
    && (forall i :: 0 <= i < n ==> tokens[i] in symbols && symbols[tokens[i]] == i)
    && (forall t :: t in symbols ==> symbols[t] < n && tokens[symbols[t]] == t)
  }

  /** Maps each token to its index; fails beyond the symbol range. */
  method AssignSymbols<T(==)>(tokens: seq<T>) returns (r: Result<map<T, Symbol>>)
    requires Distinct(tokens)
    ensures r.Ok? <==> |tokens| <= UNKNOWN
    ensures r.Err? ==> r.error == SymbolOverflow
    ensures r.Ok? ==> Numbers(tokens, |tokens|, r.value)
  {
    var symbols: map<T, Symbol> := map[];
    for index := 0 to |tokens|
      invariant index <= UNKNOWN
      invariant Numbers(tokens, index, symbols)
    {
      var symbol := SymbolFromUsize(index);
      if symbol.Err? {
        return Err(symbol.error);
      }
      symbols := symbols[tokens[index] := symbol.value];
    }
    return Ok(symbols);
  }

  function Frequency<T>(frequencies: map<T, nat>, token: T): nat {
    if token in frequencies then frequencies[token] else 0
  }

  /** Frequent tokens first. */
  function ByFrequency<T(==)>(frequencies: map<T, nat>): (T, T) -> bool {
    (a, b) => Frequency(frequencies, a) >= Frequency(frequencies, b)
  }

  /** The first occurrence of `a` precedes every occurrence of `b`. */
  ghost predicate SeenBefore<T>(inserted: seq<T>, a: T, b: T) {
    exists i :: 0 <= i < |inserted| && inserted[i] == a && b !in inserted[..i + 1]
  }

  /** The order the library promises: the more frequent token first, and of two
      equally frequent ones the one seen first. */
  ghost predicate FrequencyOrder<T>(inserted: seq<T>, tokens: seq<T>) {
    forall i, j :: 0 <= i < j < |tokens| ==>
      var more, less := multiset(inserted)[tokens[i]], multiset(inserted)[tokens[j]];
      less < more || (less == more && SeenBefore(inserted, tokens[i], tokens[j]))
  }

  ghost predicate FirstSeenOrder<T>(inserted: seq<T>, tokens: seq<T>) {
    forall i, j :: 0 <= i < j < |tokens| ==> SeenBefore(inserted, tokens[i], tokens[j])
  }

  lemma SeenBeforeStays<T>(inserted: seq<T>, token: T, a: T, b: T)
    requires SeenBefore(inserted, a, b)
    ensures SeenBefore(inserted + [token], a, b)
  {
    var i :| 0 <= i < |inserted| && inserted[i] == a && b !in inserted[..i + 1];
    assert (inserted + [token])[..i + 1] == inserted[..i + 1];
  }

  lemma SeenBeforeNew<T>(inserted: seq<T>, token: T, a: T)
    requires a in inserted && token !in inserted
    ensures SeenBefore(inserted + [token], a, token)
  {
    var i :| 0 <= i < |inserted| && inserted[i] == a;
    assert (inserted + [token])[..i + 1] == inserted[..i + 1];
  }

  lemma OneMoreSeen<T>(inserted: seq<T>, tokens: seq<T>, token: T)
    requires FirstSeenOrder(inserted, tokens) && forall t :: t in tokens <==> t in inserted
    ensures FirstSeenOrder(inserted + [token], tokens)
    ensures token !in tokens ==> FirstSeenOrder(inserted + [token], tokens + [token])
  {
    hide SeenBefore;
    forall i, j | 0 <= i < j < |tokens|
      ensures SeenBefore(inserted + [token], tokens[i], tokens[j])
    {
      SeenBeforeStays(inserted, token, tokens[i], tokens[j]);
    }
    if token !in tokens {
      forall i | 0 <= i < |tokens|
        ensures SeenBefore(inserted + [token], tokens[i], token)
      {
        assert tokens[i] in tokens;
        SeenBeforeNew(inserted, token, tokens[i]);
      }
    }
  }

  class VocabularyBuilder<T(==, !new)> {
    var tokens: seq<T>
    var frequencies: map<T, nat>

    /** Everything inserted so far, in order. */
    ghost var inserted: seq<T>

    /** Each distinct token once, in first-seen order, with its number of
        occurrences. */
    ghost predicate Valid()
      reads this
    {
      && Distinct(tokens)
      && (forall t :: t in tokens <==> t in frequencies)
      && (forall t :: t in tokens <==> t in inserted)
      && (forall t :: Frequency(frequencies, t) == multiset(inserted)[t])
      && FirstSeenOrder(inserted, tokens)
    }

    constructor ()
      ensures Valid() && tokens == [] && frequencies == map[] && inserted == []
    {
      tokens := [];
      frequencies := map[];
      inserted := [];
    }

    method Insert(token: T)
      requires Valid()
      modifies this
      ensures Valid()
      ensures tokens == if token in old(tokens) then old(tokens) else old(tokens) + [token]
      ensures forall t :: Frequency(frequencies, t) == Frequency(old(frequencies), t) + if t == token then 1 else 0
      ensures inserted == old(inserted) + [token]
    {
      hide FirstSeenOrder;
      OneMoreSeen(inserted, tokens, token);
      inserted := inserted + [token];
      if token in frequencies {
        frequencies := frequencies[token := frequencies[token] + 1];
      } else {
        tokens := tokens + [token];
        frequencies := frequencies[token := 1];
      }
    }

    method InsertAll(more: seq<T>)
      requires Valid()
      modifies this
      ensures Valid()
      ensures forall t :: t in tokens <==> t in old(tokens) || t in more
      ensures forall t :: Frequency(frequencies, t) == Frequency(old(frequencies), t) + multiset(more)[t]
      ensures inserted == old(inserted) + more
    {
      hide FirstSeenOrder;
      for k := 0 to |more|
        invariant Valid() && inserted == old(inserted) + more[..k]
        invariant forall t :: t in tokens <==> t in old(tokens) || t in more[..k]
        invariant forall t :: Frequency(frequencies, t) == Frequency(old(frequencies), t) + multiset(more[..k])[t]
      {
        assert more[..k + 1] == more[..k] + [more[k]];
        Insert(more[k]);
      }
      assert more[..|more|] == more;
    }

    /** Consecutive symbols by descending frequency, first-seen order among equals. */
    method Build() returns (r: Result<Vocabulary<T>>)
      requires Valid()
      ensures r.Ok? <==> |tokens| <= UNKNOWN
      ensures r.Err? ==> r.error == SymbolOverflow
      ensures r.Ok? ==> r.value.Valid() && r.value.tokens == Sort(ByFrequency(frequencies), tokens)
      ensures r.Ok? ==> forall t :: t in r.value.tokens <==> t in tokens
      ensures r.Ok? ==> FrequencyOrder(inserted, r.value.tokens)
    {
      hide FirstSeenOrder, Sort, FrequencyOrder;
      SortedByFrequency(inserted, frequencies, tokens);
      var sorted := Sort(ByFrequency(frequencies), tokens);
      SortIsSorted(ByFrequency(frequencies), tokens);
      PermutationStaysDistinct(tokens, sorted);
      var symbols := AssignSymbols(sorted);
      if symbols.Err? {
        return Err(symbols.error);
      }
      return Ok(Vocabulary(sorted, symbols.value));
    }
  }

  /** Sorting stably by frequency gives the promised order. */
  lemma SortedByFrequency<T(!new)>(inserted: seq<T>, frequencies: map<T, nat>, tokens: seq<T>)
    requires Distinct(tokens) && forall t :: Frequency(frequencies, t) == multiset(inserted)[t]
    requires FirstSeenOrder(inserted, tokens)
    ensures FrequencyOrder(inserted, Sort(ByFrequency(frequencies), tokens))
  {
    hide SeenBefore, Sort;
    var leq := ByFrequency(frequencies);
    var sorted := Sort(leq, tokens);
    forall i, j | 0 <= i < j < |sorted|
      ensures var more, less := multiset(inserted)[sorted[i]], multiset(inserted)[sorted[j]];
              less < more || (less == more && SeenBefore(inserted, sorted[i], sorted[j]))
    {
      var a, b := sorted[i], sorted[j];
      VocabularyOrder(frequencies, tokens, a);
      if multiset(inserted)[a] == multiset(inserted)[b] {
        assert Before(sorted, a, b);
        ClassKeepsOrder(leq, a, sorted, a, b);
        ClassKeepsOrder(leq, a, tokens, a, b);
      }
    }
  }

  /** Vocabulary order: frequent tokens first, and stable among equals. */
  lemma VocabularyOrder<T(!new)>(frequencies: map<T, nat>, tokens: seq<T>, token: T)
    ensures var sorted := Sort(ByFrequency(frequencies), tokens);
            && (forall i, j :: 0 <= i < j < |sorted| ==>
                  Frequency(frequencies, sorted[j]) <= Frequency(frequencies, sorted[i]))
            && Class(ByFrequency(frequencies), token, sorted) == Class(ByFrequency(frequencies), token, tokens)
  {
    SortIsSorted(ByFrequency(frequencies), tokens);
    SortIsStable(ByFrequency(frequencies), token, tokens);
    var sorted := Sort(ByFrequency(frequencies), tokens);
    forall i, j | 0 <= i < j < |sorted|
      ensures Frequency(frequencies, sorted[j]) <= Frequency(frequencies, sorted[i])
    {
      assert ByFrequency(frequencies)(sorted[i], sorted[j]);
    }
  }

  /** Rebuilds the symbols from persisted tokens; duplicates are rejected. */
  method FromTokens<T(==)>(tokens: seq<T>) returns (r: Result<Vocabulary<T>>)
    ensures r.Ok? <==> |tokens| <= UNKNOWN && Distinct(tokens)
    ensures r.Ok? ==> r.value.Valid() && r.value.tokens == tokens
  {
    var symbols: map<T, Symbol> := map[];
    for index := 0 to |tokens|
      invariant index <= UNKNOWN
      invariant Distinct(tokens[..index])
      invariant Numbers(tokens, index, symbols)
    {
      var symbol := SymbolFromUsize(index);
      if symbol.Err? {
        return Err(symbol.error);
      }
      if tokens[index] in symbols {
        return Err(InvalidFile("decoded vocabulary contains duplicate tokens"));
      }
      symbols := symbols[tokens[index] := symbol.value];
    }
    return Ok(Vocabulary(tokens, symbols));
  }
}
