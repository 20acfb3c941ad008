/** The search index: its assembly, verification and construction. */
module Engine {
  import opened Wrappers
  import opened Types
  import opened Collections
  import opened Store
  import opened Postings
  import opened Neighborhood
  import opened IndexVerification
  import opened Filtering
  import V = Vocabulary

  datatype SearchEngine<T> = SearchEngine(
    vocabulary: V.Vocabulary<T>, index: PostingsIndex, store: CorpusStore, neighborhood: SubstitutionNeighborhood)
  {
    /** The offset arrays are safe to slice by. */
    ghost predicate StructureFits() {
      store.WellFormed() && index.WellFormed()
    }

    /** The engine holds exactly these data sequences, and its index inverts them. */
    ghost predicate Represents(sequences: seq<seq<T>>) {
      && StructureFits() && vocabulary.Valid()
      && EncodesAll(vocabulary, store.Corpus(), sequences)
      && index.Inverts(store.Corpus(), vocabulary.Len())
      && neighborhood.alphabet == index.Alphabet()
      && store.symbolCount == vocabulary.Len()
    }
  }

  /** String by string, the corpus spells the sequences in vocabulary symbols. */
  ghost predicate EncodesAll<T>(v: V.Vocabulary<T>, corpus: seq<seq<Symbol>>, sequences: seq<seq<T>>) {
    && |corpus| == |sequences|
    && (forall id :: 0 <= id < |corpus| ==> corpus[id] == v.Encode(sequences[id]))
    && (forall id :: 0 <= id < |corpus| ==> forall t :: t in sequences[id] ==> t in v.symbols)
  }

  lemma EncodedSymbolsAreKnown<T>(v: V.Vocabulary<T>, corpus: seq<seq<Symbol>>, sequences: seq<seq<T>>)
    requires v.Valid() && EncodesAll(v, corpus, sequences)
    ensures WithinVocabulary(corpus, v.Len())
    ensures forall id, i :: 0 <= id < |corpus| && 0 <= i < |corpus[id]| ==>
      v.Token(corpus[id][i]) == Some(sequences[id][i])
  {
    forall id, i | 0 <= id < |corpus| && 0 <= i < |corpus[id]|
      ensures corpus[id][i] < v.Len() && v.Token(corpus[id][i]) == Some(sequences[id][i])
    {
      assert sequences[id][i] in sequences[id];
    }
  }

  /** Assembles an engine without looking at corpus and posting payloads. */
  method FromUnverifiedParts<T>(vocabulary: V.Vocabulary<T>, index: PostingsIndex, store: CorpusStore)
    returns (r: Result<SearchEngine<T>>)
    requires index.WellFormed()
    ensures r == Ok(SearchEngine(vocabulary, index, store, SubstitutionNeighborhood(index.Alphabet())))
  {
    var alphabet := index.Alphabet();
    index.AlphabetBelowIsComplete(|index.postingOffsets| - 1);
    var neighborhood := NewNeighborhood(alphabet);
    return Ok(SearchEngine(vocabulary, index, store, neighborhood.value));
  }

  /** Assembles an engine after checking every corpus symbol. */
  method FromParts<T>(vocabulary: V.Vocabulary<T>, index: PostingsIndex, store: CorpusStore)
    returns (r: Result<SearchEngine<T>>)
    requires index.WellFormed() && store.WellFormed()
    ensures r.Ok? ==> r.value == SearchEngine(vocabulary, index, store, SubstitutionNeighborhood(index.Alphabet()))
    ensures r.Ok? <==>
      && store.Len() <= U32_MAX + 1
      && forall symbol :: symbol in store.symbols ==> symbol != UNKNOWN && symbol < store.symbolCount
  {
    var checked := VerifyStore(store);
    if checked.Err? {
      return Err(checked.error);
    }
    r := FromUnverifiedParts(vocabulary, index, store);
  }

  /** The corpus lies in the vocabulary and the index inverts it. */
  ghost predicate Verifies<T>(engine: SearchEngine<T>)
    requires engine.StructureFits()
  {
    && engine.store.Len() <= U32_MAX + 1 && engine.store.symbolCount <= UNKNOWN
    && (forall symbol :: symbol in engine.store.symbols ==> symbol < engine.store.symbolCount)
    && engine.index.Inverts(engine.store.Corpus(), engine.store.symbolCount)
  }

  /** Corpus first, then postings. Accepts exactly the engines whose index is the
      inverted index of their corpus. */
  method Verify<T>(engine: SearchEngine<T>) returns (r: Result<()>)
    requires engine.StructureFits()
    requires |engine.index.postingOffsets| == engine.store.symbolCount + 1
    ensures r.Ok? <==> Verifies(engine)
  {
    var storeChecked := VerifyStore(engine.store);
    if storeChecked.Err? {
      return storeChecked;
    }
    r := VerifyIndex(engine.index, engine.store);
  }

  /** The data sequences a corpus stands for, token by token. */
  ghost function DecodedSequences<T>(v: V.Vocabulary<T>, corpus: seq<seq<Symbol>>): (d: seq<seq<T>>)
    requires WithinVocabulary(corpus, v.Len())
    ensures |d| == |corpus|
    ensures forall id :: 0 <= id < |d| ==> |d[id]| == |corpus[id]|
    ensures forall id, i :: 0 <= id < |d| && 0 <= i < |d[id]| ==> d[id][i] == v.tokens[corpus[id][i]]
  {
    seq(|corpus|, id requires 0 <= id < |corpus| =>
      seq(|corpus[id]|, i requires 0 <= i < |corpus[id]| => v.tokens[corpus[id][i]]))
  }

  lemma CorpusIsKnown(store: CorpusStore, symbolCount: nat)
    requires store.WellFormed() && forall symbol :: symbol in store.symbols ==> symbol < symbolCount
    ensures WithinVocabulary(store.Corpus(), symbolCount)
  {
    var corpus := store.Corpus();
    forall id, i | 0 <= id < |corpus| && 0 <= i < |corpus[id]|
      ensures corpus[id][i] < symbolCount
    {
      assert store.StringWithoutSymbolValidation(id) == Some(corpus[id]);
      assert corpus[id][i] in store.symbols;
    }
  }

  /** What the parts of an assembled engine agree on before any payload is read. */
  ghost predicate Assembled<T>(engine: SearchEngine<T>) {
    && engine.StructureFits() && engine.vocabulary.Valid()
    && |engine.index.postingOffsets| == engine.vocabulary.Len() + 1
    && engine.store.symbolCount == engine.vocabulary.Len()
    && engine.neighborhood == SubstitutionNeighborhood(engine.index.Alphabet())
  }

  /** What a search needs: parts that agree in size, and symbols that are checked,
      once when an owned store was built or on every access to a mapped one.
      Nothing is said about what the postings of a mapped index name. */
  ghost predicate Searchable<T>(engine: SearchEngine<T>) {
    && Assembled(engine)
    && (engine.store.mapped || forall symbol :: symbol in engine.store.symbols ==> symbol < engine.store.symbolCount)
  }

  lemma RepresentingIsSearchable<T>(engine: SearchEngine<T>, sequences: seq<seq<T>>)
    requires engine.Represents(sequences)
    ensures Searchable(engine)
  {
    EncodedSymbolsAreKnown(engine.vocabulary, engine.store.Corpus(), sequences);
    StoredSymbolsAreKnown(engine.store, engine.vocabulary.Len());
  }

  /** Every string a search is given consists of vocabulary symbols, whatever the
      store holds elsewhere. */
  lemma AccessedStringIsKnown<T>(engine: SearchEngine<T>, id: nat)
    requires Searchable(engine) && id < |engine.store.Corpus()|
    requires engine.store.String(id) == Ok(Some(engine.store.Corpus()[id]))
    ensures forall symbol :: symbol in engine.store.Corpus()[id] ==> symbol < engine.vocabulary.Len()
  {
    var text := engine.store.Corpus()[id];
    assert engine.store.StringWithoutSymbolValidation(id) == Some(text);
    if !engine.store.mapped {
      assert forall symbol :: symbol in text ==> symbol in engine.store.symbols;
    }
  }

  /** So is every symbol selection substitutes by. */
  lemma AlphabetIsKnown<T>(engine: SearchEngine<T>)
    requires Searchable(engine)
    ensures forall symbol: Symbol :: symbol in engine.neighborhood.alphabet ==> symbol < engine.vocabulary.Len()
  {
    engine.index.AlphabetBelowIsComplete(engine.vocabulary.Len());
  }

  /** An assembled engine that verifies represents the sequences its corpus
      decodes to, so every search on it is exact. */
  lemma VerifiedEngineRepresents<T>(engine: SearchEngine<T>)
    requires Assembled(engine)
    requires forall symbol :: symbol in engine.store.symbols ==> symbol < engine.store.symbolCount
    requires engine.index.Inverts(engine.store.Corpus(), engine.store.symbolCount)
    ensures WithinVocabulary(engine.store.Corpus(), engine.vocabulary.Len())
    ensures engine.Represents(DecodedSequences(engine.vocabulary, engine.store.Corpus()))
  {
    var v, corpus := engine.vocabulary, engine.store.Corpus();
    CorpusIsKnown(engine.store, v.Len());
    var sequences := DecodedSequences(v, corpus);
    forall id | 0 <= id < |corpus|
      ensures corpus[id] == v.Encode(sequences[id]) && forall t :: t in sequences[id] ==> t in v.symbols
    {
      assert forall i :: 0 <= i < |corpus[id]| ==> v.Symbol(sequences[id][i]) == corpus[id][i];
    }
  }

  /** An engine that verifies has the index its builder would have made. */
  lemma VerifiedIndexIsTheBuiltOne(
    accepted: PostingsIndex, built: PostingsIndex, corpus: seq<seq<Symbol>>, symbolCount: nat,
    added: seq<(Symbol, Posting)>)
    requires accepted.Inverts(corpus, symbolCount) && symbolCount <= UNKNOWN
    requires Indexes(built, symbolCount, added)
    requires forall symbol: Symbol, posting :: symbol < symbolCount ==>
      ((symbol, posting) in added <==> Occurs(corpus, symbol, posting))
    ensures accepted == built
  {
    forall symbol: Symbol, posting | symbol < symbolCount
      ensures posting in built.PostingSlice(symbol) <==> Occurs(corpus, symbol, posting)
    {
      assert posting in built.PostingSlice(symbol) <==> (symbol, posting) in added;
    }
    InvertedIndexIsUnique(accepted, built, corpus, symbolCount);
  }

  // ----- Building -----

  /** The added postings are the occurrences in these strings. */
  ghost predicate PostsExactly(added: seq<(Symbol, Posting)>, corpus: seq<seq<Symbol>>) {
    forall symbol: Symbol, posting :: (symbol, posting) in added <==> Occurs(corpus, symbol, posting)
  }

  /** The added postings are the occurrences in these strings and in the first
      `n` symbols of the next one. */
  ghost predicate PostsPartially(added: seq<(Symbol, Posting)>, corpus: seq<seq<Symbol>>, text: seq<Symbol>, n: nat) {
    forall symbol: Symbol, posting :: (symbol, posting) in added <==>
      Occurs(corpus + [text], symbol, posting) && (posting.stringId == |corpus| ==> posting.position < n)
  }

  lemma NothingPosted<T>(v: V.Vocabulary<T>, added: seq<(Symbol, Posting)>)
    requires added == []
    ensures PostsExactly(added, []) && EncodesAll(v, [], [])
  {
  }

  lemma OneMoreEncoded<T>(v: V.Vocabulary<T>, corpus: seq<seq<Symbol>>, sequences: seq<seq<T>>, sequence: seq<T>)
    requires EncodesAll(v, corpus, sequences) && forall t :: t in sequence ==> t in v.symbols
    ensures EncodesAll(v, corpus + [v.Encode(sequence)], sequences + [sequence])
  {
  }

  /** The distinct tokens of some sequences. */
  ghost function TokensIn<T>(sequences: seq<seq<T>>): set<T> {
    set s, t | s in sequences && t in s :: t
  }

  /** The sequences one after the other. */
  ghost function Joined<T>(sequences: seq<seq<T>>): seq<T> {
    if sequences == [] then [] else Joined(sequences[..|sequences| - 1]) + sequences[|sequences| - 1]
  }

  lemma OneMoreSequence<T>(sequences: seq<seq<T>>, k: nat)
    requires k < |sequences|
    ensures Joined(sequences[..k + 1]) == Joined(sequences[..k]) + sequences[k]
    ensures forall t :: t in TokensIn(sequences[..k + 1]) <==> t in TokensIn(sequences[..k]) || t in sequences[k]
  {
    assert sequences[..k + 1] == sequences[..k] + [sequences[k]];
    assert forall s :: s in sequences[..k + 1] <==> s in sequences[..k] || s == sequences[k];
  }

  class SearchEngineBuilder<T(==, !new)> {
    var sequences: seq<seq<T>>

    /** Identifiers and positions fit their widths. */
    ghost predicate Valid()
      reads this
    {
      |sequences| <= U32_MAX + 1 && forall s :: s in sequences ==> |s| <= U32_MAX
    }

    constructor ()
      ensures Valid() && sequences == []
    {
      sequences := [];
    }

    /** Returns the new identifier, which is the insertion order. */
    method AddSequence(sequence: seq<T>) returns (r: Result<nat>)
      requires Valid()
      modifies this
      ensures Valid()
      ensures r == if |old(sequences)| > U32_MAX then Err(SequenceIdOverflow)
                   else if |sequence| > U32_MAX then Err(PositionOverflow) else Ok(|old(sequences)|)
      ensures sequences == if r.Ok? then old(sequences) + [sequence] else old(sequences)
    {
      var sequenceId := SequenceIdFromUsize(|sequences|);
      if sequenceId.Err? {
        return Err(sequenceId.error);
      }
      var length := PositionFromUsize(|sequence|);
      if length.Err? {
        return Err(length.error);
      }
      r := Ok(|sequences|);
      sequences := sequences + [sequence];
    }

    /** The vocabulary of all added sequences. */
    method BuildVocabulary() returns (r: Result<V.Vocabulary<T>>)
      requires Valid()
      ensures r.Ok? <==> |TokensIn(sequences)| <= UNKNOWN
      ensures r.Ok? ==> r.value.Valid()
      ensures r.Ok? ==> forall s :: s in sequences ==> forall t :: t in s ==> t in r.value.symbols
      ensures r.Ok? ==> V.FrequencyOrder(Joined(sequences), r.value.tokens)
      ensures r.Err? ==> r.error == SymbolOverflow
    {
      hide V.FrequencyOrder, V.FirstSeenOrder;
      var builder := new V.VocabularyBuilder<T>();
      for k := 0 to |sequences|
        invariant builder.Valid() && fresh(builder) && builder.inserted == Joined(sequences[..k])
        invariant forall t :: t in builder.tokens <==> t in TokensIn(sequences[..k])
      {
        builder.InsertAll(sequences[k]);
        OneMoreSequence(sequences, k);
      }
      assert sequences[..|sequences|] == sequences;
      DistinctCardinality(builder.tokens, TokensIn(sequences));
      r := builder.Build();
      if r.Ok? {
        forall s, t | s in sequences && t in s
          ensures t in r.value.symbols
        {
          assert t in builder.tokens && t in r.value.tokens;
        }
      }
    }

    /** Builds the vocabulary, the store and the index of the added sequences.
        Exactly too many distinct tokens fail. */
    method Build() returns (r: Result<SearchEngine<T>>)
      requires Valid()
      ensures r.Ok? <==> |TokensIn(sequences)| <= UNKNOWN
      ensures r.Ok? ==> r.value.Represents(sequences) && !r.value.store.mapped
      ensures r.Ok? ==> V.FrequencyOrder(Joined(sequences), r.value.vocabulary.tokens)
      ensures r.Err? ==> r.error == SymbolOverflow
    {
      hide PostsExactly, EncodesAll, Cut, Indexes, OffsetsFit, V.FrequencyOrder;
      var vocabulary := BuildVocabulary();
      if vocabulary.Err? {
        return Err(vocabulary.error);
      }
      var v := vocabulary.value;
      var indexBuilder := new PostingsIndexBuilder(v.Len());
      var storeBuilder := new CorpusStoreBuilder();
      NothingPosted(v, indexBuilder.postings);
      assert sequences[..0] == [];
      for id := 0 to |sequences|
        invariant Filled(v, sequences[..id], indexBuilder, storeBuilder)
        invariant fresh(indexBuilder) && fresh(storeBuilder)
      {
        assert sequences[id] in sequences;
        AddText(v, sequences[..id], sequences[id], id, indexBuilder, storeBuilder);
        assert sequences[..id + 1] == sequences[..id] + [sequences[id]];
      }
      assert sequences[..|sequences|] == sequences;
      var index := indexBuilder.Build();
      var store := storeBuilder.Build(v.Len());
      r := FinishBuild(v, index, store, sequences, indexBuilder.postings);
    }
  }

  /** The builders hold exactly these sequences. */
  ghost predicate Filled<T>(
    v: V.Vocabulary<T>, sequences: seq<seq<T>>, index: PostingsIndexBuilder, store: CorpusStoreBuilder)
    reads index, store
  {
    && index.Valid() && store.Valid() && index.symbolCount == v.Len()
    && EncodesAll(v, Cut(store.symbols, store.stringOffsets), sequences)
    && PostsExactly(index.postings, Cut(store.symbols, store.stringOffsets))
  }

  /** Encodes one sequence and adds its postings and its string. */
  method AddText<T>(
    v: V.Vocabulary<T>, ghost sequences: seq<seq<T>>, sequence: seq<T>, id: nat, index: PostingsIndexBuilder,
    store: CorpusStoreBuilder)
    requires v.Valid() && Filled(v, sequences, index, store) && id == |sequences| <= U32_MAX
    requires |sequence| <= U32_MAX && forall t :: t in sequence ==> t in v.symbols
    modifies index, store
    ensures Filled(v, sequences + [sequence], index, store)
  {
    hide PostsExactly, Cut;
    var text := v.Encode(sequence);
    ghost var corpus := Cut(store.symbols, store.stringOffsets);
    PostString(v, sequence, id, text, corpus, index);
    store.AddString(text);
    OneMoreEncoded(v, corpus, sequences, sequence);
  }

  /** Adds the postings of one string. */
  method PostString<T>(
    ghost v: V.Vocabulary<T>, ghost sequence: seq<T>, id: nat, text: seq<Symbol>, ghost corpus: seq<seq<Symbol>>,
    builder: PostingsIndexBuilder)
    requires builder.Valid() && v.Valid() && builder.symbolCount == v.Len()
    requires text == v.Encode(sequence) && (forall t :: t in sequence ==> t in v.symbols) && |sequence| <= U32_MAX
    requires id == |corpus| <= U32_MAX && PostsExactly(builder.postings, corpus)
    modifies builder
    ensures builder.Valid() && PostsExactly(builder.postings, corpus + [text])
  {
    for k := 0 to |text|
      invariant builder.Valid()
      invariant PostsPartially(builder.postings, corpus, text, k)
    {
      assert sequence[k] in sequence;
      var position := PositionFromUsize(k);
      var posted := builder.AddPosting(text[k], Posting(id, position.value));
    }
  }

  /** Assembles the finished parts; every symbol is known, so this succeeds. */
  method FinishBuild<T>(
    v: V.Vocabulary<T>, index: PostingsIndex, store: CorpusStore, ghost sequences: seq<seq<T>>,
    ghost added: seq<(Symbol, Posting)>)
    returns (r: Result<SearchEngine<T>>)
    requires v.Valid() && store.WellFormed() && store.symbolCount == v.Len() && |sequences| <= U32_MAX + 1
    requires EncodesAll(v, store.Corpus(), sequences)
    requires Indexes(index, v.Len(), added) && PostsExactly(added, store.Corpus())
    ensures r.Ok? && r.value.Represents(sequences) && r.value.store == store && r.value.vocabulary == v
  {
    EncodedSymbolsAreKnown(v, store.Corpus(), sequences);
    StoredSymbolsAreKnown(store, v.Len());
    forall symbol: Symbol, posting | symbol < v.Len()
      ensures posting in index.PostingSlice(symbol) <==> Occurs(store.Corpus(), symbol, posting)
    {
      assert posting in index.PostingSlice(symbol) <==> (symbol, posting) in added;
    }
    r := FromParts(v, index, store);
  }

  lemma StoredSymbolsAreKnown(store: CorpusStore, symbolCount: nat)
    requires store.WellFormed() && WithinVocabulary(store.Corpus(), symbolCount)
    ensures forall symbol :: symbol in store.symbols ==> symbol < symbolCount
  {
    forall symbol | symbol in store.symbols
      ensures symbol < symbolCount
    {
      var i :| 0 <= i < |store.symbols| && store.symbols[i] == symbol;
      var place := PlaceOf(store, i);
      assert store.StringWithoutSymbolValidation(place.stringId) == Some(store.Corpus()[place.stringId]);
      assert store.Corpus()[place.stringId][place.position] == symbol;
    }
  }
}
