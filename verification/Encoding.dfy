/** Query-local symbols, and token costs seen through them. */
module Encoding {
  import opened Collections
  import opened Wrappers
  import opened Types
  import opened Costs
  import opened EditScripts
  import V = Vocabulary

  /** A query in the vocabulary's symbol space. Tokens the vocabulary does not
      know use symbols from `vocabulary.Len()` on, for this search only. */
  datatype EncodedQuery<T> = EncodedQuery(text: seq<Symbol>, unknownTokens: seq<T>)

  /** The token a symbol stands for during the search. */
  function TokenOf<T>(v: V.Vocabulary<T>, unknownTokens: seq<T>, symbol: Symbol): Option<T> {
    match v.Token(symbol)
    case Some(token) => Some(token)
    case None =>
      if v.Len() <= symbol < v.Len() + |unknownTokens| then Some(unknownTokens[symbol - v.Len()]) else None
  }

  /** The symbols decode to the tokens, position by position. */
  ghost predicate Decodes<T>(v: V.Vocabulary<T>, unknownTokens: seq<T>, text: seq<Symbol>, tokens: seq<T>) {
    |text| == |tokens| && forall i :: 0 <= i < |text| ==> TokenOf(v, unknownTokens, text[i]) == Some(tokens[i])
  }

  /** Query-only tokens: distinct, unknown to the vocabulary, numbered after it. */
  ghost predicate Numbered<T>(v: V.Vocabulary<T>, unknownTokens: seq<T>, unknownSymbols: map<T, Symbol>) {
    && v.Len() + |unknownTokens| <= UNKNOWN
    && (forall i :: 0 <= i < |unknownTokens| ==>
          && v.Symbol(unknownTokens[i]) == UNKNOWN
          && unknownTokens[i] in unknownSymbols && unknownSymbols[unknownTokens[i]] == v.Len() + i)
    && (forall t :: t in unknownSymbols ==>
          && v.Len() <= unknownSymbols[t] < v.Len() + |unknownTokens|
          && unknownTokens[unknownSymbols[t] - v.Len()] == t)
  }

  lemma MoreUnknownTokens<T>(
    v: V.Vocabulary<T>, unknownTokens: seq<T>, token: T, text: seq<Symbol>, tokens: seq<T>)
    requires v.Valid() && Decodes(v, unknownTokens, text, tokens)
    ensures Decodes(v, unknownTokens + [token], text, tokens)
  {
    forall i | 0 <= i < |text|
      ensures TokenOf(v, unknownTokens + [token], text[i]) == Some(tokens[i])
    {
      assert TokenOf(v, unknownTokens, text[i]) == Some(tokens[i]);
    }
  }

  /** Known tokens use vocabulary symbols, unknown ones their temporary symbol. */
  ghost predicate Follows<T>(v: V.Vocabulary<T>, unknownSymbols: map<T, Symbol>, text: seq<Symbol>, query: seq<T>) {
    && |text| == |query|
    && forall i :: 0 <= i < |query| ==>
         if v.Symbol(query[i]) != UNKNOWN then text[i] == v.Symbol(query[i])
         else query[i] in unknownSymbols && text[i] == unknownSymbols[query[i]]
  }

  /** The distinct tokens the vocabulary does not know. */
  ghost function UnknownIn<T>(v: V.Vocabulary<T>, query: seq<T>): set<T> {
    set t | t in query && v.Symbol(t) == UNKNOWN
  }

  lemma UnknownBeyond<T>(v: V.Vocabulary<T>, query: seq<T>, k: nat, known: set<T>)
    requires k < |query| && known == UnknownIn(v, query[..k])
    requires v.Symbol(query[k]) == UNKNOWN && query[k] !in known
    ensures |known| < |UnknownIn(v, query)|
  {
    SubsetCardinality(known + {query[k]}, UnknownIn(v, query));
  }

  /** The temporary symbol of an unknown token, assigned on its first occurrence. */
  method TemporarySymbol<T(==)>(
    v: V.Vocabulary<T>, token: T, unknownTokens: seq<T>, unknownSymbols: map<T, Symbol>,
    ghost text: seq<Symbol>, ghost query: seq<T>)
    returns (r: Result<Symbol>, tokens: seq<T>, symbols: map<T, Symbol>)
    requires v.Valid() && v.Symbol(token) == UNKNOWN && Numbered(v, unknownTokens, unknownSymbols)
    requires Decodes(v, unknownTokens, text, query) && Follows(v, unknownSymbols, text, query)
    requires |unknownTokens| == |unknownSymbols|
    ensures r.Err? ==>
      r.error == SymbolOverflow && v.Len() + |unknownSymbols| == UNKNOWN && token !in unknownSymbols
    ensures r.Ok? ==> Numbered(v, tokens, symbols) && |tokens| == |symbols|
    ensures r.Ok? ==> symbols.Keys == unknownSymbols.Keys + {token}
    ensures r.Ok? ==> token in symbols && symbols[token] == r.value && TokenOf(v, tokens, r.value) == Some(token)
    ensures r.Ok? ==> Decodes(v, tokens, text, query) && Follows(v, symbols, text, query)
  {
    hide Decodes, Follows, TokenOf, Numbered;
    tokens, symbols := unknownTokens, unknownSymbols;
    if token in unknownSymbols {
      NumberedToken(v, unknownTokens, unknownSymbols, token);
      return Ok(unknownSymbols[token]), tokens, symbols;
    }
    NumberedFits(v, unknownTokens, unknownSymbols);
    r := SymbolFromUsize(v.Len() + |unknownTokens|);
    if r.Ok? {
      MoreUnknownTokens(v, unknownTokens, token, text, query);
      MoreUnknownSymbols(v, unknownSymbols, token, r.value, text, query);
      NumberOneMore(v, unknownTokens, unknownSymbols, token);
      symbols := unknownSymbols[token := r.value];
      tokens := unknownTokens + [token];
      NumberedToken(v, tokens, symbols, token);
    }
  }

  lemma NumberedToken<T>(v: V.Vocabulary<T>, unknownTokens: seq<T>, unknownSymbols: map<T, Symbol>, token: T)
    requires Numbered(v, unknownTokens, unknownSymbols) && token in unknownSymbols
    ensures TokenOf(v, unknownTokens, unknownSymbols[token]) == Some(token)
  {
  }

  lemma NumberOneMore<T>(v: V.Vocabulary<T>, unknownTokens: seq<T>, unknownSymbols: map<T, Symbol>, token: T)
    requires Numbered(v, unknownTokens, unknownSymbols) && v.Symbol(token) == UNKNOWN && token !in unknownSymbols
    requires v.Len() + |unknownTokens| < UNKNOWN
    ensures Numbered(v, unknownTokens + [token], unknownSymbols[token := v.Len() + |unknownTokens|])
  {
  }

  lemma MoreUnknownSymbols<T>(
    v: V.Vocabulary<T>, unknownSymbols: map<T, Symbol>, token: T, symbol: Symbol, text: seq<Symbol>, query: seq<T>)
    requires Follows(v, unknownSymbols, text, query) && token !in unknownSymbols
    ensures Follows(v, unknownSymbols[token := symbol], text, query)
  {
  }

  lemma OneMoreSymbol<T>(
    v: V.Vocabulary<T>, unknownTokens: seq<T>, unknownSymbols: map<T, Symbol>, text: seq<Symbol>, query: seq<T>,
    k: nat, symbol: Symbol)
    requires k < |query| && Decodes(v, unknownTokens, text, query[..k]) && Follows(v, unknownSymbols, text, query[..k])
    requires TokenOf(v, unknownTokens, symbol) == Some(query[k])
    requires if v.Symbol(query[k]) != UNKNOWN then symbol == v.Symbol(query[k])
             else query[k] in unknownSymbols && symbol == unknownSymbols[query[k]]
    ensures Decodes(v, unknownTokens, text + [symbol], query[..k + 1])
    ensures Follows(v, unknownSymbols, text + [symbol], query[..k + 1])
    ensures UnknownIn(v, query[..k + 1]) ==
            UnknownIn(v, query[..k]) + if v.Symbol(query[k]) == UNKNOWN then {query[k]} else {}
  {
    assert query[..k + 1] == query[..k] + [query[k]];
  }

  lemma EncodedSymbolRanges<T>(
    v: V.Vocabulary<T>, unknownTokens: seq<T>, unknownSymbols: map<T, Symbol>, text: seq<Symbol>, query: seq<T>)
    requires v.Valid() && Numbered(v, unknownTokens, unknownSymbols) && Follows(v, unknownSymbols, text, query)
    ensures forall i :: 0 <= i < |query| ==>
      if v.Symbol(query[i]) != UNKNOWN then text[i] == v.Symbol(query[i]) else v.Len() <= text[i] < UNKNOWN
  {
  }

  /** One temporary symbol per distinct unknown token. */
  method Encode<T(==)>(query: seq<T>, v: V.Vocabulary<T>) returns (r: Result<EncodedQuery<T>>)
    requires v.Valid()
    ensures r.Ok? ==> Decodes(v, r.value.unknownTokens, r.value.text, query)
    ensures r.Ok? ==> forall i :: 0 <= i < |query| ==>
      if v.Symbol(query[i]) != UNKNOWN then r.value.text[i] == v.Symbol(query[i])
      else v.Len() <= r.value.text[i] < UNKNOWN
    ensures r.Ok? ==> forall i, j :: 0 <= i < |query| && 0 <= j < |query| ==>
      (r.value.text[i] == r.value.text[j] <==> query[i] == query[j])
    ensures r.Ok? <==> v.Len() + |UnknownIn(v, query)| <= UNKNOWN
    ensures r.Err? ==> r.error == SymbolOverflow
  {
    var text: seq<Symbol> := [];
    var unknownTokens: seq<T> := [];
    var unknownSymbols: map<T, Symbol> := map[];
    assert Numbered(v, unknownTokens, unknownSymbols) && UnknownIn(v, query[..0]) == {};
    assert Decodes(v, unknownTokens, text, query[..0]) && Follows(v, unknownSymbols, text, query[..0]);
    hide Numbered, Decodes, Follows, UnknownIn;
    for k := 0 to |query|
      invariant Numbered(v, unknownTokens, unknownSymbols) && |unknownTokens| == |unknownSymbols|
      invariant unknownSymbols.Keys == UnknownIn(v, query[..k])
      invariant Decodes(v, unknownTokens, text, query[..k]) && Follows(v, unknownSymbols, text, query[..k])
    {
      var symbol := v.Symbol(query[k]);
      if symbol == UNKNOWN {
        ghost var before := unknownSymbols;
        var temporary;
        temporary, unknownTokens, unknownSymbols :=
          TemporarySymbol(v, query[k], unknownTokens, unknownSymbols, text, query[..k]);
        if temporary.Err? {
          assert |before| == |before.Keys|;
          UnknownBeyond(v, query, k, before.Keys);
          return Err(temporary.error);
        }
        symbol := temporary.value;
      }
      OneMoreSymbol(v, unknownTokens, unknownSymbols, text, query, k, symbol);
      text := text + [symbol];
    }
    assert query[..|query|] == query && |unknownSymbols| == |unknownSymbols.Keys|;
    EncodedSymbolRanges(v, unknownTokens, unknownSymbols, text, query);
    SameSymbolIffSameToken(v, unknownTokens, unknownSymbols, text, query);
    NumberedFits(v, unknownTokens, unknownSymbols);
    return Ok(EncodedQuery(text, unknownTokens));
  }

  lemma NumberedFits<T>(v: V.Vocabulary<T>, unknownTokens: seq<T>, unknownSymbols: map<T, Symbol>)
    requires Numbered(v, unknownTokens, unknownSymbols)
    ensures v.Len() + |unknownTokens| <= UNKNOWN
  {
  }

  lemma SameSymbolIffSameToken<T>(
    v: V.Vocabulary<T>, unknownTokens: seq<T>, unknownSymbols: map<T, Symbol>, text: seq<Symbol>, query: seq<T>)
    requires v.Valid() && Numbered(v, unknownTokens, unknownSymbols) && Decodes(v, unknownTokens, text, query)
    requires Follows(v, unknownSymbols, text, query)
    ensures forall i, j :: 0 <= i < |query| && 0 <= j < |query| ==> (text[i] == text[j] <==> query[i] == query[j])
  {
    forall i, j | 0 <= i < |query| && 0 <= j < |query| && text[i] == text[j]
      ensures query[i] == query[j]
    {
      assert TokenOf(v, unknownTokens, text[i]) == Some(query[i]);
      assert TokenOf(v, unknownTokens, text[j]) == Some(query[j]);
    }
  }

  // ----- Costs -----

  function SubstitutionOf<T>(p: Policy<T>, from: Option<T>, to: Option<T>): nat {
    match (from, to)
    case (Some(a), Some(b)) => p.substitution(a, b)
    case _ => 0
  }

  function DeletionOf<T>(p: Policy<T>, token: Option<T>): nat {
    match token
    case Some(a) => p.deletion(a)
    case None => 0
  }

  function InsertionOf<T>(p: Policy<T>, token: Option<T>): nat {
    match token
    case Some(b) => p.insertion(b)
    case None => 0
  }

  /** Token costs as symbol costs. A symbol that stands for no token, where the
      library would panic, is given cost zero; searches never use one. */
  function EncodedCosts<T>(p: Policy<T>, v: V.Vocabulary<T>, unknownTokens: seq<T>): Policy<Symbol> {
    Policy(
      (from: Symbol, to: Symbol) => SubstitutionOf(p, TokenOf(v, unknownTokens, from), TokenOf(v, unknownTokens, to)),
      (symbol: Symbol) => DeletionOf(p, TokenOf(v, unknownTokens, symbol)),
      (symbol: Symbol) => InsertionOf(p, TokenOf(v, unknownTokens, symbol)),
      p.max)
  }

  lemma EncodedStepCosts<T>(
    p: Policy<T>, v: V.Vocabulary<T>, unknownTokens: seq<T>, a: Symbol, b: Symbol, from: T, to: T)
    requires TokenOf(v, unknownTokens, a) == Some(from) && TokenOf(v, unknownTokens, b) == Some(to)
    ensures var e := EncodedCosts(p, v, unknownTokens);
            && e.substitution(a, b) == p.substitution(from, to)
            && e.deletion(a) == p.deletion(from) && e.insertion(b) == p.insertion(to)
  {
  }

  lemma SameLength<T>(v: V.Vocabulary<T>, unknownTokens: seq<T>, text: seq<Symbol>, tokens: seq<T>)
    requires Decodes(v, unknownTokens, text, tokens)
    ensures |text| == |tokens|
  {
  }

  lemma DecodesPrefix<T>(v: V.Vocabulary<T>, unknownTokens: seq<T>, text: seq<Symbol>, tokens: seq<T>)
    requires Decodes(v, unknownTokens, text, tokens) && text != []
    ensures |text| == |tokens| && Decodes(v, unknownTokens, text[..|text| - 1], tokens[..|tokens| - 1])
    ensures TokenOf(v, unknownTokens, text[|text| - 1]) == Some(tokens[|tokens| - 1])
  {
  }

  /** Encoding preserves the distance. */
  lemma {:induction false} EncodingPreservesWed<T>(
    p: Policy<T>, v: V.Vocabulary<T>, unknownTokens: seq<T>,
    text: seq<Symbol>, data: seq<Symbol>, query: seq<T>, segment: seq<T>)
    requires Decodes(v, unknownTokens, text, query) && Decodes(v, unknownTokens, data, segment)
    ensures Wed(EncodedCosts(p, v, unknownTokens), text, data) == Wed(p, query, segment)
    decreases |text| + |data|
  {
    hide *;
    var m, n, e := |text|, |data|, EncodedCosts(p, v, unknownTokens);
    SameLength(v, unknownTokens, text, query);
    SameLength(v, unknownTokens, data, segment);
    if m != 0 {
      DecodesPrefix(v, unknownTokens, text, query);
      EncodedStepCosts(p, v, unknownTokens, text[m - 1], text[m - 1], query[m - 1], query[m - 1]);
      EncodingPreservesWed(p, v, unknownTokens, text[..m - 1], data, query[..m - 1], segment);
    }
    if n != 0 {
      DecodesPrefix(v, unknownTokens, data, segment);
      EncodedStepCosts(p, v, unknownTokens, data[n - 1], data[n - 1], segment[n - 1], segment[n - 1]);
      EncodingPreservesWed(p, v, unknownTokens, text, data[..n - 1], query, segment[..n - 1]);
    }
    if m == 0 && n == 0 {
      WedOfNothing(e);
      WedOfNothing(p);
    } else if n == 0 {
      WedLastDeletion(e, text);
      WedLastDeletion(p, query);
    } else if m == 0 {
      WedLastInsertion(e, data);
      WedLastInsertion(p, segment);
    } else {
      EncodedStepCosts(p, v, unknownTokens, text[m - 1], data[n - 1], query[m - 1], segment[n - 1]);
      EncodingPreservesWed(p, v, unknownTokens, text[..m - 1], data[..n - 1], query[..m - 1], segment[..n - 1]);
      WedLastStep(e, text, data);
      WedLastStep(p, query, segment);
    }
  }

  lemma DecodesLast<T>(
    v: V.Vocabulary<T>, unknownTokens: seq<T>, init: seq<Symbol>, last: seq<Symbol>, tokens: seq<T>)
    requires Decodes(v, unknownTokens, init + last, tokens)
    ensures |tokens| == |init| + |last|
    ensures Decodes(v, unknownTokens, init, tokens[..|init|]) && Decodes(v, unknownTokens, last, tokens[|init|..])
    ensures tokens[..|init|] + tokens[|init|..] == tokens
  {
    forall i | 0 <= i < |init|
      ensures TokenOf(v, unknownTokens, init[i]) == Some(tokens[i])
    {
      assert (init + last)[i] == init[i];
    }
    forall i | 0 <= i < |last|
      ensures TokenOf(v, unknownTokens, last[i]) == Some(tokens[|init| + i])
    {
      assert (init + last)[|init| + i] == last[i];
    }
  }

  /** The step over tokens that a step over symbols stands for. */
  lemma DecodedStep<T>(
    p: Policy<T>, v: V.Vocabulary<T>, unknownTokens: seq<T>, step: Step<Symbol>, from: seq<T>, to: seq<T>)
    returns (decoded: Step<T>)
    requires Decodes(v, unknownTokens, StepSource(step), from) && Decodes(v, unknownTokens, StepTarget(step), to)
    ensures StepSource(decoded) == from && StepTarget(decoded) == to
    ensures StepCost(p, decoded) == StepCost(EncodedCosts(p, v, unknownTokens), step)
  {
    match step {
      case Pair(a, b) =>
        EncodedStepCosts(p, v, unknownTokens, a, b, from[0], to[0]);
        decoded := Pair(from[0], to[0]);
      case Delete(a) =>
        EncodedStepCosts(p, v, unknownTokens, a, a, from[0], from[0]);
        decoded := Delete(from[0]);
      case Insert(b) =>
        EncodedStepCosts(p, v, unknownTokens, b, b, to[0], to[0]);
        decoded := Insert(to[0]);
    }
  }

  /** Every script over symbols that stand for tokens is a script over the tokens,
      of the same cost. */
  lemma {:induction false} DecodedScript<T>(
    p: Policy<T>, v: V.Vocabulary<T>, unknownTokens: seq<T>, s: Script<Symbol>, query: seq<T>, segment: seq<T>)
    returns (decoded: Script<T>)
    requires Decodes(v, unknownTokens, Source(s), query) && Decodes(v, unknownTokens, Target(s), segment)
    ensures Aligns(decoded, query, segment) && Cost(p, decoded) == Cost(EncodedCosts(p, v, unknownTokens), s)
    decreases |s|
  {
    hide Decodes, EncodedCosts, StepSource, StepTarget, StepCost;
    if s == [] {
      SameLength(v, unknownTokens, Source(s), query);
      SameLength(v, unknownTokens, Target(s), segment);
      return [];
    }
    var init, last := s[..|s| - 1], s[|s| - 1];
    var from, to := |Source(init)|, |Target(init)|;
    DecodesLast(v, unknownTokens, Source(init), StepSource(last), query);
    DecodesLast(v, unknownTokens, Target(init), StepTarget(last), segment);
    decoded := DecodedScript(p, v, unknownTokens, init, query[..from], segment[..to]);
    var step := DecodedStep(p, v, unknownTokens, last, query[from..], segment[to..]);
    Appended(p, decoded, step);
    decoded := decoded + [step];
  }

  /** The least script cost over symbols is the least script cost over tokens. */
  lemma EncodingPreservesDistance<T(!new)>(
    p: Policy<T>, v: V.Vocabulary<T>, unknownTokens: seq<T>,
    text: seq<Symbol>, data: seq<Symbol>, query: seq<T>, segment: seq<T>, d: nat)
    requires Decodes(v, unknownTokens, text, query) && Decodes(v, unknownTokens, data, segment)
    ensures IsDistance(EncodedCosts(p, v, unknownTokens), text, data, d) <==> IsDistance(p, query, segment, d)
  {
    hide Wed;
    var encoded := EncodedCosts(p, v, unknownTokens);
    EncodingPreservesWed(p, v, unknownTokens, text, data, query, segment);
    WedIsDistance(p, query, segment);
    WedIsDistance(encoded, text, data);
    hide IsDistance;
    if IsDistance(encoded, text, data, d) {
      DistanceIsUnique(encoded, text, data, d, Wed(encoded, text, data));
    }
    if IsDistance(p, query, segment, d) {
      DistanceIsUnique(p, query, segment, d, Wed(p, query, segment));
    }
  }
}
