/** The flat corpus store: all symbols in one array, cut by offsets. */
module Store {
  import opened Wrappers
  import opened Types

  /** Offsets run monotonically from zero to the payload length. */
  ghost predicate OffsetsFit(offsets: seq<nat>, payloadLen: nat) {
    && |offsets| >= 1 && offsets[0] == 0 && offsets[|offsets| - 1] == payloadLen
    && forall i, j :: 0 <= i <= j < |offsets| ==> offsets[i] <= offsets[j]
  }

  /** The strings the offsets cut out of the symbols. */
  ghost function Cut(symbols: seq<Symbol>, offsets: seq<nat>): (c: seq<seq<Symbol>>)
    requires OffsetsFit(offsets, |symbols|)
    ensures |c| == |offsets| - 1
    ensures forall id :: 0 <= id < |c| ==> c[id] == symbols[offsets[id]..offsets[id + 1]]
  {
    seq(|offsets| - 1, id requires 0 <= id < |offsets| - 1 => symbols[offsets[id]..offsets[id + 1]])
  }

  lemma AppendedCut(symbols: seq<Symbol>, offsets: seq<nat>, text: seq<Symbol>)
    requires OffsetsFit(offsets, |symbols|)
    ensures OffsetsFit(offsets + [|symbols + text|], |symbols + text|)
    ensures Cut(symbols + text, offsets + [|symbols + text|]) == Cut(symbols, offsets) + [text]
  {
    var more, after := symbols + text, offsets + [|symbols + text|];
    forall id | 0 <= id < |offsets| - 1
      ensures more[after[id]..after[id + 1]] == symbols[offsets[id]..offsets[id + 1]]
    {
      assert offsets[id] <= offsets[id + 1] <= offsets[|offsets| - 1];
    }
    assert more[after[|offsets| - 1]..after[|offsets|]] == text;
  }

  class CorpusStoreBuilder {
    var symbols: seq<Symbol>
    var stringOffsets: seq<nat>

    ghost predicate Valid()
      reads this
    {
      OffsetsFit(stringOffsets, |symbols|)
    }

    constructor ()
      ensures Valid() && Cut(symbols, stringOffsets) == []
    {
      symbols := [];
      stringOffsets := [0];
    }

    method AddString(text: seq<Symbol>)
      requires Valid()
      modifies this
      ensures Valid() && Cut(symbols, stringOffsets) == old(Cut(symbols, stringOffsets)) + [text]
    {
      AppendedCut(symbols, stringOffsets, text);
      symbols := symbols + text;
      stringOffsets := stringOffsets + [|symbols|];
    }

    method Build(symbolCount: nat) returns (store: CorpusStore)
      requires Valid()
      ensures store.WellFormed() && store.Corpus() == Cut(symbols, stringOffsets)
      ensures store.symbols == symbols && store.symbolCount == symbolCount && !store.mapped
    {
      store := CorpusStore(symbols, stringOffsets, symbolCount, false);
    }
  }

  /** `symbol` is the first of the string that no vocabulary of this size has. */
  ghost predicate FirstUnknown(s: seq<Symbol>, symbolCount: nat, symbol: Symbol) {
    exists i :: 0 <= i < |s| && s[i] == symbol && (symbol == UNKNOWN || symbolCount <= symbol)
      && forall j :: 0 <= j < i ==> s[j] != UNKNOWN && s[j] < symbolCount
  }

  datatype CorpusStore = CorpusStore(symbols: seq<Symbol>, stringOffsets: seq<nat>, symbolCount: nat, mapped: bool) {

    ghost predicate WellFormed() {
      OffsetsFit(stringOffsets, |symbols|)
    }

    function Len(): int {
      |stringOffsets| - 1
    }

    function StringBounds(id: nat): Option<(nat, nat)> {
      if id + 1 < |stringOffsets| then Some((stringOffsets[id], stringOffsets[id + 1])) else None
    }

    function StringWithoutSymbolValidation(id: nat): Option<seq<Symbol>>
      requires WellFormed()
    {
      match StringBounds(id)
      case None => None
      case Some((start, end)) => Some(symbols[start..end])
    }

    /** The strings themselves, in identifier order. */
    ghost function Corpus(): (c: seq<seq<Symbol>>)
      requires WellFormed()
      ensures |c| == Len()
      ensures forall id: nat :: StringWithoutSymbolValidation(id) == if id < |c| then Some(c[id]) else None
    {
      Cut(symbols, stringOffsets)
    }

    /** The error of the first symbol outside the vocabulary, if there is one. */
    function ValidateSymbols(s: seq<Symbol>): (r: Result<()>)
      ensures r.Ok? <==> forall symbol :: symbol in s ==> symbol != UNKNOWN && symbol < symbolCount
      ensures r.Err? ==>
        r.error.UnknownStringSymbol? && FirstUnknown(s, symbolCount, r.error.symbol)
    {
      if s == [] then Ok(())
      else if s[0] == UNKNOWN || s[0] >= symbolCount then
        assert s[0] in s;
        Err(UnknownStringSymbol(s[0]))
      else
        assert forall symbol :: symbol in s <==> symbol == s[0] || symbol in s[1..];
        ValidateSymbols(s[1..])
    }

    /** The string `id`; a mapped store checks its symbols on every access. */
    function String(id: nat): Result<Option<seq<Symbol>>>
      requires WellFormed()
    {
      match StringWithoutSymbolValidation(id)
      case None => Ok(None)
      case Some(s) =>
        if mapped then
          match ValidateSymbols(s)
          case Err(e) => Err(e)
          case Ok(_) => Ok(Some(s))
        else Ok(Some(s))
    }
  }
}
