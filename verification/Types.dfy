/** Identifiers of the index and the records a search exchanges. */
module Types {
  import opened Wrappers

  const U32_MAX: nat := 0xFFFF_FFFF

  /** The largest `usize` and `u64` of a 64-bit host. */
  const USIZE_MAX: nat := 0xFFFF_FFFF_FFFF_FFFF

  type Symbol = nat

  /** Reserved for tokens absent from a vocabulary. */
  const UNKNOWN: Symbol := U32_MAX

  function SymbolFromUsize(value: nat): Result<Symbol> {
    if value >= UNKNOWN then Err(SymbolOverflow) else Ok(value)
  }

  function SequenceIdFromUsize(value: nat): Result<nat> {
    if value > U32_MAX then Err(SequenceIdOverflow) else Ok(value)
  }

  function PositionFromUsize(value: nat): Result<nat> {
    if value > U32_MAX then Err(PositionOverflow) else Ok(value)
  }

  datatype Posting = Posting(stringId: nat, position: nat)

  /** An anchor: a query position paired with a data position. */
  datatype Candidate = Candidate(stringId: nat, stringPosition: nat, queryPosition: nat)

  /** A reported segment `start..end` of a data sequence. */
  datatype Match = Match(sequenceId: nat, start: nat, end: nat, distance: nat)

  /** Three numbers compared left to right. */
  type Key = (nat, nat, nat)

  predicate KeyLeq(a: Key, b: Key) {
    a.0 < b.0 || (a.0 == b.0 && (a.1 < b.1 || (a.1 == b.1 && a.2 <= b.2)))
  }
}
