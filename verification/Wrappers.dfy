/** The error type of the library, and failure-compatible result types. */
module Wrappers {

  datatype Option<+T> = None | Some(value: T)

  /** One case per error the modelled operations report. */
  datatype Error =
    | InvalidCost
    | InvalidThreshold
    | ThresholdSubsequenceUnavailable
    | SearchTooExpensive(candidates: nat, limit: nat)
    | UnknownString(id: nat)
    | InvalidStringPosition(position: nat, stringLen: nat)
    | InvalidQueryPosition(position: nat, queryLen: nat)
    | UnknownStringSymbol(symbol: nat)
    | SequenceIdOverflow
    | PositionOverflow
    | SymbolOverflow
    | DuplicateAlphabetSymbol
    | InvalidFile(reason: string)
    | UnsupportedFormatVersion(version: nat)
    | EndiannessMismatch
    | CodecIdTooLong
    | CodecMismatch
    | CodecVersionMismatch
    | InvalidTokenEncoding

  datatype Result<+T> = Ok(value: T) | Err(error: Error) {
    predicate IsFailure() {
      Err?
    }

    function PropagateFailure<U>(): Result<U>
      requires Err?
    {
      Err(error)
    }

    function Extract(): T
      requires Ok?
    {
      value
    }
  }
}
