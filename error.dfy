/** The error kinds of the codec and the result type every fallible operation returns. */
module Errors {

  /** Every failure the codec can report; none carries data. */
  datatype Error =
    | ShortBuffer          // destination too small while writing
    | CrcMismatch          // trailer differs from the CRC-32C of header and body
    | InvalidMagic         // header magic is not 0xFEED
    | UnsupportedVersion   // header version is not 1
    | UnexpectedEof        // input ends while reading
    | Overflow             // size or shift bound exceeded
    | FlagConflict         // a reserved flag bit is set
    | DecodeInvariant      // internal consistency error (never produced by the core)
    | UnsupportedMsgType   // schema decoder given a foreign message type
    | InvalidVarint        // malformed varint (never produced by the core)

  /** minibit's `Result<T>`: a value or one error. */
  datatype Result<+T> = Ok(value: T) | Err(error: Error) {
    predicate IsFailure() { Err? }

    function PropagateFailure<U>(): Result<U>
      requires Err?
    {
      Err(error)
    }

    function Extract(): T
      requires Ok?
    {
      value
    }
  }

  datatype Option<+T> = None | Some(value: T)
}
