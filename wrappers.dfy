/** Failure-carrying values used across the model: an optional value and a
    result that is either a value or one of the library's error kinds. */
module Wrappers {

  datatype Option<+T> = None | Some(value: T)

  /** The kinds of failure the library reports. */
  datatype Error =
    | MissingPreamble    // no ReliableTXT preamble / first code point is not U+FEFF
    | DecodingError      // the bytes are ill-formed for the encoding
    | EmptyContent       // src decode indexes text[0] of an empty text
    | ReadOnlyViolation  // a read-only document's text was assigned
    | InvalidCodePoint   // chr() was given a value that is not a scalar value

  datatype Result<+T> = Ok(value: T) | Err(error: Error)

  /** The result of an operation that returns nothing or fails. */
  datatype Outcome = Pass | Fail(error: Error)
}
