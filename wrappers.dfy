/** Failure-carrying results: every `unwrap`/`expect` and every out-of-range
    index of the readers becomes an explicit error value here. */
module Wrappers {

  datatype Option<+T> = None | Some(value: T)

  /** The ways a reader can fail where the library would panic. */
  datatype DecodeError =
    | MissingHeaderLine   // fewer header lines than the reader indexes
    | MalformedHeader     // a missing or non-numeric height, width or max_color token
    | InvalidSample       // a text-mode sample that is not a decimal u8

  datatype Result<+T> = Ok(value: T) | Err(error: DecodeError)
}
