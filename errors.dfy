/** Fatal conditions of the atlas generator. Each one aborts the whole run
    (a Rust panic); the model returns them as values instead. */
module Errors {

  datatype Fatal =
    | CubicCurve        // a cubic segment reached the outline builder
    | NoCurrentCurve    // `last_mut().unwrap()` / `last().unwrap()` on an empty outline
    | UnclosedCurve     // `close` found a trailing curve that is not a stub
    | IndexOverflow     // a curve-buffer position does not fit in a u32
    | IndexOutOfBounds  // the replacement character lies outside the tables

  datatype Option<T> = None | Some(value: T)

  /** Result of an operation that either yields a value or aborts. */
  datatype Result<T> = Ok(value: T) | Err(error: Fatal)

  /** Result of an operation that yields nothing but may abort. */
  datatype Outcome = Pass | Fail(error: Fatal)
}
