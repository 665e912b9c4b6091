/** Option and Result, and the exceptions the two entry points can raise before they write any output. */
module Wrappers {

  datatype Option<+T> = None | Some(value: T)

  /** An exception that aborts a run; the run then reports it instead of its outputs. */
  datatype Error =
    /** `Array(n)` with a length that is not an unsigned 32-bit integer throws a RangeError. */
    | InvalidArrayLength(length: int)
    /** `text.match(re)` returned null and `[1]` was read from it: a TypeError. */
    | PatternNotFound(pattern: string)
    /** `parseVersionId` was given fewer than three leading digits: its own `match` returned null. */
    | MalformedVersionId(raw: string)

  datatype Result<+T> = Ok(value: T) | Err(error: Error)
}
