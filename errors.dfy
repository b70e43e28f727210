/** Values shared by the builder and its specification: the optional string
    that C# passes as `string?`, the two failures the builder raises, and the
    results of its operations. */
module Errors {

  /** A nullable reference: `None` stands for C#'s `null`. */
  datatype Option<+T> = None | Some(value: T)

  /** The exceptions the builder throws.
      ObjectDisposed: an operation that checks the disposed flag ran after Dispose.
      ArgumentOutOfRange: the indexer was given a position outside [0, Length). */
  datatype Error = ObjectDisposed | ArgumentOutOfRange

  /** The outcome of a `void` operation: it completed, or it threw. */
  datatype Outcome = Pass | Fail(error: Error)

  /** The outcome of an operation that returns a value. */
  datatype Result<+T> = Ok(value: T) | Err(error: Error)
}
