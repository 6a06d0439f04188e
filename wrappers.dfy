/** Option and Result, the two wrappers the model uses for the source's
    null references and exceptions. */
module Wrappers {

  /** A value or nothing; `None` stands for a C# null reference. */
  datatype Option<+T> = None | Some(value: T)

  /** A value, or the exception that escaped while computing it. */
  datatype Result<+T, +E> = Success(value: T) | Failure(error: E)
}
