/** Optional values, the .NET exceptions the core can raise, and results that carry them. */
module Wrappers {

  /** A value that may be absent: stands for a nullable reference. */
  datatype Option<+T> = None | Some(value: T)

  /** The .NET exception types thrown by the modelled code. */
  datatype Exception =
    | ArgumentNull(param: string)     // ArgumentNullException
    | Argument(param: string)         // ArgumentException
    | InvalidData                     // InvalidDataException
    | InvalidOperation                // InvalidOperationException (e.g. from Single)
    | KeyNotFound                     // KeyNotFoundException (dictionary indexer)
    | NullReference                   // NullReferenceException (a member used on null)
    | External                        // an exception raised by a collaborator outside the model

  /** Either a value or the exception that was thrown instead. */
  datatype Result<+T> = Success(value: T) | Failure(error: Exception) {
    predicate IsFailure() { Failure? }

    function PropagateFailure<U>(): Result<U>
      requires Failure?
    {
      Failure(error)
    }

    function Extract(): T
      requires Success?
    {
      value
    }
  }
}
