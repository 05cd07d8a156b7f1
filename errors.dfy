/** Failure values of the core: the LockyException of validation, the unchecked
    IllegalArgumentException raised while loading or constructing an Event, and
    the IOException of a failed save. */
module Errors {

  datatype Option<+T> = None | Some(value: T)

  /** A Java call that either returns a value or throws. */
  datatype Result<+T, +E> = Ok(value: T) | Err(error: E) {

    predicate IsFailure() {
      Err?
    }

    function PropagateFailure<U>(): Result<U, E>
      requires Err?
    {
      Err(error)
    }

    function Extract(): T
      requires Ok?
    {
      value
    }
  }

  datatype Error =
    | Locky(message: string)            // locky.error.LockyException
    | IllegalArgument(message: string)  // java.lang.IllegalArgumentException
    | Io                                // java.io.IOException from Storage.save
}
