/** The optional-value datatype used where the background module returns `null`
    or reads a property that may be absent. */
module Wrappers {

  /** `None` stands for JavaScript's `null` (or an omitted property). */
  datatype Option<+T> = None | Some(value: T)

  /** The outcome of an asynchronous operation: `Failure` is a rejected
      promise carrying the error's message. */
  datatype Result<+T> = Success(value: T) | Failure(error: string)
}
