/** Optional values and the outcome of an operation that can throw. */
module Wrappers {

  /** `None` stands for a value that is absent (JavaScript `undefined`). */
  datatype Option<+T> = None | Some(value: T)

  /** `Fail(message)` stands for an `Error` thrown with that message. */
  datatype Outcome = Pass | Fail(message: string)
}
