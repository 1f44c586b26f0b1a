/** Failure-compatible result types shared by the other modules. */
module Wrappers {

  /** A value that may be absent; `None` stands for JavaScript's `null`. */
  datatype Option<+T> = None | Some(value: T)

  /** The outcome of an operation that either completes or throws an error carrying `error`. */
  datatype Outcome<+E> = Pass | Fail(error: E)
}
