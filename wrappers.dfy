/** Optional values and pass/fail outcomes shared by the other modules. */
module Wrappers {

  datatype Option<+T> = None | Some(value: T)

  /** The result of an operation that either succeeds or raises `error`. */
  datatype Outcome<+E> = Pass | Fail(error: E)
}
