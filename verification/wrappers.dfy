/** The result types shared by the other modules. */
module Wrappers {

  /** `Some(v)` for a value, `None` for JavaScript's `null`. */
  datatype Option<+T> = None | Some(value: T)

  /** The result of a call that either returns normally or throws `error`. */
  datatype Outcome<+E> = Pass | Fail(error: E)
}
