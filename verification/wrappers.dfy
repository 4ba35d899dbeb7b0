/** The two shapes a JavaScript value takes at the program's boundaries: a property that may be
    `undefined`, and a call that either returns or throws. */
module Wrappers {

  /** `None` stands for `undefined` / `null`; `Some(v)` for a present value. */
  datatype Option<+T> = None | Some(value: T)

  /** The outcome of a call that either returns `value` or throws `error`. */
  datatype Result<+T, +E> = Success(value: T) | Failure(error: E)
}
