/** Option and Result, the shapes the model uses for JavaScript's `null` and for thrown errors. */
module Wrappers {

  /** `None` stands for JavaScript's `null` / `undefined`. */
  datatype Option<+T> = None | Some(value: T)

  /** `Failure` stands for an exception the source throws. */
  datatype Result<+R, +E> = Success(value: R) | Failure(error: E)
}
