/** Option and Result: the model's replacement for JavaScript's `undefined`/`null` and thrown errors. */
module Outcomes {

  datatype Option<+T> = None | Some(value: T)

  datatype Result<+T, +E> = Success(value: T) | Failure(error: E)
}
