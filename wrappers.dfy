/** Option and Result, for the nullable cells and the raised errors of the pipeline. */
module Wrappers {

  /** A nullable value: None stands for pandas' NaN / NaT. */
  datatype Option<+T> = None | Some(value: T)

  /** The outcome of a step that may raise; `:-` stops at the first Failure. */
  datatype Result<+T, +E> = Success(value: T) | Failure(error: E) {
    predicate IsFailure() {
      Failure?
    }

    function PropagateFailure<U>(): Result<U, E>
      requires Failure?
    {
      Failure(error)
    }

    function Extract(): T
      requires Success?
    {
      value
    }
  }
}
