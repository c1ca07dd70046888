/** Option and Result values for the rule engine and the catalog converter. */
module Wrappers {

  datatype Option<+T> = None | Some(value: T)

  /** The outcome of an operation that the Python code would abort with an exception. */
  datatype Result<+R, +E> = Success(value: R) | Failure(error: E)
}
