/** Option and Result, the two failure-carrying datatypes the model uses in place
    of Python's `None` and raised exceptions. */
module Wrappers {

  datatype Option<+T> = None | Some(value: T)

  /** Python's truth value of an optional string: absent and "" are both false. */
  predicate Truthy(o: Option<string>) {
    o.Some? && o.value != ""
  }

  datatype Result<+T, +E> = Success(value: T) | Failure(error: E) {

    predicate IsFailure() {
      Failure?
    }

    function PropagateFailure<U>(): Result<U, E>
      requires Failure?
    {
      Failure(error)
    }

    function Extract(): T
      requires Success?
    {
      value
    }
  }
}
