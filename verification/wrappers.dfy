/** Failure-compatible helper datatypes shared by the other modules. */
module Wrappers {

  /** A value that may be absent: the "not found" answer of a linear search. */
  datatype Option<+T> = None | Some(value: T)

  /** A value or an error; usable with `:-` so that the first error aborts,
      the way a thrown C++ exception ends the computation. */
  datatype Result<+T, +E> = Ok(value: T) | Err(error: E) {

    predicate IsFailure() {
      Err?
    }

    function PropagateFailure<U>(): Result<U, E>
      requires Err?
    {
      Err(error)
    }

    function Extract(): T
      requires Ok?
    {
      value
    }
  }
}
