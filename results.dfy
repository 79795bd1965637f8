/** Failure-compatible wrappers used to model Python's exceptions as values. */
module Results {

  datatype Option<+T> = None | Some(value: T)

  /** `Err` stands for a raised exception; `:-` propagates it like Python does. */
  datatype Result<+T, +E> = Ok(value: T) | Err(error: E) {

    predicate IsFailure() {
      Err?
    }

    function PropagateFailure<U>(): Result<U, E>
      requires Err?
    {
      Err(error)
    }

    function Extract(): T
      requires Ok?
    {
      value
    }
  }
}
