/** Success-or-error and optional values shared by the models. */
module Results {
  datatype Option<+T> = None | Some(value: T)

  // Failure-compatible: `:-` propagates an error.
  datatype Result<+T, +E> = Ok(value: T) | Err(error: E) {
    predicate IsFailure() {
      Err?
    }

    function PropagateFailure<U>(): Result<U, E>
      requires Err?
    {
      Err(error)
    }

    function Extract(): T
      requires Ok?
    {
      value
    }
  }
}
