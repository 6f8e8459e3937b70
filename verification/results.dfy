/** Failure-compatible wrappers shared by the model: the store's exceptions become
    values of `StoreError`, and a Java `null` return becomes `None`. */
module Results {

  /** An optional value; `None` stands for the source's `null`. */
  datatype Option<+T> = None | Some(value: T)

  /** The domain errors the ordered store raises.
      `InvalidRange` is the library's IllegalArgumentException for an inverted range,
      which no caller in the repository catches. */
  datatype StoreError = EntityExists | EntityNotFound | InvalidRange

  /** The outcome of a store operation: a value, or the error that was raised. */
  datatype Result<+T> = Ok(value: T) | Err(error: StoreError) {

    predicate IsFailure() {
      Err?
    }

    function PropagateFailure<U>(): Result<U>
      requires Err?
    {
      Err(error)
    }

    function Extract(): T
      requires Ok?
    {
      value
    }
  }
}
