/** Python's exceptions, as the codec's callers see them. */
module Results {

  /** The exception classes the codec can raise. The message text is not modelled. */
  datatype Exception = ValueError | KeyError | IndexError

  /** Either a value or the exception Python would raise instead. Failure-compatible, so `:-` propagates a raise. */
  datatype Result<+T> = Ok(value: T) | Raise(exc: Exception) {

    predicate IsFailure() {
      Raise?
    }

    function PropagateFailure<U>(): Result<U>
      requires Raise?
    {
      Raise(exc)
    }

    function Extract(): T
      requires Ok?
    {
      value
    }
  }

  datatype Option<+T> = None | Some(value: T)
}
