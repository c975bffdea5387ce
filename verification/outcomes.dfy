/** The renderer's error paths are C++ exceptions: `throw hr` for a failed
    `HRESULT` and `throw std::exception()` elsewhere. A call that may throw is
    modelled as returning a `Result`. */
module Outcomes {

  /** What a throwing call throws. */
  datatype Exception =
    | HrException(hr: int)   // `throw hr` in ThrowIfFailed
    | StdException           // `throw std::exception()` in GetAssetsPath

  datatype Result<+T> = Ok(value: T) | Throw(exception: Exception) {
    predicate IsFailure() {
      Throw?
    }

    function PropagateFailure<U>(): Result<U>
      requires Throw?
    {
      Throw(exception)
    }

    function Extract(): T
      requires Ok?
    {
      value
    }
  }

  /** A value that may be absent (a null pointer, a search that found nothing). */
  datatype Option<+T> = None | Some(value: T)

  /** A call that either returns normally with no value or throws. */
  datatype Outcome = Returned | Thrown(exception: Exception) {
    predicate IsFailure() {
      Thrown?
    }

    function PropagateFailure<U>(): Result<U>
      requires Thrown?
    {
      Throw(exception)
    }
  }
}
