/** Optional values and outcomes used across the crop model. */
module Results {

  /**
   * A value that may be missing. `IsFailure`, `PropagateFailure` and `Extract`
   * let the readers chain steps with `:-`, stopping at the first `None`.
   */
  datatype Option<+T> = None | Some(value: T) {

    predicate IsFailure() {
      None?
    }

    function PropagateFailure<U>(): Option<U>
      requires None?
    {
      None
    }

    function Extract(): T
      requires Some?
    {
      value
    }
  }

  /** Either the computed value or the reason it could not be computed. */
  datatype Result<+R, +E> = Ok(value: R) | Err(error: E)
}
