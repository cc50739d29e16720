/**
 * Value wrappers shared by the whole model.
 *
 * - `Option` stands for a value that pandas would hold as NaN (`None`).
 * - `Result` stands for a computation that either returns a value or raises
 *   one of the Python exceptions the analysed code can raise (`Failure`).
 *   It supports Dafny's `:-` so that an exception propagates the way an
 *   uncaught Python exception does.
 */
module Results {

  datatype Option<+T> = None | Some(value: T)

  /** The Python exceptions the modelled code can raise. */
  datatype Error =
    | IndexError     // positional access past the end: `.values[0]`, `.iloc[i]`, `list[i]`
    | KeyError       // label lookup of a missing label: `series[label]`, `.loc[label]`
    | ValueError     // `int(s)` on a malformed string, or a length mismatch in `pd.Series`
    | NameError      // a name that is not bound in any enclosing scope
    | IndexingError  // a boolean mask whose index cannot be aligned with the frame

  datatype Result<+T> = Success(value: T) | Failure(error: Error) {

    predicate IsFailure() {
      Failure?
    }

    function PropagateFailure<U>(): Result<U>
      requires Failure?
    {
      Failure(error)
    }

    function Extract(): T
      requires Success?
    {
      value
    }
  }
}
