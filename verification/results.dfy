/** Error kinds and the failure-compatible result type used by every
    fallible operation of the W++ library. */
module Results {

  /** The errors the library throws. `NoType` is declared by the library
      but no input reaches it (the type pattern always matches, possibly
      empty); it is kept so that the error vocabulary is complete. */
  datatype Error =
    | NoGroups
    | NoType
    | TypeHasMultipleNames
    | BadAttribute
    | NotWPPExtended

  datatype Option<+T> = None | Some(value: T)

  datatype Result<+T> = Ok(value: T) | Err(error: Error) {
    predicate IsFailure() {
      Err?
    }

    function PropagateFailure<U>(): Result<U>
      requires Err?
    {
      Err(error)
    }

    function Extract(): T
      requires Ok?
    {
      value
    }
  }
}
