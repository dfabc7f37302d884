/** Python exceptions that the modelled code raises, as values.
    A call that raises in the source returns `Err(e)` here. */
module Results {

  datatype Error =
    | ValueError          // a malformed number or an invalid datetime field
    | KeyError            // an unknown colour name
    | ZeroDivisionError   // a division or modulo by zero
    | OverflowError       // an integer too wide for a C `int` argument

  datatype Result<+T> = Ok(value: T) | Err(error: Error) {

    predicate IsFailure() {
      Err?
    }

    function PropagateFailure<U>(): Result<U>
      requires Err?
    {
      Err(error)
    }

    function Extract(): T
      requires Ok?
    {
      value
    }
  }

  datatype Option<+T> = None | Some(value: T)
}
