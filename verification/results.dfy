/** Option and Result types shared by the parsers and the layout engine. */
module Results {

  /** A value that may be absent, like Python's `None`. */
  datatype Option<+T> = None | Some(value: T)

  /** Why an operation of the tool failed. */
  datatype Error =
    /** optparse's OptionValueError raised by an option callback: reported as a usage error for that option */
    | BadOption(message: string)
    /** an exception no handler of the tool catches: the run ends with a traceback */
    | Uncaught(kind: string)

  /** The outcome of an operation that can fail. */
  datatype Result<+T> = Ok(value: T) | Err(error: Error) {

    predicate IsFailure() {
      Err?
    }

    function PropagateFailure<U>(): Result<U>
      requires Err?
    {
      Err(error)
    }

    function Extract(): T
      requires Ok?
    {
      value
    }
  }
}
