/** Failure-compatible wrappers shared by the cursor, the schema readers and the decoder. */
module Results {

  /** A value that may be missing. */
  datatype Option<+T> = None | Some(value: T)

  /** The outcome of a step that reads bytes. `Overrun` stands for the exception a byte
      cursor raises when a read runs past the bytes it holds; the decoder does not catch it,
      so it propagates to the caller of `Decode`. */
  datatype Result<+T> = Ok(value: T) | Overrun {

    predicate IsFailure() {
      Overrun?
    }

    function PropagateFailure<U>(): Result<U>
      requires Overrun?
    {
      Overrun
    }

    function Extract(): T
      requires Ok?
    {
      value
    }
  }
}
