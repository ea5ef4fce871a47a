/** Failure-compatible wrappers standing in for Java's `null` and its
    `IllegalArgumentException`s. */
module Results {

  /** A Java `String` reference: `None` is `null`. */
  datatype Option<+T> = None | Some(value: T)

  type JString = Option<string>

  /** The value of a call that either returns normally or throws an
      exception carrying `msg`. */
  datatype Result<+T> = Ok(value: T) | Err(msg: string) {

    predicate IsFailure() {
      Err?
    }

    function PropagateFailure<U>(): Result<U>
      requires Err?
    {
      Err(msg)
    }

    function Extract(): T
      requires Ok?
    {
      value
    }
  }

  /** The value of a `void` call that may throw. */
  datatype Outcome = Pass | Fail(msg: string)
}
