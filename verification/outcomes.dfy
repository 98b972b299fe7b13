/** Failure-compatible outcome types shared by the parsers.

    The program reports every parse problem through one error channel and, in a
    few places, indexes past the end of a vector, which aborts the process.
    `Result` keeps those two kinds of failure apart: `Err` is an ordinary error
    value that `main` turns into exit code 1, `Panic` is an index-out-of-bounds
    abort.
 */
module Outcomes {

  datatype Option<+T> = None | Some(value: T)

  datatype Result<+T> = Ok(value: T) | Err | Panic {

    predicate IsFailure() {
      !Ok?
    }

    /** Keeps the kind of failure while changing the value type. */
    function PropagateFailure<U>(): Result<U>
      requires !Ok?
    {
      if Err? then Err else Panic
    }

    function Extract(): T
      requires Ok?
    {
      value
    }
  }
}
