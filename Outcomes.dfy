/** Outcomes of the Java operations: a value, a thrown exception with its message,
    or an index read past the end of a string or array (a Java runtime crash that
    the source does not catch). */
module Outcomes {

  /** Java's Optional, and a null reference where the source uses one as "absent". */
  datatype Option<+T> = None | Some(value: T)

  /** The shape of Result.Ok / Result.Err, plus a distinct crash outcome. */
  datatype Result<+T> =
    | Ok(value: T)
    | Err(errorMessage: string)
    | OutOfBounds(index: int)
  {
    predicate IsFailure() {
      !Ok?
    }

    function PropagateFailure<U>(): Result<U>
      requires !Ok?
    {
      match this
      case Err(m) => Err(m)
      case OutOfBounds(i) => OutOfBounds(i)
    }

    function Extract(): T
      requires Ok?
    {
      value
    }
  }
}
