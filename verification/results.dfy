/** Failure-compatible result type for the helper's operations.

    The helper signals failures by throwing: `Convert.ToInt32` throws a
    `FormatException` on a non-numeric part and an `OverflowException` on a
    number beyond `int.MaxValue`, and `IPAddress.Parse` throws a
    `FormatException` on anything it cannot read as an address. Here each of
    those becomes an `Err` value that propagates with `:-`.
 */
module Results {

  /** The exceptions the modelled code can raise. */
  datatype Error = FormatError | OverflowError

  datatype Result<+T> = Ok(value: T) | Err(error: Error) {

    predicate IsFailure() {
      Err?
    }

    function PropagateFailure<U>(): Result<U>
      requires Err?
    {
      Err(error)
    }

    function Extract(): T
      requires Ok?
    {
      value
    }
  }
}
