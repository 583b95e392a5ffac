/** Success-or-error values. Every place where the C# code throws (an index out of
    range, `Min()` of an empty sequence, ...) or would silently produce NaN/Infinity
    from a division by zero is modelled as an `Err` carrying the reason. */
module Results {

  datatype Option<+T> = None | Some(value: T)

  datatype Result<+T, +E> = Ok(value: T) | Err(error: E) {

    predicate IsFailure() {
      Err?
    }

    function PropagateFailure<U>(): Result<U, E>
      requires Err?
    {
      Err(error)
    }

    function Extract(): T
      requires Ok?
    {
      value
    }
  }
}
