/** Option type used for JavaScript's `null` / `NaN` / failed-decode results.
    Failure-compatible, so `:-` can model the early `return null` chain. */
module Options {

  datatype Option<+T> = None | Some(value: T) {

    predicate IsFailure() {
      None?
    }

    function PropagateFailure<U>(): Option<U>
      requires None?
    {
      None
    }

    function Extract(): T
      requires Some?
    {
      value
    }
  }
}
