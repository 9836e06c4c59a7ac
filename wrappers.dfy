/** The optional-value type used for every conversion that can fail. */
module Wrappers {

  /** `None` is a failed conversion; `Some(v)` a successful one. Usable with `:-`. */
  datatype Option<+T> = None | Some(value: T) {

    predicate IsFailure() {
      None?
    }

    function PropagateFailure<U>(): Option<U>
      requires None?
    {
      None
    }

    function Extract(): T
      requires Some?
    {
      value
    }
  }
}
