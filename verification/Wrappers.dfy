/** Results that may be missing. */
module Wrappers {
  datatype Option<+T> = None | Some(value: T) {
    predicate IsFailure() {
      None?
    }

    function PropagateFailure<U>(): Option<U> {
      None
    }

    function Extract(): T
      requires Some?
    {
      value
    }
  }
}
