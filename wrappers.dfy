/** The optional-value type used wherever the source returns `null`/`undefined`
    or throws on malformed input. It is failure-compatible, so `:-` may be used. */
module Wrappers {

  datatype Option<+T> = None | Some(value: T) {

    predicate IsFailure() {
      None?
    }

    function PropagateFailure<U>(): Option<U>
      requires None?
    {
      None
    }

    function Extract(): T
      requires Some?
    {
      value
    }
  }
}
