/** Option: a value that may be absent, usable with `:-`. */
module Wrappers {

  datatype Option<+T> = None | Some(value: T) {

    predicate IsFailure() {
      None?
    }

    function PropagateFailure<U>(): Option<U>
      requires None?
    {
      None
    }

    function Extract(): T
      requires Some?
    {
      value
    }
  }
}

/** Octets, as carried by a Node.js Buffer. */
module Bytes {

  newtype byte = x: int | 0 <= x < 256
}
