/** An optional value, used where the source returns a nil-able error. */
module Wrappers {

  datatype Option<+T> = None | Some(value: T)

}
