/** The "absent" result that the source signals with null. */
module Wrappers {

  datatype Option<+T> = None | Some(value: T)
}
