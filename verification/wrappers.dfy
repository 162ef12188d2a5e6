/** Option, for snapshot keys the source may leave unset. */
module Wrappers {

  datatype Option<+T> = None | Some(value: T)
}
