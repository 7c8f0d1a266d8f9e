/** Optional values: Go's nil-able `ValueType` slot and nil child pointers. */
module Wrappers {

  datatype Option<+T> = None | Some(value: T)
}
