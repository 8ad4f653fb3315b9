/** Optional values: the model's stand-in for Go's nil pointers, nil maps and comma-ok lookups. */
module Wrappers {
  datatype Option<+T> = None | Some(value: T)
}
