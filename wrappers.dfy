/** Optional values, used for Go's `(value, error)` pairs whose error carries no data the model needs. */
module Wrappers {
  datatype Option<+T> = None | Some(value: T)
}
