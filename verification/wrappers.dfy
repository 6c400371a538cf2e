/** Optional values, standing in for Python's `None` and for a value that may be absent. */
module Wrappers {

  datatype Option<+T> = None | Some(value: T)
}
