/** Optional values: Python's `None` or an object. */
module Wrappers {

  datatype Option<+T> = None | Some(value: T)

}
