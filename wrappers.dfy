/** Optional values: Python's `None` on the inputs, and the failure of a decoder. */
module Wrappers {

  datatype Option<+T> = None | Some(value: T)
}
