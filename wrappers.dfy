/** Optional values, used where the C code passes or returns a nullable pointer. */
module Wrappers {

  datatype Option<+T> = None | Some(value: T)
}
