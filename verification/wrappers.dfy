/** Optional values, used where the C code uses a NULL pointer for "absent". */
module Wrappers {
  datatype Option<+T> = None | Some(value: T)
}
