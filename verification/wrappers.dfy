/** Optional values, used for the source's `-1` error returns. */
module Wrappers {

  datatype Option<+T> = None | Some(value: T)

}
