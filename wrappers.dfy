/** Optional values, as returned by the `(x, ok)` coercions of the cast package. */
module Wrappers {

  datatype Option<+T> = None | Some(value: T)

}
