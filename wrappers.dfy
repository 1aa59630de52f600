/** Optional values: the source's `None` result of a database lookup. */
module Wrappers {

  datatype Option<+T> = None | Some(value: T)
}
