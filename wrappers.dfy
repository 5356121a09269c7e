/** Optional values, used where the library returns NULL or a "no result" sentinel. */
module Wrappers {

  datatype Option<T> = None | Some(value: T)
}
