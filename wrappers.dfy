/** Optional values: an empty handle, or an absent lookup result. */
module Wrappers {

  datatype Option<T> = None | Some(value: T)
}
