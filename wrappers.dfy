/** Optional values, for absent sections and chunks and for the source's assertion failures. */
module Wrappers {
  datatype Option<T> = None | Some(value: T)
}
