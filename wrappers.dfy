/** Optional values, used where the source returns a nullable pointer or an `Option`. */
module Wrappers {
  datatype Option<T> = None | Some(value: T)
}
