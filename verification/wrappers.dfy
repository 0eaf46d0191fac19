/** Optional values, used where the source returns None or may not finish. */
module Wrappers {

  datatype Option<T> = None | Some(value: T)

}
