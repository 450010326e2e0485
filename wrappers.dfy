/** Optional values: JavaScript's `undefined` is written `None`. */
module Wrappers {

  datatype Option<+T> = None | Some(value: T)
}
