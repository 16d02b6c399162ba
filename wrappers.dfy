/** Optional values: an absent TypeScript property or an `undefined` result. */
module Wrappers {

  datatype Option<+T> = None | Some(value: T)

}
