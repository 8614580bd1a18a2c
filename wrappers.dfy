/** Optional values: a JavaScript `undefined` or `null`, or an absent record. */
module Wrappers {

  datatype Option<+T> = None | Some(value: T)
}
