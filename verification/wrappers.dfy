/** Optional values: a JavaScript `undefined`, or a regular-expression match that failed. */
module Wrappers {

  datatype Option<+T> = None | Some(value: T)
}
