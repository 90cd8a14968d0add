/** Optional values: a JavaScript `undefined`/`null` becomes `None`. */
module Wrappers {
  datatype Option<+T> = None | Some(value: T)
}
