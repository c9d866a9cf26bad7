/** Optional values: a JavaScript `undefined` becomes `None`. */
module Wrappers {

  datatype Option<+T> = None | Some(value: T)
}
