/** Optional values: `None` stands for "no value" (a JavaScript NaN, nothing written). */
module Wrappers {
  datatype Option<+T> = None | Some(value: T)
}
