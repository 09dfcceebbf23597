/** Optional values: JavaScript's `null` / `NaN` results become `None`. */
module Wrappers {

  datatype Option<+T> = None | Some(value: T)
}
