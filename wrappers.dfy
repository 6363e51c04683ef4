/** Optional values, used where the JavaScript code has `undefined` or `NaN`. */
module Wrappers {

  datatype Option<+T> = None | Some(value: T)

}
