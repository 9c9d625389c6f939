/** Optional values: a PHP `false` or `null` return where a value was expected. */
module Wrappers {

  datatype Option<+T> = None | Some(value: T)

}
