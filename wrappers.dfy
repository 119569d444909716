/** Optional values: a missing key, a JavaScript `null`, an absent form field. */
module Wrappers {

  datatype Option<T> = None | Some(value: T)
}
