/** Optional values, used where the modelled code can yield nothing
    (no scroll target) and where a decoder can fail (a malformed escape). */
module Wrappers {

  datatype Option<+T> = None | Some(value: T)
}
