/** A value that may be missing: an absent payload field, or the `null`
    a store lookup answers with when no document has the id. */
module Wrappers {

  datatype Option<+T> = None | Some(value: T)
}
