/** A value that may be missing: `null`, `undefined`, or an absent key of the source. */
module Wrappers {

  datatype Option<T> = None | Some(value: T)
}
