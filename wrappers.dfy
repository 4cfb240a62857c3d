/** The optional value used for a store that may be missing and an image that may not load. */
module Wrappers {

  datatype Option<+T> = None | Some(value: T)
}
