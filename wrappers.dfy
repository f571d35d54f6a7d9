/** Option, for lookups and decoders that may find nothing. */
module Wrappers {

  datatype Option<+T> = None | Some(value: T)
}
