/** The optional-value datatype used for lookups and record decoders. */
module Wrappers {

  datatype Option<+T> = None | Some(value: T)
}
