/** Option, for the parsers and decoders of the model. */
module Wrappers {
  datatype Option<+T> = None | Some(value: T)
}
