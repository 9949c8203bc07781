/** The optional value used by the partial inverses (parsers) of this model. */
module Wrappers {

  datatype Option<+T> = None | Some(value: T)

}
