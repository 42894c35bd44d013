/** The optional value used for partial lookups (GET parameters, signed values). */
module Wrappers {

  datatype Option<+T> = None | Some(value: T)
}
