/** The optional value used for oracle answers and for parses that may fail. */
module Wrappers {

  datatype Option<+T> = None | Some(value: T)
}
