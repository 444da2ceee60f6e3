/** The optional value used for the error results of the exporter. */
module Wrappers {

  datatype Option<+T> = None | Some(value: T)
}
