/** The optional value used for the outcome of credential resolution. */
module Wrappers {

  datatype Option<+T> = None | Some(value: T)
}
