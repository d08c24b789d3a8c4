/** The optional value used for nullable node references and for lookup results. */
module Wrappers {
  datatype Option<T> = None | Some(value: T)
}
