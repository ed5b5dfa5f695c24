/** The optional value used throughout the model: a Java reference that may be
    null, a byte that may be absent from a datagram, or a call that yields nothing. */
module Wrappers {

  datatype Option<+T> = None | Some(value: T)

}
