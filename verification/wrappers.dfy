/** `Option` for Go's nil-able values (a `net.IP` that may be nil, an interface lookup that
    may find nothing) and `Result` for a value-or-error return. */
module Wrappers {

  datatype Option<+T> = None | Some(value: T)

  datatype Result<+R, +E> = Success(value: R) | Failure(error: E)
}
