/** Wrappers used across the model: an optional value (an argument that may be
    `undefined`, a row that may be missing) and the settled state of a promise
    (resolved with a value or rejected with an error). */
module Wrappers {

  datatype Option<+T> = None | Some(value: T)

  datatype Result<+R, +E> = Success(value: R) | Failure(error: E)
}
