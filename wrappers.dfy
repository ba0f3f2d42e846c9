/** Failure-carrying result types shared by the backend modules. */
module Wrappers {

  datatype Option<+T> = None | Some(value: T)

  /** A successful value or the kind of failure the route answers with. */
  datatype Result<+R, +E> = Success(value: R) | Failure(error: E)
}
