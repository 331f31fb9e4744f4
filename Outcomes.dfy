/** Optional values and the error kinds every handler answers with. */
module Outcomes {

  datatype Option<+T> = None | Some(value: T)

  /** The HTTP answers of the handlers, by kind:
      400 InvalidArgument, 401 Unauthenticated, 403 Forbidden, 404 NotFound, 500 StorageFailure. */
  datatype ErrorKind = InvalidArgument | Unauthenticated | Forbidden | NotFound | StorageFailure

  /** A handler either answers 200 with a value or answers with one error kind. */
  datatype Result<+T> = Ok(value: T) | Err(error: ErrorKind)
}
