/** Option and Result types shared by the model.
    Option stands for a Java reference that may be null; Result stands for a
    service call that either returns or throws one of the exceptions below. */
module Wrappers {

  /** A nullable Java value: None is null. */
  datatype Option<+T> = None | Some(value: T) {

    /** The value, or the given default when null. */
    function GetOr(default: T): T {
      match this
      case Some(v) => v
      case None => default
    }
  }

  /** The exceptions the services throw, named by the HTTP answer the exception
      handler turns them into. */
  datatype Error =
    | BadRequest   // BadRequestException: 400
    | NotFound     // ResourceNotFoundException: 404
    | ServerError  // any other runtime exception (a null dereference, a null id): 500

  /** The outcome of one service call. An Err leaves the store as it was: every
      service runs in one transaction that is rolled back on an exception. */
  datatype Result<+T> = Ok(value: T) | Err(error: Error)
}
