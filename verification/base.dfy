/** Status values and optional/failable wrappers shared by the scanners. */
module Base {

  /** An optional value; stands for a nullable pointer or an unset Thrift field. */
  datatype Option<+T> = None | Some(value: T)

  /**
   * The code part of a Doris `Status`: the scanners raise InternalError;
   * a failed fetch may bring back any other code, which is passed on as is.
   */
  datatype ErrorCode = InternalError | OtherError(code: int)

  /** A non-OK `Status`: a code and its message. */
  datatype Error = Error(code: ErrorCode, msg: string)

  /** A Doris `Status`: OK, or an error. */
  datatype Status = Ok | Fail(error: Error)

  /** The outcome of a call into a collaborator that is not modelled (a remote fetch). */
  datatype Result<+T> = Success(value: T) | Failure(error: Error)

  /** `Status::InternalError(msg)`. */
  function Internal(msg: string): Status
  {
    Fail(Error(InternalError, msg))
  }
}
