/** The response shapes shared by every route: an optional request value and
    the uniform success/error envelope (`ApiRes`) every handler answers with. */
module Api {

  /** A request field that may be missing, or present but not convertible. */
  datatype Option<+T> = None | Some(value: T)

  /** `ApiRes.success(data:)` or `ApiRes.error(code:msg:)`: exactly one arm.
      `code` is an application-level code, not an HTTP status. */
  datatype Envelope<+T> = Success(data: T) | Error(code: int, msg: string)
}
