/** The closed set of failures the todo service reports. */
module Errors {

  /** `NotFound` (404), `InvalidState` (409), `InvalidParam` (400) and
      `InternalError` (500), which carries the text of the underlying failure. */
  datatype TodoError = NotFound | InvalidState | InvalidParam | InternalError(msg: string)
}
