/**
 Failure-carrying values shared by every operation of the sprint gateway.
 The controller signals failures by throwing; the model returns them.
 */
module Results {

  /** A value that may be absent (the controller's `null`). */
  datatype Option<+T> = None | Some(value: T)

  /** The ways an operation of the controller can fail instead of answering. */
  datatype Failure =
    /** The remote service answered with a non-success status, and that response is forwarded. */
    | Upstream(status: int)
    /**
     `GetStringAsync` met a non-success status and threw; the exception
     escapes the action, so the remote status does not reach the caller.
     */
    | RequestFailed(status: int)
    /** An epic response could not be read as an issue (no key or no fields). */
    | UnreadableIssue
    /** Two epic responses carried the same issue key. */
    | DuplicateIssueKey(key: string)
    /** The cached or fetched board list could not be deserialized. */
    | UnparsableBoards
    /** No board name contains the configured substring. */
    | NoMatchingBoard

  datatype Result<+T> = Ok(value: T) | Err(error: Failure)
}
