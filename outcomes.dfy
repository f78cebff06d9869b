/** Values shared by every part of the mail.tm client: what one HTTP attempt produces,
    and the classified error that the retry executor raises. */
module Outcomes {

  /** Python's `None` or a value. */
  datatype Option<+T> = None | Some(value: T)

  /** The two `requests` exceptions that the retry loop catches (mailtm.py:25):
      `requests.exceptions.Timeout` and `requests.exceptions.ConnectionError`. */
  datatype TransportError = RequestTimeout | ConnectionFailure

  /** What one call of the request function produces: it raised a transport exception,
      or a response arrived with a status code and a decoded JSON body. */
  datatype Attempt<+T> = Transport(cause: TransportError) | Reply(status: int, body: T)

  /** The `MailTmError` raised after the retry loop, by the branch that raised it. */
  datatype MailTmError =
    | Wrapped(cause: TransportError)  // mailtm.py:30, the recorded transport exception
    | StatusCode(code: int)           // mailtm.py:32, "Status code: <code>"
    | Timeout                         // mailtm.py:34, "timeout"
    | UnknownError                    // mailtm.py:35, "unknown error"

  /** A returned value, or the `MailTmError` that propagates to the caller. */
  datatype Result<+T> = Ok(value: T) | Err(error: MailTmError)
}
