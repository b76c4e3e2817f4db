/**
 * The exceptions the modelled code raises or lets escape. The three classes of
 * capi/exceptions.py are the constructors `RefreshFail` (a `CAPIException`) and
 * `NoFID`; the others stand for Python, `requests`, `sqlite3` and Falcon exceptions.
 */
module Exceptions {

  datatype Exc =
    | KeyError(key: string)          // a missing dict key or a missing table row
    | TypeError                      // int(None), None[0], a non-string argument
    | IntegrityError                 // sqlite3: the UNIQUE constraint on `nickname`
    | RefreshFail(message: string, status: string, state: string)
    | NoFID(state: string)
    | ConnectionError                // requests.ConnectionError
    | RequestError                   // any other exception raised by a `requests` call
    | HttpError(code: int)           // Response.raise_for_status()
    | JsonDecodeError                // Response.json() on a body that is not JSON
    | UnboundLocalError              // an exception handler reading a local that was never bound
    | BadRequest(description: string)
    | NotFound(description: string)

  /** `except exceptions.CAPIException` catches exactly `RefreshFail`. */
  predicate IsCAPIException(e: Exc) {
    e.RefreshFail?
  }
}
