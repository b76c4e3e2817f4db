/**
 * What the identity provider answered. Every HTTP call of the source becomes a
 * parameter of one of these types.
 */
module Provider {

  /** The three fields of a token response. */
  datatype Tokens = Tokens(access: string, refresh: string, expiresIn: int)

  /** The decoded body of a response. */
  datatype Body =
    | NotJson                        // .json() raises
    | MissingKey(name: string)       // JSON lacking "access_token", "refresh_token" or "expires_in"
    | TokenJson(tokens: Tokens)

  /** The outcome of `requests.post` to the token endpoint. */
  datatype HttpResult =
    | ConnectionFailed               // raises requests.ConnectionError
    | RequestFailed                  // raises another exception before a response exists
    | Response(status: int, body: Body)

  /** `raise_for_status()` raises for client and server error codes. */
  predicate IsHttpError(status: int) {
    400 <= status < 600
  }
}
