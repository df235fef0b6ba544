/** The HTTP outcomes of the endpoints: the errors raised and the bodies returned. */
module Http {
  import opened Records
  import opened Auth

  /** An `HTTPException`; `bearerChallenge` is the `WWW-Authenticate: Bearer` header. */
  datatype HttpError = HttpError(status: nat, detail: string, bearerChallenge: bool)

  const EmailTaken := HttpError(400, "Email already registered", false)
  const BadCredentials := HttpError(401, "Incorrect email or password", true)
  const InvalidState := HttpError(400, "Invalid OAuth state", false)
  const GoogleExchangeFailed := HttpError(400, "Failed to exchange Google code", false)
  const GoogleUserInfoFailed := HttpError(400, "Failed to get Google user info", false)
  /** A `KeyError` escaping the handler, which the framework answers with 500. */
  const InternalServerError := HttpError(500, "Internal Server Error", false)
  const GithubExchangeFailed := HttpError(400, "Failed to exchange GitHub code", false)
  const GithubNoAccessToken := HttpError(400, "No access token from GitHub", false)
  const InvalidToken := HttpError(401, "Invalid or expired token", true)
  const UserNotFound := HttpError(404, "User not found", false)
  const QueryTooShort := HttpError(400, "Query must be at least 2 characters", false)

  const AccountDeleted := "Account deleted successfully"

  datatype TokenResponse = TokenResponse(
    accessToken: Token, tokenType: string, userId: string, displayName: string, email: string)

  /** The start of an OAuth login: the nonce placed in the provider's authorization URL. */
  datatype LoginStart = LoginStart(state: string)

  /** The redirect to the front end carrying the new token and the provider's name. */
  datatype Redirect = Redirect(token: Token, provider: string)

  datatype SearchResponse = SearchResponse(results: seq<PublicView>, count: nat)
}
