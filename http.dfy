/** What the route handlers share: the response shape, the bearer-token
    header, the client address and the e-mail normalisation step. */
module Http {
  import opened Wrappers
  import opened Js
  import opened Auth
  import opened Db

  /** The `{ id, email, gameid }` user summary of the login and verify replies. */
  datatype Summary = Summary(id: String, email: String, gameid: JsValue)

  /** The JSON (or, for a script, plain-text) body of a reply. */
  datatype Body =
    | Failure(error: String)
    | Registered(account: PublicUser, testingMode: bool)
    | LoggedIn(token: String, user: Summary, testingMode: bool)
    | Verified(user: Summary)
    | LoggedOut
    | ScriptText(content: String)

  datatype Response = Response(status: int, body: Body)

  /** What the catch-all handler of a route answers to an unexpected error. */
  const InternalError: Response := Response(500, Failure("Internal server error"))

  const BearerPrefix: String := "Bearer "

  function SummaryOf(u: User): Summary
  {
    Summary(u.id, u.email, u.gameid)
  }

  /** The token of an `authorization` header: the text after `Bearer `, or
      `None` when the header is missing or lacks that prefix. */
  function BearerToken(authorization: Option<String>): (token: Option<String>)
    ensures token.Some? <==> authorization.Some? && StartsWith(authorization.value, BearerPrefix)
    ensures token.Some? ==> authorization.value == BearerPrefix + token.value
  {
    if authorization.Some? && StartsWith(authorization.value, BearerPrefix)
    then
      var header := authorization.value;
      assert header == header[..|BearerPrefix|] + header[|BearerPrefix|..];
      Some(header[|BearerPrefix|..])
    else None
  }

  /** The header a client builds from a token gives that token back. */
  lemma BearerRoundTrip(token: String)
    ensures BearerToken(Some(BearerPrefix + token)) == Some(token)
  {
    var header := BearerPrefix + token;
    assert header[..|BearerPrefix|] == BearerPrefix;
    assert header[|BearerPrefix|..] == token;
  }

  /** The `x-forwarded-for` header, or `unknown` when it is missing or empty. */
  function ClientIp(forwardedFor: Option<String>): (ip: String)
    ensures ip != []
    ensures forwardedFor.Some? && forwardedFor.value != [] ==> ip == forwardedFor.value
    ensures forwardedFor.None? || forwardedFor.value == [] ==> ip == "unknown"
  {
    if forwardedFor.Some? && forwardedFor.value != [] then forwardedFor.value else "unknown"
  }

  /** A `validateToken` result that the handlers accept: not `null` and not
      the empty (falsy) string. */
  predicate IsUserId(v: Option<String>)
  {
    v.Some? && v.value != []
  }

  /** `sanitizeInput(email).toLowerCase()`; `None` when the sanitised value is
      not a string, so that `toLowerCase` throws. */
  function NormalizedEmail(mode: Mode, email: JsValue): (r: Option<String>)
    ensures r.Some? <==> email.Str?
    ensures r.Some? ==> forall i :: 0 <= i < |r.value| ==> !('A' <= r.value[i] <= 'Z')
  {
    match SanitizeInput(mode, email)
    case Str(s) => Some(ToLower(s))
    case _ => None
  }

  /** Lower-case, clean text is its own normal form. */
  lemma NormalizedCleanEmail(mode: Mode, email: String)
    requires forall i :: 0 <= i < |email| ==> !IsStrippedChar(email[i])
    requires forall i :: 0 <= i < |email| ==> !('A' <= email[i] <= 'Z')
    requires IsTrimmed(email) && |email| <= MaxInputLength
    ensures NormalizedEmail(mode, Str(email)) == Some(email)
  {
    SanitizeCleanString(mode, email);
    ToLowerOfLowerCase(email);
  }
}
