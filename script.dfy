/** The `GET` handler of app/api/script/route.js: the authenticated download
    of the script for one game id. Reading the file is an oracle `files` from
    a game id to the file's text, `None` when the read fails. */
module Script {
  import opened Wrappers
  import opened Js
  import opened Auth
  import opened Db
  import opened Http

  const MissingGameId: String := "Missing gameid"
  const AuthRequired: String := "Authentication required. Include token in URL or header."
  const InvalidToken: String := "Invalid or expired token"
  const NoSession: String := "Session not found"
  const NoUser: String := "User not found"
  const WrongGame: String := "Unauthorized for this game"
  const ScriptNotFound: String := "Script not found"

  /** The token the route uses: the `token` query parameter, replaced by the
      bearer token of the `authorization` header only when the parameter is
      missing or empty. `None` stands for `null`. */
  function SelectToken(tokenParam: Option<String>, authorization: Option<String>): (token: Option<String>)
    ensures tokenParam.Some? && tokenParam.value != [] ==> token == tokenParam
    ensures token != tokenParam ==>
      token.Some? && authorization.Some? && authorization.value == BearerPrefix + token.value
  {
    if (tokenParam.None? || tokenParam.value == []) && BearerToken(authorization).Some?
    then BearerToken(authorization)
    else tokenParam
  }

  /** A non-empty query parameter wins over any header. */
  lemma QueryTokenFirst(tokenParam: String, authorization: Option<String>)
    requires tokenParam != []
    ensures SelectToken(Some(tokenParam), authorization) == Some(tokenParam)
  {
  }

  /** Otherwise the header is used when it starts with `Bearer `, and the
      token is the header without its first seven characters. */
  lemma HeaderTokenFallback(tokenParam: Option<String>, header: String)
    requires tokenParam.None? || tokenParam.value == []
    ensures StartsWith(header, BearerPrefix) ==> SelectToken(tokenParam, Some(header)) == Some(header[7..])
    ensures !StartsWith(header, BearerPrefix) ==> SelectToken(tokenParam, Some(header)) == tokenParam
  {
  }

  /** `!(user.gameid && user.gameid !== gameid)`: a user without a game id
      (any falsy value) may fetch every script, one with a game id only the
      script of that id. */
  predicate Authorized(userGameId: JsValue, gameid: String)
    ensures userGameId == Str(gameid) ==> Authorized(userGameId, gameid)
    ensures Truthy(userGameId) && Authorized(userGameId, gameid) ==> userGameId == Str(gameid)
  {
    !(Truthy(userGameId) && userGameId != Str(gameid))
  }

  lemma UnrestrictedUserAuthorized(userGameId: JsValue, gameid: String)
    requires !Truthy(userGameId)
    ensures Authorized(userGameId, gameid)
  {
  }

  lemma ScopedUserAuthorized(scope: String, gameid: String)
    requires scope != []
    ensures Authorized(Str(scope), gameid) <==> gameid == scope
  {
  }

  /** The guard chain, in order: a game id (checked before anything else), a
      token, a token that validates to a non-empty id, a live session under
      that token, the session owner's record, the owner's game scope. Only an
      authorised request reads the file; the only change to the store is the
      removal of an expired session that is read. */
  method Get(mode: Mode, db: Database, gameid: Option<String>, tokenParam: Option<String>,
             authorization: Option<String>, files: String -> Option<String>, now: int)
    returns (resp: Response)
    requires db.Valid()
    modifies db
    ensures db.Valid()
    ensures db.users == old(db.users) && db.order == old(db.order)
    ensures gameid.None? || gameid.value == [] ==>
      resp == Response(400, Failure(MissingGameId)) && db.sessions == old(db.sessions)
    ensures gameid.Some? && gameid.value != [] ==>
      var token := SelectToken(tokenParam, authorization);
      if token.None? || token.value == [] then
        resp == Response(401, Failure(AuthRequired)) && db.sessions == old(db.sessions)
      else if !IsUserId(ValidateToken(mode, token.value, now)) then
        resp == Response(401, Failure(InvalidToken)) && db.sessions == old(db.sessions)
      else
        && db.sessions == Evict(old(db.sessions), token.value, now)
        && match LiveSession(old(db.sessions), token.value, now)
           case None => resp == Response(401, Failure(NoSession))
           case Some(session) =>
             match db.UserWithId(session.userId)
             case None => resp == Response(401, Failure(NoUser))
             case Some(user) =>
               if !Authorized(user.gameid, gameid.value) then
                 resp == Response(403, Failure(WrongGame))
               else match files(gameid.value)
                 case None => resp == Response(404, Failure(ScriptNotFound))
                 case Some(content) => resp == Response(200, ScriptText(content))
  {
    if gameid.None? || gameid.value == [] {
      return Response(400, Failure(MissingGameId));
    }
    var token := SelectToken(tokenParam, authorization);
    if token.None? || token.value == [] {
      return Response(401, Failure(AuthRequired));
    }
    var userId := ValidateToken(mode, token.value, now);
    if !IsUserId(userId) {
      return Response(401, Failure(InvalidToken));
    }
    var session := db.GetSession(token.value, now);
    if session.None? {
      return Response(401, Failure(NoSession));
    }
    var user := db.GetUserById(session.value.userId);
    if user.None? {
      return Response(401, Failure(NoUser));
    }
    if !Authorized(user.value.gameid, gameid.value) {
      return Response(403, Failure(WrongGame));
    }
    var content := files(gameid.value);
    if content.None? {
      return Response(404, Failure(ScriptNotFound));
    }
    return Response(200, ScriptText(content.value));
  }
}
