/** The `GET` handler of app/api/auth/verify/route.js. */
module Verify {
  import opened Wrappers
  import opened Js
  import opened Auth
  import opened Db
  import opened Http

  const NoToken: String := "No token provided"
  const InvalidToken: String := "Invalid or expired token"
  const NoSession: String := "Session not found"
  const NoUser: String := "User not found"

  /** The guard chain, in order: a `Bearer ` header, a token that validates to
      a non-empty id, a live session under that token, the session owner's
      record. The owner is the session's user, not the id in the token. The
      only change is the removal of an expired session that is read. */
  method Get(mode: Mode, db: Database, authorization: Option<String>, now: int) returns (resp: Response)
    requires db.Valid()
    modifies db
    ensures db.Valid()
    ensures db.users == old(db.users) && db.order == old(db.order)
    ensures BearerToken(authorization).None? ==>
      resp == Response(401, Failure(NoToken)) && db.sessions == old(db.sessions)
    ensures BearerToken(authorization).Some? ==>
      var token := BearerToken(authorization).value;
      if !IsUserId(ValidateToken(mode, token, now)) then
        resp == Response(401, Failure(InvalidToken)) && db.sessions == old(db.sessions)
      else
        && db.sessions == Evict(old(db.sessions), token, now)
        && match LiveSession(old(db.sessions), token, now)
           case None => resp == Response(401, Failure(NoSession))
           case Some(session) =>
             match db.UserWithId(session.userId)
             case None => resp == Response(401, Failure(NoUser))
             case Some(user) => resp == Response(200, Verified(SummaryOf(user)))
  {
    var bearer := BearerToken(authorization);
    if bearer.None? {
      return Response(401, Failure(NoToken));
    }
    var token := bearer.value;
    var userId := ValidateToken(mode, token, now);
    if !IsUserId(userId) {
      return Response(401, Failure(InvalidToken));
    }
    var session := db.GetSession(token, now);
    if session.None? {
      return Response(401, Failure(NoSession));
    }
    var user := db.GetUserById(session.value.userId);
    if user.None? {
      return Response(401, Failure(NoUser));
    }
    var u := user.value;
    return Response(200, Verified(Summary(u.id, u.email, u.gameid)));
  }
}
