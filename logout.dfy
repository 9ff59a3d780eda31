/** The `POST` handler of app/api/auth/logout/route.js. */
module Logout {
  import opened Wrappers
  import opened Js
  import opened Db
  import opened Http

  const NoToken: String := "No token provided"

  /** With a `Bearer ` header, deletes the session stored under whatever text
      follows the prefix (it is never validated) and succeeds whether or not
      there was one; without it, changes nothing. Users and every other
      session are untouched. */
  method Post(db: Database, authorization: Option<String>) returns (resp: Response)
    requires db.Valid()
    modifies db
    ensures db.Valid()
    ensures db.users == old(db.users) && db.order == old(db.order)
    ensures BearerToken(authorization).None? ==>
      resp == Response(401, Failure(NoToken)) && db.sessions == old(db.sessions)
    ensures BearerToken(authorization).Some? ==>
      resp == Response(200, LoggedOut) && db.sessions == old(db.sessions) - {BearerToken(authorization).value}
  {
    var bearer := BearerToken(authorization);
    if bearer.None? {
      return Response(401, Failure(NoToken));
    }
    var _ := db.DeleteSession(bearer.value);
    return Response(200, LoggedOut);
  }
}
