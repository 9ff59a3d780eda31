/** The `POST` handler of app/api/auth/login/route.js. */
module Login {
  import opened Wrappers
  import opened Js
  import opened Hex
  import opened Auth
  import opened RateLimit
  import opened Db
  import opened Http

  /** Five logins per client address per 15 minutes. */
  const MaxAttempts: int := 5
  const WindowMs: int := 15 * 60 * 1000

  const TooManyAttempts: String := "Too many login attempts. Please try again in 15 minutes."
  const FieldsRequired: String := "Email and password are required"
  /** The same reply for an unknown e-mail and for a wrong password. */
  const InvalidCredentials: String := "Invalid email or password"

  datatype Body = Body(email: JsValue, password: JsValue)

  /** A request. `body` is `None` when `request.json()` fails, and also when
      the body is JSON `null`, whose destructuring throws the same way. */
  datatype Request = Request(body: Option<Body>, forwardedFor: Option<String>)

  function RateKey(forwardedFor: Option<String>): String
  {
    "login:" + ClientIp(forwardedFor)
  }

  /** `verifyPassword(password, stored)` for whatever JSON value the client
      sent: in testing mode a value that is not a string never equals the
      stored string; in strict mode the key derivation throws on it (`None`). */
  function PasswordMatches(mode: Mode, password: JsValue, stored: String, kdf: Kdf): (r: Option<bool>)
    ensures password.Str? ==> r == Some(VerifyPassword(mode, password.s, stored, kdf))
    ensures !password.Str? && mode == Testing ==> r == Some(false)
    ensures !password.Str? && mode == Strict ==> r == None
  {
    match password
    case Str(p) => Some(VerifyPassword(mode, p, stored, kdf))
    case _ => if mode == Testing then Some(false) else None
  }

  /** The guard chain, in order: rate limit (every parsed request is counted),
      both fields present, known e-mail, matching password. Only a successful
      login creates a session, under the token it returns; users never change. */
  method Post(mode: Mode, db: Database, limiter: RateLimiter, req: Request,
              random: seq<byte>, sessionId: String, kdf: Kdf, now: int)
    returns (resp: Response)
    requires db.Valid()
    modifies db, limiter
    ensures db.Valid()
    ensures db.users == old(db.users) && db.order == old(db.order)
    ensures resp.status != 200 ==> db.sessions == old(db.sessions)
    ensures req.body.None? ==> resp == InternalError && limiter.store == old(limiter.store)
    ensures req.body.Some? ==> limiter.store == After(mode, old(limiter.store), RateKey(req.forwardedFor), WindowMs, now)
    ensures req.body.Some? && !Allows(mode, old(limiter.store), RateKey(req.forwardedFor), MaxAttempts, WindowMs, now) ==>
      resp == Response(429, Failure(TooManyAttempts))
    ensures req.body.Some? && Allows(mode, old(limiter.store), RateKey(req.forwardedFor), MaxAttempts, WindowMs, now) ==>
      var body := req.body.value;
      if !Truthy(body.email) || !Truthy(body.password) then
        resp == Response(400, Failure(FieldsRequired))
      else match NormalizedEmail(mode, body.email)
        case None => resp == InternalError
        case Some(email) =>
          if email !in old(db.users) then
            resp == Response(401, Failure(InvalidCredentials))
          else
            var user := old(db.users)[email];
            match PasswordMatches(mode, body.password, user.password, kdf)
            case None => resp == InternalError
            case Some(ok) =>
              if !ok then
                resp == Response(401, Failure(InvalidCredentials))
              else
                var token := GenerateToken(mode, user.id, now, random);
                && db.sessions == old(db.sessions)[token := Session(sessionId, user.id, token, now, now + SessionLifetimeMs)]
                && resp == Response(200, LoggedIn(token, SummaryOf(user), mode == Testing))
  {
    if req.body.None? {
      return InternalError;
    }
    var body := req.body.value;
    var allowed := limiter.CheckRateLimit(mode, RateKey(req.forwardedFor), MaxAttempts, WindowMs, now);
    if !allowed {
      return Response(429, Failure(TooManyAttempts));
    }
    if !Truthy(body.email) || !Truthy(body.password) {
      return Response(400, Failure(FieldsRequired));
    }
    var normalized := NormalizedEmail(mode, body.email);
    if normalized.None? {
      // `toLowerCase` of a value that is not a string throws.
      return InternalError;
    }
    var found := db.GetUserByEmail(normalized.value);
    if found.None? {
      return Response(401, Failure(InvalidCredentials));
    }
    var user := found.value;
    var matches := PasswordMatches(mode, body.password, user.password, kdf);
    if matches.None? {
      return InternalError;
    }
    if !matches.value {
      return Response(401, Failure(InvalidCredentials));
    }
    var token := GenerateToken(mode, user.id, now, random);
    var _ := db.CreateSession(user.id, token, sessionId, now);
    return Response(200, LoggedIn(token, SummaryOf(user), mode == Testing));
  }

  /** In strict mode the token a login returns and the session it creates
      expire together. The token's timestamp and the session's creation time
      are two readings of the clock, the first taken no later than the second.
      While the token validates, the session is live; once the session's 24
      hours are over, both are refused; and when the two readings agree, the
      token validates exactly while the session is live. */
  lemma TokenAndSessionExpireTogether(sessions: map<String, Session>, userId: String, issuedAt: int,
                                      createdAt: int, random: seq<byte>, sessionId: String, now: int)
    requires ':' !in userId && issuedAt <= createdAt
    ensures var token := GenerateToken(Strict, userId, issuedAt, random);
      var stored := sessions[token := Session(sessionId, userId, token, createdAt, createdAt + SessionLifetimeMs)];
      && (ValidateToken(Strict, token, now).Some? ==> LiveSession(stored, token, now).Some?)
      && (now > createdAt + SessionLifetimeMs ==>
            ValidateToken(Strict, token, now).None? && LiveSession(stored, token, now).None?)
      && (issuedAt == createdAt ==>
            (ValidateToken(Strict, token, now).Some? <==> LiveSession(stored, token, now).Some?))
  {
    StrictTokenRoundTrip(userId, issuedAt, random, now);
  }
}
