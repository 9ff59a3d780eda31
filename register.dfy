/** The `POST` handler of app/api/auth/register/route.js. */
module Register {
  import opened Wrappers
  import opened Js
  import opened Hex
  import opened Auth
  import opened RateLimit
  import opened Db
  import opened Http

  /** Three registrations per client address per hour. */
  const MaxAttempts: int := 3
  const WindowMs: int := 60 * 60 * 1000

  const TooManyAttempts: String := "Too many registration attempts. Please try again later."
  const FieldsRequired: String := "Email and password are required"
  const BadEmailFormat: String := "Invalid email format"

  /** The fields of the parsed JSON body. */
  datatype Body = Body(email: JsValue, password: JsValue, gameid: JsValue)

  /** A request. `body` is `None` when `request.json()` fails, and also when
      the body is JSON `null`, whose destructuring throws the same way. */
  datatype Request = Request(body: Option<Body>, forwardedFor: Option<String>)

  function RateKey(forwardedFor: Option<String>): String
  {
    "register:" + ClientIp(forwardedFor)
  }

  /** The reply to a password that fails the policy, which depends on the mode. */
  function WeakPasswordMessage(mode: Mode): String
  {
    match mode
    case Testing => "Password must be at least 1 character"
    case Strict => "Password must be at least 8 characters with uppercase, lowercase, and number"
  }

  /** `gameid ? sanitizeInput(gameid) : null`. */
  function RequestedGameId(mode: Mode, gameid: JsValue): (r: JsValue)
    ensures !Truthy(gameid) ==> r == Null
    ensures Truthy(gameid) && (mode == Testing || !gameid.Str?) ==> r == gameid
    ensures Truthy(gameid) && mode == Strict && gameid.Str? ==>
      r.Str? && |r.s| <= MaxInputLength && forall i :: 0 <= i < |r.s| ==> !IsStrippedChar(r.s[i])
  {
    if Truthy(gameid) then SanitizeInput(mode, gameid) else Null
  }

  /** The guard chain, in order: rate limit (every parsed request is counted,
      valid or not), both fields present, e-mail (sanitised, then
      lower-cased) well formed, password strong enough, e-mail not taken.
      Only a successful registration adds a user, and it stores the hashed
      password. */
  method Post(mode: Mode, db: Database, limiter: RateLimiter, req: Request,
              salt: seq<byte>, newId: String, kdf: Kdf, now: int)
    returns (resp: Response)
    requires db.Valid()
    modifies db, limiter
    ensures db.Valid()
    ensures db.sessions == old(db.sessions)
    ensures req.body.None? ==> resp == InternalError && limiter.store == old(limiter.store)
    ensures req.body.Some? ==> limiter.store == After(mode, old(limiter.store), RateKey(req.forwardedFor), WindowMs, now)
    ensures req.body.Some? && !Allows(mode, old(limiter.store), RateKey(req.forwardedFor), MaxAttempts, WindowMs, now) ==>
      resp == Response(429, Failure(TooManyAttempts))
    ensures resp.status != 201 ==> db.users == old(db.users) && db.order == old(db.order)
    ensures req.body.Some? && Allows(mode, old(limiter.store), RateKey(req.forwardedFor), MaxAttempts, WindowMs, now) ==>
      var body := req.body.value;
      if !Truthy(body.email) || !Truthy(body.password) then
        resp == Response(400, Failure(FieldsRequired))
      else match NormalizedEmail(mode, body.email)
        case None => resp == InternalError
        case Some(email) =>
          if !IsValidEmail(email) then
            resp == Response(400, Failure(BadEmailFormat))
          else if !(body.password.Str? && IsValidPassword(mode, body.password.s)) then
            resp == Response(400, Failure(WeakPasswordMessage(mode)))
          else if email in old(db.users) then
            resp == Response(409, Failure(UserExists))
          else
            var user := User(newId, email, HashPassword(mode, body.password.s, salt, kdf),
                             OrNull(RequestedGameId(mode, body.gameid)), now);
            && db.users == old(db.users)[email := user]
            && db.order == old(db.order) + [email]
            && resp == Response(201, Registered(Public(user), mode == Testing))
  {
    if req.body.None? {
      return InternalError;
    }
    var body := req.body.value;
    var allowed := limiter.CheckRateLimit(mode, RateKey(req.forwardedFor), MaxAttempts, WindowMs, now);
    if !allowed {
      return Response(429, Failure(TooManyAttempts));
    }
    if !Truthy(body.email) || !Truthy(body.password) {
      return Response(400, Failure(FieldsRequired));
    }
    var normalized := NormalizedEmail(mode, body.email);
    if normalized.None? {
      // `toLowerCase` of a value that is not a string throws.
      return InternalError;
    }
    var email := normalized.value;
    if !IsValidEmail(email) {
      return Response(400, Failure(BadEmailFormat));
    }
    if !(body.password.Str? && IsValidPassword(mode, body.password.s)) {
      // `.length` of a number, a boolean or a plain object is `undefined`,
      // and `undefined >= n` is false. Arrays and objects with a `length`
      // property are also `Obj` here and take this branch, whereas the
      // source reads their `length` and may go on to hash them.
      return Response(400, Failure(WeakPasswordMessage(mode)));
    }
    var hashed := HashPassword(mode, body.password.s, salt, kdf);
    var created := db.CreateUser(NewUser(email, hashed, RequestedGameId(mode, body.gameid)), newId, now);
    match created
    case Err(message) =>
      return Response(409, Failure(message));
    case Ok(user) =>
      return Response(201, Registered(user, mode == Testing));
  }
}
