/** Request sequences run against a fresh store and rate limiter, with the
    outcome each one is proved to have. */
module Scenarios {
  import opened Wrappers
  import opened Js
  import opened Hex
  import opened Auth
  import opened RateLimit
  import opened Db
  import opened Http
  import Register
  import Login
  import Verify
  import Logout

  /** The address `a@x.com` used below is well formed ... */
  lemma SampleEmailValid()
    ensures IsValidEmail("a@x.com")
  {
    var local, domain, tld := "a", "x", "com";
    assert IsEmailRun(local) && IsEmailRun(domain) && IsEmailRun(tld);
    EmailFromParts(local, domain, tld);
    assert local + "@" + domain + "." + tld == "a@x.com";
  }

  /** ... and already in normal form. */
  lemma SampleEmailNormal(mode: Mode)
    ensures NormalizedEmail(mode, Str("a@x.com")) == Some("a@x.com")
  {
    var email := "a@x.com";
    assert forall i :: 0 <= i < |email| ==> !IsStrippedChar(email[i]) && !('A' <= email[i] <= 'Z');
    NormalizedCleanEmail(mode, email);
  }

  /** Both facts about `a@x.com`. */
  lemma SampleEmail(mode: Mode)
    ensures IsValidEmail("a@x.com")
    ensures NormalizedEmail(mode, Str("a@x.com")) == Some("a@x.com")
  {
    SampleEmailValid();
    SampleEmailNormal(mode);
  }

  /** Registering the same address twice: the second attempt is a conflict. */
  method DuplicateRegistration(kdf: Kdf, now: int) returns (statuses: seq<int>, second: Response)
    ensures statuses == [201, 409]
    ensures second.body == Failure(UserExists)
  {
    SampleEmail(Testing);
    var db, limiter, first := RegisterFresh(Testing, "a@x.com", "secret1", None, [], "u1", kdf, now);
    assert "a@x.com" in db.users;
    second := Register.Post(Testing, db, limiter,
      Register.Request(Some(Register.Body(Str("a@x.com"), Str("secret1"), Undefined)), None), [], "u2", kdf, now);
    statuses := [first.status, second.status];
  }

  /** Deleting a stored session twice: the first call finds it, the second
      does not. */
  method DeleteTwice(db: Database, token: String) returns (first: bool, second: bool)
    requires db.Valid() && token in db.sessions
    modifies db
    ensures first && !second
    ensures token !in db.sessions
  {
    first := db.DeleteSession(token);
    second := db.DeleteSession(token);
  }

  /** The limiter's record for `key` after `attempts` strict-mode logins
      within one window that opened at `now`. */
  predicate Counted(store: Store, key: String, attempts: nat, now: int)
  {
    if attempts == 0 then key !in store else key in store && store[key] == RateRecord(attempts, now + Login.WindowMs)
  }

  /** One more strict-mode call within the window adds one to the count, and
      the limiter answers yes while the count stays within five. */
  lemma ThrottleStep(store: Store, key: String, attempts: nat, now: int)
    requires Counted(store, key, attempts, now)
    ensures Counted(After(Strict, store, key, Login.WindowMs, now), key, attempts + 1, now)
    ensures Allows(Strict, store, key, Login.MaxAttempts, Login.WindowMs, now) == (attempts < 5)
  {
    assert Tick(store, key, Login.WindowMs, now) == RateRecord(attempts + 1, now + Login.WindowMs);
  }

  /** The state between the wrong-password logins of `LoginThrottle`: the
      store holds the user with the stored hash, which `wrong` does not
      match, and the limiter has counted `attempts` logins. */
  ghost predicate Throttling(db: Database, limiter: RateLimiter, email: String, wrong: String, key: String,
                             kdf: Kdf, now: int, attempts: nat)
    reads db, limiter
  {
    && db.Valid() && email in db.users
    && !VerifyPassword(Strict, wrong, db.users[email].password, kdf)
    && Counted(limiter.store, key, attempts, now)
  }

  /** One strict-mode login with a wrong password, after `attempts` earlier
      ones from the same address within the window. */
  method WrongPasswordLogin(db: Database, limiter: RateLimiter, email: String, wrong: String,
                            forwardedFor: Option<String>, kdf: Kdf, now: int, attempts: nat)
    returns (status: int)
    requires email != [] && wrong != [] && NormalizedEmail(Strict, Str(email)) == Some(email)
    requires Throttling(db, limiter, email, wrong, Login.RateKey(forwardedFor), kdf, now, attempts)
    modifies db, limiter
    ensures Throttling(db, limiter, email, wrong, Login.RateKey(forwardedFor), kdf, now, attempts + 1)
    ensures status == if attempts < 5 then 401 else 429
  {
    var key := Login.RateKey(forwardedFor);
    ghost var before := limiter.store;
    ThrottleStep(before, key, attempts, now);
    assert Login.PasswordMatches(Strict, Str(wrong), db.users[email].password, kdf) == Some(false);
    var req := Login.Request(Some(Login.Body(Str(email), Str(wrong))), forwardedFor);
    assert Truthy(Str(email)) && Truthy(Str(wrong)) && email in db.users;
    var resp := Login.Post(Strict, db, limiter, req, [], [], kdf, now);
    assert limiter.store == After(Strict, before, key, Login.WindowMs, now);
    if attempts < 5 {
      assert resp == Response(401, Failure(Login.InvalidCredentials));
    } else {
      assert resp == Response(429, Failure(Login.TooManyAttempts));
    }
    status := resp.status;
  }

  /** A fresh store holding one user with the hash of `password`, which
      `wrong` does not match, and a fresh limiter. */
  method StoreWithUser(email: String, password: String, wrong: String, forwardedFor: Option<String>,
                       salt: seq<byte>, userId: String, kdf: Kdf, now: int)
    returns (db: Database, limiter: RateLimiter)
    requires kdf(wrong, ToHex(salt), Iterations, KeyLength) != kdf(password, ToHex(salt), Iterations, KeyLength)
    ensures fresh(db) && fresh(limiter)
    ensures Throttling(db, limiter, email, wrong, Login.RateKey(forwardedFor), kdf, now, 0)
  {
    db := new Database();
    limiter := new RateLimiter();
    var stored := HashPassword(Strict, password, salt, kdf);
    VerifyAgainstHash(Strict, password, wrong, salt, kdf);
    var _ := db.CreateUser(NewUser(email, stored, Null), userId, now);
  }

  /** Strict mode, six logins with a wrong password from one address within
      the window: five are refused as bad credentials, the sixth is throttled. */
  method LoginThrottle(email: String, password: String, wrong: String, forwardedFor: Option<String>,
                       salt: seq<byte>, userId: String, kdf: Kdf, now: int)
    returns (statuses: seq<int>)
    requires email != [] && wrong != [] && NormalizedEmail(Strict, Str(email)) == Some(email)
    requires kdf(wrong, ToHex(salt), Iterations, KeyLength) != kdf(password, ToHex(salt), Iterations, KeyLength)
    ensures statuses == [401, 401, 401, 401, 401, 429]
  {
    var db, limiter := StoreWithUser(email, password, wrong, forwardedFor, salt, userId, kdf, now);
    statuses := [];
    while |statuses| < 6
      invariant |statuses| <= 6
      invariant Throttling(db, limiter, email, wrong, Login.RateKey(forwardedFor), kdf, now, |statuses|)
      invariant statuses == ThrottleAnswers(|statuses|)
    {
      var n := |statuses|;
      var status := WrongPasswordLogin(db, limiter, email, wrong, forwardedFor, kdf, now, n);
      ThrottleAnswersStep(n);
      statuses := statuses + [status];
    }
    ThrottleAnswersSix();
  }

  /** The statuses of the first `n` wrong-password logins. */
  function ThrottleAnswers(n: nat): seq<int>
  {
    if n == 0 then [] else ThrottleAnswers(n - 1) + [if n - 1 < 5 then 401 else 429]
  }

  lemma ThrottleAnswersStep(n: nat)
    ensures ThrottleAnswers(n + 1) == ThrottleAnswers(n) + [if n < 5 then 401 else 429]
  {
  }

  lemma ThrottleAnswersSix()
    ensures ThrottleAnswers(6) == [401, 401, 401, 401, 401, 429]
  {
  }

  /** The registration half of `SessionLifecycle`: on a fresh store and
      limiter, a well-formed address and an accepted password register. */
  method RegisterFresh(mode: Mode, email: String, password: String, forwardedFor: Option<String>,
                       salt: seq<byte>, userId: String, kdf: Kdf, now: int)
    returns (db: Database, limiter: RateLimiter, registered: Response)
    requires IsValidEmail(email) && IsValidPassword(mode, password)
    requires NormalizedEmail(mode, Str(email)) == Some(email)
    ensures fresh(db) && fresh(limiter) && db.Valid()
    ensures db.users == map[email := User(userId, email, HashPassword(mode, password, salt, kdf), Null, now)]
    ensures db.order == [email] && db.sessions == map[]
    ensures limiter.store == After(mode, map[], Register.RateKey(forwardedFor), Register.WindowMs, now)
    ensures registered.status == 201
  {
    db := new Database();
    limiter := new RateLimiter();
    var registerKey := Register.RateKey(forwardedFor);
    assert Allows(mode, limiter.store, registerKey, Register.MaxAttempts, Register.WindowMs, now);
    assert Truthy(Str(email)) && Truthy(Str(password));
    assert email !in db.users;
    assert OrNull(Register.RequestedGameId(mode, Undefined)) == Null;
    registered := Register.Post(mode, db, limiter,
      Register.Request(Some(Register.Body(Str(email), Str(password), Undefined)), forwardedFor), salt, userId, kdf, now);
  }

  /** The login half of `SessionLifecycle`: the user just registered
      logs in with the same password from the same address. */
  method LoginRegistered(mode: Mode, db: Database, limiter: RateLimiter, email: String, password: String,
                         forwardedFor: Option<String>, salt: seq<byte>, userId: String, random: seq<byte>,
                         sessionId: String, kdf: Kdf, now: int)
    returns (loggedIn: Response)
    requires email != [] && IsValidPassword(mode, password) && NormalizedEmail(mode, Str(email)) == Some(email)
    requires db.Valid()
    requires db.users == map[email := User(userId, email, HashPassword(mode, password, salt, kdf), Null, now)]
    requires limiter.store == After(mode, map[], Register.RateKey(forwardedFor), Register.WindowMs, now)
    modifies db, limiter
    ensures db.Valid() && db.users == old(db.users) && db.order == old(db.order)
    ensures var token := GenerateToken(mode, userId, now, random);
      && db.sessions == old(db.sessions)[token := Session(sessionId, userId, token, now, now + SessionLifetimeMs)]
      && loggedIn == Response(200, LoggedIn(token, Summary(userId, email, Null), mode == Testing))
  {
    LoginGuardsPass(mode, limiter.store, password, forwardedFor, salt, kdf, now);
    assert Truthy(Str(email)) && Truthy(Str(password)) && email in db.users;
    loggedIn := Login.Post(mode, db, limiter,
      Login.Request(Some(Login.Body(Str(email), Str(password))), forwardedFor), random, sessionId, kdf, now);
  }

  /** The checks `LoginRegistered` passes that do not depend on the store:
      a fresh login key, and the stored hash matching the password. */
  lemma LoginGuardsPass(mode: Mode, store: Store, password: String, forwardedFor: Option<String>,
                        salt: seq<byte>, kdf: Kdf, now: int)
    requires IsValidPassword(mode, password)
    requires store == After(mode, map[], Register.RateKey(forwardedFor), Register.WindowMs, now)
    ensures Allows(mode, store, Login.RateKey(forwardedFor), Login.MaxAttempts, Login.WindowMs, now)
    ensures Login.PasswordMatches(mode, Str(password), HashPassword(mode, password, salt, kdf), kdf) == Some(true)
  {
    PasswordRoundTrip(mode, password, salt, kdf);
    if mode == Strict {
      StrictPasswordIsTestingPassword(password);
    }
    var loginKey := Login.RateKey(forwardedFor);
    assert loginKey[0] == 'l' && Register.RateKey(forwardedFor)[0] == 'r';
    assert loginKey !in store;
  }

  /** The verification half of `SessionLifecycle`: the header built from
      the token of a live session of the only user verifies as that user. */
  method VerifyLoggedIn(mode: Mode, db: Database, user: User, token: String, sessionId: String, now: int)
    returns (verified: Response)
    requires db.Valid() && db.users == map[user.email := user] && db.order == [user.email]
    requires token in db.sessions && db.sessions[token] == Session(sessionId, user.id, token, now, now + SessionLifetimeMs)
    requires ValidateToken(mode, token, now) == Some(user.id) && user.id != []
    modifies db
    ensures db.Valid()
    ensures verified == Response(200, Verified(SummaryOf(user)))
  {
    BearerRoundTrip(token);
    assert LiveSession(db.sessions, token, now) == Some(db.sessions[token]);
    assert db.UserWithId(user.id) == Some(user);
    verified := Verify.Get(mode, db, Some(BearerPrefix + token), now);
  }

  /** Logging out with the header of a valid token removes its session, so
      the same header no longer verifies. */
  method LogoutThenVerify(mode: Mode, db: Database, token: String, userId: String, now: int)
    returns (loggedOut: Response, verifiedAgain: Response)
    requires db.Valid() && ValidateToken(mode, token, now) == Some(userId) && userId != []
    modifies db
    ensures loggedOut == Response(200, LoggedOut)
    ensures verifiedAgain == Response(401, Failure(Verify.NoSession))
  {
    BearerRoundTrip(token);
    loggedOut := Logout.Post(db, Some(BearerPrefix + token));
    assert LiveSession(db.sessions, token, now).None?;
    verifiedAgain := Verify.Get(mode, db, Some(BearerPrefix + token), now);
  }

  /** For every well-formed address (already in normal form), every password
      the mode accepts and every user id without `:`: registering and then
      logging in succeed, the token returned verifies as that user, logging
      out with it succeeds, and afterwards the same token is refused. */
  method SessionLifecycle(mode: Mode, email: String, password: String, forwardedFor: Option<String>,
                          salt: seq<byte>, userId: String, random: seq<byte>, sessionId: String,
                          kdf: Kdf, now: int)
    returns (registered: Response, loggedIn: Response, verified: Response, loggedOut: Response,
             verifiedAgain: Response)
    requires IsValidEmail(email) && IsValidPassword(mode, password)
    requires forall i :: 0 <= i < |email| ==> !IsStrippedChar(email[i])
    requires forall i :: 0 <= i < |email| ==> !('A' <= email[i] <= 'Z')
    requires IsTrimmed(email) && |email| <= MaxInputLength
    requires userId != [] && ':' !in userId
    ensures registered.status == 201 && loggedIn.status == 200
    ensures loggedIn.body.LoggedIn? && ValidateToken(mode, loggedIn.body.token, now) == Some(userId)
    ensures verified == Response(200, Verified(Summary(userId, email, Null)))
    ensures loggedOut == Response(200, LoggedOut)
    ensures verifiedAgain == Response(401, Failure(Verify.NoSession))
  {
    NormalizedCleanEmail(mode, email);
    var db, limiter;
    db, limiter, registered := RegisterFresh(mode, email, password, forwardedFor, salt, userId, kdf, now);
    loggedIn := LoginRegistered(mode, db, limiter, email, password, forwardedFor, salt, userId, random, sessionId, kdf, now);
    var token := GenerateToken(mode, userId, now, random);
    if mode == Testing {
      TestingTokenRoundTrip(userId, now, random, now);
    } else {
      StrictTokenRoundTrip(userId, now, random, now);
    }
    var user := User(userId, email, HashPassword(mode, password, salt, kdf), Null, now);
    verified := VerifyLoggedIn(mode, db, user, token, sessionId, now);
    loggedOut, verifiedAgain := LogoutThenVerify(mode, db, token, userId, now);
  }
}
