/** The in-memory store of lib/db.js: a `users` map keyed by e-mail and a
    `sessions` map keyed by token. A JavaScript `Map` iterates in insertion
    order and the user lookups by id scan it in that order, so the store also
    keeps the order in which e-mail keys were first inserted. Random UUIDs and
    the clock are arguments. */
module Db {
  import opened Wrappers
  import opened Js

  const SessionLifetimeMs: int := 24 * 60 * 60 * 1000
  const UserExists: String := "User already exists"

  datatype User = User(id: String, email: String, password: String, gameid: JsValue, createdAt: int)

  /** A user record whose password field is `undefined`. */
  datatype PublicUser = PublicUser(id: String, email: String, gameid: JsValue, createdAt: int)

  /** The argument of `createUser`. */
  datatype NewUser = NewUser(email: String, password: String, gameid: JsValue)

  /** The argument of `updateUser`: the fields present in the update object. */
  datatype UserUpdate = UserUpdate(
    id: Option<String>, email: Option<String>, password: Option<String>,
    gameid: Option<JsValue>, createdAt: Option<int>)

  datatype Session = Session(id: String, userId: String, token: String, createdAt: int, expiresAt: int)

  function Public(u: User): (p: PublicUser)
    ensures p.id == u.id && p.email == u.email && p.gameid == u.gameid && p.createdAt == u.createdAt
  {
    PublicUser(u.id, u.email, u.gameid, u.createdAt)
  }

  function PublicOf(u: Option<User>): Option<PublicUser>
  {
    match u
    case None => None
    case Some(user) => Some(Public(user))
  }

  /** `v || null`. */
  function OrNull(v: JsValue): (r: JsValue)
    ensures Truthy(v) ==> r == v
    ensures !Truthy(v) ==> r == Null
  {
    if Truthy(v) then v else Null
  }

  /** `{ ...user, ...updates }`: the fields present in the update win, the
      others are kept, so an empty update changes nothing. */
  function Apply(u: User, updates: UserUpdate): (r: User)
    ensures updates == UserUpdate(None, None, None, None, None) ==> r == u
    ensures updates.id.None? ==> r.id == u.id
    ensures updates.email.None? ==> r.email == u.email
    ensures updates.password.None? ==> r.password == u.password
    ensures updates.gameid.None? ==> r.gameid == u.gameid
    ensures updates.createdAt.None? ==> r.createdAt == u.createdAt
    ensures updates.id.Some? ==> r.id == updates.id.value
    ensures updates.email.Some? ==> r.email == updates.email.value
    ensures updates.password.Some? ==> r.password == updates.password.value
    ensures updates.gameid.Some? ==> r.gameid == updates.gameid.value
    ensures updates.createdAt.Some? ==> r.createdAt == updates.createdAt.value
  {
    User(
      if updates.id.Some? then updates.id.value else u.id,
      if updates.email.Some? then updates.email.value else u.email,
      if updates.password.Some? then updates.password.value else u.password,
      if updates.gameid.Some? then updates.gameid.value else u.gameid,
      if updates.createdAt.Some? then updates.createdAt.value else u.createdAt)
  }

  /** The first key in `keys` whose user has the given id. */
  function FirstKeyWithId(keys: seq<String>, users: map<String, User>, id: String): (r: Option<String>)
    requires forall i :: 0 <= i < |keys| ==> keys[i] in users
    ensures r.Some? ==>
      exists i :: 0 <= i < |keys| && keys[i] == r.value && users[keys[i]].id == id &&
        forall j :: 0 <= j < i ==> users[keys[j]].id != id
    ensures r.None? <==> forall i :: 0 <= i < |keys| ==> users[keys[i]].id != id
    decreases |keys|
  {
    if keys == [] then None
    else if users[keys[0]].id == id then Some(keys[0])
    else
      var r := FirstKeyWithId(keys[1..], users, id);
      assert r.Some? ==>
        exists i :: 0 <= i < |keys| && keys[i] == r.value && users[keys[i]].id == id &&
          forall j :: 0 <= j < i ==> users[keys[j]].id != id
      by {
        if r.Some? {
          var i :| 0 <= i < |keys[1..]| && keys[1..][i] == r.value
            && users[keys[1..][i]].id == id && forall j :: 0 <= j < i ==> users[keys[1..][j]].id != id;
          assert keys[i + 1] == r.value && forall j :: 0 <= j < i + 1 ==> users[keys[j]].id != id;
        }
      }
      r
  }

  /** One step of the scan behind `FirstKeyWithId`, from position `i`. */
  lemma FirstKeyStep(keys: seq<String>, users: map<String, User>, id: String, i: nat)
    requires forall k :: 0 <= k < |keys| ==> keys[k] in users
    requires i <= |keys|
    ensures i == |keys| ==> FirstKeyWithId(keys[i..], users, id) == None
    ensures i < |keys| ==>
      FirstKeyWithId(keys[i..], users, id) ==
        (if users[keys[i]].id == id then Some(keys[i]) else FirstKeyWithId(keys[i + 1..], users, id))
  {
    if i < |keys| {
      assert keys[i..][1..] == keys[i + 1..];
    }
  }

  /** The session `getSession` returns: the stored one unless its expiry time
      is strictly before `now`. */
  function LiveSession(sessions: map<String, Session>, token: String, now: int): (r: Option<Session>)
    ensures r.Some? <==> token in sessions && now <= sessions[token].expiresAt
    ensures r.Some? ==> r.value == sessions[token]
  {
    if token in sessions && !(sessions[token].expiresAt < now) then Some(sessions[token]) else None
  }

  /** The sessions after `getSession`: an expired session read is removed. */
  function Evict(sessions: map<String, Session>, token: String, now: int): (r: map<String, Session>)
    ensures r.Keys <= sessions.Keys
    ensures forall t :: t in r ==> r[t] == sessions[t]
    ensures token in r <==> LiveSession(sessions, token, now).Some?
    ensures forall t :: t != token ==> (t in r <==> t in sessions)
  {
    if token in sessions && sessions[token].expiresAt < now then sessions - {token} else sessions
  }

  /** Applying the same update twice is applying it once. */
  lemma ApplyTwice(u: User, updates: UserUpdate)
    ensures Apply(Apply(u, updates), updates) == Apply(u, updates)
  {
  }

  lemma {:induction false} DistinctKeysCount(keys: seq<String>)
    requires forall i, j :: 0 <= i < j < |keys| ==> keys[i] != keys[j]
    ensures |set k | k in keys| == |keys|
    decreases |keys|
  {
    if keys != [] {
      var rest := keys[1..];
      DistinctKeysCount(rest);
      assert (set k | k in keys) == (set k | k in rest) + {keys[0]};
      assert keys[0] !in rest by {
        forall i | 0 <= i < |rest| ensures rest[i] != keys[0] {
          assert rest[i] == keys[i + 1];
        }
      }
    }
  }

  class Database {
    var users: map<String, User>
    /** The e-mail keys of `users` in insertion order. */
    var order: seq<String>
    var sessions: map<String, Session>

    ghost predicate Valid()
      reads this
    {
      && (forall i, j :: 0 <= i < j < |order| ==> order[i] != order[j])
      && (forall k :: k in users <==> k in order)
      && (forall t :: t in sessions ==> sessions[t].token == t)
    }

    constructor ()
      ensures Valid()
      ensures users == map[] && order == [] && sessions == map[]
    {
      users, order, sessions := map[], [], map[];
    }

    /** The user `getUserById` finds: the first in insertion order with that id. */
    function UserWithId(id: String): (r: Option<User>)
      requires Valid()
      reads this
      ensures r.Some? ==> r.value.id == id && exists k :: k in users && users[k] == r.value
      ensures r.None? <==> forall k :: k in users ==> users[k].id != id
    {
      match FirstKeyWithId(order, users, id)
      case None => None
      case Some(k) => Some(users[k])
    }

    /** `createUser`: refuses a taken e-mail; otherwise stores a record under
        that e-mail, with a falsy game id turned into `null`, and returns it
        without its password. */
    method CreateUser(data: NewUser, id: String, now: int) returns (r: Result<PublicUser>)
      requires Valid()
      modifies this
      ensures Valid()
      ensures old(data.email in users) ==> r == Err(UserExists) && users == old(users) && order == old(order)
      ensures !old(data.email in users) ==>
        && users == old(users)[data.email := User(id, data.email, data.password, OrNull(data.gameid), now)]
        && order == old(order) + [data.email]
        && r == Ok(Public(users[data.email]))
      ensures sessions == old(sessions)
    {
      if data.email in users {
        return Err(UserExists);
      }
      var user := User(id, data.email, data.password, OrNull(data.gameid), now);
      users := users[data.email := user];
      order := order + [data.email];
      r := Ok(Public(user));
    }

    /** `getUserByEmail`: exact key match, password included. */
    function GetUserByEmail(email: String): (r: Option<User>)
      reads this
      ensures r.Some? <==> email in users
      ensures r.Some? ==> r.value == users[email]
    {
      if email in users then Some(users[email]) else None
    }

    /** The scan `getUserById` and `updateUser` share: the users in insertion
        order, up to the first with that id. */
    method FindKeyWithId(id: String) returns (k: Option<String>)
      requires Valid()
      ensures k == FirstKeyWithId(order, users, id)
      ensures k.Some? ==> k.value in users && users[k.value].id == id
    {
      var i := 0;
      while i < |order|
        invariant 0 <= i <= |order|
        invariant forall j :: 0 <= j < |order| ==> order[j] in users
        invariant FirstKeyWithId(order, users, id) == FirstKeyWithId(order[i..], users, id)
      {
        FirstKeyStep(order, users, id, i);
        if users[order[i]].id == id {
          return Some(order[i]);
        }
        i := i + 1;
      }
      FirstKeyStep(order, users, id, i);
      return None;
    }

    /** `getUserById`: the first user in insertion order with that id. */
    method GetUserById(id: String) returns (r: Option<PublicUser>)
      requires Valid()
      ensures r == PublicOf(UserWithId(id))
    {
      var k := FindKeyWithId(id);
      if k.None? {
        return None;
      }
      return Some(Public(users[k.value]));
    }

    /** `updateUser`: the first user with that id gets the update, under its
        original e-mail key; nothing changes when no user has the id. */
    method UpdateUser(id: String, updates: UserUpdate) returns (r: Option<PublicUser>)
      requires Valid()
      modifies this
      ensures Valid()
      ensures order == old(order) && sessions == old(sessions)
      ensures old(FirstKeyWithId(order, users, id)).None? ==> r == None && users == old(users)
      ensures old(FirstKeyWithId(order, users, id)).Some? ==>
        var k := old(FirstKeyWithId(order, users, id)).value;
        && users == old(users)[k := Apply(old(users)[k], updates)]
        && r == Some(Public(users[k]))
    {
      var k := FindKeyWithId(id);
      if k.None? {
        return None;
      }
      var email := k.value;
      var updated := Apply(users[email], updates);
      users := users[email := updated];
      assert users.Keys == old(users).Keys;
      return Some(Public(updated));
    }

    /** `createSession`: a session living 24 hours, stored under its token;
        a session already stored under that token is replaced. */
    method CreateSession(userId: String, token: String, sessionId: String, now: int) returns (s: Session)
      requires Valid()
      modifies this
      ensures Valid()
      ensures s == Session(sessionId, userId, token, now, now + SessionLifetimeMs)
      ensures sessions == old(sessions)[token := s]
      ensures users == old(users) && order == old(order)
    {
      s := Session(sessionId, userId, token, now, now + SessionLifetimeMs);
      sessions := sessions[token := s];
    }

    /** `getSession`: the live session under `token`; an expired one is
        removed as it is read. */
    method GetSession(token: String, now: int) returns (r: Option<Session>)
      requires Valid()
      modifies this
      ensures Valid()
      ensures r == LiveSession(old(sessions), token, now)
      ensures sessions == Evict(old(sessions), token, now)
      ensures users == old(users) && order == old(order)
    {
      if token !in sessions {
        return None;
      }
      var session := sessions[token];
      if session.expiresAt < now {
        sessions := sessions - {token};
        return None;
      }
      return Some(session);
    }

    /** `deleteSession`: removes the session and tells whether there was one. */
    method DeleteSession(token: String) returns (existed: bool)
      requires Valid()
      modifies this
      ensures Valid()
      ensures existed == (token in old(sessions))
      ensures sessions == old(sessions) - {token}
      ensures users == old(users) && order == old(order)
    {
      existed := token in sessions;
      sessions := sessions - {token};
    }

    /** `clearAll`: empties both maps. */
    method ClearAll()
      modifies this
      ensures Valid()
      ensures users == map[] && order == [] && sessions == map[]
    {
      users, order, sessions := map[], [], map[];
    }

    /** `getAllUsers`: every user, in insertion order, with the password shown
        as `***`. */
    function GetAllUsers(): (r: seq<User>)
      requires Valid()
      reads this
      ensures |r| == |users| == |order|
      ensures forall i :: 0 <= i < |r| ==> r[i] == users[order[i]].(password := "***")
    {
      DistinctKeysCount(order);
      assert users.Keys == set k | k in order;
      var keys, table := order, users;
      seq(|keys|, i requires 0 <= i < |keys| => table[keys[i]].(password := "***"))
    }
  }

  /** A session created at `createdAt` is returned by `getSession` at every
      time up to 24 hours later, that bound included, and from then on is
      refused and removed without touching other sessions. */
  lemma SessionLifetime(sessions: map<String, Session>, userId: String, token: String, sessionId: String, createdAt: int, now: int)
    ensures var s := Session(sessionId, userId, token, createdAt, createdAt + SessionLifetimeMs);
      && (now <= createdAt + SessionLifetimeMs ==> LiveSession(sessions[token := s], token, now) == Some(s))
      && (now > createdAt + SessionLifetimeMs ==>
            LiveSession(sessions[token := s], token, now) == None
            && Evict(sessions[token := s], token, now) == sessions - {token})
  {
    var s := Session(sessionId, userId, token, createdAt, createdAt + SessionLifetimeMs);
    if now > createdAt + SessionLifetimeMs {
      assert sessions[token := s] - {token} == sessions - {token};
    }
  }
}
