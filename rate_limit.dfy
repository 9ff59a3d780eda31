/** The fixed-window rate limiter of lib/auth.js (`checkRateLimit` and the
    module-level `rateLimitStore` map it updates). */
module RateLimit {
  import opened Js
  import opened Auth

  /** Calls counted in the current window, and the time the window ends. */
  datatype RateRecord = RateRecord(attempts: nat, resetAt: int)

  type Store = map<String, RateRecord>

  /** The record of `identifier` after one strict-mode call at `now`: a new
      window holding one call if there was no record or its window has ended,
      otherwise one more call in the same window. */
  function Tick(store: Store, identifier: String, windowMs: int, now: int): (r: RateRecord)
    ensures identifier !in store || now > store[identifier].resetAt ==> r == RateRecord(1, now + windowMs)
    ensures identifier in store && now <= store[identifier].resetAt ==>
      r == RateRecord(store[identifier].attempts + 1, store[identifier].resetAt)
  {
    var record := if identifier in store then store[identifier] else RateRecord(0, now + windowMs);
    var current := if now > record.resetAt then RateRecord(0, now + windowMs) else record;
    RateRecord(current.attempts + 1, current.resetAt)
  }

  /** The store after a call: only the caller's record changes, and nothing
      changes in testing mode. */
  function After(mode: Mode, store: Store, identifier: String, windowMs: int, now: int): (r: Store)
    ensures mode == Testing ==> r == store
    ensures mode == Strict ==> r.Keys == store.Keys + {identifier} && r[identifier] == Tick(store, identifier, windowMs, now)
    ensures forall k :: k in store && k != identifier ==> r[k] == store[k]
  {
    match mode
    case Testing => store
    case Strict => store[identifier := Tick(store, identifier, windowMs, now)]
  }

  /** The answer of a call: always yes in testing mode, otherwise yes while the
      window holds at most `maxAttempts` calls, this one included. */
  predicate Allows(mode: Mode, store: Store, identifier: String, maxAttempts: int, windowMs: int, now: int)
    ensures mode == Strict && (identifier !in store || now > store[identifier].resetAt) ==>
      (Allows(mode, store, identifier, maxAttempts, windowMs, now) <==> 1 <= maxAttempts)
    ensures mode == Strict && identifier in store && now <= store[identifier].resetAt ==>
      (Allows(mode, store, identifier, maxAttempts, windowMs, now) <==> store[identifier].attempts < maxAttempts)
  {
    mode == Testing || Tick(store, identifier, windowMs, now).attempts <= maxAttempts
  }

  class RateLimiter {
    var store: Store

    constructor ()
      ensures store == map[]
    {
      store := map[];
    }

    /** `checkRateLimit(identifier, maxAttempts, windowMs)` at time `now`. A
        refused call is counted too. */
    method CheckRateLimit(mode: Mode, identifier: String, maxAttempts: int, windowMs: int, now: int)
      returns (allowed: bool)
      modifies this
      ensures allowed == Allows(mode, old(store), identifier, maxAttempts, windowMs, now)
      ensures store == After(mode, old(store), identifier, windowMs, now)
    {
      if mode == Testing {
        return true;
      }
      var record := if identifier in store then store[identifier] else RateRecord(0, now + windowMs);
      if now > record.resetAt {
        record := RateRecord(0, now + windowMs);
      }
      record := record.(attempts := record.attempts + 1);
      store := store[identifier := record];
      allowed := record.attempts <= maxAttempts;
    }
  }

  /** The answers of successive strict-mode calls for one identifier at the
      given times, and the store they leave. */
  function Replay(store: Store, identifier: String, maxAttempts: int, windowMs: int, times: seq<int>): (seq<bool>, Store)
    decreases |times|
  {
    if times == [] then ([], store)
    else
      var allowed := Allows(Strict, store, identifier, maxAttempts, windowMs, times[0]);
      var (rest, final) := Replay(After(Strict, store, identifier, windowMs, times[0]), identifier, maxAttempts, windowMs, times[1..]);
      ([allowed] + rest, final)
  }

  /** Calls inside an open window: the k-th further call is allowed exactly
      when the window's count, with it, stays within `maxAttempts`; every call
      is counted and the window does not move. */
  lemma {:induction false} CallsWithinWindow(store: Store, identifier: String, maxAttempts: int, windowMs: int, times: seq<int>)
    requires identifier in store
    requires forall i :: 0 <= i < |times| ==> times[i] <= store[identifier].resetAt
    ensures |Replay(store, identifier, maxAttempts, windowMs, times).0| == |times|
    ensures forall i :: 0 <= i < |times| ==>
      Replay(store, identifier, maxAttempts, windowMs, times).0[i] == (store[identifier].attempts + i + 1 <= maxAttempts)
    ensures Replay(store, identifier, maxAttempts, windowMs, times).1 ==
      store[identifier := RateRecord(store[identifier].attempts + |times|, store[identifier].resetAt)]
    decreases |times|
  {
    if times != [] {
      var record := store[identifier];
      var next := After(Strict, store, identifier, windowMs, times[0]);
      assert next[identifier] == RateRecord(record.attempts + 1, record.resetAt);
      CallsWithinWindow(next, identifier, maxAttempts, windowMs, times[1..]);
      var (rest, final) := Replay(next, identifier, maxAttempts, windowMs, times[1..]);
      assert Replay(store, identifier, maxAttempts, windowMs, times).0 == [record.attempts + 1 <= maxAttempts] + rest;
      assert next[identifier := RateRecord(record.attempts + 1 + |times[1..]|, record.resetAt)]
          == store[identifier := RateRecord(record.attempts + |times|, record.resetAt)];
    }
  }

  /** A fresh window (no record, or the old window over) opened at `times[0]`:
      while all calls fall inside it, the first `maxAttempts` calls are allowed
      and every later one is refused, yet still counted. */
  lemma FreshWindow(store: Store, identifier: String, maxAttempts: int, windowMs: int, times: seq<int>)
    requires times != []
    requires identifier !in store || times[0] > store[identifier].resetAt
    requires forall i :: 0 <= i < |times| ==> times[i] <= times[0] + windowMs
    ensures |Replay(store, identifier, maxAttempts, windowMs, times).0| == |times|
    ensures forall i :: 0 <= i < |times| ==> Replay(store, identifier, maxAttempts, windowMs, times).0[i] == (i < maxAttempts)
    ensures Replay(store, identifier, maxAttempts, windowMs, times).1 ==
      store[identifier := RateRecord(|times|, times[0] + windowMs)]
  {
    var next := After(Strict, store, identifier, windowMs, times[0]);
    assert next[identifier] == RateRecord(1, times[0] + windowMs);
    CallsWithinWindow(next, identifier, maxAttempts, windowMs, times[1..]);
    assert next[identifier := RateRecord(1 + |times[1..]|, times[0] + windowMs)]
        == store[identifier := RateRecord(|times|, times[0] + windowMs)];
  }
}
