/** The helpers of lib/auth.js other than the rate limiter: password hashing,
    token issue and validation, input sanitising and the e-mail and password
    checks. The source switches every one of them except `isValidEmail` on
    a hard-coded testing flag; here the flag is the `mode` argument, so that
    both branches are modelled. */
module Auth {
  import opened Wrappers
  import opened Js
  import opened JsNumber
  import opened Hex

  datatype Mode = Testing | Strict

  /** The key-derivation function: PBKDF2 with HMAC-SHA-512 applied to
      (password, salt, iterations, key length in bytes). */
  type Kdf = (String, String, nat, nat) -> seq<byte>

  const Iterations: nat := 1000
  const KeyLength: nat := 64
  /** Tokens older than 24 hours are refused. */
  const TokenMaxAgeMs: int := 24 * 60 * 60 * 1000
  const TestTokenPrefix: String := "test_token_"
  /** `sanitizeInput` keeps at most this many characters. */
  const MaxInputLength: nat := 255

  // ---------------------------------------------------------------------
  // Passwords

  /** `hashPassword`: the password itself in testing mode, otherwise
      `salt:hash`, where `salt` is the hex text of fresh random bytes and
      `hash` the hex text of the key derived from the password and that text. */
  function HashPassword(mode: Mode, password: String, salt: seq<byte>, kdf: Kdf): (stored: String)
    ensures mode == Testing ==> stored == password
    ensures mode == Strict ==>
      Split(stored, ':') == [ToHex(salt), ToHex(kdf(password, ToHex(salt), Iterations, KeyLength))]
  {
    match mode
    case Testing => password
    case Strict =>
      var saltHex := ToHex(salt);
      var hash := ToHex(kdf(password, saltHex, Iterations, KeyLength));
      SplitTwo(saltHex, hash, ':');
      saltHex + [':'] + hash
  }

  /** `verifyPassword`: plain equality in testing mode; otherwise the text
      before the first `:` is the salt and the text between the first and a
      possible second `:` must equal the hex text of the derived key. A stored
      form without `:` has no hash field and never matches. */
  predicate VerifyPassword(mode: Mode, password: String, stored: String, kdf: Kdf)
    ensures VerifyPassword(mode, password, stored, kdf) && mode == Strict ==> ':' in stored
  {
    match mode
    case Testing => password == stored
    case Strict =>
      var fields := Split(stored, ':');
      |fields| >= 2 && fields[1] == ToHex(kdf(password, fields[0], Iterations, KeyLength))
  }

  /** A password verifies against its own hash, in both modes. */
  lemma PasswordRoundTrip(mode: Mode, password: String, salt: seq<byte>, kdf: Kdf)
    ensures VerifyPassword(mode, password, HashPassword(mode, password, salt, kdf), kdf)
  {
  }

  /** Another password verifies against a hash exactly when it is the same
      password (testing mode) or derives the same key under the same salt
      (strict mode). */
  lemma VerifyAgainstHash(mode: Mode, password: String, candidate: String, salt: seq<byte>, kdf: Kdf)
    ensures VerifyPassword(mode, candidate, HashPassword(mode, password, salt, kdf), kdf) <==>
      match mode
      case Testing => candidate == password
      case Strict =>
        kdf(candidate, ToHex(salt), Iterations, KeyLength) == kdf(password, ToHex(salt), Iterations, KeyLength)
  {
    if mode == Strict {
      var saltHex := ToHex(salt);
      var a, b := kdf(candidate, saltHex, Iterations, KeyLength), kdf(password, saltHex, Iterations, KeyLength);
      if ToHex(a) == ToHex(b) {
        ToHexInjective(a, b);
      }
    }
  }

  // ---------------------------------------------------------------------
  // Tokens

  /** `generateToken`: `test_token_<id>` in testing mode, otherwise
      `<id>:<issue time in ms>:<hex text of random bytes>`. */
  function GenerateToken(mode: Mode, userId: String, now: int, random: seq<byte>): (token: String)
    ensures mode == Testing ==> StartsWith(token, TestTokenPrefix) && token[|TestTokenPrefix|..] == userId
    ensures mode == Strict && ':' !in userId ==> Split(token, ':') == [userId, ShowInt(now), ToHex(random)]
  {
    match mode
    case Testing =>
      var token := TestTokenPrefix + userId;
      assert token[..|TestTokenPrefix|] == TestTokenPrefix;
      token
    case Strict =>
      var stamp, hex := ShowInt(now), ToHex(random);
      var token := userId + [':'] + stamp + [':'] + hex;
      assert ':' !in userId ==> Split(token, ':') == [userId, stamp, hex] by {
        if ':' !in userId {
          SplitThree(userId, stamp, hex, ':');
        }
      }
      token
  }

  /** `validateToken`. Testing mode: the text after the `test_token_` prefix
      (the first occurrence of the prefix is the one at the start), or `None`
      without the prefix. Strict mode: the first `:` field, unless the second
      field parses to a time more than 24 hours before `now`. When there is no
      second field or it holds no number, the age is `NaN`, the comparison is
      false and the first field is returned. */
  function ValidateToken(mode: Mode, token: String, now: int): (userId: Option<String>)
    ensures mode == Testing ==> (userId.Some? <==> StartsWith(token, TestTokenPrefix))
    ensures mode == Testing && userId.Some? ==> token == TestTokenPrefix + userId.value
    ensures mode == Strict && userId.Some? ==> userId.value == Split(token, ':')[0] && ':' !in userId.value
    ensures mode == Strict ==>
      (userId.None? <==>
        var fields := Split(token, ':');
        |fields| >= 2 && ParseInt(fields[1]).Some? && now - ParseInt(fields[1]).value > TokenMaxAgeMs)
  {
    match mode
    case Testing =>
      if StartsWith(token, TestTokenPrefix) then
        assert token == TestTokenPrefix + token[|TestTokenPrefix|..];
        Some(token[|TestTokenPrefix|..])
      else None
    case Strict =>
      var fields := Split(token, ':');
      var timestamp := if |fields| >= 2 then fields[1] else "undefined";
      ParseUndefined();
      match ParseInt(timestamp)
      case None => Some(fields[0])
      case Some(issuedAt) => if now - issuedAt > TokenMaxAgeMs then None else Some(fields[0])
  }

  /** Testing mode: a generated token validates to its user id at any time. */
  lemma TestingTokenRoundTrip(userId: String, issuedAt: int, random: seq<byte>, now: int)
    ensures ValidateToken(Testing, GenerateToken(Testing, userId, issuedAt, random), now) == Some(userId)
  {
    var token := GenerateToken(Testing, userId, issuedAt, random);
    assert token[..|TestTokenPrefix|] == TestTokenPrefix;
    assert token[|TestTokenPrefix|..] == userId;
  }

  /** Testing mode: a token validates exactly when it carries the prefix. */
  lemma TestingTokenNeedsPrefix(token: String, now: int)
    ensures ValidateToken(Testing, token, now).Some? <==> StartsWith(token, TestTokenPrefix)
  {
  }

  /** Strict mode: a generated token for a colon-free id validates to that
      id as long as it is at most 24 hours old (exactly 24 hours included),
      and is refused after that. */
  lemma StrictTokenRoundTrip(userId: String, issuedAt: int, random: seq<byte>, now: int)
    requires ':' !in userId
    ensures ValidateToken(Strict, GenerateToken(Strict, userId, issuedAt, random), now) ==
      if now - issuedAt <= TokenMaxAgeMs then Some(userId) else None
  {
    var stamp, hex := ShowInt(issuedAt), ToHex(random);
    SplitThree(userId, stamp, hex, ':');
    ParseShowInt(issuedAt);
  }

  /** Strict mode: a token whose second field is missing or holds no number
      is accepted, and its first field is taken as the user id. */
  lemma StrictTokenWithoutTimestamp(token: String, now: int)
    requires var fields := Split(token, ':'); |fields| < 2 || ParseInt(fields[1]).None?
    ensures ValidateToken(Strict, token, now) == Some(Split(token, ':')[0])
  {
    ParseUndefined();
  }

  // ---------------------------------------------------------------------
  // Input sanitising

  /** The characters `sanitizeInput` deletes. */
  predicate IsStrippedChar(c: char)
  {
    c == '<' || c == '>' || c == '\'' || c == '"' || c == ';'
  }

  /** `s.replace(/[...]/g, "")`: every character of `chars` deleted.
      `RemoveCharsCounts` and `RemoveCharsAppend` say that every other
      character is kept, in order. */
  function RemoveChars(s: String, chars: set<char>): (r: String)
    ensures |r| <= |s|
    ensures forall i :: 0 <= i < |r| ==> r[i] !in chars
  {
    if s == [] then []
    else (if s[0] in chars then [] else [s[0]]) + RemoveChars(s[1..], chars)
  }

  /** Each character outside `chars` is kept as often as it occurs. */
  lemma {:induction false} RemoveCharsCounts(s: String, chars: set<char>)
    ensures forall c :: multiset(RemoveChars(s, chars))[c] == if c in chars then 0 else multiset(s)[c]
    decreases |s|
  {
    if s != [] {
      RemoveCharsCounts(s[1..], chars);
      assert s == [s[0]] + s[1..];
    }
  }

  /** Deleting characters works piece by piece, so the characters kept stay
      in their order. */
  lemma {:induction false} RemoveCharsAppend(a: String, b: String, chars: set<char>)
    ensures RemoveChars(a + b, chars) == RemoveChars(a, chars) + RemoveChars(b, chars)
    decreases |a|
  {
    if a == [] {
      assert a + b == b;
    } else {
      RemoveCharsAppend(a[1..], b, chars);
      var ab := a + b;
      assert ab[0] == a[0] && ab[1..] == a[1..] + b;
      var head := if a[0] in chars then [] else [a[0]];
      var x, y := RemoveChars(a[1..], chars), RemoveChars(b, chars);
      calc {
        RemoveChars(ab, chars);
        head + RemoveChars(a[1..] + b, chars);
        head + (x + y);
        { AppendAssociative(head, x, y); }
        (head + x) + y;
      }
    }
  }

  /** The string steps of `sanitizeInput`: delete `<` and `>`, then quotes
      and semicolons, trim, and keep the first 255 characters. */
  function CleanText(s: String): (r: String)
    ensures |r| <= MaxInputLength
    ensures forall i :: 0 <= i < |r| ==> !IsStrippedChar(r[i])
  {
    var removed := RemoveChars(RemoveChars(s, {'<', '>'}), {'\'', '"', ';'});
    var trimmed := Trim(removed);
    RemovedCharsNotStripped(s);
    TrimKeepsChars(removed);
    if |trimmed| <= MaxInputLength then trimmed else trimmed[..MaxInputLength]
  }

  /** Neither deletion step leaves a stripped character behind. */
  lemma RemovedCharsNotStripped(s: String)
    ensures forall c :: c in RemoveChars(RemoveChars(s, {'<', '>'}), {'\'', '"', ';'}) ==> !IsStrippedChar(c)
  {
    var angles := RemoveChars(s, {'<', '>'});
    var removed := RemoveChars(angles, {'\'', '"', ';'});
    RemoveCharsCounts(angles, {'\'', '"', ';'});
    forall c | c in removed
      ensures !IsStrippedChar(c)
    {
      assert multiset(removed)[c] > 0;
      assert c in angles;
    }
  }

  /** `sanitizeInput`: only strings are cleaned, and only in strict mode. */
  function SanitizeInput(mode: Mode, input: JsValue): (r: JsValue)
    ensures mode == Testing || !input.Str? ==> r == input
    ensures mode == Strict && input.Str? ==>
      r.Str? && |r.s| <= MaxInputLength && forall i :: 0 <= i < |r.s| ==> !IsStrippedChar(r.s[i])
  {
    match mode
    case Testing => input
    case Strict => if input.Str? then Str(CleanText(input.s)) else input
  }

  lemma {:induction false} RemoveAbsentChars(s: String, chars: set<char>)
    requires forall i :: 0 <= i < |s| ==> s[i] !in chars
    ensures RemoveChars(s, chars) == s
    decreases |s|
  {
    if s != [] {
      RemoveAbsentChars(s[1..], chars);
      assert [s[0]] + s[1..] == s;
    }
  }

  /** Text that is already clean (no stripped character, no surrounding white
      space, at most 255 characters) passes through `sanitizeInput` unchanged. */
  lemma CleanTextUnchanged(s: String)
    requires forall i :: 0 <= i < |s| ==> !IsStrippedChar(s[i])
    requires IsTrimmed(s) && |s| <= MaxInputLength
    ensures CleanText(s) == s
  {
    RemoveAbsentChars(s, {'<', '>'});
    RemoveAbsentChars(s, {'\'', '"', ';'});
    TrimOfTrimmed(s);
  }

  lemma SanitizeCleanString(mode: Mode, s: String)
    requires forall i :: 0 <= i < |s| ==> !IsStrippedChar(s[i])
    requires IsTrimmed(s) && |s| <= MaxInputLength
    ensures SanitizeInput(mode, Str(s)) == Str(s)
  {
    if mode == Strict {
      CleanTextUnchanged(s);
    }
  }

  /** Sanitising twice is sanitising once, unless the 255-character cut left
      white space at the end of the first result. */
  lemma SanitizeIdempotent(mode: Mode, input: JsValue)
    requires mode == Strict && SanitizeInput(mode, input).Str? ==> IsTrimmed(SanitizeInput(mode, input).s)
    ensures SanitizeInput(mode, SanitizeInput(mode, input)) == SanitizeInput(mode, input)
  {
    if mode == Strict && input.Str? {
      CleanTextUnchanged(CleanText(input.s));
    }
  }

  // ---------------------------------------------------------------------
  // E-mail and password checks

  /** A character matched by `[^\s@]`. */
  predicate IsEmailChar(c: char)
  {
    !IsSpace(c) && c != '@'
  }

  /** A string matched by `[^\s@]+`. */
  predicate IsEmailRun(s: String)
  {
    s != [] && forall i :: 0 <= i < |s| ==> IsEmailChar(s[i])
  }

  /** `isValidEmail`: the regular expression `^[^\s@]+@[^\s@]+\.[^\s@]+$`
      matches when some `@` and some later `.` cut the string into three
      non-empty runs without white space or `@`. */
  predicate IsValidEmail(email: String)
    ensures IsValidEmail(email) ==> |email| >= 5 && '@' in email && '.' in email
  {
    exists at, dot | 0 < at < dot < |email| - 1 ::
      && at + 1 < dot
      && email[at] == '@' && email[dot] == '.'
      && IsEmailRun(email[..at]) && IsEmailRun(email[at + 1..dot]) && IsEmailRun(email[dot + 1..])
  }

  /** Every `local@domain.tld` built from three runs is accepted. */
  lemma EmailFromParts(local: String, domain: String, tld: String)
    requires IsEmailRun(local) && IsEmailRun(domain) && IsEmailRun(tld)
    ensures IsValidEmail(local + "@" + domain + "." + tld)
  {
    var email := local + "@" + domain + "." + tld;
    var at, dot := |local|, |local| + 1 + |domain|;
    assert email[..at] == local;
    assert email[at + 1..dot] == domain;
    assert email[dot + 1..] == tld;
    assert email[at] == '@' && email[dot] == '.';
    assert 0 < at < dot < |email| - 1 && at + 1 < dot;
  }

  /** Every accepted e-mail address has that shape. */
  lemma EmailParts(email: String) returns (local: String, domain: String, tld: String)
    requires IsValidEmail(email)
    ensures IsEmailRun(local) && IsEmailRun(domain) && IsEmailRun(tld)
    ensures email == local + "@" + domain + "." + tld
  {
    var at, dot :| 0 < at < dot < |email| - 1 && at + 1 < dot
      && email[at] == '@' && email[dot] == '.'
      && IsEmailRun(email[..at]) && IsEmailRun(email[at + 1..dot]) && IsEmailRun(email[dot + 1..]);
    local, domain, tld := email[..at], email[at + 1..dot], email[dot + 1..];
    CutAtTwo(email, at, dot);
  }

  /** A string is the concatenation of its pieces around an `@` and a later `.`. */
  lemma CutAtTwo(email: String, at: nat, dot: nat)
    requires at < dot < |email| && email[at] == '@' && email[dot] == '.'
    ensures email == email[..at] + "@" + email[at + 1..dot] + "." + email[dot + 1..]
  {
    var rest := email[at + 1..];
    assert rest == email[at + 1..dot] + "." + email[dot + 1..] by {
      assert rest == rest[..dot - at - 1] + rest[dot - at - 1..];
    }
    assert email == email[..at] + email[at..];
  }

  /** An accepted address has exactly one `@` and no white space. */
  lemma ValidEmailHasOneAt(email: String)
    requires IsValidEmail(email)
    ensures multiset(email)['@'] == 1
    ensures forall i :: 0 <= i < |email| ==> !IsSpace(email[i])
  {
    var local, domain, tld := EmailParts(email);
    RunsHaveOneAt(local, domain, tld);
    RunsHaveNoSpace(local, domain, tld);
  }

  lemma RunsHaveOneAt(local: String, domain: String, tld: String)
    requires IsEmailRun(local) && IsEmailRun(domain) && IsEmailRun(tld)
    ensures multiset(local + "@" + domain + "." + tld)['@'] == 1
  {
    assert '@' !in local && '@' !in domain && '@' !in tld by {
      assert forall i :: 0 <= i < |local| ==> local[i] != '@';
      assert forall i :: 0 <= i < |domain| ==> domain[i] != '@';
      assert forall i :: 0 <= i < |tld| ==> tld[i] != '@';
    }
    assert multiset(local + "@" + domain + "." + tld)
      == multiset(local) + multiset{'@'} + multiset(domain) + multiset{'.'} + multiset(tld);
  }

  lemma RunsHaveNoSpace(local: String, domain: String, tld: String)
    requires IsEmailRun(local) && IsEmailRun(domain) && IsEmailRun(tld)
    ensures var email := local + "@" + domain + "." + tld;
      forall i :: 0 <= i < |email| ==> !IsSpace(email[i])
  {
    var email := local + "@" + domain + "." + tld;
    forall i | 0 <= i < |email|
      ensures !IsSpace(email[i])
    {
      if i < |local| {
        assert email[i] == local[i];
      } else if i == |local| {
      } else if i < |local| + 1 + |domain| {
        assert email[i] == domain[i - |local| - 1];
      } else if i == |local| + 1 + |domain| {
      } else {
        assert email[i] == tld[i - |local| - 2 - |domain|];
      }
    }
  }

  predicate HasCharBetween(s: String, lo: char, hi: char)
  {
    exists i :: 0 <= i < |s| && lo <= s[i] <= hi
  }

  /** `isValidPassword`: one character in testing mode; otherwise eight, with
      an ASCII upper-case letter, a lower-case letter and a digit. */
  predicate IsValidPassword(mode: Mode, password: String)
    ensures IsValidPassword(mode, password) ==> password != []
  {
    match mode
    case Testing => |password| >= 1
    case Strict =>
      && |password| >= 8
      && HasCharBetween(password, 'A', 'Z')
      && HasCharBetween(password, 'a', 'z')
      && HasCharBetween(password, '0', '9')
  }

  /** The strict policy is stronger than the testing one. */
  lemma StrictPasswordIsTestingPassword(password: String)
    requires IsValidPassword(Strict, password)
    ensures IsValidPassword(Testing, password)
  {
  }
}
