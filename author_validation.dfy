/** The field rules of an Author and the checks that each mutator runs
 *  before it assigns its field, together with the construction sequence.
 */
module AuthorValidation {
  import opened Php

  /** The six properties of an Author, in declaration order. */
  datatype AuthorFields = AuthorFields(
    id: Uuid,
    activationToken: Option<string>,
    avatarUrl: string,
    email: string,
    hash: string,
    username: string
  )

  // ------------------------------------------------------------ field rules

  predicate IsLowerHexDigit(c: char) {
    '0' <= c <= '9' || 'a' <= c <= 'f'
  }

  /** A stored activation token: exactly 32 lower-case hexadecimal digits. */
  predicate IsActivationToken(t: string) {
    |t| == 32 && forall i :: 0 <= i < |t| ==> IsLowerHexDigit(t[i])
  }

  predicate TokenRule(t: Option<string>) {
    t.None? || IsActivationToken(t.value)
  }

  predicate AvatarUrlRule(a: string) {
    |a| <= 255
  }

  predicate EmailRule(lib: Library, e: string) {
    lib.isEmail(e) && !IsEmpty(e) && |e| <= 128 && IsTrimmed(e)
  }

  predicate HashRule(lib: Library, h: string) {
    !IsEmpty(h) && lib.algoName(h) == "argon2id" && |h| <= 97 && IsTrimmed(h)
  }

  predicate UsernameRule(u: string) {
    !IsEmpty(u) && |u| <= 32
  }

  /** All six field rules at once: what every live Author satisfies. */
  predicate FieldsValid(lib: Library, f: AuthorFields) {
    && TokenRule(f.activationToken)
    && AvatarUrlRule(f.avatarUrl)
    && EmailRule(lib, f.email)
    && HashRule(lib, f.hash)
    && UsernameRule(f.username)
  }

  // ----------------------------------------------------------------- checks

  /** setAuthorId: whatever validateUuid returns or throws, exception kind preserved. */
  function CheckId(lib: Library, newId: UuidInput): (r: Result<Uuid>)
    ensures r.Ok? <==> lib.validateUuid(newId).Ok?
    ensures r.Ok? ==> r.value == lib.validateUuid(newId).value
    ensures r.Err? ==> r.error == lib.validateUuid(newId).error
  {
    lib.validateUuid(newId)
  }

  /** Lower-casing never yields an upper-case letter, so a lower-cased hex string is lower-case hex. */
  lemma LowerHexDigits(s: string)
    ensures CtypeXdigit(StrToLower(s)) && |s| == 32 <==> IsActivationToken(StrToLower(s))
  {
    var n := StrToLower(s);
    forall i | 0 <= i < |n| ensures IsHexDigit(n[i]) <==> IsLowerHexDigit(n[i]) {
      assert n[i] == LowerChar(s[i]);
    }
  }

  /** setAuthorActivationToken: null is kept as null; otherwise trimmed and
   *  lower-cased, then it must be non-empty hex (RangeException) of length 32
   *  (RangeException).  The stored token is exactly /^[0-9a-f]{32}$/. */
  function CheckActivationToken(newToken: Option<string>): (r: Result<Option<string>>)
    ensures r.Ok? ==> TokenRule(r.value)
    ensures r.Err? ==> r.error == RangeException
  {
    match newToken
    case None => Ok(None)
    case Some(t) =>
      var n := StrToLower(Trim(t));
      LowerHexDigits(Trim(t));
      if !CtypeXdigit(n) then Err(RangeException)
      else if |n| != 32 then Err(RangeException)
      else Ok(Some(n))
  }

  /** Null is kept as null.  A token is accepted exactly when, trimmed and
   *  lower-cased, it is 32 lower-case hex digits (so the empty string is
   *  refused), and that normalised form is what is stored. */
  lemma TokenCheckCases(v: string)
    ensures CheckActivationToken(None) == Ok(None)
    ensures CheckActivationToken(Some(v)).Ok? <==> IsActivationToken(StrToLower(Trim(v)))
    ensures CheckActivationToken(Some(v)).Ok? ==> CheckActivationToken(Some(v)).value == Some(StrToLower(Trim(v)))
  {
    LowerHexDigits(Trim(v));
  }

  /** The value setAuthorAvatarUrl works on: trim (null trims to "") then
   *  sanitise, as for the username; a null url reaches the sanitiser as "". */
  function NormalizeAvatarUrl(lib: Library, newUrl: Option<string>): (r: string)
    ensures newUrl.None? ==> r == lib.sanitizeString("")
    ensures newUrl.Some? && IsTrimmed(newUrl.value) ==> r == lib.sanitizeString(newUrl.value)
  {
    TrimAndSanitize(lib, if newUrl.Some? then newUrl.value else "")
  }

  /** setAuthorAvatarUrl: the only failure is a sanitised value over 255 bytes. */
  function CheckAvatarUrl(lib: Library, newUrl: Option<string>): (r: Result<string>)
    ensures r.Ok? <==> |NormalizeAvatarUrl(lib, newUrl)| <= 255
    ensures r.Ok? ==> r.value == NormalizeAvatarUrl(lib, newUrl) && AvatarUrlRule(r.value)
    ensures r.Err? ==> r.error == RangeException
  {
    var v := NormalizeAvatarUrl(lib, newUrl);
    if |v| > 255 then Err(RangeException) else Ok(v)
  }

  /** filter_var($s, FILTER_VALIDATE_EMAIL): the string itself when it is an
   *  email address, and false (None) otherwise. */
  function FilterValidateEmail(lib: Library, s: string): (r: Option<string>)
    ensures r.Some? <==> lib.isEmail(s)
    ensures r.Some? ==> r.value == s
  {
    if lib.isEmail(s) then Some(s) else None
  }

  /** setAuthorEmail: trimmed; not an email, or empty, is InvalidArgumentException
   *  (checked first); over 128 bytes is RangeException. */
  function CheckEmail(lib: Library, newEmail: string): (r: Result<string>)
    ensures r.Ok? <==> lib.isEmail(Trim(newEmail)) && !IsEmpty(Trim(newEmail)) && |Trim(newEmail)| <= 128
    ensures r.Ok? ==> r.value == Trim(newEmail) && EmailRule(lib, r.value)
    ensures !lib.isEmail(Trim(newEmail)) || IsEmpty(Trim(newEmail)) ==> r == Err(InvalidArgumentException)
    ensures r == Err(RangeException) <==> lib.isEmail(Trim(newEmail)) && !IsEmpty(Trim(newEmail)) && |Trim(newEmail)| > 128
  {
    var v := FilterValidateEmail(lib, Trim(newEmail));
    if v.None? || IsEmpty(v.value) then Err(InvalidArgumentException)
    else if |v.value| > 128 then Err(RangeException)
    else Ok(v.value)
  }

  /** setAuthorHash: trimmed; empty, then a non-argon2id algorithm, are
   *  InvalidArgumentException; over 97 bytes is RangeException. */
  function CheckHash(lib: Library, newHash: string): (r: Result<string>)
    ensures r.Ok? <==> !IsEmpty(Trim(newHash)) && lib.algoName(Trim(newHash)) == "argon2id" && |Trim(newHash)| <= 97
    ensures r.Ok? ==> r.value == Trim(newHash) && HashRule(lib, r.value)
    ensures IsEmpty(Trim(newHash)) || lib.algoName(Trim(newHash)) != "argon2id" ==> r == Err(InvalidArgumentException)
    ensures r == Err(RangeException) <==> !IsEmpty(Trim(newHash)) && lib.algoName(Trim(newHash)) == "argon2id" && |Trim(newHash)| > 97
  {
    var h := Trim(newHash);
    if IsEmpty(h) then Err(InvalidArgumentException)
    else if lib.algoName(h) != "argon2id" then Err(InvalidArgumentException)
    else if |h| > 97 then Err(RangeException)
    else Ok(h)
  }

  /** setAuthorUsername: empty in PHP's sense ("" or "0") after sanitising is
   *  InvalidArgumentException; over 32 bytes is RangeException. */
  function CheckUsername(lib: Library, newUsername: string): (r: Result<string>)
    ensures r.Ok? <==> !IsEmpty(TrimAndSanitize(lib, newUsername)) && |TrimAndSanitize(lib, newUsername)| <= 32
    ensures r.Ok? ==> r.value == TrimAndSanitize(lib, newUsername) && UsernameRule(r.value)
    ensures IsEmpty(TrimAndSanitize(lib, newUsername)) ==> r == Err(InvalidArgumentException)
    ensures r == Err(RangeException) <==> !IsEmpty(TrimAndSanitize(lib, newUsername)) && |TrimAndSanitize(lib, newUsername)| > 32
  {
    var u := TrimAndSanitize(lib, newUsername);
    if IsEmpty(u) then Err(InvalidArgumentException)
    else if |u| > 32 then Err(RangeException)
    else Ok(u)
  }

  // ------------------------------------------------------------ construction

  /** __construct: the six setters in order id, token, avatar url, email, hash,
   *  username; the first one that throws decides the exception kind. */
  function Construct(lib: Library, newId: UuidInput, newToken: Option<string>, newUrl: Option<string>,
                     newEmail: string, newHash: string, newUsername: string): (r: Result<AuthorFields>)
    ensures r.Ok? ==> FieldsValid(lib, r.value)
    ensures r.Ok? <==> && CheckId(lib, newId).Ok? && CheckActivationToken(newToken).Ok?
                       && CheckAvatarUrl(lib, newUrl).Ok? && CheckEmail(lib, newEmail).Ok?
                       && CheckHash(lib, newHash).Ok? && CheckUsername(lib, newUsername).Ok?
  {
    var id :- CheckId(lib, newId);
    var token :- CheckActivationToken(newToken);
    var url :- CheckAvatarUrl(lib, newUrl);
    var email :- CheckEmail(lib, newEmail);
    var hash :- CheckHash(lib, newHash);
    var username :- CheckUsername(lib, newUsername);
    Ok(AuthorFields(id, token, url, email, hash, username))
  }

  /** The first failing check decides the error; later checks are never consulted. */
  lemma ConstructFirstFailure(lib: Library, newId: UuidInput, newToken: Option<string>, newUrl: Option<string>,
                              newEmail: string, newHash: string, newUsername: string)
    ensures CheckId(lib, newId).Err? ==>
      Construct(lib, newId, newToken, newUrl, newEmail, newHash, newUsername) == Err(CheckId(lib, newId).error)
    ensures CheckId(lib, newId).Ok? && CheckActivationToken(newToken).Err? ==>
      Construct(lib, newId, newToken, newUrl, newEmail, newHash, newUsername) == Err(RangeException)
    ensures CheckId(lib, newId).Ok? && CheckActivationToken(newToken).Ok? && CheckAvatarUrl(lib, newUrl).Err? ==>
      Construct(lib, newId, newToken, newUrl, newEmail, newHash, newUsername) == Err(RangeException)
    ensures CheckId(lib, newId).Ok? && CheckActivationToken(newToken).Ok? && CheckAvatarUrl(lib, newUrl).Ok?
            && CheckEmail(lib, newEmail).Err? ==>
      Construct(lib, newId, newToken, newUrl, newEmail, newHash, newUsername) == Err(CheckEmail(lib, newEmail).error)
    ensures CheckId(lib, newId).Ok? && CheckActivationToken(newToken).Ok? && CheckAvatarUrl(lib, newUrl).Ok?
            && CheckEmail(lib, newEmail).Ok? && CheckHash(lib, newHash).Err? ==>
      Construct(lib, newId, newToken, newUrl, newEmail, newHash, newUsername) == Err(CheckHash(lib, newHash).error)
    ensures CheckId(lib, newId).Ok? && CheckActivationToken(newToken).Ok? && CheckAvatarUrl(lib, newUrl).Ok?
            && CheckEmail(lib, newEmail).Ok? && CheckHash(lib, newHash).Ok? && CheckUsername(lib, newUsername).Err? ==>
      Construct(lib, newId, newToken, newUrl, newEmail, newHash, newUsername) == Err(CheckUsername(lib, newUsername).error)
  {
  }

  /** Every field of a successfully constructed Author is the normalised input. */
  lemma ConstructStoresNormalizedInputs(lib: Library, newId: UuidInput, newToken: Option<string>, newUrl: Option<string>,
                                        newEmail: string, newHash: string, newUsername: string)
    requires Construct(lib, newId, newToken, newUrl, newEmail, newHash, newUsername).Ok?
    ensures var f := Construct(lib, newId, newToken, newUrl, newEmail, newHash, newUsername).value;
      && f.id == lib.validateUuid(newId).value
      && f.activationToken == (if newToken.None? then None else Some(StrToLower(Trim(newToken.value))))
      && f.avatarUrl == NormalizeAvatarUrl(lib, newUrl)
      && f.email == Trim(newEmail)
      && f.hash == Trim(newHash)
      && f.username == TrimAndSanitize(lib, newUsername)
  {
    if newToken.Some? {
      TokenCheckCases(newToken.value);
    }
  }

  /** When every check succeeds with the corresponding field, construction
   *  yields exactly those fields. */
  lemma ConstructFromChecks(lib: Library, newId: UuidInput, newToken: Option<string>, newUrl: Option<string>,
                            newEmail: string, newHash: string, newUsername: string, f: AuthorFields)
    requires CheckId(lib, newId) == Ok(f.id)
    requires CheckActivationToken(newToken) == Ok(f.activationToken)
    requires CheckAvatarUrl(lib, newUrl) == Ok(f.avatarUrl)
    requires CheckEmail(lib, newEmail) == Ok(f.email)
    requires CheckHash(lib, newHash) == Ok(f.hash)
    requires CheckUsername(lib, newUsername) == Ok(f.username)
    ensures Construct(lib, newId, newToken, newUrl, newEmail, newHash, newUsername) == Ok(f)
  {
  }

  /** Lower-case hex digits are left alone by `strtolower`. */
  lemma LowerHexUnchanged(v: string)
    requires forall i :: 0 <= i < |v| ==> IsLowerHexDigit(v[i])
    ensures StrToLower(v) == v
  {
    assert forall i :: 0 <= i < |v| ==> StrToLower(v)[i] == LowerChar(v[i]) == v[i];
  }

  /** A stored token contains no whitespace and no upper case, so re-checking it changes nothing. */
  lemma StoredTokenRevalidates(t: Option<string>)
    requires TokenRule(t)
    ensures CheckActivationToken(t) == Ok(t)
  {
    if t.Some? {
      TokenRevalidates(t.value);
    }
  }

  lemma TokenRevalidates(v: string)
    requires IsActivationToken(v)
    ensures CheckActivationToken(Some(v)) == Ok(Some(v))
  {
    var t := Trim(v);
    assert t == v by {
      assert IsLowerHexDigit(v[0]) && IsLowerHexDigit(v[|v| - 1]);
      TrimOfTrimmed(v);
    }
    assert StrToLower(t) == v by {
      LowerHexUnchanged(v);
    }
    TokenCheckCases(v);
  }

  /** A stored avatar url that the sanitiser leaves alone passes its own check again. */
  lemma AvatarUrlRevalidates(lib: Library, a: string)
    requires AvatarUrlRule(a) && IsTrimmed(a) && lib.sanitizeString(a) == a
    ensures CheckAvatarUrl(lib, Some(a)) == Ok(a)
  {
    TrimOfTrimmed(a);
  }

  /** A stored email passes its own check again, unchanged. */
  lemma EmailRevalidates(lib: Library, e: string)
    requires EmailRule(lib, e)
    ensures CheckEmail(lib, e) == Ok(e)
  {
    TrimOfTrimmed(e);
  }

  /** A stored hash passes its own check again, unchanged. */
  lemma HashRevalidates(lib: Library, h: string)
    requires HashRule(lib, h)
    ensures CheckHash(lib, h) == Ok(h)
  {
    TrimOfTrimmed(h);
  }

  /** A stored username without surrounding whitespace that the sanitiser
   *  leaves alone passes its own check again. */
  lemma UsernameRevalidates(lib: Library, u: string)
    requires UsernameRule(u) && IsTrimmed(u) && lib.sanitizeString(u) == u
    ensures CheckUsername(lib, u) == Ok(u)
  {
    TrimOfTrimmed(u);
  }

  /** Re-running the constructor on a row as insert writes it (the id as its
   *  16 bytes, the other fields as stored), as the lookups do when they
   *  hydrate a fetched row, yields the same fields, provided the bytes
   *  validate back to the id and the sanitiser leaves the stored url and
   *  username alone. */
  lemma {:induction false} StoredFieldsRevalidate(lib: Library, f: AuthorFields)
    requires FieldsValid(lib, f)
    requires lib.validateUuid(UuidString(lib.uuidBytes(f.id))) == Ok(f.id)
    requires lib.sanitizeString(Trim(f.avatarUrl)) == f.avatarUrl
    requires lib.sanitizeString(Trim(f.username)) == f.username
    ensures Construct(lib, UuidString(lib.uuidBytes(f.id)), f.activationToken, Some(f.avatarUrl), f.email, f.hash, f.username) == Ok(f)
  {
    assert CheckActivationToken(f.activationToken) == Ok(f.activationToken) by {
      StoredTokenRevalidates(f.activationToken);
    }
    assert CheckAvatarUrl(lib, Some(f.avatarUrl)) == Ok(f.avatarUrl);
    assert CheckEmail(lib, f.email) == Ok(f.email) by {
      EmailRevalidates(lib, f.email);
    }
    assert CheckHash(lib, f.hash) == Ok(f.hash) by {
      HashRevalidates(lib, f.hash);
    }
    assert CheckUsername(lib, f.username) == Ok(f.username);
    ConstructFromChecks(lib, UuidString(lib.uuidBytes(f.id)), f.activationToken, Some(f.avatarUrl), f.email, f.hash, f.username, f);
  }

  /** Null and the empty string are both accepted as avatar url and stored as
   *  "", given that sanitising "" gives "". */
  lemma AbsentAvatarUrlStoredEmpty(lib: Library, newUrl: Option<string>)
    requires newUrl == None || newUrl == Some("")
    requires lib.sanitizeString("") == ""
    ensures CheckAvatarUrl(lib, newUrl) == Ok("")
  {
    assert Trim("") == "";
  }

  // --------------------------------------------------------------- finding

  /** __construct as written: its token parameter is typed `string`, not
   *  `?string`, so a null token is a TypeError raised when the arguments are
   *  bound, before any setter runs. */
  function ConstructAsWritten(lib: Library, newId: UuidInput, newToken: Option<string>, newUrl: Option<string>,
                              newEmail: string, newHash: string, newUsername: string): (r: Result<AuthorFields>)
    ensures newToken.None? ==> r == Err(TypeError)
    ensures newToken.Some? ==> r == Construct(lib, newId, newToken, newUrl, newEmail, newHash, newUsername)
  {
    if newToken.None? then Err(TypeError)
    else Construct(lib, newId, newToken, newUrl, newEmail, newHash, newUsername)
  }

  /** An Author whose token is null (already activated) satisfies every field
   *  rule, and its row as insert writes it passes every check, yet the
   *  constructor as written cannot build it. */
  lemma NullTokenRejectedAsWritten(lib: Library, f: AuthorFields)
    requires FieldsValid(lib, f) && f.activationToken == None
    requires lib.validateUuid(UuidString(lib.uuidBytes(f.id))) == Ok(f.id)
    requires lib.sanitizeString(Trim(f.avatarUrl)) == f.avatarUrl
    requires lib.sanitizeString(Trim(f.username)) == f.username
    ensures Construct(lib, UuidString(lib.uuidBytes(f.id)), None, Some(f.avatarUrl), f.email, f.hash, f.username) == Ok(f)
    ensures ConstructAsWritten(lib, UuidString(lib.uuidBytes(f.id)), None, Some(f.avatarUrl), f.email, f.hash, f.username) == Err(TypeError)
  {
    StoredFieldsRevalidate(lib, f);
  }

  /** The corrected constructor accepts a null token exactly when it accepts
   *  the other five values, and stores null. */
  lemma ConstructAcceptsNullToken(lib: Library, newId: UuidInput, newUrl: Option<string>,
                                  newEmail: string, newHash: string, newUsername: string)
    ensures var r := Construct(lib, newId, None, newUrl, newEmail, newHash, newUsername);
      && (r.Ok? <==> CheckId(lib, newId).Ok? && CheckAvatarUrl(lib, newUrl).Ok? && CheckEmail(lib, newEmail).Ok?
                     && CheckHash(lib, newHash).Ok? && CheckUsername(lib, newUsername).Ok?)
      && (r.Ok? ==> r.value.activationToken == None)
  {
    assert CheckActivationToken(None) == Ok(None);
  }

  // ------------------------------------------------------------------ demo

  /** The demo email passes its check unchanged. */
  lemma DemoEmailAccepted(lib: Library)
    requires lib.isEmail("Joe@exotic.com")
    ensures CheckEmail(lib, "Joe@exotic.com") == Ok("Joe@exotic.com")
  {
    var email := "Joe@exotic.com";
    assert IsTrimmed(email) && !IsEmpty(email) && |email| <= 128;
    EmailRevalidates(lib, email);
  }

  /** The demo username passes its check unchanged. */
  lemma DemoUsernameAccepted(lib: Library)
    requires lib.sanitizeString("Joe Exotic") == "Joe Exotic"
    ensures CheckUsername(lib, "Joe Exotic") == Ok("Joe Exotic")
  {
    var name := "Joe Exotic";
    assert IsTrimmed(name) && !IsEmpty(name) && |name| <= 32;
    UsernameRevalidates(lib, name);
  }

  /** The demo author "Joe Exotic" <Joe@exotic.com> with a fresh 32-digit token
   *  from bin2hex(random_bytes(16)) is constructed with every value unchanged,
   *  given what the libraries say of these particular values. */
  lemma JoeExoticConstructs(lib: Library, id: Uuid, token: string, url: string, hash: string)
    requires IsActivationToken(token)
    requires lib.validateUuid(UuidString("08180705-1cdd-421d-b8aa-fe0ec7f76fe6")) == Ok(id)
    requires IsTrimmed(url) && |url| <= 255 && lib.sanitizeString(url) == url
    requires lib.isEmail("Joe@exotic.com")
    requires IsTrimmed(hash) && !IsEmpty(hash) && |hash| <= 97 && lib.algoName(hash) == "argon2id"
    requires lib.sanitizeString("Joe Exotic") == "Joe Exotic"
    ensures Construct(lib, UuidString("08180705-1cdd-421d-b8aa-fe0ec7f76fe6"), Some(token), Some(url),
                      "Joe@exotic.com", hash, "Joe Exotic")
         == Ok(AuthorFields(id, Some(token), url, "Joe@exotic.com", hash, "Joe Exotic"))
  {
    DemoEmailAccepted(lib);
    DemoUsernameAccepted(lib);
    TokenRevalidates(token);
    AvatarUrlRevalidates(lib, url);
    HashRevalidates(lib, hash);
    ConstructFromChecks(lib, UuidString("08180705-1cdd-421d-b8aa-fe0ec7f76fe6"), Some(token), Some(url),
                        "Joe@exotic.com", hash, "Joe Exotic", AuthorFields(id, Some(token), url, "Joe@exotic.com", hash, "Joe Exotic"));
  }
}
