/** The Author entity: six private properties, each written only by its own
 *  mutator, which assigns after every one of its checks has passed.
 */
module AuthorEntity {
  import opened Php
  import opened AuthorValidation
  import AuthorJson

  class Author {
    /** The library behaviour the mutators consult. */
    const lib: Library

    var authorId: Uuid
    var authorActivationToken: Option<string>
    var authorAvatarUrl: string
    var authorEmail: string
    var authorHash: string
    var authorUsername: string

    /** The six properties as one value. */
    function Fields(): AuthorFields
      reads this
    {
      AuthorFields(authorId, authorActivationToken, authorAvatarUrl, authorEmail, authorHash, authorUsername)
    }

    /** Every property satisfies its rule. */
    ghost predicate Valid()
      reads this
    {
      FieldsValid(lib, Fields())
    }

    /** The object as allocated, before __construct has run a mutator.  It
     *  exists only for `New`, which overwrites every property before it
     *  hands the object out: its property values stand for PHP's unset
     *  properties, and in general it does not satisfy `Valid()`. */
    constructor Blank(lib: Library)
      ensures this.lib == lib
    {
      this.lib := lib;
      authorId := 0;
      authorActivationToken := None;
      authorAvatarUrl := "";
      authorEmail := "";
      authorHash := "";
      authorUsername := "";
    }

    /** __construct: runs the six mutators in declaration order and rethrows the
     *  first exception with its kind preserved; on success every property
     *  holds its normalised argument and the object is valid. */
    static method New(lib: Library, newAuthorId: UuidInput, newAuthorActivationToken: Option<string>,
                      newAuthorAvatarUrl: Option<string>, newAuthorEmail: string, newAuthorHash: string,
                      newAuthorUsername: string) returns (r: Result<Author>)
      ensures var c := Construct(lib, newAuthorId, newAuthorActivationToken, newAuthorAvatarUrl,
                                 newAuthorEmail, newAuthorHash, newAuthorUsername);
        && (r.Ok? <==> c.Ok?)
        && (r.Err? ==> r.error == c.error)
        && (r.Ok? ==> fresh(r.value) && r.value.lib == lib && r.value.Valid() && r.value.Fields() == c.value)
    {
      var author := new Author.Blank(lib);
      var o := author.SetAuthorId(newAuthorId);
      if o.Fail? { return Err(o.error); }
      o := author.SetAuthorActivationToken(newAuthorActivationToken);
      if o.Fail? { return Err(o.error); }
      o := author.SetAuthorAvatarUrl(newAuthorAvatarUrl);
      if o.Fail? { return Err(o.error); }
      o := author.SetAuthorEmail(newAuthorEmail);
      if o.Fail? { return Err(o.error); }
      o := author.SetAuthorHash(newAuthorHash);
      if o.Fail? { return Err(o.error); }
      o := author.SetAuthorUsername(newAuthorUsername);
      if o.Fail? { return Err(o.error); }
      return Ok(author);
    }

    // ------------------------------------------------------------ accessors

    method GetAuthorId() returns (id: Uuid)
      ensures id == authorId
    {
      id := authorId;
    }

    /** Null, or 32 lower-case hex digits. */
    method GetAuthorActivationToken() returns (token: Option<string>)
      ensures token == authorActivationToken
      ensures Valid() ==> token.None? || IsActivationToken(token.value)
    {
      token := authorActivationToken;
    }

    /** At most 255 bytes. */
    method GetAuthorAvatarUrl() returns (url: string)
      ensures url == authorAvatarUrl
      ensures Valid() ==> |url| <= 255
    {
      url := authorAvatarUrl;
    }

    /** An email address of at most 128 bytes with nothing to trim. */
    method GetAuthorEmail() returns (email: string)
      ensures email == authorEmail
      ensures Valid() ==> lib.isEmail(email) && !IsEmpty(email) && |email| <= 128 && Trim(email) == email
    {
      email := authorEmail;
      if Valid() {
        TrimOfTrimmed(email);
      }
    }

    /** An argon2id hash of at most 97 bytes with nothing to trim. */
    method GetAuthorHash() returns (hash: string)
      ensures hash == authorHash
      ensures Valid() ==> lib.algoName(hash) == "argon2id" && !IsEmpty(hash) && |hash| <= 97 && Trim(hash) == hash
    {
      hash := authorHash;
      if Valid() {
        TrimOfTrimmed(hash);
      }
    }

    /** Neither "" nor "0", at most 32 bytes. */
    method GetAuthorUsername() returns (username: string)
      ensures username == authorUsername
      ensures Valid() ==> !IsEmpty(username) && |username| <= 32
    {
      username := authorUsername;
    }

    // ------------------------------------------------------------- mutators

    /** setAuthorId: stores what validateUuid returns, or rethrows its exception kind. */
    method SetAuthorId(newAuthorId: UuidInput) returns (o: Outcome)
      modifies this`authorId
      ensures var c := CheckId(lib, newAuthorId);
        && (c.Ok? ==> o == Pass && Fields() == old(Fields()).(id := c.value))
        && (c.Err? ==> o == Fail(c.error) && Fields() == old(Fields()))
      ensures old(Valid()) ==> Valid()
    {
      var c := CheckId(lib, newAuthorId);
      if c.Err? {
        return Fail(c.error);
      }
      authorId := c.value;
      return Pass;
    }

    /** setAuthorActivationToken: null is stored as null; otherwise the trimmed,
     *  lower-cased token is stored if it is 32 hex digits, else RangeException. */
    method SetAuthorActivationToken(newAuthorActivationToken: Option<string>) returns (o: Outcome)
      modifies this`authorActivationToken
      ensures var c := CheckActivationToken(newAuthorActivationToken);
        && (c.Ok? ==> o == Pass && Fields() == old(Fields()).(activationToken := c.value))
        && (c.Err? ==> o == Fail(RangeException) && Fields() == old(Fields()))
      ensures old(Valid()) ==> Valid()
    {
      if newAuthorActivationToken.None? {
        authorActivationToken := None;
        return Pass;
      }
      var c := CheckActivationToken(newAuthorActivationToken);
      if c.Err? {
        return Fail(c.error);
      }
      authorActivationToken := c.value;
      return Pass;
    }

    /** setAuthorAvatarUrl: stores the trimmed, sanitised url, or RangeException over 255 bytes. */
    method SetAuthorAvatarUrl(newAuthorAvatarUrl: Option<string>) returns (o: Outcome)
      modifies this`authorAvatarUrl
      ensures var c := CheckAvatarUrl(lib, newAuthorAvatarUrl);
        && (c.Ok? ==> o == Pass && Fields() == old(Fields()).(avatarUrl := c.value))
        && (c.Err? ==> o == Fail(RangeException) && Fields() == old(Fields()))
      ensures old(Valid()) ==> Valid()
    {
      var c := CheckAvatarUrl(lib, newAuthorAvatarUrl);
      if c.Err? {
        return Fail(c.error);
      }
      authorAvatarUrl := c.value;
      return Pass;
    }

    /** setAuthorEmail: stores the trimmed email, or InvalidArgumentException /
     *  RangeException. */
    method SetAuthorEmail(newAuthorEmail: string) returns (o: Outcome)
      modifies this`authorEmail
      ensures var c := CheckEmail(lib, newAuthorEmail);
        && (c.Ok? ==> o == Pass && Fields() == old(Fields()).(email := c.value))
        && (c.Err? ==> o == Fail(c.error) && Fields() == old(Fields()))
      ensures old(Valid()) ==> Valid()
    {
      var c := CheckEmail(lib, newAuthorEmail);
      if c.Err? {
        return Fail(c.error);
      }
      authorEmail := c.value;
      return Pass;
    }

    /** setAuthorHash: stores the trimmed argon2id hash, or InvalidArgumentException /
     *  RangeException. */
    method SetAuthorHash(newAuthorHash: string) returns (o: Outcome)
      modifies this`authorHash
      ensures var c := CheckHash(lib, newAuthorHash);
        && (c.Ok? ==> o == Pass && Fields() == old(Fields()).(hash := c.value))
        && (c.Err? ==> o == Fail(c.error) && Fields() == old(Fields()))
      ensures old(Valid()) ==> Valid()
    {
      var c := CheckHash(lib, newAuthorHash);
      if c.Err? {
        return Fail(c.error);
      }
      authorHash := c.value;
      return Pass;
    }

    /** setAuthorUsername: stores the trimmed, sanitised username, or
     *  InvalidArgumentException / RangeException. */
    method SetAuthorUsername(newAuthorUsername: string) returns (o: Outcome)
      modifies this`authorUsername
      ensures var c := CheckUsername(lib, newAuthorUsername);
        && (c.Ok? ==> o == Pass && Fields() == old(Fields()).(username := c.value))
        && (c.Err? ==> o == Fail(c.error) && Fields() == old(Fields()))
      ensures old(Valid()) ==> Valid()
    {
      var c := CheckUsername(lib, newAuthorUsername);
      if c.Err? {
        return Fail(c.error);
      }
      authorUsername := c.value;
      return Pass;
    }

    // -------------------------------------------------------- serialisation

    /** jsonSerialize: the id as a string, avatar url, email and username;
     *  never the activation token or the hash. */
    method JsonSerialize() returns (r: AuthorJson.PhpArray)
      ensures AuthorJson.Keys(r) == ["authorId", "authorAvatarUrl", "authorEmail", "authorUsername"]
      ensures "authorActivationToken" !in AuthorJson.Keys(r) && "authorHash" !in AuthorJson.Keys(r)
      ensures AuthorJson.Lookup(r, "authorId") == Some(AuthorJson.PhpString(lib.uuidToString(authorId)))
      ensures r == AuthorJson.Projection(lib, Fields())
    {
      r := AuthorJson.JsonSerialize(lib, Fields());
    }
  }
}
