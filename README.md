# Author entity — a Dafny model

This project models the `Author` class of the object-oriented PHP example. An
Author is one row of the `author` table. It has six private properties: id,
activation token, avatar url, email, password hash and username. Each property
has a mutator that trims, normalises and checks its argument. The mutator
assigns the property only after every check has passed, and otherwise throws
`InvalidArgumentException` or `RangeException`. The constructor runs the six
mutators in a fixed order. Username search escapes the LIKE wildcards in its
term. `jsonSerialize` drops the activation token and the hash and turns the id
into its string form.

Layout:

- `php.dfy` (module `Php`): the PHP runtime the class relies on.
  - Written out: `trim` with PHP's default character set, ASCII `strtolower`,
    `ctype_xdigit`, `empty()` on strings and one-character `str_replace`.
  - Exceptions become `Result`/`Outcome` values that carry the exception class.
  - `Library` holds, as function values, the behaviour the model does not
    reimplement: `filter_var` sanitising and email validation,
    `password_get_info`, the `ValidateUuid` trait, `Uuid::toString` and
    `Uuid::getBytes`.
- `author_validation.dfy` (module `AuthorValidation`): the field rules, the
  check each mutator runs, and the constructor's sequence as a function on values.
- `author_search.dfy` (module `AuthorSearch`): the search-term normalisation and
  wildcard escaping of `getAuthorByAuthorUsername`, a model of MySQL's `LIKE`,
  and what the bound pattern matches.
- `author_json.dfy` (module `AuthorJson`): `jsonSerialize` over ordered PHP
  arrays (`get_object_vars`, `$a[$k] = $v`, `unset`).
- `author.dfy` (module `AuthorEntity`): the class `Author`. It has the six
  properties as fields, a `Valid()` invariant, one method per accessor and per
  mutator, and `New` for `__construct`. Each mutator's `modifies` clause names
  only its own field.

A PHP string is a byte string. In this model each `char` stands for one byte,
so `strlen($s)` is `|s|`.

Three behaviours of the class deserve a note:

- A token that is not hexadecimal throws `RangeException`
  (`php/Classes/Author.php:144-146`). The mutator's doc comment
  (`php/Classes/Author.php:130`) names `InvalidArgumentException` for an
  insecure token. The model follows the code.
- The avatar url is never reported absent. Its mutator accepts null
  (`php/Classes/Author.php:178`), and `trim` turns null into the empty string
  (`php/Classes/Author.php:181`). The only check is the length
  (`php/Classes/Author.php:186-188`), although the doc comment
  (`php/Classes/Author.php:174`) also names `InvalidArgumentException`. The
  model follows the code.
- The constructor declares its activation-token parameter as `string`
  (`php/Classes/Author.php:70`), so a null token throws `TypeError`. The
  mutator and the accessor both allow null (`php/Classes/Author.php:121`,
  `:134`). Here `AuthorValidation.Construct` and `AuthorEntity.Author.New`
  model the corrected constructor, which accepts null.
  `AuthorValidation.ConstructAsWritten` models the code as written. See
  Findings.

## Model

| member | source | states |
|---|---|---|
| `Php.TrimLeft` | php/Classes/Author.php:143 | the left trim of `trim` keeps a suffix of its input, drops only strippable characters, and leaves no strippable first character |
| `Php.TrimRight` | php/Classes/Author.php:143 | the right trim of `trim` keeps a prefix of its input, drops only strippable characters, and leaves no strippable last character |
| `Php.Trim` | php/Classes/Author.php:143 | `trim` leaves nothing strippable at either end and never lengthens its input |
| `Php.TrimIsSlice` | php/Classes/Author.php:143 | `trim` keeps one contiguous slice of its input and removes only strippable characters around it |
| `Php.TrimCut` | php/Classes/Author.php:143 | names the two positions where `trim` cuts: everything before the first and from the second on is strippable, and the slice between them is what `trim` returns |
| `Php.TrimOfTrimmed` | php/Classes/Author.php:218 | a string with nothing to strip is its own `trim`, so `trim` is idempotent |
| `Php.TrimOneChar` | php/Classes/Author.php:426 | a single character that `trim` does not strip is its own `trim` |
| `Php.TrimAndSanitize` | php/Classes/Author.php:303-304 | trim, then sanitise, as the username mutator and the username search (`php/Classes/Author.php:426-427`) both do: a string with nothing to trim reaches the sanitiser unchanged |
| `Php.StrToLower` | php/Classes/Author.php:143 | `strtolower` keeps the length, turns each upper-case ASCII letter into its lower-case letter, leaves no upper-case letter, and keeps every other character |
| `Php.CtypeXdigit` | php/Classes/Author.php:144 | a string that `ctype_xdigit` accepts is non-empty, is made of hex digits only, and has nothing for `trim` to strip |
| `Php.IsEmpty` | php/Classes/Author.php:428 | `empty()` accepts the empty string; a string it accepts has at most one character; a one-character string is empty exactly when it is `0` |
| `Php.StrReplace` | php/Classes/Author.php:433 | definition: `str_replace` of a one-character needle, scanning left to right (no contract; `StrReplaceAbsent` and `StrReplaceAppend` state its properties) |
| `Php.StrReplaceAbsent` | php/Classes/Author.php:433 | a string without the needle comes back from `str_replace` unchanged |
| `Php.StrReplaceAppend` | php/Classes/Author.php:433 | `str_replace` of one character works piecewise over a concatenation |
| `AuthorValidation.CheckId` | php/Classes/Author.php:104-114 | the id mutator stores what `validateUuid` returns, or fails with the same exception class |
| `AuthorValidation.LowerHexDigits` | php/Classes/Author.php:143-151 | after `strtolower`, "hex digits and length 32" is the same as "exactly 32 lower-case hex digits" |
| `AuthorValidation.CheckActivationToken` | php/Classes/Author.php:134-158 | whatever it stores is null or exactly 32 lower-case hex digits, and every failure is `RangeException` |
| `AuthorValidation.TokenCheckCases` | php/Classes/Author.php:134-158 | null yields null. A string succeeds exactly when trim-then-lowercase gives 32 lower-case hex digits (so the empty string fails), and that normalised value is what is stored |
| `AuthorValidation.CheckAvatarUrl` | php/Classes/Author.php:178-194 | it succeeds exactly when the trimmed, sanitised url (null trims to "") is at most 255 bytes, and it stores that value. The only failure is `RangeException` |
| `AuthorValidation.NormalizeAvatarUrl` | php/Classes/Author.php:181-182 | the same trim-then-sanitise on the url, with null reaching the sanitiser as the empty string and a url with nothing to trim reaching it unchanged |
| `AuthorValidation.AbsentAvatarUrlStoredEmpty` | php/Classes/Author.php:178-193 | a null or empty url is accepted and stored as "" |
| `AuthorValidation.CheckEmail` | php/Classes/Author.php:214-234 | it succeeds exactly when the trimmed value is a valid, non-empty email of at most 128 bytes, and it stores the trimmed value. Invalid or empty input is `InvalidArgumentException` whatever its length. `RangeException` occurs exactly for a valid email over 128 bytes |
| `AuthorValidation.FilterValidateEmail` | php/Classes/Author.php:219 | the email filter yields the string itself exactly when it is an email address, and false otherwise |
| `AuthorValidation.CheckHash` | php/Classes/Author.php:254-279 | it succeeds exactly when the trimmed hash is non-empty, argon2id and at most 97 bytes, and it stores the trimmed hash. An empty hash or another algorithm is `InvalidArgumentException`. `RangeException` occurs only for an argon2id hash over 97 bytes |
| `AuthorValidation.CheckUsername` | php/Classes/Author.php:299-319 | it succeeds exactly when the trimmed, sanitised name is neither "" nor "0" and is at most 32 bytes, and it stores that name. An empty name is `InvalidArgumentException`. `RangeException` occurs only for a non-empty name over 32 bytes |
| `AuthorValidation.Construct` | php/Classes/Author.php:70-84 | construction succeeds exactly when all six checks succeed, and the result satisfies all six field rules at once |
| `AuthorValidation.ConstructFirstFailure` | php/Classes/Author.php:72-82 | the first failing check in the order id, token, url, email, hash, username decides the exception class |
| `AuthorValidation.ConstructStoresNormalizedInputs` | php/Classes/Author.php:73-78 | after construction every field holds its normalised argument |
| `AuthorValidation.ConstructFromChecks` | php/Classes/Author.php:72-78 | when every mutator's check yields the corresponding field, construction yields exactly those fields |
| `AuthorValidation.LowerHexUnchanged` | php/Classes/Author.php:143 | `strtolower` leaves lower-case hex digits unchanged |
| `AuthorValidation.TokenRevalidates` | php/Classes/Author.php:137-157 | a stored token passes its own check again, unchanged |
| `AuthorValidation.StoredTokenRevalidates` | php/Classes/Author.php:137-157 | a stored token, null included, passes its own check again, unchanged |
| `AuthorValidation.AvatarUrlRevalidates` | php/Classes/Author.php:178-193 | a stored url with nothing to trim, which the sanitiser leaves alone, passes its own check unchanged |
| `AuthorValidation.EmailRevalidates` | php/Classes/Author.php:214-233 | a stored email passes its own check again, unchanged |
| `AuthorValidation.HashRevalidates` | php/Classes/Author.php:254-278 | a stored hash passes its own check again, unchanged |
| `AuthorValidation.UsernameRevalidates` | php/Classes/Author.php:299-318 | a stored username with nothing to trim, which the sanitiser leaves alone, passes its own check unchanged |
| `AuthorValidation.StoredFieldsRevalidate` | php/Classes/Author.php:333 | re-running the constructor on a valid Author's row as `insert` writes it yields the same fields. That row has the id as its `getBytes` string and the other fields as stored. The lemma assumes the bytes validate back to the id and the sanitiser leaves the stored url and username alone |
| `AuthorValidation.ConstructAsWritten` | php/Classes/Author.php:70-84 | the constructor as written: a null token is always a `TypeError`, whatever the other arguments; any other token behaves exactly like `Construct` |
| `AuthorValidation.NullTokenRejectedAsWritten` | php/Classes/Author.php:70-74 | a valid Author with a null token, given as the row `insert` writes, passes every check, yet the constructor as written throws `TypeError` |
| `AuthorValidation.ConstructAcceptsNullToken` | php/Classes/Author.php:134-140 | the corrected constructor accepts a null token exactly when the other five values pass, and stores null |
| `AuthorValidation.DemoEmailAccepted` | php/author.php:9 | the demo email `Joe@exotic.com` passes the email check unchanged, given that the email filter accepts it |
| `AuthorValidation.DemoUsernameAccepted` | php/author.php:11 | the demo username `Joe Exotic` passes the username check unchanged, given that the sanitiser leaves it alone |
| `AuthorValidation.JoeExoticConstructs` | php/author.php:6-13 | "Joe Exotic" with "Joe@exotic.com", a 32-digit hex token and an argon2id hash is constructed with every value unchanged |
| `AuthorSearch.EscapeWildcardsIsByChar` | php/Classes/Author.php:433 | the two `str_replace` passes escape each `%` and `_` independently, one character at a time |
| `AuthorSearch.EscapeWildcards` | php/Classes/Author.php:433 | the escaping as written leaves a term without `%` and `_` unchanged |
| `AuthorSearch.EscapedShape` | php/Classes/Author.php:433 | escaping adds exactly one character per `%` or `_`, so output length is input length plus the wildcard count |
| `AuthorSearch.WildcardsPreceded` | php/Classes/Author.php:433 | in the escaped term every `%` and `_` is immediately preceded by a backslash |
| `AuthorSearch.UnescapeEscape` | php/Classes/Author.php:433 | removing the escapes gives back the term, so escaping loses nothing |
| `AuthorSearch.EscapeAgreesWithoutBackslash` | php/Classes/Author.php:433 | on terms without a backslash, the escaping as written equals the corrected escaping |
| `AuthorSearch.Like` | php/Classes/Author.php:436 | definition: MySQL `LIKE` with `\` as escape character and a binary collation. `%` matches any run, `_` any one character, `\x` the character `x`, anything else itself (no contract; the lemmas below state its properties) |
| `AuthorSearch.PercentMatchesAll` | php/Classes/Author.php:436-440 | the pattern `%` matches every string under LIKE |
| `AuthorSearch.LeadingPercent` | php/Classes/Author.php:440 | a leading `%` lets the rest of the pattern match any suffix |
| `AuthorSearch.LikeEscapedChar` | php/Classes/Author.php:436 | under LIKE, one escaped character at the head of a pattern matches exactly that character and hands the rest of the string to the rest of the pattern |
| `AuthorSearch.EscapedPrefix` | php/Classes/Author.php:433-440 | an escaped literal at the head of a pattern matches exactly itself, then hands over to the rest of the pattern |
| `AuthorSearch.LiteralPatternFindsSubstrings` | php/Classes/Author.php:433-440 | `%` + escaped term + `%` matches exactly the strings that contain the term |
| `AuthorSearch.UsernamePattern` | php/Classes/Author.php:426-440 | an empty term ("" or "0") is `PDOException`. Otherwise the pattern starts and ends with `%`, has length of term plus wildcard count plus 2, and unescapes back to the term |
| `AuthorSearch.UsernamePatternFindsSubstrings` | php/Classes/Author.php:426-440 | for a term without a backslash, the bound pattern matches exactly the usernames that contain the term, with `%` and `_` taken literally |
| `AuthorSearch.SingleCharSubstring` | php/Classes/Author.php:440 | a one-character term occurs in a username exactly when that character does |
| `AuthorSearch.PercentSearchedLiterally` | php/Classes/Author.php:426-440 | searching for "%" matches exactly the usernames that contain a `%`, not every username |
| `AuthorSearch.PercentTermNormal` | php/Classes/Author.php:426-430 | the search term `%` survives trimming and sanitising unchanged and is not empty |
| `AuthorSearch.JoeFindsJoeExotic` | php/Classes/Author.php:426-440 | searching for "Joe" matches "Joe Exotic" |
| `AuthorSearch.DemoTermNormal` | php/Classes/Author.php:426-430 | the search term `Joe` survives trimming and sanitising unchanged and is not empty |
| `AuthorSearch.DemoTermOccurs` | php/author.php:11 | `Joe` occurs in the demo username `Joe Exotic` |
| `AuthorSearch.BackslashDefeatsEscaping` | php/Classes/Author.php:433 | the term `\%` yields the pattern `%\\%%`, which matches the username `\` although `\%` does not occur in it |
| `AuthorSearch.PatternIsEscapedTerm` | php/Classes/Author.php:426-440 | a term that is not empty after normalisation is bound as `%`, the term escaped character by character, `%` |
| `AuthorSearch.BackslashPercentEscaped` | php/Classes/Author.php:433 | the escaping as written turns `\%` into `\\%`: only the `%` receives a backslash |
| `AuthorSearch.BackslashPatternText` | php/Classes/Author.php:433-440 | `%`, then the escaped term `\\%` for `\%`, then `%` is the text `%\\%%` |
| `AuthorSearch.BackslashPercentPattern` | php/Classes/Author.php:433-440 | the bound pattern for the term `\%` is `%\\%%` |
| `AuthorSearch.BackslashMatched` | php/Classes/Author.php:436 | `%\\%%` matches the one-character string `\` under LIKE |
| `AuthorSearch.LiteralUsernamePattern` | php/Classes/Author.php:426-440 | the corrected pattern: an empty term is `PDOException`, as in the code |
| `AuthorSearch.LiteralUsernamePatternFindsSubstrings` | php/Classes/Author.php:426-440 | the corrected pattern matches exactly the usernames that contain the term, whatever characters the term holds |
| `AuthorJson.Keys` | php/Classes/Author.php:466 | the keys of an ordered array, position by position |
| `AuthorJson.Lookup` | php/Classes/Author.php:467-469 | `$a[$k]` has a value exactly when `k` is one of the array's keys |
| `AuthorJson.ObjectVars` | php/Classes/Author.php:466 | `get_object_vars` yields the six properties under their own names, in declaration order |
| `AuthorJson.ArraySet` | php/Classes/Author.php:467 | `$a[$k] = $v` keeps the key order when the key exists and appends it otherwise. Afterwards `$a[$k]` is `$v` and every other key is unchanged |
| `AuthorJson.ArrayUnset` | php/Classes/Author.php:468-469 | after `unset($a[$k])` the key is gone and every other key keeps its value and presence |
| `AuthorJson.UnsetAbsent` | php/Classes/Author.php:468-469 | unsetting an absent key changes nothing |
| `AuthorJson.UnsetAt` | php/Classes/Author.php:468-469 | unsetting a key that occurs once removes exactly that entry and keeps the order |
| `AuthorJson.SetIdStep` | php/Classes/Author.php:466-467 | assigning `authorId` in the object's variables overwrites the first entry where it stands |
| `AuthorJson.UnsetTokenStep` | php/Classes/Author.php:468 | unsetting `authorActivationToken` removes exactly the second of the six entries |
| `AuthorJson.UnsetHashStep` | php/Classes/Author.php:469 | unsetting `authorHash` then removes exactly the fourth of the five remaining entries |
| `AuthorJson.ProjectionShape` | php/Classes/Author.php:464-471 | the four-entry projection has keys authorId, authorAvatarUrl, authorEmail, authorUsername in that order, holds the id's string form, and has neither the token nor the hash |
| `AuthorJson.JsonSerialize` | php/Classes/Author.php:464-471 | the result equals the explicit four-entry projection. Its keys are exactly authorId, authorAvatarUrl, authorEmail, authorUsername in that order. authorId holds the id's string form. Neither authorActivationToken nor authorHash appears |
| `AuthorEntity.Author.New` | php/Classes/Author.php:70-84 | construction succeeds exactly when `Construct` does, with the same exception class otherwise. The new object is fresh and valid, and its fields are `Construct`'s result |
| `AuthorEntity.Author.GetAuthorId` | php/Classes/Author.php:91-94 | returns the stored id |
| `AuthorEntity.Author.GetAuthorActivationToken` | php/Classes/Author.php:121-124 | returns the stored token. On a valid object it is null or 32 lower-case hex digits |
| `AuthorEntity.Author.GetAuthorAvatarUrl` | php/Classes/Author.php:165-168 | returns the stored url. On a valid object it is at most 255 bytes |
| `AuthorEntity.Author.GetAuthorEmail` | php/Classes/Author.php:201-204 | returns the stored email. On a valid object it is a valid, non-empty, trimmed email of at most 128 bytes |
| `AuthorEntity.Author.GetAuthorHash` | php/Classes/Author.php:241-244 | returns the stored hash. On a valid object it is a trimmed, non-empty argon2id hash of at most 97 bytes |
| `AuthorEntity.Author.GetAuthorUsername` | php/Classes/Author.php:286-289 | returns the stored username. On a valid object it is neither "" nor "0" and at most 32 bytes |
| `AuthorEntity.Author.SetAuthorId` | php/Classes/Author.php:104-114 | on success only the id changes, to the validated id. On failure nothing changes and the exception class is preserved. Validity is kept |
| `AuthorEntity.Author.SetAuthorActivationToken` | php/Classes/Author.php:134-158 | on success only the token changes, to what `CheckActivationToken` yields. On failure nothing changes and `RangeException` is returned. Validity is kept |
| `AuthorEntity.Author.SetAuthorAvatarUrl` | php/Classes/Author.php:178-194 | on success only the url changes, to the normalised url. On failure nothing changes and `RangeException` is returned. Validity is kept |
| `AuthorEntity.Author.SetAuthorEmail` | php/Classes/Author.php:214-234 | on success only the email changes, to the trimmed email. On failure nothing changes and the check's exception is returned. Validity is kept |
| `AuthorEntity.Author.SetAuthorHash` | php/Classes/Author.php:254-279 | on success only the hash changes, to the trimmed hash. On failure nothing changes and the check's exception is returned. Validity is kept |
| `AuthorEntity.Author.SetAuthorUsername` | php/Classes/Author.php:299-319 | on success only the username changes, to the normalised name. On failure nothing changes and the check's exception is returned. Validity is kept |
| `AuthorEntity.Author.JsonSerialize` | php/Classes/Author.php:464-471 | the object's serialisation has exactly the four public keys, the id as its string form, and never the token or the hash |

## Left out

- `insert`, `update` and `delete`, and the database side of `getAuthorByAuthorId`
  and `getAuthorByAuthorUsername`, are not modelled. That side covers prepare,
  execute, fetch and filling the `SplFixedArray`. It is I/O through a database
  driver.
  - `getAuthorByAuthorId` returns null when no row is found.
  - It rethrows a failed id validation as `PDOException`.
  - Both lookups rethrow a row that fails construction with an `Exception` as
    `PDOException` (`php/Classes/Author.php:408`, `:452`). A `TypeError` is an
    `Error`, not an `Exception`, so it escapes both catches unchanged. A row
    with a null token therefore makes both lookups throw `TypeError`.
  - `StoredFieldsRevalidate` covers the validation part of hydrating a row
    written by `insert`. In that row the id is the 16-byte string from
    `getBytes` (`php/Classes/Author.php:333`). Reading the row back
    (`php/Classes/Author.php:406`, `:449`) is not modelled.
- The `ValidateUuid` trait is not part of this model. Nor are `Uuid::toString`
  and `getBytes`. Parsing and formatting are the `validateUuid`, `uuidToString`
  and `uuidBytes` fields of `Library`. That `validateUuid` turns the bytes of
  an id back into that id is a hypothesis of `StoredFieldsRevalidate`.
- The internals of `filter_var` (`FILTER_SANITIZE_STRING`, `FILTER_VALIDATE_EMAIL`)
  and of `password_get_info` are not modelled. They are the `sanitizeString`,
  `isEmail` and `algoName` fields of `Library`. A sanitiser that returns
  `false` on failure is not modelled.
- `Valid()` does not say that the stored avatar url and username are outputs of
  the sanitiser. The sanitiser is opaque, so its image cannot be stated. The
  field rules state only the length and emptiness bounds for these two fields.
- Exception messages and the `previous` chain of rethrown exceptions are not
  modelled; only the exception class is.
- Argument type checks other than the null activation token are not modelled.
  Dafny's parameter types already exclude non-string arguments, for example.
- `php/author.php` draws random bytes, hashes a password and echoes the
  accessors. These are I/O and randomness. The demo values become the hypotheses
  of `JoeExoticConstructs` and `JoeFindsJoeExotic`.
- AuthorEntity.Author.New: models the corrected constructor. Given a null
  activation token it runs the mutators and can succeed. The constructor as
  written (`php/Classes/Author.php:70`) throws `TypeError` before any mutator
  runs. `AuthorValidation.ConstructAsWritten` states that behaviour.
- AuthorValidation.Construct: models the same corrected constructor, for the
  same reason.
- Multi-byte characters are not modelled: a `char` is one byte.
- `strtolower` is ASCII-only, as in PHP 8.2 and later. Earlier locale-dependent
  lower-casing is not modelled.
- `Like` models MySQL's LIKE with the default escape character `\` and a binary,
  case-sensitive collation. Case-insensitive collations are not modelled.

## Findings

| source | as written | input that shows it | evidently intended | confidence | as-written member | corrected member |
|---|---|---|---|---|---|---|
| php/Classes/Author.php:70 | the constructor declares `string $newAuthorActivationToken`, so a null token throws `TypeError` before any mutator runs | a null activation token, as in an activated author's row hydrated at php/Classes/Author.php:406 or :449 | `?string`: the mutator (line 134) and accessor (line 121) both treat null as a valid token | medium, not executed | `AuthorValidation.NullTokenRejectedAsWritten` | `AuthorValidation.ConstructAcceptsNullToken` |
| php/Classes/Author.php:433 | only `%` and `_` are escaped; a backslash in the term is left as it is and becomes LIKE's escape character | term `\%` gives pattern `%\\%%`, which matches the username `\` | escape `\` as well, so that the term is matched literally | medium, not executed | `AuthorSearch.BackslashDefeatsEscaping` | `AuthorSearch.LiteralUsernamePatternFindsSubstrings` |

`AuthorEntity.Author.New` is built on the corrected `AuthorValidation.Construct`,
which accepts a null token. `AuthorValidation.ConstructAsWritten` records the
constructor's behaviour as written.
