/** The parts of the PHP runtime that the Author class relies on.
 *
 *  A PHP string is a byte string; here each `char` stands for one byte, so
 *  `strlen($s)` is `|s|`.  Built-ins whose behaviour is fixed by the language
 *  (trim, strtolower, ctype_xdigit, empty, str_replace) are written out;
 *  library calls whose behaviour lives in C extensions or in code that is not
 *  part of this model are the fields of `Library`.
 */
module Php {

  datatype Option<+T> = None | Some(value: T)

  /** The exception classes that the Author class throws or rethrows. */
  datatype Exception =
    | InvalidArgumentException
    | RangeException
    | TypeError
    | PDOException

  /** A value, or the exception that was thrown instead. */
  datatype Result<+T> = Ok(value: T) | Err(error: Exception) {
    predicate IsFailure() { Err? }

    function PropagateFailure<U>(): Result<U>
      requires Err?
    {
      Err(error)
    }

    function Extract(): T
      requires Ok?
    {
      value
    }
  }

  /** The outcome of a `void` method: it returned, or it threw. */
  datatype Outcome = Pass | Fail(error: Exception)

  /** A 128-bit identifier (Ramsey\Uuid\Uuid). */
  type Uuid = bv128

  /** What `validateUuid` may be given: a string form or an already parsed id. */
  datatype UuidInput = UuidString(text: string) | UuidObject(id: Uuid)

  /** Library behaviour the model does not reimplement. */
  datatype Library = Library(
    // filter_var($s, FILTER_SANITIZE_STRING, FILTER_FLAG_NO_ENCODE_QUOTES)
    sanitizeString: string -> string,
    // filter_var($s, FILTER_VALIDATE_EMAIL) !== false
    isEmail: string -> bool,
    // password_get_info($s)["algoName"]
    algoName: string -> string,
    // the ValidateUuid trait's validateUuid($s), with the exception it throws
    validateUuid: UuidInput -> Result<Uuid>,
    // $uuid->toString()
    uuidToString: Uuid -> string,
    // $uuid->getBytes(): the 16-byte form written to and read back from the table
    uuidBytes: Uuid -> string
  )

  // ---------------------------------------------------------------- trim()

  /** The characters `trim` strips by default: " \t\n\r\0\x0B". */
  predicate IsTrimChar(c: char) {
    c == ' ' || c == '\t' || c == '\n' || c == '\r' || c == '\0' || c == 11 as char
  }

  /** No strippable character at either end. */
  predicate IsTrimmed(s: string) {
    s == [] || (!IsTrimChar(s[0]) && !IsTrimChar(s[|s| - 1]))
  }

  /** `ltrim($s)`: the suffix of `s` left after dropping leading strippable characters. */
  function TrimLeft(s: string): (r: string)
    ensures |r| <= |s| && r == s[|s| - |r|..]
    ensures forall i :: 0 <= i < |s| - |r| ==> IsTrimChar(s[i])
    ensures r == [] || !IsTrimChar(r[0])
  {
    if s != [] && IsTrimChar(s[0]) then TrimLeft(s[1..]) else s
  }

  /** `rtrim($s)`: the prefix of `s` left after dropping trailing strippable characters. */
  function TrimRight(s: string): (r: string)
    ensures |r| <= |s| && r == s[..|r|]
    ensures forall i :: |r| <= i < |s| ==> IsTrimChar(s[i])
    ensures r == [] || !IsTrimChar(r[|r| - 1])
  {
    if s != [] && IsTrimChar(s[|s| - 1]) then TrimRight(s[..|s| - 1]) else s
  }

  /** `trim($s)`. */
  function Trim(s: string): (r: string)
    ensures IsTrimmed(r) && |r| <= |s|
  {
    TrimRight(TrimLeft(s))
  }

  /** The two positions where `trim` cuts its input: everything before `i`
   *  and from `j` on is strippable, and `s[i..j]` is what is kept. */
  lemma TrimCut(s: string) returns (i: nat, j: nat)
    ensures i <= j <= |s| && Trim(s) == s[i..j]
    ensures forall k :: 0 <= k < i ==> IsTrimChar(s[k])
    ensures forall k :: j <= k < |s| ==> IsTrimChar(s[k])
  {
    var l := TrimLeft(s);
    var m := TrimRight(l);
    assert Trim(s) == m;
    i, j := |s| - |l|, |s| - |l| + |m|;
    assert m == s[i..j] by {
      assert l == s[i..];
      assert m == l[..|m|];
      assert s[i..][..|m|] == s[i..j];
    }
    forall k | j <= k < |s|
      ensures IsTrimChar(s[k])
    {
      assert s[k] == l[k - i];
    }
  }

  /** `trim` keeps a contiguous slice of its input and drops only strippable characters around it. */
  lemma TrimIsSlice(s: string)
    ensures exists i, j :: 0 <= i <= j <= |s| && Trim(s) == s[i..j]
                        && (forall k :: 0 <= k < i ==> IsTrimChar(s[k]))
                        && (forall k :: j <= k < |s| ==> IsTrimChar(s[k]))
  {
    var i, j := TrimCut(s);
  }

  /** A string with nothing to strip is its own `trim`; in particular `trim` is idempotent. */
  lemma TrimOfTrimmed(s: string)
    requires IsTrimmed(s)
    ensures Trim(s) == s
  {
    assert TrimLeft(s) == s;
  }

  /** A single character that `trim` does not strip is left alone. */
  lemma TrimOneChar(c: char)
    requires !IsTrimChar(c)
    ensures Trim([c]) == [c]
  {
    TrimOfTrimmed([c]);
  }

  /** `filter_var(trim($s), FILTER_SANITIZE_STRING, FILTER_FLAG_NO_ENCODE_QUOTES)`,
   *  the normalisation the username mutator and the username search share: a
   *  string with nothing to trim goes to the sanitiser unchanged. */
  function TrimAndSanitize(lib: Library, s: string): (r: string)
    ensures IsTrimmed(s) ==> r == lib.sanitizeString(s)
  {
    if IsTrimmed(s) then TrimOfTrimmed(s); lib.sanitizeString(Trim(s))
    else lib.sanitizeString(Trim(s))
  }

  // ---------------------------------------------------------- strtolower()

  /** ASCII lower-casing of one byte, as `strtolower` does it since PHP 8.2. */
  function LowerChar(c: char): char {
    if 'A' <= c <= 'Z' then (c as int + 32) as char else c
  }

  /** `strtolower($s)`: same length, each upper-case ASCII letter replaced by
   *  its lower-case letter (32 places further on), so none is left, and every
   *  other character kept as it is. */
  function StrToLower(s: string): (r: string)
    ensures |r| == |s|
    ensures forall i :: 0 <= i < |r| ==> !('A' <= r[i] <= 'Z')
    ensures forall i :: 0 <= i < |s| && 'A' <= s[i] <= 'Z' ==> r[i] == (s[i] as int + 32) as char
    ensures forall i :: 0 <= i < |s| && !('A' <= s[i] <= 'Z') ==> r[i] == s[i]
  {
    seq(|s|, i requires 0 <= i < |s| => LowerChar(s[i]))
  }

  // -------------------------------------------------------- ctype_xdigit()

  predicate IsHexDigit(c: char) {
    '0' <= c <= '9' || 'a' <= c <= 'f' || 'A' <= c <= 'F'
  }

  /** `ctype_xdigit($s)`: an accepted string is non-empty and made of hex
   *  digits only (so the empty string is refused), and has nothing for `trim`
   *  to strip. */
  predicate CtypeXdigit(s: string): (b: bool)
    ensures b ==> |s| > 0 && forall i :: 0 <= i < |s| ==> IsHexDigit(s[i])
    ensures b ==> IsTrimmed(s)
  {
    |s| > 0 && forall i :: 0 <= i < |s| ==> IsHexDigit(s[i])
  }

  // --------------------------------------------------------------- empty()

  /** `empty($s)` for a string: the empty string and "0" are both empty, so
   *  the empty string is empty, an empty string is at most one character
   *  long, and a one-character string is empty exactly when it is the digit
   *  zero. */
  predicate IsEmpty(s: string): (b: bool)
    ensures |s| == 0 ==> b
    ensures b ==> |s| <= 1
    ensures |s| == 1 ==> (b <==> s[0] == '0')
  {
    s == "" || s == "0"
  }

  // --------------------------------------------------------- str_replace()

  /** `str_replace($needle, $replacement, $s)` for a one-character needle. */
  function StrReplace(s: string, needle: char, replacement: string): string {
    if s == [] then []
    else (if s[0] == needle then replacement else [s[0]]) + StrReplace(s[1..], needle, replacement)
  }

  /** A string without the needle comes back from `str_replace` as it is. */
  lemma {:induction false} StrReplaceAbsent(s: string, needle: char, replacement: string)
    requires needle !in s
    ensures StrReplace(s, needle, replacement) == s
  {
    if s != [] {
      assert needle !in s[1..];
      StrReplaceAbsent(s[1..], needle, replacement);
      assert [s[0]] + s[1..] == s;
    }
  }

  /** Replacing a character works piecewise on a concatenation. */
  lemma {:induction false} StrReplaceAppend(a: string, b: string, needle: char, replacement: string)
    ensures StrReplace(a + b, needle, replacement)
         == StrReplace(a, needle, replacement) + StrReplace(b, needle, replacement)
  {
    if a != [] {
      assert (a + b)[1..] == a[1..] + b;
      StrReplaceAppend(a[1..], b, needle, replacement);
    } else {
      assert a + b == b;
    }
  }
}
