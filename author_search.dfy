/** Username search: how getAuthorByAuthorUsername turns a search term into the
 *  pattern it binds to `authorUsername LIKE :authorUsername`, and what that
 *  pattern matches under MySQL's LIKE.
 */
module AuthorSearch {
  import opened Php

  predicate IsWildcard(c: char) {
    c == '%' || c == '_'
  }

  /** Characters with a meaning inside a LIKE pattern: the two wildcards and the escape. */
  predicate IsLikeSpecial(c: char) {
    c == '\\' || IsWildcard(c)
  }

  function CountWildcards(s: string): nat {
    if s == [] then 0 else (if IsWildcard(s[0]) then 1 else 0) + CountWildcards(s[1..])
  }

  // ------------------------------------------------------------ escaping

  /** The escaping as written: str_replace("_", "\\_", str_replace("%", "\\%", $s)).
   *  A term without wildcards is left as it is. */
  function EscapeWildcards(s: string): (r: string)
    ensures '%' !in s && '_' !in s ==> r == s
  {
    if '%' !in s && '_' !in s then
      StrReplaceAbsent(s, '%', "\\%");
      StrReplaceAbsent(s, '_', "\\_");
      StrReplace(StrReplace(s, '%', "\\%"), '_', "\\_")
    else
      StrReplace(StrReplace(s, '%', "\\%"), '_', "\\_")
  }

  /** The same escaping done one character at a time. */
  function EscapeWildcardsByChar(s: string): string {
    if s == [] then []
    else (if IsWildcard(s[0]) then ['\\', s[0]] else [s[0]]) + EscapeWildcardsByChar(s[1..])
  }

  /** The two str_replace passes do not interfere: the backslashes the first
   *  inserts are not underscores. */
  lemma {:induction false} EscapeWildcardsIsByChar(s: string)
    ensures EscapeWildcards(s) == EscapeWildcardsByChar(s)
  {
    if s != [] {
      var c := s[0];
      assert s == [c] + s[1..];
      StrReplaceAppend([c], s[1..], '%', "\\%");
      var a := StrReplace([c], '%', "\\%");
      var b := StrReplace(s[1..], '%', "\\%");
      StrReplaceAppend(a, b, '_', "\\_");
      assert StrReplace(a, '_', "\\_") == if IsWildcard(c) then ['\\', c] else [c] by {
        assert [c][1..] == [];
        if c == '%' {
          assert a == ['\\', '%'] && a[1..] == ['%'] && a[1..][1..] == [];
        } else {
          assert a == [c];
        }
      }
      EscapeWildcardsIsByChar(s[1..]);
    }
  }

  /** Escaping adds exactly one character per wildcard and never starts with a bare wildcard. */
  lemma {:induction false} EscapedShape(s: string)
    ensures |EscapeWildcardsByChar(s)| == |s| + CountWildcards(s)
    ensures EscapeWildcardsByChar(s) == [] || !IsWildcard(EscapeWildcardsByChar(s)[0])
  {
    if s != [] {
      EscapedShape(s[1..]);
    }
  }

  /** After escaping, every % and _ is immediately preceded by a backslash. */
  lemma {:induction false} WildcardsPreceded(s: string)
    ensures var r := EscapeWildcardsByChar(s);
      forall i :: 0 <= i < |r| && IsWildcard(r[i]) ==> 0 < i && r[i - 1] == '\\'
  {
    if s != [] {
      var chunk := if IsWildcard(s[0]) then ['\\', s[0]] else [s[0]];
      var rest := EscapeWildcardsByChar(s[1..]);
      var r := EscapeWildcardsByChar(s);
      assert r == chunk + rest;
      WildcardsPreceded(s[1..]);
      EscapedShape(s[1..]);
      forall i | 0 <= i < |r| && IsWildcard(r[i]) ensures 0 < i && r[i - 1] == '\\' {
        if i >= |chunk| {
          assert r[i] == rest[i - |chunk|];
          if i > |chunk| {
            assert r[i - 1] == rest[i - 1 - |chunk|];
          }
        }
      }
    }
  }

  /** Dropping the backslash in front of each escaped wildcard. */
  function UnescapeWildcards(r: string): string
    decreases |r|
  {
    if r == [] then []
    else if |r| >= 2 && r[0] == '\\' && IsWildcard(r[1]) then [r[1]] + UnescapeWildcards(r[2..])
    else [r[0]] + UnescapeWildcards(r[1..])
  }

  /** The escaping loses nothing: distinct terms give distinct escaped strings. */
  lemma {:induction false} UnescapeEscape(s: string)
    ensures UnescapeWildcards(EscapeWildcardsByChar(s)) == s
  {
    if s != [] {
      var c := s[0];
      var rest := EscapeWildcardsByChar(s[1..]);
      EscapedShape(s[1..]);
      UnescapeEscape(s[1..]);
      if IsWildcard(c) {
        assert (['\\', c] + rest)[2..] == rest;
      } else {
        assert ([c] + rest)[1..] == rest;
      }
    }
  }

  /** Corrected escaping: the escape character itself is escaped too. */
  function EscapeLiteral(s: string): string {
    if s == [] then []
    else (if IsLikeSpecial(s[0]) then ['\\', s[0]] else [s[0]]) + EscapeLiteral(s[1..])
  }

  /** On a term without backslashes the escaping as written is the corrected one. */
  lemma {:induction false} EscapeAgreesWithoutBackslash(s: string)
    requires '\\' !in s
    ensures EscapeWildcardsByChar(s) == EscapeLiteral(s)
  {
    if s != [] {
      assert s[0] in s;
      assert forall c :: c in s[1..] ==> c in s;
      EscapeAgreesWithoutBackslash(s[1..]);
    }
  }

  // ------------------------------------------------------------------ LIKE

  /** `s LIKE p` in MySQL with the default escape character `\` and a binary
   *  (case-sensitive) collation: % matches any run, _ any one character,
   *  `\x` the character x, anything else itself. */
  function Like(p: string, s: string): bool
    decreases |p| + |s|
  {
    if p == [] then s == []
    else if p[0] == '%' then Like(p[1..], s) || (s != [] && Like(p, s[1..]))
    else if s == [] then false
    else if p[0] == '_' then Like(p[1..], s[1..])
    else if p[0] == '\\' && |p| >= 2 then s[0] == p[1] && Like(p[2..], s[1..])
    else s[0] == p[0] && Like(p[1..], s[1..])
  }

  /** `t` occurs in `s` starting at position `k`. */
  predicate OccursAt(t: string, s: string, k: nat) {
    k + |t| <= |s| && s[k..k + |t|] == t
  }

  /** `t` occurs in `s` as a contiguous substring. */
  ghost predicate IsSubstring(t: string, s: string) {
    exists k: nat :: OccursAt(t, s, k)
  }

  lemma {:induction false} PercentMatchesAll(s: string)
    ensures Like("%", s)
  {
    if s != [] {
      PercentMatchesAll(s[1..]);
    }
  }

  /** A leading % lets the rest of the pattern match any suffix. */
  lemma {:induction false} LeadingPercent(q: string, s: string)
    ensures Like(['%'] + q, s) <==> exists k :: 0 <= k <= |s| && Like(q, s[k..])
    decreases |s|
  {
    var p := ['%'] + q;
    assert p[1..] == q;
    assert s[0..] == s;
    if s != [] {
      LeadingPercent(q, s[1..]);
      if Like(p, s) && !Like(q, s) {
        var k :| 0 <= k <= |s| - 1 && Like(q, s[1..][k..]);
        assert s[1..][k..] == s[k + 1..];
      }
      if exists k :: 0 <= k <= |s| && Like(q, s[k..]) {
        var k :| 0 <= k <= |s| && Like(q, s[k..]);
        if k > 0 {
          assert s[1..][k - 1..] == s[k..];
        }
      }
    }
  }

  /** One escaped character at the head of a pattern matches exactly that character. */
  lemma LikeEscapedChar(c: char, r: string, s: string)
    ensures Like((if IsLikeSpecial(c) then ['\\', c] else [c]) + r, s) <==> s != [] && s[0] == c && Like(r, s[1..])
  {
    var p := (if IsLikeSpecial(c) then ['\\', c] else [c]) + r;
    if IsLikeSpecial(c) {
      assert p[0] == '\\' && p[1] == c && p[2..] == r;
    } else {
      assert p[0] == c && p[1..] == r;
    }
  }

  /** A prefix of `s` equals a non-empty `t` exactly when the heads agree and
   *  the prefix of the tail equals the tail of `t`. */
  lemma PrefixByHead(t: string, s: string)
    requires 0 < |t| <= |s|
    ensures s[..|t|] == t <==> s[0] == t[0] && s[1..][..|t| - 1] == t[1..]
    ensures s[1..][|t| - 1..] == s[|t|..]
  {
    if s[0] == t[0] && s[1..][..|t| - 1] == t[1..] {
      assert forall i :: 0 <= i < |t| ==> s[..|t|][i] == t[i] by {
        forall i | 0 <= i < |t| ensures s[..|t|][i] == t[i] {
          if i > 0 {
            assert s[..|t|][i] == s[1..][..|t| - 1][i - 1];
          }
        }
      }
    }
  }

  /** A literally escaped term matches exactly itself, then hands over to the rest of the pattern. */
  lemma {:induction false} EscapedPrefix(t: string, q: string, s: string)
    ensures Like(EscapeLiteral(t) + q, s) <==> |t| <= |s| && s[..|t|] == t && Like(q, s[|t|..])
  {
    if t == [] {
      assert EscapeLiteral(t) + q == q;
      assert s[..0] == t && s[0..] == s;
    } else {
      var c := t[0];
      var rest := EscapeLiteral(t[1..]) + q;
      assert EscapeLiteral(t) + q == (if IsLikeSpecial(c) then ['\\', c] else [c]) + rest;
      LikeEscapedChar(c, rest, s);
      if s != [] {
        EscapedPrefix(t[1..], q, s[1..]);
        if |t| <= |s| {
          PrefixByHead(t, s);
        } else {
          assert !Like(rest, s[1..]);
        }
      } else {
        assert !Like(EscapeLiteral(t) + q, s);
      }
    }
  }

  /** The first `n` characters of the suffix of `s` from `k` are the slice from `k` to `k + n`. */
  lemma SuffixPrefix(s: string, k: nat, n: nat)
    requires k + n <= |s|
    ensures s[k..][..n] == s[k..k + n]
  {
  }

  /** The corrected pattern %<escaped term>% matches exactly the strings containing the term. */
  lemma {:induction false} LiteralPatternFindsSubstrings(t: string, s: string)
    ensures Like("%" + EscapeLiteral(t) + "%", s) <==> IsSubstring(t, s)
  {
    var e := EscapeLiteral(t);
    assert "%" + e + "%" == ['%'] + (e + ['%']);
    LeadingPercent(e + ['%'], s);
    if Like("%" + e + "%", s) {
      var k :| 0 <= k <= |s| && Like(e + ['%'], s[k..]);
      EscapedPrefix(t, ['%'], s[k..]);
      SuffixPrefix(s, k, |t|);
      assert OccursAt(t, s, k);
    }
    if IsSubstring(t, s) {
      var k: nat :| OccursAt(t, s, k);
      EscapedPrefix(t, ['%'], s[k..]);
      SuffixPrefix(s, k, |t|);
      PercentMatchesAll(s[k..][|t|..]);
    }
  }

  // ------------------------------------------------------- search pattern

  /** The pattern getAuthorByAuthorUsername binds, as written: an empty term
   *  ("" or "0") is a PDOException; otherwise the escaped term between two %.
   *  The pattern is two longer than the term plus its wildcards, and removing
   *  the outer % and the escapes gives back the term. */
  function UsernamePattern(lib: Library, term: string): (r: Result<string>)
    ensures r.Err? <==> IsEmpty(TrimAndSanitize(lib, term))
    ensures r.Err? ==> r.error == PDOException
    ensures r.Ok? ==> var v := TrimAndSanitize(lib, term);
      && |r.value| == |v| + CountWildcards(v) + 2
      && r.value[0] == '%' && r.value[|r.value| - 1] == '%'
      && UnescapeWildcards(r.value[1..|r.value| - 1]) == v
  {
    var v := TrimAndSanitize(lib, term);
    if IsEmpty(v) then Err(PDOException)
    else
      var e := EscapeWildcards(v);
      EscapeWildcardsIsByChar(v);
      EscapedShape(v);
      UnescapeEscape(v);
      assert ("%" + e + "%")[1..|e| + 1] == e;
      Ok("%" + e + "%")
  }

  /** For a term without backslashes the pattern as written matches exactly the
   *  usernames that contain the term, wildcards included, taken literally. */
  lemma UsernamePatternFindsSubstrings(lib: Library, term: string, username: string)
    requires UsernamePattern(lib, term).Ok?
    requires '\\' !in TrimAndSanitize(lib, term)
    ensures Like(UsernamePattern(lib, term).value, username) <==> IsSubstring(TrimAndSanitize(lib, term), username)
  {
    var v := TrimAndSanitize(lib, term);
    EscapeWildcardsIsByChar(v);
    EscapeAgreesWithoutBackslash(v);
    LiteralPatternFindsSubstrings(v, username);
  }

  /** A one-character string occurs in `s` exactly when the character does. */
  lemma SingleCharSubstring(c: char, s: string)
    ensures IsSubstring([c], s) <==> c in s
  {
    if c in s {
      var k :| 0 <= k < |s| && s[k] == c;
      assert OccursAt([c], s, k) by {
        assert s[k..k + 1] == [c];
      }
    }
    if IsSubstring([c], s) {
      var k: nat :| OccursAt([c], s, k);
      assert s[k] == s[k..k + 1][0] == c;
    }
  }

  /** Searching for "%" finds the usernames containing a percent sign, not every username. */
  lemma PercentSearchedLiterally(lib: Library, username: string)
    requires lib.sanitizeString("%") == "%"
    ensures UsernamePattern(lib, "%").Ok?
    ensures Like(UsernamePattern(lib, "%").value, username) <==> '%' in username
  {
    PercentTermNormal(lib);
    UsernamePatternFindsSubstrings(lib, "%", username);
    SingleCharSubstring('%', username);
  }

  /** The term "%" is left alone by the normalisation and has no backslash. */
  lemma PercentTermNormal(lib: Library)
    requires lib.sanitizeString("%") == "%"
    ensures TrimAndSanitize(lib, "%") == "%" && !IsEmpty("%") && '\\' !in "%"
  {
    TrimOneChar('%');
  }

  /** The demo search term is left alone by the normalisation and has no backslash. */
  lemma DemoTermNormal(lib: Library)
    requires lib.sanitizeString("Joe") == "Joe"
    ensures TrimAndSanitize(lib, "Joe") == "Joe" && !IsEmpty("Joe") && '\\' !in "Joe"
  {
    TrimOfTrimmed("Joe");
  }

  lemma DemoTermOccurs()
    ensures IsSubstring("Joe", "Joe Exotic")
  {
    assert OccursAt("Joe", "Joe Exotic", 0);
  }

  /** Searching for "Joe" finds "Joe Exotic". */
  lemma JoeFindsJoeExotic(lib: Library)
    requires lib.sanitizeString("Joe") == "Joe"
    ensures UsernamePattern(lib, "Joe").Ok?
    ensures Like(UsernamePattern(lib, "Joe").value, "Joe Exotic")
  {
    DemoTermNormal(lib);
    DemoTermOccurs();
    UsernamePatternFindsSubstrings(lib, "Joe", "Joe Exotic");
  }

  // --------------------------------------------------------------- finding

  /** As written, a backslash in the term is not escaped and swallows the
   *  escape of the wildcard after it: searching for `\%` yields the pattern
   *  `%\\%%`, which matches the username `\` although `\%` does not occur in it. */
  lemma BackslashDefeatsEscaping(lib: Library)
    requires lib.sanitizeString("\\%") == "\\%"
    ensures UsernamePattern(lib, "\\%") == Ok("%\\\\%%")
    ensures Like("%\\\\%%", "\\")
    ensures !IsSubstring(TrimAndSanitize(lib, "\\%"), "\\")
  {
    assert TrimAndSanitize(lib, "\\%") == "\\%" by {
      TrimOfTrimmed("\\%");
    }
    BackslashPercentPattern(lib);
    BackslashMatched();
  }

  /** A non-empty normalised term is bound as %, the term escaped character by character, %. */
  lemma PatternIsEscapedTerm(lib: Library, term: string)
    requires !IsEmpty(TrimAndSanitize(lib, term))
    ensures UsernamePattern(lib, term) == Ok("%" + EscapeWildcardsByChar(TrimAndSanitize(lib, term)) + "%")
  {
    EscapeWildcardsIsByChar(TrimAndSanitize(lib, term));
  }

  /** The escaping as written turns `\%` into `\\%`: only the % gets a backslash. */
  lemma BackslashPercentEscaped()
    ensures EscapeWildcardsByChar("\\%") == "\\\\%"
  {
    assert "\\%"[1..] == "%" && "%"[1..] == [];
  }

  /** The escaping as written turns `\%` into `\\%`, so the pattern is `%\\%%`. */
  lemma BackslashPercentPattern(lib: Library)
    requires TrimAndSanitize(lib, "\\%") == "\\%"
    ensures UsernamePattern(lib, "\\%") == Ok("%\\\\%%")
  {
    PatternIsEscapedTerm(lib, "\\%");
    BackslashPatternText();
  }

  /** The bound text for the term `\%`: `%`, the escaped term `\\%`, `%`. */
  lemma BackslashPatternText()
    ensures "%" + EscapeWildcardsByChar("\\%") + "%" == "%\\\\%%"
  {
    BackslashPercentEscaped();
  }

  /** `%\\%%` matches a lone backslash: the first % matches nothing, `\\` the
   *  backslash, and the two last % nothing. */
  lemma BackslashMatched()
    ensures Like("%\\\\%%", "\\")
  {
  }

  /** The corrected pattern: backslashes escaped as well. */
  function LiteralUsernamePattern(lib: Library, term: string): (r: Result<string>)
    ensures r.Err? <==> IsEmpty(TrimAndSanitize(lib, term))
    ensures r.Err? ==> r.error == PDOException
  {
    var v := TrimAndSanitize(lib, term);
    if IsEmpty(v) then Err(PDOException) else Ok("%" + EscapeLiteral(v) + "%")
  }

  /** The corrected pattern matches exactly the usernames that contain the term, whatever it holds. */
  lemma LiteralUsernamePatternFindsSubstrings(lib: Library, term: string, username: string)
    requires LiteralUsernamePattern(lib, term).Ok?
    ensures Like(LiteralUsernamePattern(lib, term).value, username)
        <==> IsSubstring(TrimAndSanitize(lib, term), username)
  {
    LiteralPatternFindsSubstrings(TrimAndSanitize(lib, term), username);
  }
}
