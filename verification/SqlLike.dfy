/**
  Redis glob patterns and SQL LIKE patterns (`LIKE p ESCAPE '\'`), and the translation between them.
*/
module SqlLike {
  /**
    SQL LIKE with escape character '\'. A pattern that ends in a lone escape is an error in PostgreSQL;
    here it matches nothing, and EndsInsideEscape recognises it.
  */
  predicate Like(pattern: string, text: string)
    decreases |pattern| + |text|
  {
    if pattern == [] then text == []
    else if pattern[0] == '\\' then
      |pattern| > 1 && text != [] && text[0] == pattern[1] && Like(pattern[2..], text[1..])
    else if pattern[0] == '%' then
      Like(pattern[1..], text) || (text != [] && Like(pattern, text[1..]))
    else
      text != [] && (pattern[0] == '_' || pattern[0] == text[0]) && Like(pattern[1..], text[1..])
  }

  predicate EndsInsideEscape(pattern: string) {
    if pattern == [] then false
    else if pattern[0] == '\\' then |pattern| == 1 || EndsInsideEscape(pattern[2..])
    else EndsInsideEscape(pattern[1..])
  }

  /** Glob matching with only `*` (any run of characters) and `?` (any one character) special. */
  ghost predicate Glob(pattern: string, text: string)
    decreases |pattern|
  {
    if pattern == [] then text == []
    else if pattern[0] == '*' then
      exists n :: 0 <= n <= |text| && Glob(pattern[1..], text[n..])
    else
      text != [] && (pattern[0] == '?' || pattern[0] == text[0]) && Glob(pattern[1..], text[1..])
  }

  predicate IsLikeSpecial(c: char) { c == '\\' || c == '%' || c == '_' }

  function EscapeChar(c: char): string {
    if IsLikeSpecial(c) then ['\\', c] else [c]
  }

  function EscapeLike(text: string): string {
    if text == [] then [] else EscapeChar(text[0]) + EscapeLike(text[1..])
  }

  function TranslateChar(c: char): string {
    if c == '*' then "%" else if c == '?' then "_" else EscapeChar(c)
  }

  function Translate(pattern: string): string {
    if pattern == [] then [] else TranslateChar(pattern[0]) + Translate(pattern[1..])
  }

  lemma EscapeLikeOne(c: char)
    ensures EscapeLike([c]) == EscapeChar(c)
  {
    var s := [c];
    assert s[1..] == [];
    assert EscapeLike(s) == EscapeChar(s[0]) + EscapeLike(s[1..]);
  }

  lemma {:induction false} TranslateAppend(pattern: string, c: char)
    ensures Translate(pattern + [c]) == Translate(pattern) + TranslateChar(c)
  {
    var p := pattern + [c];
    if pattern == [] {
      assert p[0] == c && p[1..] == [];
      assert Translate(p) == TranslateChar(p[0]) + Translate(p[1..]);
    } else {
      assert p[0] == pattern[0] && p[1..] == pattern[1..] + [c];
      TranslateAppend(pattern[1..], c);
    }
  }

  method RedisPatternToSqlLike(pattern: string) returns (sqlPattern: string)
    ensures sqlPattern == Translate(pattern)
  {
    hide Translate, EscapeLike, EscapeChar;
    sqlPattern := "";
    assert Translate(pattern[..0]) == "" by { TranslateNothing(); assert pattern[..0] == ""; }
    for i := 0 to |pattern|
      invariant sqlPattern == Translate(pattern[..i])
    {
      var c := pattern[i];
      assert pattern[..i + 1] == pattern[..i] + [c];
      TranslateAppend(pattern[..i], c);
      if c == '*' {
        sqlPattern := sqlPattern + "%";
      } else if c == '?' {
        sqlPattern := sqlPattern + "_";
      } else {
        EscapeLikeOne(c);
        sqlPattern := sqlPattern + EscapeLike([c]);
      }
    }
    assert pattern[..|pattern|] == pattern;
  }

  lemma TranslateNothing()
    ensures Translate("") == ""
  {}

  /** An escaped character matches exactly itself. */
  lemma LikeEscapedChar(c: char, rest: string, text: string)
    ensures Like(EscapeChar(c) + rest, text) <==> text != [] && text[0] == c && Like(rest, text[1..])
  {
    var p := EscapeChar(c) + rest;
    if IsLikeSpecial(c) {
      assert p[0] == '\\' && p[1] == c && p[2..] == rest;
    } else {
      assert p[0] == c && p[1..] == rest;
    }
  }

  /** `%` skips any number of characters. */
  lemma {:induction false} LikePercent(rest: string, text: string)
    ensures Like("%" + rest, text) <==> exists n :: 0 <= n <= |text| && Like(rest, text[n..])
    decreases |text|
  {
    var p := "%" + rest;
    assert p[0] == '%' && p[1..] == rest;
    assert text[0..] == text;
    if text != [] {
      LikePercent(rest, text[1..]);
      if Like(p, text[1..]) {
        var n :| 0 <= n <= |text[1..]| && Like(rest, text[1..][n..]);
        assert text[1..][n..] == text[n + 1..];
      }
      if n :| 0 < n <= |text| && Like(rest, text[n..]) {
        assert text[1..][n - 1..] == text[n..];
      }
    }
  }

  /** The translated pattern matches in SQL exactly the keys the glob matches. */
  lemma {:induction false} TranslationPreservesMeaning(pattern: string, text: string)
    ensures Like(Translate(pattern), text) <==> Glob(pattern, text)
    decreases |pattern|
  {
    if pattern != [] {
      var rest := Translate(pattern[1..]);
      if pattern[0] == '*' {
        LikePercent(rest, text);
        forall n | 0 <= n <= |text| ensures Like(rest, text[n..]) <==> Glob(pattern[1..], text[n..]) {
          TranslationPreservesMeaning(pattern[1..], text[n..]);
        }
      } else {
        if text != [] { TranslationPreservesMeaning(pattern[1..], text[1..]); }
        if pattern[0] == '?' {
          assert ("_" + rest)[0] == '_' && ("_" + rest)[1..] == rest;
        } else {
          LikeEscapedChar(pattern[0], rest, text);
        }
      }
    }
  }

  /** The translation never produces a pattern PostgreSQL would reject. */
  lemma {:induction false} TranslationIsWellFormed(pattern: string)
    ensures !EndsInsideEscape(Translate(pattern))
  {
    if pattern != [] {
      TranslationIsWellFormed(pattern[1..]);
      var p := TranslateChar(pattern[0]) + Translate(pattern[1..]);
      if p[0] == '\\' {
        assert p[2..] == Translate(pattern[1..]);
      } else {
        assert p[1..] == Translate(pattern[1..]);
      }
    }
  }

  /** The clearPrefix pattern matches in SQL exactly the keys that start with the prefix. */
  lemma {:induction false} PrefixPattern(prefix: string, text: string)
    ensures Like(EscapeLike(prefix) + "%", text) <==> prefix <= text
    decreases |prefix|
  {
    if prefix == [] {
      assert EscapeLike(prefix) + "%" == "%" + [];
      LikePercent([], text);
      assert text[|text|..] == [];
    } else {
      var rest := EscapeLike(prefix[1..]) + "%";
      assert EscapeLike(prefix) + "%" == EscapeChar(prefix[0]) + rest;
      LikeEscapedChar(prefix[0], rest, text);
      if text != [] {
        PrefixPattern(prefix[1..], text[1..]);
        assert prefix <= text <==> prefix[0] == text[0] && prefix[1..] <= text[1..] by {
          assert prefix == [prefix[0]] + prefix[1..] && text == [text[0]] + text[1..];
        }
      }
    }
  }
}
