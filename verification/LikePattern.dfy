/** Escaping of user text inside a SQL LIKE pattern (src/routes/search.rs). */
module LikePattern {
  import opened Text

  /** The three successive replacements, backslash first. */
  function EscapeLike(q: string): string {
    ReplaceChar(ReplaceChar(ReplaceChar(q, '\\', "\\\\"), '%', "\\%"), '_', "\\_")
  }

  function ContainsPattern(q: string): string {
    "%" + EscapeLike(q) + "%"
  }

  /** LIKE with `ESCAPE '\'`: the whole of `s` must be consumed; a pattern that
      ends in a bare escape matches nothing. */
  ghost predicate Matches(pattern: string, s: string)
    decreases |pattern|
  {
    if pattern == "" then s == ""
    else if pattern[0] == '\\' then
      |pattern| >= 2 && s != "" && s[0] == pattern[1] && Matches(pattern[2..], s[1..])
    else if pattern[0] == '%' then
      exists k: nat | k <= |s| :: Matches(pattern[1..], s[k..])
    else if pattern[0] == '_' then
      s != "" && Matches(pattern[1..], s[1..])
    else
      s != "" && s[0] == pattern[0] && Matches(pattern[1..], s[1..])
  }

  ghost predicate OccursAt(q: string, s: string, i: nat) {
    i + |q| <= |s| && s[i..i + |q|] == q
  }

  /** Escaping as one independent decision per character. */
  function EscapeChar(c: char): string {
    if c == '\\' || c == '%' || c == '_' then ['\\', c] else [c]
  }

  function EscapeEach(q: string): string {
    if q == "" then "" else EscapeChar(q[0]) + EscapeEach(q[1..])
  }

  /** Replacing backslash first keeps the later replacements from escaping the
      escapes: three whole-string passes act as one per-character map. */
  lemma {:induction false} EscapeLikeIsPerCharacter(q: string)
    ensures EscapeLike(q) == EscapeEach(q)
  {
    if q != "" {
      var head, rest := [q[0]], q[1..];
      assert q == head + rest;
      var h1 := ReplaceChar(head, '\\', "\\\\");
      ReplaceCharAppend(head, rest, '\\', "\\\\");
      ReplaceCharAppend(h1, ReplaceChar(rest, '\\', "\\\\"), '%', "\\%");
      ReplaceCharAppend(ReplaceChar(h1, '%', "\\%"), ReplaceChar(ReplaceChar(rest, '\\', "\\\\"), '%', "\\%"), '_', "\\_");
      EscapeLikeIsPerCharacter(rest);
      EscapeLikeOfChar(q[0]);
      assert EscapeLike(q) == EscapeLike(head) + EscapeLike(rest);
    }
  }

  lemma ReplaceCharOfPair(a: char, b: char, c: char, replacement: string)
    ensures ReplaceChar([a], c, replacement) == if a == c then replacement else [a]
    ensures ReplaceChar([a, b], c, replacement) ==
            (if a == c then replacement else [a]) + (if b == c then replacement else [b])
  {
    assert [a][1..] == "" && [b][1..] == "" && [a, b][1..] == [b];
    assert ReplaceChar([b], c, replacement) == if b == c then replacement else [b];
  }

  lemma EscapeLikeOfChar(c: char)
    ensures EscapeLike([c]) == EscapeChar(c)
  {
    ReplaceCharOfPair(c, c, '\\', "\\\\");
    ReplaceCharOfPair(c, c, '%', "\\%");
    ReplaceCharOfPair(c, c, '_', "\\_");
    ReplaceCharOfPair('\\', '\\', '%', "\\%");
    ReplaceCharOfPair('\\', '\\', '_', "\\_");
    ReplaceCharOfPair('\\', '%', '_', "\\_");
  }

  /** An escaped literal consumes exactly itself. */
  lemma {:induction false} EscapedLiteralMatches(q: string, rest: string, s: string)
    ensures Matches(EscapeEach(q) + rest, s) <==> |q| <= |s| && s[..|q|] == q && Matches(rest, s[|q|..])
  {
    if q == "" {
      assert EscapeEach(q) + rest == rest && s[|q|..] == s;
    } else {
      var tail := EscapeEach(q[1..]) + rest;
      assert EscapeEach(q) + rest == EscapeChar(q[0]) + tail;
      var p := EscapeEach(q) + rest;
      assert p[|EscapeChar(q[0])|..] == tail;
      assert Matches(p, s) <==> s != "" && s[0] == q[0] && Matches(tail, s[1..]);
      if s != "" && s[0] == q[0] {
        EscapedLiteralMatches(q[1..], rest, s[1..]);
        if |q| <= |s| {
          assert s[1..][|q| - 1..] == s[|q|..];
          assert s[1..][..|q| - 1] == s[1..|q|];
          assert s[..|q|] == [s[0]] + s[1..|q|];
          assert q == [q[0]] + q[1..];
        }
      } else if |q| <= |s| {
        assert s[..|q|][0] == s[0];
      }
    }
  }

  /** The pattern built from `q` matches `s` exactly when `q` occurs in `s`. */
  lemma ContainsEscapedMatchesLiterally(q: string, s: string)
    ensures Matches(ContainsPattern(q), s) <==> exists i: nat :: OccursAt(q, s, i)
  {
    EscapeLikeIsPerCharacter(q);
    var p := ContainsPattern(q);
    assert p[1..] == EscapeEach(q) + "%";
    forall k: nat | k <= |s|
      ensures Matches(p[1..], s[k..]) <==> OccursAt(q, s, k)
    {
      EscapedLiteralMatches(q, "%", s[k..]);
      AnyTailMatches(s[k..][if |q| <= |s| - k then |q| else 0..]);
      if k + |q| <= |s| {
        assert s[k..][..|q|] == s[k..k + |q|];
      }
    }
    assert Matches(p, s) <==> exists k: nat | k <= |s| :: Matches(p[1..], s[k..]);
    if i: nat :| OccursAt(q, s, i) {
      assert i <= |s| && Matches(p[1..], s[i..]);
    }
  }

  lemma AnyTailMatches(s: string)
    ensures Matches("%", s)
  {
    assert "%"[1..] == "" && s[|s|..] == "" && Matches("%"[1..], s[|s|..]);
  }
}
