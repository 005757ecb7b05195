/** Splitting, joining and trimming of strings, with the laws the other
    modules use. */
module Text {
  import opened Prelude

  /** A lower-casing of whole strings, which the path checks take as given. */
  type Fold = string -> string

  /** `str::replace` of one character by a replacement text. */
  function ReplaceChar(s: string, c: char, replacement: string): string {
    if s == "" then "" else (if s[0] == c then replacement else [s[0]]) + ReplaceChar(s[1..], c, replacement)
  }

  lemma {:induction false} ReplaceCharAppend(a: string, b: string, c: char, replacement: string)
    ensures ReplaceChar(a + b, c, replacement) == ReplaceChar(a, c, replacement) + ReplaceChar(b, c, replacement)
  {
    if a == "" {
      assert a + b == b;
    } else {
      assert (a + b)[1..] == a[1..] + b;
      ReplaceCharAppend(a[1..], b, c, replacement);
    }
  }

  /** `str::split(c)`: always at least one piece. */
  function Split(s: string, c: char): (pieces: seq<string>)
    ensures |pieces| >= 1
    ensures forall i :: 0 <= i < |pieces| ==> c !in pieces[i]
  {
    if s == "" then [""]
    else
      var rest := Split(s[1..], c);
      if s[0] == c then [""] + rest else [[s[0]] + rest[0]] + rest[1..]
  }

  function Join(pieces: seq<string>, separator: string): string {
    if pieces == [] then ""
    else if |pieces| == 1 then pieces[0]
    else pieces[0] + separator + Join(pieces[1..], separator)
  }

  lemma {:induction false} SplitOfPiece(s: string, c: char)
    requires c !in s
    ensures Split(s, c) == [s]
  {
    if s != "" {
      SplitOfPiece(s[1..], c);
      assert [s[0]] + s[1..] == s;
    }
  }

  lemma {:induction false} SplitAtSeparator(s: string, rest: string, c: char)
    requires c !in s
    ensures Split(s + [c] + rest, c) == [s] + Split(rest, c)
  {
    var all := s + [c] + rest;
    if s == "" {
      assert all[1..] == rest;
    } else {
      assert all[1..] == s[1..] + [c] + rest;
      SplitAtSeparator(s[1..], rest, c);
      assert [s[0]] + s[1..] == s;
    }
  }

  lemma {:induction false} SplitOfJoined(a: string, b: string, c: char)
    ensures Split(a + [c] + b, c) == Split(a, c) + Split(b, c)
  {
    var all := a + [c] + b;
    if a == "" {
      assert all[1..] == b;
    } else {
      assert all[1..] == a[1..] + [c] + b;
      SplitOfJoined(a[1..], b, c);
    }
  }

  /** Splitting undoes joining. */
  lemma {:induction false} SplitUndoesJoin(pieces: seq<string>, c: char)
    requires pieces != [] && forall i :: 0 <= i < |pieces| ==> c !in pieces[i]
    ensures Split(Join(pieces, [c]), c) == pieces
  {
    hide Split;
    if |pieces| == 1 {
      SplitOfPiece(pieces[0], c);
    } else {
      SplitUndoesJoin(pieces[1..], c);
      SplitAtSeparator(pieces[0], Join(pieces[1..], [c]), c);
    }
  }

  predicate IsDigit(c: char) {
    '0' <= c <= '9'
  }

  /** Unicode White_Space, which the trims remove. */
  predicate IsWhitespace(c: char) {
    var n := c as int;
    || 0x9 <= n <= 0xD || n == 0x20 || n == 0x85 || n == 0xA0 || n == 0x1680
    || 0x2000 <= n <= 0x200A || n == 0x2028 || n == 0x2029 || n == 0x202F || n == 0x205F || n == 0x3000
  }

  function TrimStart(s: string, drop: char -> bool): (r: string)
    ensures r == "" || !drop(r[0])
  {
    if s != "" && drop(s[0]) then TrimStart(s[1..], drop) else s
  }

  function TrimEnd(s: string, drop: char -> bool): (r: string)
    ensures r <= s
    ensures r == "" || !drop(r[|r| - 1])
  {
    if s != "" && drop(s[|s| - 1]) then TrimEnd(s[..|s| - 1], drop) else s
  }

  function Trim(s: string, drop: char -> bool): string {
    TrimEnd(TrimStart(s, drop), drop)
  }

  /** `split_once(c)`. */
  function SplitOnce(s: string, c: char): Option<(string, string)> {
    if s == "" then None
    else if s[0] == c then Some(("", s[1..]))
    else
      var rest := SplitOnce(s[1..], c);
      if rest.None? then None else Some(([s[0]] + rest.value.0, rest.value.1))
  }

  lemma {:induction false} SplitOnceMeans(s: string, c: char)
    ensures SplitOnce(s, c).None? <==> c !in s
    ensures SplitOnce(s, c).Some? ==>
              s == SplitOnce(s, c).value.0 + [c] + SplitOnce(s, c).value.1 && c !in SplitOnce(s, c).value.0
  {
    if s != "" && s[0] != c {
      SplitOnceMeans(s[1..], c);
      if SplitOnce(s[1..], c).Some? {
        assert s == [s[0]] + s[1..];
      }
    } else if s != "" {
      assert s == "" + [c] + s[1..];
    }
  }

  lemma {:induction false} SplitOnceAt(whole: string, rest: string, c: char)
    requires c !in whole
    ensures SplitOnce(whole + [c] + rest, c) == Some((whole, rest))
  {
    if whole == "" {
      assert whole + [c] + rest == [c] + rest && ([c] + rest)[1..] == rest;
    } else {
      assert (whole + [c] + rest)[1..] == whole[1..] + [c] + rest;
      SplitOnceAt(whole[1..], rest, c);
      assert [whole[0]] + whole[1..] == whole;
    }
  }

  // ---- Trimming ----

  lemma {:induction false} TrimStartAppend(s: string, t: string, drop: char -> bool)
    ensures TrimStart(s + t, drop) == if TrimStart(s, drop) == "" then TrimStart(t, drop) else TrimStart(s, drop) + t
  {
    if s == "" {
      assert s + t == t;
    } else {
      assert (s + t)[1..] == s[1..] + t;
      if drop(s[0]) {
        TrimStartAppend(s[1..], t, drop);
      }
    }
  }

  lemma {:induction false} TrimEndAppend(s: string, t: string, drop: char -> bool)
    ensures TrimEnd(s + t, drop) == if TrimEnd(t, drop) == "" then TrimEnd(s, drop) else s + TrimEnd(t, drop)
    decreases |t|
  {
    if t == "" {
      assert s + t == s;
    } else {
      var front := t[..|t| - 1];
      assert (s + t)[..|s + t| - 1] == s + front;
      if drop(t[|t| - 1]) {
        TrimEndAppend(s, front, drop);
      }
    }
  }

  /** The two ends are trimmed independently. */
  lemma {:induction false} TrimsCommute(s: string, drop: char -> bool)
    ensures TrimStart(TrimEnd(s, drop), drop) == TrimEnd(TrimStart(s, drop), drop)
  {
    if s != "" {
      assert s == [s[0]] + s[1..];
      TrimEndAppend([s[0]], s[1..], drop);
      assert [s[0]][..0] == "";
      if drop(s[0]) {
        TrimsCommute(s[1..], drop);
        var rest := TrimEnd(s[1..], drop);
        assert ([s[0]] + rest)[1..] == rest;
      }
    }
  }

  predicate Blank(s: string, drop: char -> bool) {
    forall i :: 0 <= i < |s| ==> drop(s[i])
  }

  lemma {:induction false} BlankVanishes(s: string, drop: char -> bool)
    requires Blank(s, drop)
    ensures TrimStart(s, drop) == "" && TrimEnd(s, drop) == ""
  {
    if s != "" {
      BlankVanishes(s[1..], drop);
      BlankVanishes(s[..|s| - 1], drop);
    }
  }

  /** Trimming takes away what may be trimmed, however often. */
  lemma TrimIgnoresPadding(before: string, s: string, after: string, drop: char -> bool)
    requires Blank(before, drop) && Blank(after, drop)
    ensures Trim(before + s + after, drop) == Trim(s, drop)
  {
    BlankVanishes(before, drop);
    BlankVanishes(after, drop);
    assert before + s + after == before + (s + after);
    TrimStartAppend(before, s + after, drop);
    TrimsCommute(s + after, drop);
    TrimEndAppend(s, after, drop);
    TrimsCommute(s, drop);
  }

  lemma TrimOfTrimmed(s: string, drop: char -> bool)
    ensures Trim(TrimStart(s, drop), drop) == Trim(s, drop) && Trim(TrimEnd(s, drop), drop) == Trim(s, drop)
  {
    TrimsCommute(s, drop);
    TrimsCommute(TrimEnd(s, drop), drop);
    assert TrimEnd(TrimEnd(s, drop), drop) == TrimEnd(s, drop);
    assert TrimStart(TrimStart(s, drop), drop) == TrimStart(s, drop);
  }

  lemma {:induction false} TrimStartKeeps(s: string, drop: char -> bool, c: char)
    ensures c in TrimStart(s, drop) ==> c in s
    ensures c in s && !drop(c) ==> c in TrimStart(s, drop)
  {
    if s != "" && drop(s[0]) {
      TrimStartKeeps(s[1..], drop, c);
      assert s == [s[0]] + s[1..];
    }
  }
}
