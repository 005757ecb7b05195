/** JSON values and the two scalar spellings that every text projection shares:
    string literals and number lexemes (src/routes/graph.rs). A reader for each
    is the independent reference. */
module JsonText {
  import opened Prelude
  import opened Text

  datatype Value =
    | Null
    | Bool(flag: bool)
    | Number(lexeme: string)
    | Str(text: string)
    | Array(items: seq<Value>)
    | Object(members: seq<Member>)

  datatype Member = Member(key: string, value: Value)

  predicate DistinctKeys(members: seq<Member>) {
    forall i, j :: 0 <= i < j < |members| ==> members[i].key != members[j].key
  }

  /** What a JSON document can hold: number lexemes of the JSON grammar, and
      objects whose keys are pairwise distinct. */
  predicate WellFormed(v: Value) {
    match v
    case Null | Bool(_) | Str(_) => true
    case Number(lexeme) => IsNumber(lexeme)
    case Array(items) => forall i :: 0 <= i < |items| ==> WellFormed(items[i])
    case Object(members) => DistinctKeys(members) && forall i :: 0 <= i < |members| ==> WellFormed(members[i].value)
  }

  lemma FirstIsWellFormed(items: seq<Value>)
    requires items != [] && WellFormed(Array(items))
    ensures WellFormed(items[0]) && WellFormed(Array(items[1..]))
  {
  }

  lemma FirstMemberIsWellFormed(members: seq<Member>)
    requires members != [] && WellFormed(Object(members))
    ensures WellFormed(members[0].value) && WellFormed(Object(members[1..]))
    ensures forall i :: 1 <= i < |members| ==> members[i].key != members[0].key
  {
  }

  predicate HasNull(v: Value) {
    match v
    case Null => true
    case Bool(_) | Number(_) | Str(_) => false
    case Array(items) => exists i :: 0 <= i < |items| && HasNull(items[i])
    case Object(members) => exists i :: 0 <= i < |members| && HasNull(members[i].value)
  }

  /** The same document with every null spelled as the empty string. */
  function NullAsEmpty(v: Value): Value {
    match v
    case Null => Str("")
    case Bool(_) | Number(_) | Str(_) => v
    case Array(items) => Array(NullAsEmptyItems(items))
    case Object(members) => Object(NullAsEmptyMembers(members))
  }

  function NullAsEmptyItems(items: seq<Value>): (r: seq<Value>)
    ensures |r| == |items| && forall i :: 0 <= i < |items| ==> r[i] == NullAsEmpty(items[i])
  {
    if items == [] then [] else [NullAsEmpty(items[0])] + NullAsEmptyItems(items[1..])
  }

  function NullAsEmptyMembers(members: seq<Member>): (r: seq<Member>)
    ensures |r| == |members|
    ensures forall i :: 0 <= i < |members| ==> r[i] == Member(members[i].key, NullAsEmpty(members[i].value))
  {
    if members == [] then []
    else [Member(members[0].key, NullAsEmpty(members[0].value))] + NullAsEmptyMembers(members[1..])
  }

  /** Only a document without null keeps its meaning under that spelling. */
  lemma {:induction false} NullAsEmptyIsIdentityIff(v: Value)
    ensures NullAsEmpty(v) == v <==> !HasNull(v)
  {
    match v
    case Null =>
    case Bool(_) =>
    case Number(_) =>
    case Str(_) =>
    case Array(items) =>
      forall i | 0 <= i < |items|
        ensures NullAsEmpty(items[i]) == items[i] <==> !HasNull(items[i])
      {
        NullAsEmptyIsIdentityIff(items[i]);
      }
      if !HasNull(v) {
        assert NullAsEmptyItems(items) == items;
      }
    case Object(members) =>
      forall i | 0 <= i < |members|
        ensures NullAsEmpty(members[i].value) == members[i].value <==> !HasNull(members[i].value)
      {
        NullAsEmptyIsIdentityIff(members[i].value);
      }
      if !HasNull(v) {
        assert NullAsEmptyMembers(members) == members;
      } else {
        var i :| 0 <= i < |members| && HasNull(members[i].value);
        assert NullAsEmptyMembers(members)[i] != members[i];
      }
  }

  // ---- String literals ----

  function HexDigit(n: nat): char
    requires n < 16
  {
    if n < 10 then (n + '0' as int) as char else (n - 10 + 'a' as int) as char
  }

  /** `json_string`'s treatment of one character. */
  function EscapeChar(c: char): string {
    if c == '"' then "\\\""
    else if c == '\\' then "\\\\"
    else if c as int == 0x08 then "\\b"
    else if c as int == 0x09 then "\\t"
    else if c as int == 0x0A then "\\n"
    else if c as int == 0x0C then "\\f"
    else if c as int == 0x0D then "\\r"
    else if c as int < 0x20 then ['\\', 'u', '0', '0', HexDigit(c as int / 16), HexDigit(c as int % 16)]
    else [c]
  }

  function Escaped(text: string): string {
    if text == "" then "" else EscapeChar(text[0]) + Escaped(text[1..])
  }

  /** `json_string`. */
  function JsonString(text: string): string {
    "\"" + Escaped(text) + "\""
  }

  function HexValue(c: char): Option<nat> {
    if '0' <= c <= '9' then Some(c as int - '0' as int)
    else if 'a' <= c <= 'f' then Some(c as int - 'a' as int + 10)
    else if 'A' <= c <= 'F' then Some(c as int - 'A' as int + 10)
    else None
  }

  predicate StartsWith(s: string, c: char) {
    s != "" && s[0] == c
  }

  /** Four hex digits naming one character. */
  function ReadHex(s: string): Option<char>
    requires |s| == 4
  {
    var a, b, c, d := HexValue(s[0]), HexValue(s[1]), HexValue(s[2]), HexValue(s[3]);
    if a.None? || b.None? || c.None? || d.None? then None
    else
      var code := ((a.value * 16 + b.value) * 16 + c.value) * 16 + d.value;
      if code < 0xD800 || 0xE000 <= code < 0x1_0000 then Some(code as char) else None
  }

  function SimpleEscape(c: char): Option<char> {
    if c == '"' || c == '\\' || c == '/' then Some(c)
    else if c == 'b' then Some(0x08 as char)
    else if c == 't' then Some(0x09 as char)
    else if c == 'n' then Some(0x0A as char)
    else if c == 'f' then Some(0x0C as char)
    else if c == 'r' then Some(0x0D as char)
    else None
  }

  /** One character of a literal, escaped or verbatim. */
  function ReadChar(s: string): (r: Option<(char, string)>)
    ensures r.Some? ==> |r.value.1| < |s|
  {
    if s == "" || s[0] as int < 0x20 || s[0] == '"' then None
    else if s[0] != '\\' then Some((s[0], s[1..]))
    else if |s| >= 6 && s[1] == 'u' then
      var c := ReadHex(s[2..6]);
      if c.Some? then Some((c.value, s[6..])) else None
    else if |s| >= 2 then
      var c := SimpleEscape(s[1]);
      if c.Some? then Some((c.value, s[2..])) else None
    else None
  }

  function ReadBody(s: string): (r: Option<(string, string)>)
    ensures r.Some? ==> |r.value.1| < |s|
    decreases |s|
  {
    if s == "" then None
    else if s[0] == '"' then Some(("", s[1..]))
    else
      var first := ReadChar(s);
      if first.None? then None
      else
        var rest := ReadBody(first.value.1);
        if rest.None? then None else Some(([first.value.0] + rest.value.0, rest.value.1))
  }

  /** A string literal at the start of `s`, with what follows it. */
  function ReadString(s: string): (r: Option<(string, string)>)
    ensures r.Some? ==> |r.value.1| < |s|
  {
    if s == "" || s[0] != '"' then None else ReadBody(s[1..])
  }

  lemma CharReadsBack(c: char, rest: string)
    ensures EscapeChar(c)[0] != '"'
    ensures ReadChar(EscapeChar(c) + rest) == Some((c, rest))
  {
    var s := EscapeChar(c) + rest;
    if |EscapeChar(c)| == 6 {
      assert s[2..6] == EscapeChar(c)[2..];
      var n := c as int;
      assert HexValue(HexDigit(n / 16)) == Some(n / 16) && HexValue(HexDigit(n % 16)) == Some(n % 16);
      assert HexValue('0') == Some(0);
      assert n / 16 * 16 + n % 16 == n;
      assert s[6..] == rest;
    } else if |EscapeChar(c)| == 2 {
      assert s[2..] == rest;
    } else {
      assert s[1..] == rest;
    }
  }

  lemma {:induction false} BodyReadsBack(text: string, rest: string)
    ensures ReadBody(Escaped(text) + "\"" + rest) == Some((text, rest))
  {
    hide EscapeChar, ReadChar;
    if text == "" {
      assert ("" + "\"" + rest)[1..] == rest;
    } else {
      var tail := Escaped(text[1..]) + "\"" + rest;
      assert Escaped(text) + "\"" + rest == EscapeChar(text[0]) + tail;
      CharReadsBack(text[0], tail);
      BodyReadsBack(text[1..], rest);
      assert [text[0]] + text[1..] == text;
    }
  }

  /** A literal reads back to its text, whatever follows it. */
  lemma StringReadsBack(text: string, rest: string)
    ensures ReadString(JsonString(text) + rest) == Some((text, rest))
  {
    assert (JsonString(text) + rest)[1..] == Escaped(text) + "\"" + rest;
    BodyReadsBack(text, rest);
  }

  /** A character from U+007F up appears in a literal, verbatim, exactly when
      the text holds it. */
  lemma {:induction false} VerbatimIff(text: string, c: char)
    requires c as int >= 0x7F
    ensures c in JsonString(text) <==> c in text
  {
    if text != "" {
      VerbatimIff(text[1..], c);
      assert text == [text[0]] + text[1..];
      assert c in JsonString(text[1..]) <==> c in Escaped(text[1..]);
      assert c in JsonString(text) <==> c in Escaped(text);
      assert c in EscapeChar(text[0]) <==> c == text[0];
    }
  }

  // ---- Number lexemes ----

  predicate IsNumberChar(c: char) {
    IsDigit(c) || c in {'-', '+', '.', 'e', 'E'}
  }

  /** How many of the leading characters satisfy `p`. */
  function Run(s: string, p: char -> bool): (n: nat)
    ensures n <= |s|
    ensures forall i :: 0 <= i < n ==> p(s[i])
    ensures n < |s| ==> !p(s[n])
  {
    if s != "" && p(s[0]) then 1 + Run(s[1..], p) else 0
  }

  predicate IsExponent(s: string) {
    s == ""
    || (s[0] in {'e', 'E'}
        && var t := if |s| > 1 && s[1] in {'+', '-'} then s[2..] else s[1..];
           t != "" && Run(t, IsDigit) == |t|)
  }

  predicate IsFractionAndExponent(s: string) {
    if s != "" && s[0] == '.' then
      var n := Run(s[1..], IsDigit);
      n > 0 && IsExponent(s[1 + n..])
    else IsExponent(s)
  }

  /** The number grammar of section 6 of RFC 8259. */
  predicate IsNumber(s: string) {
    var t := if s != "" && s[0] == '-' then s[1..] else s;
    var n := Run(t, IsDigit);
    && (forall i :: 0 <= i < |s| ==> IsNumberChar(s[i]))
    && n > 0 && (n > 1 ==> t[0] != '0')
    && IsFractionAndExponent(t[n..])
  }

  /** A number at the start of `s`, with what follows it. */
  function ReadNumber(s: string): (r: Option<(string, string)>)
    ensures r.Some? ==> |r.value.1| < |s|
  {
    var n := Run(s, IsNumberChar);
    if IsNumber(s[..n]) then Some((s[..n], s[n..])) else None
  }

  lemma NumberReadsBack(lexeme: string, rest: string)
    requires IsNumber(lexeme)
    requires rest == "" || !IsNumberChar(rest[0])
    ensures ReadNumber(lexeme + rest) == Some((lexeme, rest))
  {
    var s := lexeme + rest;
    assert Run(s, IsNumberChar) == |lexeme|;
    assert s[..|lexeme|] == lexeme && s[|lexeme|..] == rest;
  }

  lemma NumberStarts(lexeme: string)
    requires IsNumber(lexeme)
    ensures lexeme != "" && (IsDigit(lexeme[0]) || (lexeme[0] == '-' && |lexeme| > 1 && IsDigit(lexeme[1])))
  {
  }

  // ---- Scalars ----

  predicate IsScalar(v: Value) {
    v.Null? || v.Bool? || v.Number? || v.Str?
  }

  /** The spelling both text projections give a scalar. */
  function ScalarText(v: Value): string
    requires IsScalar(v)
  {
    match v
    case Str(text) => JsonString(text)
    case Number(lexeme) => lexeme
    case Bool(flag) => if flag then "true" else "false"
    case Null => "\"\""
  }

  function ReadScalar(s: string): (r: Option<(Value, string)>)
    ensures r.Some? ==> |r.value.1| < |s|
  {
    if s == "" then None
    else if s[0] == '"' then
      var text := ReadString(s);
      if text.Some? then Some((Str(text.value.0), text.value.1)) else None
    else if "true" <= s then Some((Bool(true), s[4..]))
    else if "false" <= s then Some((Bool(false), s[5..]))
    else
      var number := ReadNumber(s);
      if number.Some? then Some((Number(number.value.0), number.value.1)) else None
  }

  /** A scalar reads back to itself, null to the empty string. */
  lemma ScalarReadsBack(v: Value, rest: string)
    requires IsScalar(v) && WellFormed(v)
    requires rest == "" || !IsNumberChar(rest[0])
    ensures ReadScalar(ScalarText(v) + rest) == Some((NullAsEmpty(v), rest))
  {
    hide ReadNumber, IsNumber, ReadBody, ReadString, Escaped;
    var s := ScalarText(v) + rest;
    match v
    case Str(text) =>
      StringReadsBack(text, rest);
    case Null =>
      EmptyLiteral();
      StringReadsBack("", rest);
    case Number(lexeme) =>
      NumberStarts(lexeme);
      NumberReadsBack(lexeme, rest);
    case Bool(flag) =>
      assert s[|ScalarText(v)|..] == rest;
  }

  lemma EmptyLiteral()
    ensures JsonString("") == "\"\""
  {
  }

  /** What a scalar's spelling can start with. */
  lemma ScalarStarts(v: Value)
    requires IsScalar(v) && WellFormed(v)
    ensures
      var t := ScalarText(v);
      && t != ""
      && (IsDigit(t[0]) || (t[0] == '-' && |t| > 1 && IsDigit(t[1])) || t[0] in {'"', 't', 'f'})
      && (t[0] == '"' <==> v.Str? || v.Null?)
  {
    if v.Number? {
      NumberStarts(v.lexeme);
    }
  }

  /** The spelling of each character that has one of its own. */
  lemma EscapesAre()
    ensures JsonString("\"\\/") == "\"\\\"\\\\/\""
    ensures JsonString("\t\n\r") == "\"\\t\\n\\r\""
    ensures EscapeChar(8 as char) == "\\b" && EscapeChar(12 as char) == "\\f"
    ensures EscapeChar(0 as char) == "\\u0000" && EscapeChar(0x1F as char) == "\\u001f"
    ensures forall c: char :: c as int >= 0x20 && c != '"' && c != '\\' ==> EscapeChar(c) == [c]
  {
    var text := "\"\\/";
    assert text[1..] == "\\/" && text[1..][1..] == "/" && text[1..][1..][1..] == "";
    assert Escaped("/") == "/" && Escaped("\\/") == "\\\\/";
    var spaces := "\t\n\r";
    assert spaces[1..] == "\n\r" && spaces[1..][1..] == "\r" && spaces[1..][1..][1..] == "";
    assert Escaped("\r") == "\\r" && Escaped("\n\r") == "\\n\\r";
  }
}
