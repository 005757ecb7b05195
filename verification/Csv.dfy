/** The CSV projection of a dependency graph
    (src/routes/graph_exports/csv.rs): spreadsheet-safe RFC 4180 records,
    written under a byte limit. */
module Csv {
  import opened Prelude
  import opened Text

  // ---- Lengths in UTF-8 bytes ----

  function Utf8Len(c: char): nat {
    if c as int < 0x80 then 1 else if c as int < 0x800 then 2 else if c as int < 0x1_0000 then 3 else 4
  }

  function ByteLen(s: string): nat {
    if s == "" then 0 else Utf8Len(s[0]) + ByteLen(s[1..])
  }

  lemma {:induction false} ByteLenAppend(a: string, b: string)
    ensures ByteLen(a + b) == ByteLen(a) + ByteLen(b)
  {
    if a == "" {
      assert a + b == b;
    } else {
      assert (a + b)[1..] == a[1..] + b;
      ByteLenAppend(a[1..], b);
    }
  }

  // ---- One field ----

  /** A cell a spreadsheet may take for a formula. */
  predicate SpreadsheetUnsafe(value: string) {
    || (value != "" && value[0] in {'\t', '\r', '\n'})
    || (var trimmed := TrimStart(value, IsWhitespace);
        trimmed != "" && trimmed[0] in {'=', '+', '-', '@'})
  }

  predicate IsSpecial(c: char) {
    c == ',' || c == '"' || c == '\r' || c == '\n'
  }

  predicate NeedsQuotes(value: string) {
    SpreadsheetUnsafe(value) || exists i :: 0 <= i < |value| && IsSpecial(value[i])
  }

  function Doubled(value: string): string {
    if value == "" then ""
    else (if value[0] == '"' then "\"\"" else [value[0]]) + Doubled(value[1..])
  }

  function QuoteCount(value: string): nat {
    if value == "" then 0 else (if value[0] == '"' then 1 else 0) + QuoteCount(value[1..])
  }

  /** The cell as written. */
  function FieldText(value: string): string {
    if !NeedsQuotes(value) then value
    else "\"" + (if SpreadsheetUnsafe(value) then "'" else "") + Doubled(value) + "\""
  }

  /** The length computed before anything is written. */
  function EncodedLen(value: string): nat {
    ByteLen(value) + QuoteCount(value) + (if SpreadsheetUnsafe(value) then 1 else 0)
    + if NeedsQuotes(value) then 2 else 0
  }

  lemma {:induction false} DoubledLen(value: string)
    ensures ByteLen(Doubled(value)) == ByteLen(value) + QuoteCount(value)
  {
    if value != "" {
      DoubledLen(value[1..]);
      assert "\"\""[1..] == "\"" && "\""[1..] == "" && [value[0]][1..] == "";
      assert ByteLen("\"") == 1;
      ByteLenAppend(if value[0] == '"' then "\"\"" else [value[0]], Doubled(value[1..]));
    }
  }

  lemma {:induction false} NoQuotesWithoutSpecials(value: string)
    requires forall i :: 0 <= i < |value| ==> !IsSpecial(value[i])
    ensures QuoteCount(value) == 0
  {
    if value != "" {
      assert !IsSpecial(value[0]);
      NoQuotesWithoutSpecials(value[1..]);
    }
  }

  /** Each field takes exactly the precomputed number of bytes. */
  lemma FieldTakesEncodedLen(value: string)
    ensures ByteLen(FieldText(value)) == EncodedLen(value)
  {
    if NeedsQuotes(value) {
      var mark := if SpreadsheetUnsafe(value) then "'" else "";
      assert "\""[1..] == "" && "'"[1..] == "";
      DoubledLen(value);
      ByteLenAppend("\"", mark);
      ByteLenAppend("\"" + mark, Doubled(value));
      ByteLenAppend("\"" + mark + Doubled(value), "\"");
    } else {
      NoQuotesWithoutSpecials(value);
    }
  }

  // ---- Writing under the limit ----

  predicate Room(text: string, additional: nat, limit: nat) {
    ByteLen(text) + additional <= limit
  }

  method PushBounded(output: TextBuffer, value: string, limit: nat) returns (ok: bool)
    modifies output
    ensures ok <==> Room(old(output.text), ByteLen(value), limit)
    ensures output.text == if ok then old(output.text) + value else old(output.text)
  {
    ok := Room(output.text, ByteLen(value), limit);
    if ok {
      output.PushStr(value);
    }
  }

  method CsvField(output: TextBuffer, value: string, limit: nat) returns (ok: bool)
    modifies output
    ensures ok <==> Room(old(output.text), ByteLen(FieldText(value)), limit)
    ensures output.text == if ok then old(output.text) + FieldText(value) else old(output.text)
  {
    hide ByteLen, NeedsQuotes, SpreadsheetUnsafe, EncodedLen, Doubled;
    FieldTakesEncodedLen(value);
    if !Room(output.text, EncodedLen(value), limit) {
      return false;
    }
    if !NeedsQuotes(value) {
      output.PushStr(value);
      return true;
    }
    output.PushStr("\"");
    if SpreadsheetUnsafe(value) {
      output.PushStr("'");
    }
    PushDoubled(output, value);
    output.PushStr("\"");
    assert output.text == old(output.text) + FieldText(value);
    return true;
  }

  /** Every character, quotes twice. */
  method PushDoubled(output: TextBuffer, value: string)
    modifies output
    ensures output.text == old(output.text) + Doubled(value)
  {
    ghost var head := output.text;
    var i := 0;
    while i < |value|
      invariant 0 <= i <= |value|
      invariant output.text + Doubled(value[i..]) == head + Doubled(value)
    {
      assert value[i..][1..] == value[i + 1..];
      if value[i] == '"' {
        output.PushStr("\"\"");
      } else {
        output.PushStr([value[i]]);
      }
      i := i + 1;
    }
  }

  function FieldsText(fields: seq<string>): string {
    if fields == [] then "\r\n"
    else "," + FieldText(fields[0]) + FieldsText(fields[1..])
  }

  /** A record of at least one field. */
  function RecordText(fields: seq<string>): string
    requires fields != []
  {
    FieldText(fields[0]) + FieldsText(fields[1..])
  }

  /** A record is written whole exactly when it fits; a refused one may leave
      part of itself behind, but never passes the limit. */
  method CsvRecord(output: TextBuffer, fields: seq<string>, limit: nat) returns (ok: bool)
    requires fields != []
    modifies output
    ensures ok <==> Room(old(output.text), ByteLen(RecordText(fields)), limit)
    ensures ok ==> output.text == old(output.text) + RecordText(fields)
    ensures old(output.text) <= output.text
    ensures ByteLen(old(output.text)) <= limit ==> ByteLen(output.text) <= limit
  {
    hide ByteLen, FieldText;
    ghost var start := output.text;
    ghost var target := start + RecordText(fields);
    ByteLenAppend(start, RecordText(fields));
    var i := 0;
    while i < |fields|
      invariant 0 <= i <= |fields|
      invariant start <= output.text
      invariant if i == 0 then output.text == start else output.text + FieldsText(fields[i..]) == target
      invariant ByteLen(start) <= limit ==> ByteLen(output.text) <= limit
    {
      assert fields[i..][1..] == fields[i + 1..];
      if i > 0 {
        TargetHolds(output.text, ",", FieldText(fields[i]) + FieldsText(fields[i + 1..]), target);
        ok := PushBounded(output, ",", limit);
        if !ok {
          return false;
        }
      }
      TargetHolds(output.text, FieldText(fields[i]), FieldsText(fields[i + 1..]), target);
      ok := CsvField(output, fields[i], limit);
      if !ok {
        return false;
      }
      i := i + 1;
    }
    TargetHolds(output.text, "\r\n", "", target);
    ok := PushBounded(output, "\r\n", limit);
  }

  /** A piece still to be written counts towards the length of the whole. */
  lemma TargetHolds(text: string, piece: string, rest: string, target: string)
    requires text + (piece + rest) == target
    ensures text + piece + rest == target
    ensures ByteLen(text + piece) == ByteLen(text) + ByteLen(piece) <= ByteLen(target)
  {
    assert text + piece + rest == target;
    ByteLenAppend(text, piece);
    ByteLenAppend(text + piece, rest);
  }

  function FileText(records: seq<seq<string>>): string
    requires forall i :: 0 <= i < |records| ==> records[i] != []
  {
    if records == [] then "" else RecordText(records[0]) + FileText(records[1..])
  }

  // ---- A reader for section 2 of RFC 4180 ----

  /** TEXTDATA up to the next delimiter. */
  function ReadPlain(s: string): (string, string) {
    if s == "" || IsSpecial(s[0]) then ("", s)
    else
      var rest := ReadPlain(s[1..]);
      ([s[0]] + rest.0, rest.1)
  }

  /** The inside of a quoted field, up to its closing quote. */
  function ReadQuoted(s: string): Option<(string, string)> {
    if s == "" then None
    else if s[0] != '"' then
      var rest := ReadQuoted(s[1..]);
      if rest.None? then None else Some(([s[0]] + rest.value.0, rest.value.1))
    else if |s| >= 2 && s[1] == '"' then
      var rest := ReadQuoted(s[2..]);
      if rest.None? then None else Some((['"'] + rest.value.0, rest.value.1))
    else Some(("", s[1..]))
  }

  function ReadField(s: string): (r: Option<(string, string)>)
    ensures r.Some? ==> |r.value.1| <= |s|
  {
    if s != "" && s[0] == '"' then
      var quoted := ReadQuoted(s[1..]);
      if quoted.Some? && |quoted.value.1| <= |s| then quoted else None
    else
      var plain := ReadPlain(s);
      if |plain.1| <= |s| then Some(plain) else None
  }

  function ReadRecord(s: string): (r: Option<(seq<string>, string)>)
    ensures r.Some? ==> |r.value.1| < |s|
    decreases |s|
  {
    var field := ReadField(s);
    if field.None? then None
    else
      var (value, rest) := field.value;
      if |rest| >= 2 && rest[0] == '\r' && rest[1] == '\n' then Some(([value], rest[2..]))
      else if rest != "" && rest[0] == ',' then
        var more := ReadRecord(rest[1..]);
        if more.None? then None else Some(([value] + more.value.0, more.value.1))
      else None
  }

  function ReadFile(s: string): Option<seq<seq<string>>>
    decreases |s|
  {
    if s == "" then Some([])
    else
      var record := ReadRecord(s);
      if record.None? then None
      else
        var more := ReadFile(record.value.1);
        if more.None? then None else Some([record.value.0] + more.value)
  }

  // ---- Reading back ----

  /** What a reader recovers: the field, marked when it was unsafe. */
  function Neutral(value: string): string {
    if SpreadsheetUnsafe(value) then "'" + value else value
  }

  function NeutralFields(fields: seq<string>): seq<string> {
    if fields == [] then [] else [Neutral(fields[0])] + NeutralFields(fields[1..])
  }

  function NeutralRecords(records: seq<seq<string>>): seq<seq<string>> {
    if records == [] then [] else [NeutralFields(records[0])] + NeutralRecords(records[1..])
  }

  lemma {:induction false} PlainReadsBack(value: string, rest: string)
    requires forall i :: 0 <= i < |value| ==> !IsSpecial(value[i])
    requires rest != "" && IsSpecial(rest[0])
    ensures ReadPlain(value + rest) == (value, rest)
  {
    if value == "" {
      assert value + rest == rest;
    } else {
      assert (value + rest)[1..] == value[1..] + rest;
      PlainReadsBack(value[1..], rest);
      assert [value[0]] + value[1..] == value && !IsSpecial(value[0]);
    }
  }

  lemma {:induction false} QuotedReadsBack(value: string, rest: string)
    requires rest == "" || rest[0] != '"'
    ensures ReadQuoted(Doubled(value) + "\"" + rest) == Some((value, rest))
  {
    var s := Doubled(value) + "\"" + rest;
    if value == "" {
      assert s == "\"" + rest && s[1..] == rest;
    } else {
      var tail := Doubled(value[1..]) + "\"" + rest;
      QuotedReadsBack(value[1..], rest);
      assert [value[0]] + value[1..] == value;
      if value[0] == '"' {
        assert s == "\"\"" + tail && s[2..] == tail;
      } else {
        assert s == [value[0]] + tail && s[1..] == tail;
      }
    }
  }

  /** A quoted cell whose inside is `content`. */
  lemma CellReadsBack(content: string, inside: string, rest: string)
    requires ReadQuoted(inside + "\"" + rest) == Some((content, rest))
    ensures ReadField("\"" + inside + "\"" + rest) == Some((content, rest))
  {
    var s := "\"" + inside + "\"" + rest;
    assert s[1..] == inside + "\"" + rest;
  }

  /** The inside of a quoted field, past a character that is no quote. */
  lemma QuotedStep(c: char, tail: string)
    requires c != '"'
    ensures
      var rest := ReadQuoted(tail);
      ReadQuoted([c] + tail) == if rest.Some? then Some(([c] + rest.value.0, rest.value.1)) else None
  {
    var s := [c] + tail;
    assert s[0] == c && s[1..] == tail;
  }

  lemma MarkedReadsBack(value: string, rest: string)
    requires rest == "" || rest[0] != '"'
    ensures ReadQuoted("'" + Doubled(value) + "\"" + rest) == Some(("'" + value, rest))
  {
    hide Doubled, ReadQuoted;
    var tail := Doubled(value) + "\"" + rest;
    QuotedReadsBack(value, rest);
    QuotedStep('\'', tail);
    assert "'" + Doubled(value) + "\"" + rest == ['\''] + tail;
  }

  lemma FieldReadsBack(value: string, rest: string)
    requires rest != "" && (rest[0] == ',' || rest[0] == '\r')
    ensures ReadField(FieldText(value) + rest) == Some((Neutral(value), rest))
  {
    hide SpreadsheetUnsafe, ReadQuoted, ReadPlain, ReadField, Doubled;
    if SpreadsheetUnsafe(value) {
      MarkedReadsBack(value, rest);
      CellReadsBack("'" + value, "'" + Doubled(value), rest);
      assert FieldText(value) + rest == "\"" + ("'" + Doubled(value)) + "\"" + rest;
    } else if NeedsQuotes(value) {
      QuotedReadsBack(value, rest);
      CellReadsBack(value, Doubled(value), rest);
      assert FieldText(value) + rest == "\"" + Doubled(value) + "\"" + rest;
    } else {
      PlainFieldReadsBack(value, rest);
    }
  }

  lemma PlainFieldReadsBack(value: string, rest: string)
    requires forall i :: 0 <= i < |value| ==> !IsSpecial(value[i])
    requires rest != "" && (rest[0] == ',' || rest[0] == '\r')
    ensures ReadField(value + rest) == Some((value, rest))
  {
    PlainReadsBack(value, rest);
    assert value != "" ==> !IsSpecial(value[0]);
  }

  lemma {:induction false} RecordReadsBack(fields: seq<string>, rest: string)
    requires fields != []
    ensures ReadRecord(RecordText(fields) + rest) == Some((NeutralFields(fields), rest))
    decreases |fields|
  {
    hide FieldText, Neutral, ReadField;
    var tail := FieldsText(fields[1..]) + rest;
    assert RecordText(fields) + rest == FieldText(fields[0]) + tail;
    FieldReadsBack(fields[0], tail);
    if |fields| == 1 {
      assert tail == "\r\n" + rest && tail[2..] == rest;
      assert NeutralFields(fields[1..]) == [];
      assert NeutralFields(fields) == [Neutral(fields[0])];
    } else {
      assert tail == "," + (RecordText(fields[1..]) + rest);
      assert tail[1..] == RecordText(fields[1..]) + rest;
      RecordReadsBack(fields[1..], rest);
    }
  }

  /** Reading back any sequence of records recovers every field, with an
      apostrophe prepended to exactly the spreadsheet-unsafe ones. */
  lemma {:induction false} FileReadsBack(records: seq<seq<string>>)
    requires forall i :: 0 <= i < |records| ==> records[i] != []
    ensures ReadFile(FileText(records)) == Some(NeutralRecords(records))
    decreases |records|
  {
    if records != [] {
      RecordReadsBack(records[0], FileText(records[1..]));
      FileReadsBack(records[1..]);
      assert FieldsText(records[0][1..]) != "";
      assert FileText(records) != "";
    }
  }

  /** Which different fields read back alike: an unsafe one, and the one that
      already carries the mark. */
  lemma NeutralCollidesIff(a: string, b: string)
    ensures Neutral(a) == Neutral(b)
            <==> a == b || (SpreadsheetUnsafe(a) && b == "'" + a) || (SpreadsheetUnsafe(b) && a == "'" + b)
  {
    hide SpreadsheetUnsafe;
    MarkedIsSafe(a);
    MarkedIsSafe(b);
    assert ("'" + a)[1..] == a && ("'" + b)[1..] == b;
  }

  lemma MarkedIsSafe(value: string)
    ensures !SpreadsheetUnsafe("'" + value)
  {
    assert ("'" + value)[0] == '\'' && !IsWhitespace('\'');
    assert TrimStart("'" + value, IsWhitespace) == "'" + value;
  }

  /** No cell of what a spreadsheet reads back begins like a formula. */
  lemma NeutralIsSafe(value: string)
    ensures !SpreadsheetUnsafe(Neutral(value))
  {
    MarkedIsSafe(value);
  }

  // ---- Which cells are changed ----

  lemma {:induction false} FirstKept(s: string, drop: char -> bool)
    ensures TrimStart(s, drop) == "" <==> forall i :: 0 <= i < |s| ==> drop(s[i])
    ensures forall i :: 0 <= i < |s| && !drop(s[i]) && (forall j :: 0 <= j < i ==> drop(s[j])) ==> s[i..] == TrimStart(s, drop)
  {
    if s != "" && drop(s[0]) {
      FirstKept(s[1..], drop);
      assert forall i :: 1 <= i < |s| ==> s[i] == s[1..][i - 1] && s[i..] == s[1..][i - 1..];
    } else if s != "" {
      assert s[0..] == s;
    }
  }

  predicate IsFormulaStart(c: char) {
    c == '=' || c == '+' || c == '-' || c == '@'
  }

  /** A cell is marked exactly if it begins with a tab or a line break, or if the
      first character that is not white space starts a formula. */
  lemma UnsafeMeans(value: string)
    ensures SpreadsheetUnsafe(value)
            <==> (value != "" && value[0] in {'\t', '\r', '\n'})
                 || exists i :: 0 <= i < |value| && IsFormulaStart(value[i]) && forall j :: 0 <= j < i ==> IsWhitespace(value[j])
  {
    hide IsWhitespace;
    var trimmed := TrimStart(value, IsWhitespace);
    FirstKept(value, IsWhitespace);
    FormulaStartsAreKept();
    if trimmed != "" {
      var i := FirstNot(value, IsWhitespace);
      assert value[i..] == trimmed && trimmed[0] == value[i];
      assert IsFormulaStart(trimmed[0]) <==> trimmed[0] in {'=', '+', '-', '@'};
    }
  }

  lemma FormulaStartsAreKept()
    ensures forall c :: IsFormulaStart(c) ==> !IsWhitespace(c)
  {
  }

  lemma {:induction false} FirstNot(s: string, drop: char -> bool) returns (i: nat)
    requires exists j :: 0 <= j < |s| && !drop(s[j])
    ensures i < |s| && !drop(s[i]) && forall j :: 0 <= j < i ==> drop(s[j])
  {
    if !drop(s[0]) {
      i := 0;
    } else {
      var j :| 0 <= j < |s| && !drop(s[j]);
      assert s[1..][j - 1] == s[j];
      i := FirstNot(s[1..], drop);
      i := i + 1;
    }
  }

  /** A cell is written as it is unless it is marked or holds a comma, a quote or a
      line break; then it is quoted. */
  lemma QuotedIff(value: string)
    ensures (exists i :: 0 <= i < |value| && value[i] in {',', '"', '\r', '\n'}) || SpreadsheetUnsafe(value)
            <==> FieldText(value) != value
    ensures FieldText(value) != value ==> FieldText(value)[0] == '"'
  {
    hide SpreadsheetUnsafe;
    assert forall i :: 0 <= i < |value| ==> (IsSpecial(value[i]) <==> value[i] in {',', '"', '\r', '\n'});
    if NeedsQuotes(value) {
      DoubledIsLonger(value);
    }
  }

  lemma {:induction false} DoubledIsLonger(value: string)
    ensures |Doubled(value)| >= |value|
  {
    if value != "" {
      DoubledIsLonger(value[1..]);
    }
  }

  /** Lengths count bytes of UTF-8. */
  lemma Utf8Lengths()
    ensures Utf8Len('~') == 1 && Utf8Len(0x7F as char) == 1 && Utf8Len(0x80 as char) == 2 && Utf8Len(0x7FF as char) == 2
    ensures Utf8Len(0x800 as char) == 3 && Utf8Len(0xFFFF as char) == 3 && Utf8Len(0x1_0000 as char) == 4
    ensures forall s: string :: |s| == 1 ==> ByteLen(s) == Utf8Len(s[0])
  {
    assert ByteLen("") == 0;
    forall s: string | |s| == 1
      ensures ByteLen(s) == Utf8Len(s[0])
    {
      assert s[1..] == "";
    }
  }
}
