/** The YAML projection (src/routes/graph.rs): the emitter, and a reader for the
    block subset it writes. The reader finds structure by columns, as section 8
    of YAML 1.2 does: a collection's column is where its first entry stands. */
module Yaml {
  import opened Prelude
  import opened Text
  import opened JsonText

  // ---- Writing ----

  function Pad(n: nat): (r: string)
    ensures |r| == 2 * n && forall i :: 0 <= i < |r| ==> r[i] == ' '
  {
    seq(2 * n, i => ' ')
  }

  /** A non-empty collection: it starts on a line of its own. */
  predicate IsBlock(v: Value) {
    (v.Array? && v.items != []) || (v.Object? && v.members != [])
  }

  function YamlText(v: Value, indent: nat): string
    decreases v, 0
  {
    match v
    case Object(members) => if members == [] then "{}\n" else MembersText(members, indent)
    case Array(items) => if items == [] then "[]\n" else ItemsText(items, indent)
    case _ => ScalarText(v) + "\n"
  }

  function MemberText(m: Member, indent: nat): string
    decreases m, 0
  {
    JsonString(m.key) + ":" + (if IsBlock(m.value) then "\n" else " ") + YamlText(m.value, indent + 1)
  }

  function MembersText(members: seq<Member>, indent: nat): string
    decreases members, 0
  {
    if members == [] then ""
    else Pad(indent) + MemberText(members[0], indent) + MembersText(members[1..], indent)
  }

  predicate IsSpace(c: char) {
    c == ' '
  }

  function ItemText(item: Value, indent: nat): string
    decreases item, 1
  {
    var text := YamlText(item, indent + 1);
    "- " + if item.Object? && item.members != [] then TrimStart(text, IsSpace) else text
  }

  function ItemsText(items: seq<Value>, indent: nat): string
    decreases items, 0
  {
    if items == [] then "" else Pad(indent) + ItemText(items[0], indent) + ItemsText(items[1..], indent)
  }

  /** `write_yaml`. */
  method WriteYaml(v: Value, indent: nat, out: TextBuffer)
    modifies out
    ensures out.text == old(out.text) + YamlText(v, indent)
    decreases v, 0
  {
    hide JsonString, MembersText, ItemsText;
    var pad := Pad(indent);
    match v
    case Object(members) =>
      if members == [] {
        out.PushStr("{}\n");
      } else {
        WriteMembers(members, indent, pad, out);
      }
    case Array(items) =>
      if items == [] {
        out.PushStr("[]\n");
      } else {
        WriteItems(items, indent, pad, out);
      }
    case Str(text) =>
      out.PushStr(JsonString(text));
      out.PushStr("\n");
    case Number(lexeme) =>
      out.PushStr(lexeme);
      out.PushStr("\n");
    case Bool(flag) =>
      out.PushStr(if flag then "true" else "false");
      out.PushStr("\n");
    case Null =>
      out.PushStr("\"\"\n");
  }

  method WriteMembers(members: seq<Member>, indent: nat, pad: string, out: TextBuffer)
    requires pad == Pad(indent)
    modifies out
    ensures out.text == old(out.text) + MembersText(members, indent)
    decreases members, 0
  {
    hide YamlText, JsonString, MemberText;
    var i := 0;
    while i < |members|
      invariant 0 <= i <= |members|
      invariant out.text + MembersText(members[i..], indent) == old(out.text) + MembersText(members, indent)
    {
      assert members[i..][0] == members[i] && members[i..][1..] == members[i + 1..];
      if i > 0 || indent > 0 {
        out.PushStr(pad);
      }
      WriteMember(members[i], indent, out);
      i := i + 1;
    }
  }

  method WriteMember(m: Member, indent: nat, out: TextBuffer)
    modifies out
    ensures out.text == old(out.text) + MemberText(m, indent)
    decreases m, 1
  {
    hide YamlText, JsonString;
    out.PushStr(JsonString(m.key));
    out.PushStr(":");
    if IsBlock(m.value) {
      out.PushStr("\n");
      WriteYaml(m.value, indent + 1, out);
    } else {
      out.PushStr(" ");
      WriteYaml(m.value, indent + 1, out);
    }
  }

  method WriteItems(items: seq<Value>, indent: nat, pad: string, out: TextBuffer)
    requires pad == Pad(indent)
    modifies out
    ensures out.text == old(out.text) + ItemsText(items, indent)
    decreases items, 0
  {
    hide ItemText;
    var i := 0;
    while i < |items|
      invariant 0 <= i <= |items|
      invariant out.text + ItemsText(items[i..], indent) == old(out.text) + ItemsText(items, indent)
    {
      assert items[i..][0] == items[i] && items[i..][1..] == items[i + 1..];
      out.PushStr(pad);
      WriteItem(items[i], indent, out);
      i := i + 1;
    }
  }

  /** The first key of an object rides the dash. */
  method WriteItem(item: Value, indent: nat, out: TextBuffer)
    modifies out
    ensures out.text == old(out.text) + ItemText(item, indent)
    decreases item, 1
  {
    hide YamlText, TrimStart;
    out.PushStr("- ");
    if item.Object? && item.members != [] {
      var nested := new TextBuffer();
      WriteYaml(item, indent + 1, nested);
      assert nested.text == YamlText(item, indent + 1);
      out.PushStr(TrimStart(nested.text, IsSpace));
    } else {
      WriteYaml(item, indent + 1, out);
    }
  }

  // ---- Reading ----

  function Indent(s: string): (n: nat)
    ensures n <= |s| && (forall i :: 0 <= i < n ==> s[i] == ' ') && (n < |s| ==> s[n] != ' ')
  {
    Run(s, IsSpace)
  }

  /** A scalar or an empty collection, to the end of its line. */
  function ParseInline(s: string): (r: Option<(Value, string)>)
    ensures r.Some? ==> |r.value.1| < |s|
  {
    var v :=
      if |s| >= 2 && s[0] == '{' && s[1] == '}' then Some((Object([]), s[2..]))
      else if |s| >= 2 && s[0] == '[' && s[1] == ']' then Some((Array([]), s[2..]))
      else ReadScalar(s);
    if v.Some? && StartsWith(v.value.1, '\n') then Some((v.value.0, v.value.1[1..])) else None
  }

  predicate IsDash(s: string) {
    |s| >= 2 && s[0] == '-' && s[1] == ' '
  }

  /** The node that starts at the head of `s`, in column `col` of its line. */
  function ParseNode(s: string, col: nat): (r: Option<(Value, string)>)
    ensures r.Some? ==> |r.value.1| < |s|
    decreases |s|, 2
  {
    if IsDash(s) then
      var items := ParseSeq(s, col);
      if items.Some? then Some((Array(items.value.0), items.value.1)) else None
    else if StartsWith(s, '"') && ReadString(s).Some? && StartsWith(ReadString(s).value.1, ':') then
      var members := ParseMap(s, col);
      if members.Some? then Some((Object(members.value.0), members.value.1)) else None
    else ParseInline(s)
  }

  function ParseSeq(s: string, col: nat): (r: Option<(seq<Value>, string)>)
    requires IsDash(s)
    ensures r.Some? ==> |r.value.1| < |s|
    decreases |s|, 1
  {
    var spaces := Indent(s[2..]);
    var item := ParseNode(s[2..][spaces..], col + 2 + spaces);
    if item.None? then None
    else
      var (first, rest) := item.value;
      var c := Indent(rest);
      if rest == "" || c < col || (c == col && !IsDash(rest[c..])) then Some(([first], rest))
      else if c == col then
        var more := ParseSeq(rest[c..], col);
        if more.Some? then Some(([first] + more.value.0, more.value.1)) else None
      else None
  }

  function ParseMap(s: string, col: nat): (r: Option<(seq<Member>, string)>)
    ensures r.Some? ==> |r.value.1| < |s|
    decreases |s|, 1
  {
    var key := ReadString(s);
    if key.None? || !StartsWith(key.value.1, ':') then None
    else
      var value := ParseMapValue(key.value.1[1..], col);
      if value.None? then None
      else
        var first := Member(key.value.0, value.value.0);
        var rest := value.value.1;
        var c := Indent(rest);
        if rest == "" || c < col then Some(([first], rest))
        else if c == col then
          var more := ParseMap(rest[c..], col);
          if more.Some? && forall m :: m in more.value.0 ==> m.key != first.key
          then Some(([first] + more.value.0, more.value.1))
          else None
        else None
  }

  /** What follows `key:`: an inline value, a deeper block, or nothing (null). */
  function ParseMapValue(s: string, col: nat): (r: Option<(Value, string)>)
    ensures r.Some? ==> |r.value.1| < |s|
    decreases |s|, 3
  {
    if StartsWith(s, ' ') then ParseInline(s[1..])
    else if StartsWith(s, '\n') then
      var block := s[1..];
      var c := Indent(block);
      if c > col || (c == col && IsDash(block[c..])) then ParseNode(block[c..], c) else Some((Null, block))
    else None
  }

  function ParseDocument(s: string): Option<Value> {
    var r := ParseNode(s, 0);
    if r.Some? && r.value.1 == "" then Some(r.value.0) else None
  }

  // ---- Lines and where they stand ----

  /** The text of `v` without the padding of its first line. */
  function Body(v: Value, indent: nat): string {
    if v.Object? && v.members != [] then MemberText(v.members[0], indent) + MembersText(v.members[1..], indent)
    else if v.Array? && v.items != [] then ItemText(v.items[0], indent) + ItemsText(v.items[1..], indent)
    else YamlText(v, indent)
  }

  lemma BodyIsUnpadded(v: Value, indent: nat)
    requires WellFormed(v)
    ensures YamlText(v, indent) == if IsBlock(v) then Pad(indent) + Body(v, indent) else Body(v, indent)
    ensures Body(v, indent) != "" && Body(v, indent)[0] != ' '
    ensures v.Object? && v.members != [] ==> TrimStart(YamlText(v, indent), IsSpace) == Body(v, indent)
  {
    hide ScalarText, WellFormed, ItemText, MemberText;
    if IsScalar(v) {
      ScalarStarts(v);
    } else if v.Object? && v.members != [] {
      MemberStarts(v.members[0], indent);
      TrimsSpaces(Pad(indent), Body(v, indent));
      assert YamlText(v, indent) == Pad(indent) + Body(v, indent);
    } else if v.Array? && v.items != [] {
      ItemStarts(v.items[0], indent);
      assert YamlText(v, indent) == Pad(indent) + Body(v, indent);
    }
  }

  lemma {:induction false} TrimsSpaces(spaces: string, body: string)
    requires forall i :: 0 <= i < |spaces| ==> spaces[i] == ' '
    requires body != "" && body[0] != ' '
    ensures TrimStart(spaces + body, IsSpace) == body
  {
    if spaces == "" {
      assert spaces + body == body;
    } else {
      assert (spaces + body)[1..] == spaces[1..] + body;
      TrimsSpaces(spaces[1..], body);
    }
  }

  /** Nothing more at or right of column `col`. */
  predicate Outdented(rest: string, col: nat) {
    rest == "" || Indent(rest) < col
  }

  lemma PaddedLine(indent: nat, body: string, rest: string)
    requires body != "" && body[0] != ' '
    ensures Indent(Pad(indent) + body + rest) == 2 * indent
    ensures (Pad(indent) + body + rest)[2 * indent..] == body + rest
  {
    var s := Pad(indent) + body + rest;
    assert s[2 * indent] == body[0];
    assert forall i :: 0 <= i < 2 * indent ==> s[i] == Pad(indent)[i];
  }

  /** What follows an entry is its sibling, or what follows its collection. */
  lemma NextMember(members: seq<Member>, indent: nat, rest: string)
    requires Outdented(rest, 2 * indent)
    ensures Outdented(MembersText(members, indent) + rest, 2 * indent + 2)
    ensures members == [] ==> MembersText(members, indent) + rest == rest
    ensures members != [] ==>
              var body := MemberText(members[0], indent) + MembersText(members[1..], indent);
              Indent(MembersText(members, indent) + rest) == 2 * indent
              && (MembersText(members, indent) + rest)[2 * indent..] == body + rest
              && body != "" && body[0] == '"'
  {
    hide MemberText;
    if members == [] {
      assert MembersText(members, indent) + rest == rest;
    } else {
      var body := MemberText(members[0], indent) + MembersText(members[1..], indent);
      MemberStarts(members[0], indent);
      PaddedLine(indent, body, rest);
      assert MembersText(members, indent) + rest == Pad(indent) + body + rest;
    }
  }

  lemma MemberStarts(m: Member, indent: nat)
    ensures MemberText(m, indent) != "" && MemberText(m, indent)[0] == '"'
  {
    hide YamlText, Escaped;
  }

  lemma NextItem(items: seq<Value>, indent: nat, rest: string)
    requires Outdented(rest, 2 * indent)
    ensures Outdented(ItemsText(items, indent) + rest, 2 * indent + 2)
    ensures items == [] ==> ItemsText(items, indent) + rest == rest
    ensures items != [] ==>
              var body := ItemText(items[0], indent) + ItemsText(items[1..], indent);
              Indent(ItemsText(items, indent) + rest) == 2 * indent
              && (ItemsText(items, indent) + rest)[2 * indent..] == body + rest
              && IsDash(body)
  {
    hide ItemText;
    if items == [] {
      assert ItemsText(items, indent) + rest == rest;
    } else {
      var body := ItemText(items[0], indent) + ItemsText(items[1..], indent);
      ItemStarts(items[0], indent);
      PaddedLine(indent, body, rest);
      assert ItemsText(items, indent) + rest == Pad(indent) + body + rest;
    }
  }

  lemma ItemStarts(item: Value, indent: nat)
    ensures IsDash(ItemText(item, indent))
  {
    hide YamlText, TrimStart;
  }

  /** The line of an inline value, and what its first character tells. */
  lemma InlineLine(v: Value, indent: nat, rest: string)
    requires WellFormed(v) && !IsBlock(v)
    ensures
      var s := YamlText(v, indent) + rest;
      && s != "" && s[0] != ' '
      && (IsScalar(v) ==> s == ScalarText(v) + ("\n" + rest) && s[0] == ScalarText(v)[0] && s[0] !in {'{', '['})
      && (!IsScalar(v) ==> |s| >= 3)
      && (v.Object? ==> s[0] == '{' && s[1] == '}' && s[2..] == "\n" + rest && v == Object([]))
      && (v.Array? ==> s[0] == '[' && s[1] == ']' && s[2..] == "\n" + rest && v == Array([]))
      && !IsDash(s)
  {
    hide ScalarText, WellFormed;
    var s := YamlText(v, indent) + rest;
    if IsScalar(v) {
      ScalarStarts(v);
      assert s == ScalarText(v) + ("\n" + rest);
      assert |ScalarText(v)| > 1 ==> s[1] == ScalarText(v)[1];
    } else if v.Object? {
      assert s == "{}\n" + rest;
    } else {
      assert s == "[]\n" + rest;
    }
  }

  lemma InlineReadsBack(v: Value, indent: nat, rest: string)
    requires WellFormed(v) && !IsBlock(v)
    ensures ParseInline(YamlText(v, indent) + rest) == Some((NullAsEmpty(v), rest))
  {
    hide ReadScalar, ScalarText, YamlText, WellFormed;
    var s, tail := YamlText(v, indent) + rest, "\n" + rest;
    assert tail[1..] == rest;
    InlineLine(v, indent, rest);
    if IsScalar(v) {
      ScalarReadsBack(v, tail);
    } else {
      NullAsEmptyIsIdentityIff(v);
    }
  }

  // ---- One step of the reader ----

  /** The emitter assumes column 2 * indent. An array that is an item of an
      array starts further right, by at least four columns, and so does what its
      first line holds. */
  predicate Column(indent: nat, col: nat) {
    col == 2 * indent || col >= 2 * indent + 4
  }

  lemma MemberIsNode(m: Member, indent: nat, next: string)
    ensures
      var s := MemberText(m, indent) + next;
      && s[0] == '"'
      && ReadString(s).Some? && ReadString(s).value.0 == m.key
      && ReadString(s).value.1 == ":" + ((if IsBlock(m.value) then "\n" else " ") + YamlText(m.value, indent + 1) + next)
  {
    hide YamlText, ReadBody, Escaped;
    var value := (if IsBlock(m.value) then "\n" else " ") + YamlText(m.value, indent + 1) + next;
    assert MemberText(m, indent) + next == JsonString(m.key) + (":" + value);
    StringReadsBack(m.key, ":" + value);
  }

  lemma NotANode(v: Value, indent: nat, rest: string)
    requires WellFormed(v) && !IsBlock(v)
    ensures
      var s := YamlText(v, indent) + rest;
      !IsDash(s) && (StartsWith(s, '"') && ReadString(s).Some? ==> !StartsWith(ReadString(s).value.1, ':'))
  {
    hide ReadString, ScalarText, WellFormed, ReadNumber, YamlText;
    var s, tail := YamlText(v, indent) + rest, "\n" + rest;
    InlineLine(v, indent, rest);
    if IsScalar(v) {
      ScalarReadsBack(v, tail);
    }
  }

  /** Where an item's own node stands. */
  lemma ItemStands(item: Value, indent: nat, col: nat, next: string)
    requires WellFormed(item) && Column(indent, col) && indent > 0
    ensures
      var s := ItemText(item, indent) + next;
      && IsDash(s)
      && var spaces := Indent(s[2..]);
         s[2..][spaces..] == Body(item, indent + 1) + next
         && spaces == (if item.Array? && item.items != [] then 2 * (indent + 1) else 0)
  {
    hide YamlText, Body, TrimStart;
    BodyIsUnpadded(item, indent + 1);
    var s := ItemText(item, indent) + next;
    var body := Body(item, indent + 1);
    if item.Array? && item.items != [] {
      assert s[2..] == Pad(indent + 1) + body + next;
      PaddedLine(indent + 1, body, next);
    } else {
      assert s[2..] == body + next;
    }
  }

  /** The rest of a sequence, after its first item. */
  function SeqAfter(first: Value, rest: string, col: nat): Option<(seq<Value>, string)> {
    var c := Indent(rest);
    if rest == "" || c < col || (c == col && !IsDash(rest[c..])) then Some(([first], rest))
    else if c == col then
      var more := ParseSeq(rest[c..], col);
      if more.Some? then Some(([first] + more.value.0, more.value.1)) else None
    else None
  }

  /** One round of the sequence reader. */
  lemma SeqStep(s: string, col: nat)
    requires IsDash(s)
    ensures
      var spaces := Indent(s[2..]);
      var item := ParseNode(s[2..][spaces..], col + 2 + spaces);
      ParseSeq(s, col) == if item.None? then None else SeqAfter(item.value.0, item.value.1, col)
  {
    hide ParseNode, Indent, IsDash;
  }

  lemma BlockValueStands(indent: nat, body: string, next: string, col: nat)
    requires body != "" && body[0] != ' ' && Column(indent, col)
    ensures
      var block := Pad(indent + 1) + body + next;
      ParseMapValue("\n" + block, col)
      == if col == 2 * indent then ParseNode(body + next, 2 * (indent + 1)) else Some((Null, block))
  {
    hide ParseNode, ParseInline, Indent;
    var block := Pad(indent + 1) + body + next;
    assert ("\n" + block)[1..] == block;
    PaddedLine(indent + 1, body, next);
  }

  lemma InlineValueStands(text: string, col: nat)
    ensures ParseMapValue(" " + text, col) == ParseInline(text)
  {
    hide ParseInline;
    assert (" " + text)[1..] == text;
  }

  /** One round of the mapping reader. */
  lemma MapStep(s: string, col: nat)
    requires ReadString(s).Some? && StartsWith(ReadString(s).value.1, ':')
    ensures
      var key := ReadString(s).value;
      var value := ParseMapValue(key.1[1..], col);
      var r := ParseMap(s, col);
      && (value.None? ==> r.None?)
      && (r.Some? ==> r.value.0 != [] && r.value.0[0] == Member(key.0, value.value.0))
      && (value.Some? ==>
            var first, rest := Member(key.0, value.value.0), value.value.1;
            && (rest == "" || Indent(rest) < col ==> r == Some(([first], rest)))
            && (rest != "" && Indent(rest) == col ==>
                  var more := ParseMap(rest[col..], col);
                  r == if more.Some? && forall m :: m in more.value.0 ==> m.key != key.0
                       then Some(([first] + more.value.0, more.value.1))
                       else None))
  {
    hide ParseMapValue, Indent, ReadString;
  }

  /** The projection of a document object. */
  function YamlDocument(members: seq<Member>): string {
    YamlText(Object(members), 0)
  }
}
