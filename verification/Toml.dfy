/** The normalised TOML projection (src/routes/graph.rs): the emitter, and a
    reader for the subset of TOML 1.0 it writes. */
module Toml {
  import opened Prelude
  import opened Text
  import opened JsonText

  // ---- Writing ----

  /** `toml_inline`. */
  function InlineText(v: Value): string
    decreases v, 1
  {
    match v
    case Array(items) => "[" + ElementsText(items) + "]"
    case Object(members) => "{ " + PairsText(members) + " }"
    case _ => ScalarText(v)
  }

  function ElementsText(items: seq<Value>): string
    decreases items, 2
  {
    Join(RenderedItems(items), ", ")
  }

  function RenderedItems(items: seq<Value>): (r: seq<string>)
    ensures |r| == |items|
    decreases items, 1
  {
    if items == [] then [] else [InlineText(items[0])] + RenderedItems(items[1..])
  }

  function PairsText(members: seq<Member>): string
    decreases members, 2
  {
    Join(RenderedPairs(members), ", ")
  }

  function RenderedPairs(members: seq<Member>): (r: seq<string>)
    ensures |r| == |members|
    decreases members, 1
  {
    if members == [] then [] else [PairText(members[0])] + RenderedPairs(members[1..])
  }

  function PairText(m: Member): string
    decreases m, 0
  {
    JsonString(m.key) + " = " + InlineText(m.value)
  }

  function LinesText(members: seq<Member>): string {
    if members == [] then "" else PairText(members[0]) + "\n" + LinesText(members[1..])
  }

  datatype Kind = Inline | Table | Tables

  predicate IsTomlTable(v: Value) {
    v.Object? && v.members != []
  }

  predicate IsTomlArrayOfTables(v: Value) {
    v.Array? && v.items != [] && forall i :: 0 <= i < |v.items| ==> v.items[i].Object?
  }

  function KindOf(v: Value): Kind {
    if IsTomlTable(v) then Table else if IsTomlArrayOfTables(v) then Tables else Inline
  }

  predicate AllOf(members: seq<Member>, kind: Kind) {
    forall i :: 0 <= i < |members| ==> KindOf(members[i].value) == kind
  }

  /** The members of one kind, in document order. */
  function Select(members: seq<Member>, kind: Kind): (r: seq<Member>)
    ensures AllOf(r, kind)
  {
    if members == [] then []
    else (if KindOf(members[0].value) == kind then [members[0]] else []) + Select(members[1..], kind)
  }

  function TableText(m: Member): string
    requires m.value.Object?
  {
    "\n[" + JsonString(m.key) + "]\n" + LinesText(m.value.members)
  }

  function TablesText(members: seq<Member>): string
    requires AllOf(members, Table)
  {
    if members == [] then "" else TableText(members[0]) + TablesText(members[1..])
  }

  function EntriesText(key: string, items: seq<Value>): string
    requires forall i :: 0 <= i < |items| ==> items[i].Object?
  {
    if items == [] then ""
    else "\n[[" + JsonString(key) + "]]\n" + LinesText(items[0].members) + EntriesText(key, items[1..])
  }

  function ArraysText(members: seq<Member>): string
    requires AllOf(members, Tables)
  {
    if members == [] then "" else EntriesText(members[0].key, members[0].value.items) + ArraysText(members[1..])
  }

  function TomlText(members: seq<Member>): string {
    LinesText(Select(members, Inline)) + TablesText(Select(members, Table)) + ArraysText(Select(members, Tables))
  }

  datatype TomlError = NotAnObject

  /** `write_toml`. */
  method WriteToml(value: Value) returns (text: Result<string, TomlError>)
    ensures text == if value.Object? then Ok(TomlText(value.members)) else Err(NotAnObject)
  {
    hide LinesText, TablesText, ArraysText, Select;
    if !value.Object? {
      return Err(NotAnObject);
    }
    var out := new TextBuffer();
    WriteInlineMembers(value.members, out);
    WriteTables(value.members, out);
    WriteArrays(value.members, out);
    assert out.text == TomlText(value.members);
    return Ok(out.text);
  }

  method WriteInlineMembers(root: seq<Member>, out: TextBuffer)
    modifies out
    ensures out.text == old(out.text) + LinesText(Select(root, Inline))
  {
    hide PairText, LinesText, KindOf, Select, AllOf;
    var i := 0;
    EmptyTexts();
    while i < |root|
      invariant 0 <= i <= |root|
      invariant out.text == old(out.text) + LinesText(Select(root[..i], Inline))
    {
      SelectNext(root, i, Inline);
      LinesNext(Select(root[..i], Inline), root[i]);
      if KindOf(root[i].value) == Inline {
        out.PushStr(PairText(root[i]) + "\n");
      }
      i := i + 1;
    }
    assert root[..i] == root;
  }

  method WriteLines(table: seq<Member>, out: TextBuffer)
    modifies out
    ensures out.text == old(out.text) + LinesText(table)
  {
    hide PairText, LinesText;
    var i := 0;
    EmptyTexts();
    while i < |table|
      invariant 0 <= i <= |table|
      invariant out.text == old(out.text) + LinesText(table[..i])
    {
      assert table[..i + 1] == table[..i] + [table[i]];
      LinesNext(table[..i], table[i]);
      out.PushStr(PairText(table[i]) + "\n");
      i := i + 1;
    }
    assert table[..i] == table;
  }

  method WriteTables(root: seq<Member>, out: TextBuffer)
    modifies out
    ensures out.text == old(out.text) + TablesText(Select(root, Table))
  {
    hide JsonString, LinesText, TablesText, Select;
    var i := 0;
    EmptyTexts();
    while i < |root|
      invariant 0 <= i <= |root|
      invariant out.text == old(out.text) + TablesText(Select(root[..i], Table))
    {
      SelectNext(root, i, Table);
      if IsTomlTable(root[i].value) {
        TablesNext(Select(root[..i], Table), root[i]);
        out.PushStr("\n[" + JsonString(root[i].key) + "]\n");
        WriteLines(root[i].value.members, out);
      }
      i := i + 1;
    }
    assert root[..i] == root;
  }

  method WriteArrays(root: seq<Member>, out: TextBuffer)
    modifies out
    ensures out.text == old(out.text) + ArraysText(Select(root, Tables))
  {
    hide EntriesText, ArraysText, Select;
    var i := 0;
    EmptyTexts();
    while i < |root|
      invariant 0 <= i <= |root|
      invariant out.text == old(out.text) + ArraysText(Select(root[..i], Tables))
    {
      SelectNext(root, i, Tables);
      if IsTomlArrayOfTables(root[i].value) {
        ArraysNext(Select(root[..i], Tables), root[i]);
        WriteEntries(root[i].key, root[i].value.items, out);
      }
      i := i + 1;
    }
    assert root[..i] == root;
  }

  method WriteEntries(key: string, items: seq<Value>, out: TextBuffer)
    requires forall i :: 0 <= i < |items| ==> items[i].Object?
    modifies out
    ensures out.text == old(out.text) + EntriesText(key, items)
  {
    hide JsonString, LinesText;
    var i := 0;
    while i < |items|
      invariant 0 <= i <= |items|
      invariant out.text + EntriesText(key, items[i..]) == old(out.text) + EntriesText(key, items)
    {
      assert items[i..][0] == items[i] && items[i..][1..] == items[i + 1..];
      out.PushStr("\n[[" + JsonString(key) + "]]\n");
      WriteLines(items[i].members, out);
      i := i + 1;
    }
  }

  lemma EmptyTexts()
    ensures LinesText([]) == "" && TablesText([]) == "" && ArraysText([]) == ""
    ensures forall kind :: Select([], kind) == []
  {
  }

  lemma SelectNext(members: seq<Member>, i: nat, kind: Kind)
    requires i < |members|
    ensures
      var before := Select(members[..i], kind);
      Select(members[..i + 1], kind) == if KindOf(members[i].value) == kind then before + [members[i]] else before
  {
    assert members[..i + 1] == members[..i] + [members[i]];
    SelectAppend(members[..i], [members[i]], kind);
    assert [members[i]][1..] == [];
  }

  lemma SelectStep(members: seq<Member>, kind: Kind)
    requires members != []
    ensures Select(members, kind)
            == if KindOf(members[0].value) == kind then [members[0]] + Select(members[1..], kind) else Select(members[1..], kind)
  {
  }

  lemma {:induction false} SelectAppend(a: seq<Member>, b: seq<Member>, kind: Kind)
    ensures Select(a + b, kind) == Select(a, kind) + Select(b, kind)
  {
    hide KindOf, AllOf, Select;
    if a == [] {
      EmptyTexts();
      assert a + b == b;
    } else {
      assert (a + b)[1..] == a[1..] + b;
      SelectStep(a + b, kind);
      SelectStep(a, kind);
      SelectAppend(a[1..], b, kind);
    }
  }

  lemma {:induction false} LinesNext(members: seq<Member>, m: Member)
    ensures LinesText(members + [m]) == LinesText(members) + (PairText(m) + "\n")
  {
    hide PairText;
    if members == [] {
      assert [] + [m] == [m] && [m][1..] == [];
      assert LinesText([m]) == PairText(m) + "\n" + LinesText([]);
    } else {
      assert (members + [m])[1..] == members[1..] + [m];
      LinesNext(members[1..], m);
    }
  }

  lemma {:induction false} TablesNext(members: seq<Member>, m: Member)
    requires AllOf(members, Table) && KindOf(m.value) == Table
    ensures TablesText(members + [m]) == TablesText(members) + TableText(m)
  {
    hide TableText;
    if members == [] {
      assert [] + [m] == [m] && [m][1..] == [];
      assert TablesText([m]) == TableText(m) + TablesText([]);
    } else {
      assert (members + [m])[1..] == members[1..] + [m];
      TablesNext(members[1..], m);
    }
  }

  lemma {:induction false} ArraysNext(members: seq<Member>, m: Member)
    requires AllOf(members, Tables) && KindOf(m.value) == Tables
    ensures ArraysText(members + [m]) == ArraysText(members) + EntriesText(m.key, m.value.items)
  {
    hide EntriesText;
    if members == [] {
      assert [] + [m] == [m] && [m][1..] == [];
      assert ArraysText([m]) == EntriesText(m.key, m.value.items) + ArraysText([]);
    } else {
      assert (members + [m])[1..] == members[1..] + [m];
      ArraysNext(members[1..], m);
    }
  }

  // ---- Reading ----

  function Skip(s: string): (r: string)
    ensures |r| <= |s|
    ensures s == "" || s[0] != ' ' ==> r == s
  {
    if s != "" && s[0] == ' ' then Skip(s[1..]) else s
  }

  function ReadInline(s: string): (r: Option<(Value, string)>)
    ensures r.Some? ==> |r.value.1| < |s|
    decreases |s|, 0
  {
    if StartsWith(s, '[') then
      var t := Skip(s[1..]);
      if StartsWith(t, ']') then Some((Array([]), t[1..]))
      else
        var items := ReadElements(t);
        if items.Some? then Some((Array(items.value.0), items.value.1)) else None
    else if StartsWith(s, '{') then
      var t := Skip(s[1..]);
      if StartsWith(t, '}') then Some((Object([]), t[1..]))
      else
        var members := ReadPairs(t);
        if members.Some? then Some((Object(members.value.0), members.value.1)) else None
    else ReadScalar(s)
  }

  /** One or more elements, up to the closing bracket. */
  function ReadElements(s: string): (r: Option<(seq<Value>, string)>)
    ensures r.Some? ==> |r.value.1| < |s|
    decreases |s|, 1
  {
    var first := ReadInline(s);
    if first.None? then None
    else
      var rest := Skip(first.value.1);
      if StartsWith(rest, ']') then Some(([first.value.0], rest[1..]))
      else if StartsWith(rest, ',') then
        var more := ReadElements(Skip(rest[1..]));
        if more.Some? then Some(([first.value.0] + more.value.0, more.value.1)) else None
      else None
  }

  /** `"key" = value` */
  function ReadPair(s: string): (r: Option<(Member, string)>)
    ensures r.Some? ==> |r.value.1| < |s|
    decreases |s|, 1
  {
    var key := ReadString(s);
    if key.None? then None
    else
      var rest := Skip(key.value.1);
      if StartsWith(rest, '=') then
        var value := ReadInline(Skip(rest[1..]));
        if value.Some? then Some((Member(key.value.0, value.value.0), value.value.1)) else None
      else None
  }

  predicate HasKey(members: seq<Member>, key: string) {
    exists i :: 0 <= i < |members| && members[i].key == key
  }

  /** One or more pairs with distinct keys, up to the closing brace. */
  function ReadPairs(s: string): (r: Option<(seq<Member>, string)>)
    ensures r.Some? ==> |r.value.1| < |s|
    decreases |s|, 2
  {
    var first := ReadPair(s);
    if first.None? then None
    else
      var rest := Skip(first.value.1);
      if StartsWith(rest, '}') then Some(([first.value.0], rest[1..]))
      else if StartsWith(rest, ',') then
        var more := ReadPairs(Skip(rest[1..]));
        if more.Some? && !HasKey(more.value.0, first.value.0.key)
        then Some(([first.value.0] + more.value.0, more.value.1))
        else None
      else None
  }

  /** The pairs, one a line and with distinct keys, up to the next header. */
  function ReadLines(s: string): (r: Option<(seq<Member>, string)>)
    ensures r.Some? ==> |r.value.1| <= |s|
    decreases |s|
  {
    if !StartsWith(s, '"') then Some(([], s))
    else
      var first := ReadPair(s);
      if first.None? || !StartsWith(first.value.1, '\n') then None
      else
        var more := ReadLines(first.value.1[1..]);
        if more.Some? && !HasKey(more.value.0, first.value.0.key)
        then Some(([first.value.0] + more.value.0, more.value.1))
        else None
  }

  /** What a top-level name is bound to. Only a name that `[[name]]` introduced
      can be extended. */
  datatype Entry = Fixed(key: string, value: Value) | Growing(key: string, tables: seq<Value>)

  predicate Bound(entries: seq<Entry>, key: string) {
    exists i :: 0 <= i < |entries| && entries[i].key == key
  }

  /** The entries after one more `[[key]]` table. */
  function Grow(entries: seq<Entry>, key: string, table: Value): Option<seq<Entry>> {
    if entries == [] then Some([Growing(key, [table])])
    else if entries[0].key == key then
      if entries[0].Growing? then Some([Growing(key, entries[0].tables + [table])] + entries[1..]) else None
    else
      var rest := Grow(entries[1..], key, table);
      if rest.Some? then Some([entries[0]] + rest.value) else None
  }

  /** The headers and what is under each, to the end of the document. */
  function ReadSections(s: string, entries: seq<Entry>): Option<seq<Entry>>
    decreases |s|
  {
    if s == "" then Some(entries)
    else if |s| < 2 || s[0] != '\n' || s[1] != '[' then None
    else
      var double := StartsWith(s[2..], '[');
      var key := ReadString(if double then s[3..] else s[2..]);
      var close := if double then "]]\n" else "]\n";
      if key.None? || !(close <= key.value.1) then None
      else
        var lines := ReadLines(key.value.1[|close|..]);
        if lines.None? then None
        else
          var table := Object(lines.value.0);
          var next :=
            if double then Grow(entries, key.value.0, table)
            else if Bound(entries, key.value.0) then None
            else Some(entries + [Fixed(key.value.0, table)]);
          if next.Some? then ReadSections(lines.value.1, next.value) else None
  }

  function Fix(members: seq<Member>): (r: seq<Entry>)
    ensures |r| == |members| && forall i :: 0 <= i < |r| ==> r[i] == Fixed(members[i].key, members[i].value)
  {
    if members == [] then [] else [Fixed(members[0].key, members[0].value)] + Fix(members[1..])
  }

  function Unfix(entries: seq<Entry>): (r: seq<Member>)
    ensures |r| == |entries|
    ensures forall i :: 0 <= i < |r| ==>
              r[i] == Member(entries[i].key, if entries[i].Fixed? then entries[i].value else Array(entries[i].tables))
  {
    if entries == [] then []
    else
      [Member(entries[0].key, if entries[0].Fixed? then entries[0].value else Array(entries[0].tables))] + Unfix(entries[1..])
  }

  /** TOML forbids this character everywhere, unless a string escapes it. */
  const DEL: char := 0x7F as char

  function ReadToml(s: string): Option<seq<Member>> {
    if DEL in s then None
    else
      var top := ReadLines(s);
      if top.None? then None
      else
        var entries := ReadSections(top.value.1, Fix(top.value.0));
        if entries.Some? then Some(Unfix(entries.value)) else None
  }

  /** What is emitted how: a non-empty object as a table, a non-empty array of
      objects as an array of tables, anything else on the line of its key. */
  lemma KindMeans(v: Value)
    ensures KindOf(v) == Table <==> v.Object? && |v.members| > 0
    ensures KindOf(v) == Tables <==> v.Array? && |v.items| > 0 && forall item :: item in v.items ==> item.Object?
    ensures KindOf(v) == Inline <==> !(v.Object? && |v.members| > 0) && !(v.Array? && |v.items| > 0 && forall item :: item in v.items ==> item.Object?)
  {
    if v.Array? {
      assert forall i :: 0 <= i < |v.items| ==> v.items[i] in v.items;
    }
  }
}
