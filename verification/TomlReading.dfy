/** What a document's TOML text reads back to. */
module TomlReading {
  import opened Prelude
  import opened JsonText
  import opened Toml

  // ---- Inline values ----

  lemma ElementsUnfold(items: seq<Value>)
    requires items != []
    ensures ElementsText(items)
            == InlineText(items[0]) + if |items| == 1 then "" else ", " + ElementsText(items[1..])
  {
    hide InlineText;
    assert RenderedItems(items)[1..] == RenderedItems(items[1..]);
    assert RenderedItems(items)[0] == InlineText(items[0]);
  }

  lemma PairsUnfold(members: seq<Member>)
    requires members != []
    ensures PairsText(members)
            == PairText(members[0]) + if |members| == 1 then "" else ", " + PairsText(members[1..])
  {
    hide PairText;
    assert RenderedPairs(members)[1..] == RenderedPairs(members[1..]);
    assert RenderedPairs(members)[0] == PairText(members[0]);
  }

  lemma InlineStarts(v: Value)
    requires WellFormed(v)
    ensures InlineText(v) != "" && InlineText(v)[0] !in {' ', ']', '}', ','}
  {
    hide ScalarText, ElementsText, PairsText, WellFormed;
    if IsScalar(v) {
      ScalarStarts(v);
    }
  }

  lemma PairStarts(m: Member)
    ensures PairText(m) != "" && PairText(m)[0] == '"'
  {
    hide InlineText, Escaped;
  }

  predicate EndsNumber(rest: string) {
    rest == "" || !IsNumberChar(rest[0])
  }

  lemma InlineScalarReadsBack(v: Value, rest: string)
    requires IsScalar(v) && WellFormed(v) && EndsNumber(rest)
    ensures ReadInline(InlineText(v) + rest) == Some((NullAsEmpty(v), rest))
  {
    hide ReadElements, ReadPairs, ReadScalar, ScalarText, WellFormed;
    var s := InlineText(v) + rest;
    ScalarStarts(v);
    ScalarReadsBack(v, rest);
    assert s == ScalarText(v) + rest && s[0] == ScalarText(v)[0];
  }

  /** An inline value reads back to itself, nulls to empty strings. */
  lemma {:induction false} InlineReadsBack(v: Value, rest: string)
    requires WellFormed(v) && EndsNumber(rest)
    ensures ReadInline(InlineText(v) + rest) == Some((NullAsEmpty(v), rest))
    decreases v, 0
  {
    hide ElementsText, PairsText, ReadElements, ReadPairs, ReadScalar, ScalarText, WellFormed, IsNumberChar;
    var s := InlineText(v) + rest;
    match v
    case Array(items) =>
      ArrayReadsBack(items, rest);
      assert s[1..] == ElementsText(items) + ("]" + rest);
    case Object(members) =>
      ObjectReadsBack(members, rest);
      assert s[1..] == " " + PairsText(members) + (" }" + rest);
    case _ =>
      InlineScalarReadsBack(v, rest);
  }

  lemma {:induction false} ArrayReadsBack(items: seq<Value>, rest: string)
    requires WellFormed(Array(items))
    ensures
      var t := Skip(ElementsText(items) + ("]" + rest));
      if items == [] then t == "]" + rest && t[1..] == rest && NullAsEmptyItems(items) == []
      else !StartsWith(t, ']') && ReadElements(t) == Some((NullAsEmptyItems(items), rest))
    decreases items, 1
  {
    hide InlineText, ReadElements, WellFormed;
    if items == [] {
      assert ElementsText(items) + ("]" + rest) == "]" + rest;
      assert ("]" + rest)[1..] == rest;
    } else {
      ElementsUnfold(items);
      FirstIsWellFormed(items);
      InlineStarts(items[0]);
      ElementsReadBack(items, rest);
    }
  }

  lemma FirstKeyIsNew(members: seq<Member>)
    requires members != [] && WellFormed(Object(members))
    ensures WellFormed(members[0].value) && WellFormed(Object(members[1..]))
    ensures !HasKey(NullAsEmptyMembers(members[1..]), members[0].key)
  {
    FirstMemberIsWellFormed(members);
  }

  lemma {:induction false} ElementsReadBack(items: seq<Value>, rest: string)
    requires items != [] && WellFormed(Array(items))
    ensures ReadElements(ElementsText(items) + ("]" + rest)) == Some((NullAsEmptyItems(items), rest))
    decreases items, 0
  {
    hide InlineText, ElementsText, ReadInline, WellFormed, NullAsEmpty;
    FirstIsWellFormed(items);
    ElementsUnfold(items);
    var s := ElementsText(items) + ("]" + rest);
    if |items| == 1 {
      InlineReadsBack(items[0], "]" + rest);
      assert s == InlineText(items[0]) + ("]" + rest);
      assert ("]" + rest)[1..] == rest;
      assert NullAsEmptyItems(items) == [NullAsEmpty(items[0])];
    } else {
      var next := ElementsText(items[1..]) + ("]" + rest);
      InlineReadsBack(items[0], ", " + next);
      assert s == InlineText(items[0]) + (", " + next);
      FirstIsWellFormed(items[1..]);
      ElementsUnfold(items[1..]);
      InlineStarts(items[1]);
      SkipsOne(next);
      ElementsReadBack(items[1..], rest);
    }
  }

  /** A separator and its space are passed over. */
  lemma SkipsOne(next: string)
    requires next != "" && next[0] != ' '
    ensures Skip((", " + next)[1..]) == next && Skip(" " + next) == next
  {
    assert (", " + next)[1..] == " " + next;
    assert (" " + next)[1..] == next;
  }

  lemma {:induction false} ObjectReadsBack(members: seq<Member>, rest: string)
    requires WellFormed(Object(members))
    ensures
      var t := Skip(" " + PairsText(members) + (" }" + rest));
      if members == [] then t == "}" + rest && t[1..] == rest && NullAsEmptyMembers(members) == []
      else !StartsWith(t, '}') && ReadPairs(t) == Some((NullAsEmptyMembers(members), rest))
    decreases members, 1
  {
    hide PairText, ReadPairs, WellFormed;
    if members == [] {
      assert " " + PairsText(members) + (" }" + rest) == "  }" + rest;
      assert ("  }" + rest)[1..] == " }" + rest && (" }" + rest)[1..] == "}" + rest;
      assert ("}" + rest)[1..] == rest;
    } else {
      PairsUnfold(members);
      PairStarts(members[0]);
      var next := PairsText(members) + (" }" + rest);
      assert " " + PairsText(members) + (" }" + rest) == " " + next;
      SkipsOne(next);
      PairsReadBack(members, rest);
    }
  }

  lemma {:induction false} PairReadsBack(m: Member, rest: string)
    requires WellFormed(m.value) && EndsNumber(rest)
    ensures ReadPair(PairText(m) + rest) == Some((Member(m.key, NullAsEmpty(m.value)), rest))
    decreases m, 0
  {
    hide InlineText, ReadString, JsonString, ReadInline, NullAsEmpty, WellFormed;
    var text := InlineText(m.value) + rest;
    assert PairText(m) + rest == JsonString(m.key) + (" = " + text);
    StringReadsBack(m.key, " = " + text);
    InlineStarts(m.value);
    assert (" = " + text)[1..] == "= " + text;
    assert ("= " + text)[1..] == " " + text;
    assert Skip(" = " + text) == "= " + text;
    SkipsOne(text);
    InlineReadsBack(m.value, rest);
  }

  lemma {:induction false} PairsReadBack(members: seq<Member>, rest: string)
    requires members != [] && WellFormed(Object(members))
    ensures ReadPairs(PairsText(members) + (" }" + rest)) == Some((NullAsEmptyMembers(members), rest))
    decreases members, 0
  {
    hide PairText, PairsText, ReadPair, WellFormed, NullAsEmpty, HasKey;
    FirstKeyIsNew(members);
    PairsUnfold(members);
    var s := PairsText(members) + (" }" + rest);
    var first := Member(members[0].key, NullAsEmpty(members[0].value));
    if |members| == 1 {
      PairReadsBack(members[0], " }" + rest);
      assert s == PairText(members[0]) + (" }" + rest);
      assert (" }" + rest)[1..] == "}" + rest && ("}" + rest)[1..] == rest;
      assert Skip(" }" + rest) == "}" + rest;
      assert NullAsEmptyMembers(members) == [first];
    } else {
      var next := PairsText(members[1..]) + (" }" + rest);
      PairReadsBack(members[0], ", " + next);
      assert s == PairText(members[0]) + (", " + next);
      PairsUnfold(members[1..]);
      PairStarts(members[1]);
      SkipsOne(next);
      PairsReadBack(members[1..], rest);
    }
  }

  // ---- Lines and sections ----

  lemma {:induction false} LinesReadBack(members: seq<Member>, rest: string)
    requires WellFormed(Object(members)) && !StartsWith(rest, '"')
    ensures ReadLines(LinesText(members) + rest) == Some((NullAsEmptyMembers(members), rest))
  {
    hide PairText, ReadPair, WellFormed, NullAsEmpty, HasKey;
    if members == [] {
      assert LinesText(members) + rest == rest;
    } else {
      FirstKeyIsNew(members);
      var next := LinesText(members[1..]) + rest;
      PairStarts(members[0]);
      PairReadsBack(members[0], "\n" + next);
      assert LinesText(members) + rest == PairText(members[0]) + ("\n" + next);
      assert ("\n" + next)[1..] == next;
      LinesReadBack(members[1..], rest);
    }
  }

  /** One `[key]` section. */
  lemma TableReads(key: string, members: seq<Member>, rest: string, entries: seq<Entry>)
    requires WellFormed(Object(members)) && !StartsWith(rest, '"')
    requires !Bound(entries, key)
    ensures ReadSections("\n[" + JsonString(key) + "]\n" + LinesText(members) + rest, entries)
            == ReadSections(rest, entries + [Fixed(key, Object(NullAsEmptyMembers(members)))])
  {
    hide LinesText, ReadLines, ReadString, WellFormed, Bound, Escaped;
    var lines := LinesText(members) + rest;
    var after := "]\n" + lines;
    var s := "\n[" + JsonString(key) + "]\n" + LinesText(members) + rest;
    assert s == "\n[" + (JsonString(key) + after) && s[2..] == JsonString(key) + after;
    assert s[2] == '"';
    StringReadsBack(key, after);
    assert after[2..] == lines;
    LinesReadBack(members, rest);
  }

  /** One `[[key]]` section. */
  lemma EntryReads(key: string, members: seq<Member>, rest: string, entries: seq<Entry>)
    requires WellFormed(Object(members)) && !StartsWith(rest, '"')
    ensures
      var next := Grow(entries, key, Object(NullAsEmptyMembers(members)));
      next.Some? ==>
        ReadSections("\n[[" + JsonString(key) + "]]\n" + LinesText(members) + rest, entries) == ReadSections(rest, next.value)
  {
    hide LinesText, ReadLines, ReadString, WellFormed, Bound, Escaped, Grow, JsonString;
    var lines := LinesText(members) + rest;
    var after := "]]\n" + lines;
    var s := "\n[[" + JsonString(key) + "]]\n" + LinesText(members) + rest;
    assert s == "\n[[" + (JsonString(key) + after) && s[3..] == JsonString(key) + after;
    assert s[2..][0] == '[';
    StringReadsBack(key, after);
    assert after[3..] == lines;
    LinesReadBack(members, rest);
  }

  lemma {:induction false} GrowNew(entries: seq<Entry>, key: string, table: Value)
    requires !Bound(entries, key)
    ensures Grow(entries, key, table) == Some(entries + [Growing(key, [table])])
  {
    if entries != [] {
      assert entries[0].key != key;
      assert !Bound(entries[1..], key) by {
        assert forall i :: 0 <= i < |entries[1..]| ==> entries[1..][i] == entries[i + 1];
      }
      GrowNew(entries[1..], key, table);
      assert entries + [Growing(key, [table])] == [entries[0]] + (entries[1..] + [Growing(key, [table])]);
    } else {
      assert entries + [Growing(key, [table])] == [Growing(key, [table])];
    }
  }

  lemma {:induction false} GrowLast(entries: seq<Entry>, key: string, tables: seq<Value>, table: Value)
    requires !Bound(entries, key)
    ensures Grow(entries + [Growing(key, tables)], key, table) == Some(entries + [Growing(key, tables + [table])])
  {
    var all := entries + [Growing(key, tables)];
    if entries == [] {
      assert all == [Growing(key, tables)] && all[1..] == [];
      assert entries + [Growing(key, tables + [table])] == [Growing(key, tables + [table])] + all[1..];
    } else {
      assert entries[0].key != key;
      assert !Bound(entries[1..], key) by {
        assert forall i :: 0 <= i < |entries[1..]| ==> entries[1..][i] == entries[i + 1];
      }
      assert all[1..] == entries[1..] + [Growing(key, tables)];
      GrowLast(entries[1..], key, tables, table);
      assert entries + [Growing(key, tables + [table])] == [entries[0]] + (entries[1..] + [Growing(key, tables + [table])]);
    }
  }

  predicate AllObjects(items: seq<Value>) {
    forall i :: 0 <= i < |items| ==> items[i].Object?
  }

  lemma EntriesStart(key: string, items: seq<Value>, rest: string)
    requires AllObjects(items) && !StartsWith(rest, '"')
    ensures !StartsWith(EntriesText(key, items) + rest, '"')
  {
    if items == [] {
      assert EntriesText(key, items) + rest == rest;
    }
  }

  /** The remaining `[[key]]` sections of an array all land in it, in order. */
  lemma {:induction false} MoreEntriesRead(
    key: string, items: seq<Value>, sofar: seq<Value>, rest: string, entries: seq<Entry>)
    requires AllObjects(items) && WellFormed(Array(items)) && !StartsWith(rest, '"') && !Bound(entries, key)
    ensures ReadSections(EntriesText(key, items) + rest, entries + [Growing(key, sofar)])
            == ReadSections(rest, entries + [Growing(key, sofar + NullAsEmptyItems(items))])
  {
    hide ReadSections, WellFormed, Grow, Bound, LinesText, JsonString;
    if items == [] {
      assert EntriesText(key, items) + rest == rest;
      assert sofar + NullAsEmptyItems(items) == sofar;
    } else {
      FirstIsWellFormed(items);
      var first := NullAsEmpty(items[0]);
      var next := EntriesText(key, items[1..]) + rest;
      EntriesStart(key, items[1..], rest);
      GrowLast(entries, key, sofar, first);
      EntryReads(key, items[0].members, next, entries + [Growing(key, sofar)]);
      assert EntriesText(key, items) + rest
             == "\n[[" + JsonString(key) + "]]\n" + LinesText(items[0].members) + next;
      MoreEntriesRead(key, items[1..], sofar + [first], rest, entries);
      assert sofar + [first] + NullAsEmptyItems(items[1..]) == sofar + NullAsEmptyItems(items);
    }
  }

  lemma EntriesRead(key: string, items: seq<Value>, rest: string, entries: seq<Entry>)
    requires items != [] && AllObjects(items) && WellFormed(Array(items)) && !StartsWith(rest, '"') && !Bound(entries, key)
    ensures ReadSections(EntriesText(key, items) + rest, entries)
            == ReadSections(rest, entries + [Growing(key, NullAsEmptyItems(items))])
  {
    hide ReadSections, WellFormed, Grow, Bound, LinesText, JsonString;
    FirstIsWellFormed(items);
    var first := NullAsEmpty(items[0]);
    var next := EntriesText(key, items[1..]) + rest;
    EntriesStart(key, items[1..], rest);
    GrowNew(entries, key, first);
    EntryReads(key, items[0].members, next, entries);
    assert EntriesText(key, items) + rest == "\n[[" + JsonString(key) + "]]\n" + LinesText(items[0].members) + next;
    MoreEntriesRead(key, items[1..], [first], rest, entries);
    assert [first] + NullAsEmptyItems(items[1..]) == NullAsEmptyItems(items);
  }

  predicate Unbound(entries: seq<Entry>, members: seq<Member>) {
    forall i :: 0 <= i < |members| ==> !Bound(entries, members[i].key)
  }

  lemma UnboundNext(entries: seq<Entry>, members: seq<Member>, e: Entry)
    requires members != [] && DistinctKeys(members) && Unbound(entries, members) && e.key == members[0].key
    ensures Unbound(entries + [e], members[1..]) && DistinctKeys(members[1..]) && !Bound(entries, members[0].key)
  {
    forall i | 0 <= i < |members[1..]|
      ensures !Bound(entries + [e], members[1..][i].key)
    {
      assert members[1..][i] == members[i + 1] && !Bound(entries, members[i + 1].key);
      assert forall j :: 0 <= j < |entries| ==> (entries + [e])[j] == entries[j];
    }
  }

  lemma {:induction false} TablesRead(members: seq<Member>, rest: string, entries: seq<Entry>)
    requires AllOf(members, Table) && WellFormed(Object(members)) && Unbound(entries, members)
    requires !StartsWith(rest, '"')
    ensures ReadSections(TablesText(members) + rest, entries) == ReadSections(rest, entries + Fix(NullAsEmptyMembers(members)))
  {
    hide ReadSections, WellFormed, Bound, LinesText, JsonString, Unbound, DistinctKeys, HasKey, StartsWith;
    if members == [] {
      assert TablesText(members) + rest == rest;
      assert entries + Fix(NullAsEmptyMembers(members)) == entries;
    } else {
      FirstKeyIsNew(members);
      KeysAreDistinct(members);
      var m := members[0];
      var next := TablesText(members[1..]) + rest;
      var e := Fixed(m.key, NullAsEmpty(m.value));
      TablesStart(members[1..], rest);
      UnboundNext(entries, members, e);
      assert AllOf(members[1..], Table);
      TableReads(m.key, m.value.members, next, entries);
      assert TablesText(members) + rest == "\n[" + JsonString(m.key) + "]\n" + LinesText(m.value.members) + next;
      TablesRead(members[1..], rest, entries + [e]);
      assert entries + [e] + Fix(NullAsEmptyMembers(members[1..])) == entries + Fix(NullAsEmptyMembers(members));
    }
  }

  lemma KeysAreDistinct(members: seq<Member>)
    requires WellFormed(Object(members))
    ensures DistinctKeys(members)
  {
  }

  lemma TablesStart(members: seq<Member>, rest: string)
    requires AllOf(members, Table) && !StartsWith(rest, '"')
    ensures !StartsWith(TablesText(members) + rest, '"')
  {
    hide LinesText, JsonString;
    if members == [] {
      assert TablesText(members) + rest == rest;
    }
  }

  lemma ArraysStart(members: seq<Member>)
    requires AllOf(members, Tables)
    ensures !StartsWith(ArraysText(members), '"')
  {
    if members != [] {
      EntriesStart(members[0].key, members[0].value.items, ArraysText(members[1..]));
    }
  }

  function Grown(members: seq<Member>): (r: seq<Entry>)
    requires AllOf(members, Tables)
    ensures |r| == |members|
    ensures forall i :: 0 <= i < |r| ==> KindOf(members[i].value) == Tables && r[i] == Growing(members[i].key, NullAsEmptyItems(members[i].value.items))
  {
    if members == [] then []
    else
      assert KindOf(members[0].value) == Tables;
      [Growing(members[0].key, NullAsEmptyItems(members[0].value.items))] + Grown(members[1..])
  }

  lemma {:induction false} ArraysRead(members: seq<Member>, entries: seq<Entry>)
    requires AllOf(members, Tables) && WellFormed(Object(members)) && Unbound(entries, members)
    ensures ReadSections(ArraysText(members), entries) == Some(entries + Grown(members))
  {
    hide ReadSections, WellFormed, Bound, Unbound, DistinctKeys, EntriesText;
    if members == [] {
      NoSections(entries);
      assert entries + Grown(members) == entries;
    } else {
      FirstKeyIsNew(members);
      KeysAreDistinct(members);
      var m := members[0];
      assert KindOf(m.value) == Tables && AllObjects(m.value.items);
      assert AllOf(members[1..], Tables);
      var e := Growing(m.key, NullAsEmptyItems(m.value.items));
      ArraysStart(members[1..]);
      UnboundNext(entries, members, e);
      EntriesRead(m.key, m.value.items, ArraysText(members[1..]), entries);
      ArraysRead(members[1..], entries + [e]);
      assert entries + [e] + Grown(members[1..]) == entries + Grown(members);
    }
  }

  lemma NoSections(entries: seq<Entry>)
    ensures ReadSections("", entries) == Some(entries)
  {
  }
}
