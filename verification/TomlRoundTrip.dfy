/** When a document's TOML text reads back to the document, and when its YAML
    and TOML texts denote one document. */
module TomlRoundTrip {
  import opened Prelude
  import opened JsonText
  import opened Toml
  import opened TomlReading

  // ---- Order ----

  /** The emitted order: inline values, then tables, then arrays of tables. */
  function Ordered(members: seq<Member>): seq<Member> {
    Select(members, Inline) + Select(members, Table) + Select(members, Tables)
  }

  /** The emitted order only permutes the top-level members. */
  lemma {:induction false} OrderedIsPermutation(members: seq<Member>)
    ensures multiset(Ordered(members)) == multiset(members)
  {
    hide KindOf, Select;
    var inline, table, tables := Select(members, Inline), Select(members, Table), Select(members, Tables);
    assert multiset(Ordered(members)) == multiset(inline) + multiset(table) + multiset(tables);
    if members == [] {
      EmptyTexts();
    } else {
      var rest := members[1..];
      OrderedIsPermutation(rest);
      assert members == [members[0]] + rest;
      SelectStep(members, Inline);
      SelectStep(members, Table);
      SelectStep(members, Tables);
      assert multiset(Ordered(rest))
             == multiset(Select(rest, Inline)) + multiset(Select(rest, Table)) + multiset(Select(rest, Tables));
    }
  }

  function Stage(v: Value): nat {
    if v.Object? && v.members != [] then 1
    else if v.Array? && v.items != [] && (forall item :: item in v.items ==> item.Object?) then 2
    else 0
  }

  lemma StageIsKind(v: Value)
    ensures Stage(v) == match KindOf(v) case Inline => 0 case Table => 1 case Tables => 2
  {
    KindMeans(v);
  }

  /** Plain values come first, then non-empty objects, then non-empty arrays of
      objects; members of one kind keep their order. */
  lemma OrderedByKind(members: seq<Member>, kind: Kind)
    ensures forall i, j :: 0 <= i < j < |Ordered(members)| ==> Stage(Ordered(members)[i].value) <= Stage(Ordered(members)[j].value)
    ensures Select(Ordered(members), kind) == Select(members, kind)
  {
    hide KindOf, Stage, Select;
    SelectAppend(Select(members, Inline) + Select(members, Table), Select(members, Tables), kind);
    SelectAppend(Select(members, Inline), Select(members, Table), kind);
    SelectOfKind(Select(members, Inline), Inline, kind);
    SelectOfKind(Select(members, Table), Table, kind);
    SelectOfKind(Select(members, Tables), Tables, kind);
    StagesAre(Select(members, Inline), Inline, 0);
    StagesAre(Select(members, Table), Table, 1);
    StagesAre(Select(members, Tables), Tables, 2);
  }

  lemma StagesAre(members: seq<Member>, kind: Kind, stage: nat)
    requires AllOf(members, kind) && stage == match kind case Inline => 0 case Table => 1 case Tables => 2
    ensures forall i :: 0 <= i < |members| ==> Stage(members[i].value) == stage
  {
    hide KindOf, Stage;
    forall i | 0 <= i < |members|
      ensures Stage(members[i].value) == stage
    {
      StageIsKind(members[i].value);
    }
  }

  lemma {:induction false} SelectOfKind(members: seq<Member>, own: Kind, kind: Kind)
    requires AllOf(members, own)
    ensures Select(members, kind) == if own == kind then members else []
  {
    hide KindOf;
    if members != [] {
      SelectOfKind(members[1..], own, kind);
    }
  }

  lemma {:induction false} SelectIsWellFormed(members: seq<Member>, kind: Kind)
    requires WellFormed(Object(members))
    ensures WellFormed(Object(Select(members, kind)))
    ensures forall m :: m in Select(members, kind) ==> m in members
  {
    hide KindOf;
    if members != [] {
      var rest := members[1..];
      assert WellFormed(Object(rest));
      SelectIsWellFormed(rest, kind);
      assert forall m :: m in rest ==> m.key != members[0].key && m in members;
    }
  }

  /** A name of one kind is no name of another. */
  lemma KindsAreDisjoint(members: seq<Member>, a: Kind, b: Kind)
    requires WellFormed(Object(members)) && a != b
    ensures forall i, j :: 0 <= i < |Select(members, a)| && 0 <= j < |Select(members, b)| ==>
              Select(members, a)[i].key != Select(members, b)[j].key
  {
    hide KindOf;
    SelectIsWellFormed(members, a);
    SelectIsWellFormed(members, b);
    forall i, j | 0 <= i < |Select(members, a)| && 0 <= j < |Select(members, b)|
      ensures Select(members, a)[i].key != Select(members, b)[j].key
    {
      var x, y := Select(members, a)[i], Select(members, b)[j];
      assert x in members && y in members && KindOf(x.value) != KindOf(y.value);
    }
  }

  // ---- The character TOML forbids ----

  predicate HasDel(v: Value) {
    match v
    case Str(text) => DEL in text
    case Array(items) => exists i :: 0 <= i < |items| && HasDel(items[i])
    case Object(members) => exists i :: 0 <= i < |members| && MemberHasDel(members[i])
    case _ => false
  }

  predicate MemberHasDel(m: Member) {
    DEL in m.key || HasDel(m.value)
  }

  lemma {:induction false} InlineDelIff(v: Value)
    requires WellFormed(v)
    ensures DEL in InlineText(v) <==> HasDel(v)
    decreases v, 1
  {
    hide Escaped, ElementsText, PairsText;
    match v
    case Str(text) => VerbatimIff(text, DEL);
    case Array(items) => ElementsDelIff(items);
    case Object(members) => PairsDelIff(members);
    case Number(lexeme) =>
      assert DEL in lexeme ==> IsNumberChar(DEL);
    case _ =>
  }

  lemma {:induction false} ElementsDelIff(items: seq<Value>)
    requires WellFormed(Array(items))
    ensures DEL in ElementsText(items) <==> HasDel(Array(items))
    decreases items, 0
  {
    hide InlineText, ElementsText, WellFormed;
    if items == [] {
      NoElements();
    } else {
      FirstIsWellFormed(items);
      ElementsUnfold(items);
      InlineDelIff(items[0]);
      ElementsDelIff(items[1..]);
      NoElements();
      assert HasDel(Array(items)) <==> HasDel(items[0]) || HasDel(Array(items[1..])) by {
        assert items == [items[0]] + items[1..];
        assert forall i :: 1 <= i < |items| ==> items[i] == items[1..][i - 1];
      }
    }
  }

  lemma NoElements()
    ensures ElementsText([]) == "" && PairsText([]) == ""
  {
  }

  lemma {:induction false} PairDelIff(m: Member)
    requires WellFormed(m.value)
    ensures DEL in PairText(m) <==> MemberHasDel(m)
    decreases m, 2
  {
    hide InlineText, JsonString;
    VerbatimIff(m.key, DEL);
    InlineDelIff(m.value);
  }

  lemma FirstDel(members: seq<Member>)
    requires members != []
    ensures HasDel(Object(members)) <==> MemberHasDel(members[0]) || HasDel(Object(members[1..]))
  {
    hide MemberHasDel;
    assert members == [members[0]] + members[1..];
    assert forall i :: 1 <= i < |members| ==> members[i] == members[1..][i - 1];
  }

  lemma {:induction false} PairsDelIff(members: seq<Member>)
    requires WellFormed(Object(members))
    ensures DEL in PairsText(members) <==> HasDel(Object(members))
    decreases members, 3
  {
    hide PairText, PairsText, WellFormed;
    NoElements();
    if members != [] {
      FirstMemberIsWellFormed(members);
      PairsUnfold(members);
      PairDelIff(members[0]);
      PairsDelIff(members[1..]);
      FirstDel(members);
    }
  }

  lemma {:induction false} LinesDelIff(members: seq<Member>)
    requires WellFormed(Object(members))
    ensures DEL in LinesText(members) <==> HasDel(Object(members))
  {
    hide PairText, WellFormed;
    if members != [] {
      FirstMemberIsWellFormed(members);
      PairDelIff(members[0]);
      LinesDelIff(members[1..]);
      FirstDel(members);
    }
  }

  lemma {:induction false} TablesDelIff(members: seq<Member>)
    requires AllOf(members, Table) && WellFormed(Object(members))
    ensures DEL in TablesText(members) <==> HasDel(Object(members))
  {
    hide LinesText, JsonString, WellFormed;
    if members != [] {
      var m := members[0];
      FirstMemberIsWellFormed(members);
      VerbatimIff(m.key, DEL);
      LinesDelIff(m.value.members);
      assert AllOf(members[1..], Table);
      TablesDelIff(members[1..]);
      FirstDel(members);
    }
  }

  lemma {:induction false} EntriesDelIff(key: string, items: seq<Value>)
    requires items != [] && AllObjects(items) && WellFormed(Array(items))
    ensures DEL in EntriesText(key, items) <==> DEL in key || HasDel(Array(items))
  {
    hide LinesText, JsonString, WellFormed;
    FirstIsWellFormed(items);
    VerbatimIff(key, DEL);
    LinesDelIff(items[0].members);
    assert HasDel(Array(items)) <==> HasDel(items[0]) || HasDel(Array(items[1..])) by {
      assert items == [items[0]] + items[1..];
      assert forall i :: 1 <= i < |items| ==> items[i] == items[1..][i - 1];
    }
    if items[1..] != [] {
      EntriesDelIff(key, items[1..]);
    }
  }

  lemma {:induction false} ArraysDelIff(members: seq<Member>)
    requires AllOf(members, Tables) && WellFormed(Object(members))
    ensures DEL in ArraysText(members) <==> HasDel(Object(members))
  {
    hide EntriesText, WellFormed;
    if members != [] {
      var m := members[0];
      FirstMemberIsWellFormed(members);
      assert KindOf(m.value) == Tables && AllObjects(m.value.items);
      EntriesDelIff(m.key, m.value.items);
      assert AllOf(members[1..], Tables);
      ArraysDelIff(members[1..]);
      FirstDel(members);
    }
  }

  lemma {:induction false} SelectDel(members: seq<Member>)
    ensures HasDel(Object(members))
            <==> HasDel(Object(Select(members, Inline))) || HasDel(Object(Select(members, Table)))
                 || HasDel(Object(Select(members, Tables)))
  {
    hide KindOf, MemberHasDel, Select, HasDel;
    if members == [] {
      EmptyTexts();
    } else {
      SelectDel(members[1..]);
      FirstDel(members);
      SelectStep(members, Inline);
      SelectStep(members, Table);
      SelectStep(members, Tables);
      var kind := KindOf(members[0].value);
      FirstDel(Select(members, kind));
      assert Select(members, kind)[1..] == Select(members[1..], kind);
    }
  }

  /** The text holds the character exactly when some key or string does. */
  lemma TextDelIff(members: seq<Member>)
    requires WellFormed(Object(members))
    ensures DEL in TomlText(members) <==> HasDel(Object(members))
  {
    hide LinesText, TablesText, ArraysText, WellFormed, HasDel;
    SelectDel(members);
    SelectIsWellFormed(members, Inline);
    SelectIsWellFormed(members, Table);
    SelectIsWellFormed(members, Tables);
    LinesDelIff(Select(members, Inline));
    TablesDelIff(Select(members, Table));
    ArraysDelIff(Select(members, Tables));
  }

  // ---- Round trip ----

  lemma EntriesUnbound(members: seq<Member>)
    requires WellFormed(Object(members))
    ensures
      var inline := Fix(NullAsEmptyMembers(Select(members, Inline)));
      Unbound(inline, Select(members, Table))
      && Unbound(inline + Fix(NullAsEmptyMembers(Select(members, Table))), Select(members, Tables))
  {
    hide Select, WellFormed, NullAsEmpty;
    KindsAreDisjoint(members, Inline, Table);
    KindsAreDisjoint(members, Inline, Tables);
    KindsAreDisjoint(members, Table, Tables);
  }

  lemma TablesAndArraysStart(members: seq<Member>)
    ensures !StartsWith(TablesText(Select(members, Table)) + ArraysText(Select(members, Tables)), '"')
  {
    hide Select, TablesText, ArraysText, StartsWith;
    ArraysStart(Select(members, Tables));
    TablesStart(Select(members, Table), ArraysText(Select(members, Tables)));
  }

  /** What the text reads back to. */
  lemma TomlReadsAs(members: seq<Member>)
    requires WellFormed(Object(members))
    ensures ReadToml(TomlText(members))
            == if HasDel(Object(members)) then None else Some(NullAsEmptyMembers(Ordered(members)))
  {
    hide LinesText, TablesText, ArraysText, WellFormed, Select, ReadLines, ReadSections, HasDel, StartsWith, Unbound, NullAsEmpty;
    var inline, table, tables := Select(members, Inline), Select(members, Table), Select(members, Tables);
    TextDelIff(members);
    SelectIsWellFormed(members, Inline);
    SelectIsWellFormed(members, Table);
    SelectIsWellFormed(members, Tables);
    EntriesUnbound(members);
    TablesAndArraysStart(members);
    var top := Fix(NullAsEmptyMembers(inline));
    assert TomlText(members) == LinesText(inline) + (TablesText(table) + ArraysText(tables));
    LinesReadBack(inline, TablesText(table) + ArraysText(tables));
    ArraysStart(tables);
    TablesRead(table, ArraysText(tables), top);
    var entries := top + Fix(NullAsEmptyMembers(table));
    ArraysRead(tables, entries);
    UnfixIsOrdered(members);
  }

  lemma UnfixIsOrdered(members: seq<Member>)
    ensures
      var inline, table, tables := Select(members, Inline), Select(members, Table), Select(members, Tables);
      Unfix(Fix(NullAsEmptyMembers(inline)) + Fix(NullAsEmptyMembers(table)) + Grown(tables))
      == NullAsEmptyMembers(Ordered(members))
  {
    hide Select, Fix, Unfix, Grown, NullAsEmptyMembers, NullAsEmptyItems;
    var inline, table, tables := Select(members, Inline), Select(members, Table), Select(members, Tables);
    var entries := Fix(NullAsEmptyMembers(inline)) + Fix(NullAsEmptyMembers(table)) + Grown(tables);
    var read, expected := Unfix(entries), NullAsEmptyMembers(Ordered(members));
    assert |read| == |expected|;
    forall i | 0 <= i < |read|
      ensures read[i] == expected[i]
    {
      if i >= |inline| + |table| {
        var j := i - |inline| - |table|;
        assert entries[i] == Grown(tables)[j] && Ordered(members)[i] == tables[j];
        assert tables[j].value == Array(tables[j].value.items);
      } else if i >= |inline| {
        assert entries[i] == Fix(NullAsEmptyMembers(table))[i - |inline|];
      }
    }
  }

  /** The same members, in whatever order. */
  predicate SameMembers(a: seq<Member>, b: seq<Member>) {
    multiset(a) == multiset(b)
  }

  lemma {:induction false} NoNullLeft(v: Value)
    ensures !HasNull(NullAsEmpty(v))
  {
    match v
    case Array(items) =>
      forall i | 0 <= i < |items|
        ensures !HasNull(NullAsEmpty(items[i]))
      {
        NoNullLeft(items[i]);
      }
    case Object(members) =>
      forall i | 0 <= i < |members|
        ensures !HasNull(NullAsEmpty(members[i].value))
      {
        NoNullLeft(members[i].value);
      }
    case _ =>
  }

  lemma SameMembersSameNulls(a: seq<Member>, b: seq<Member>)
    requires SameMembers(a, b)
    ensures HasNull(Object(a)) == HasNull(Object(b))
  {
    assert forall m :: m in a <==> m in multiset(a);
    assert forall m :: m in b <==> m in multiset(b);
    if HasNull(Object(a)) {
      var i :| 0 <= i < |a| && HasNull(a[i].value);
      assert a[i] in b;
    }
    if HasNull(Object(b)) {
      var i :| 0 <= i < |b| && HasNull(b[i].value);
      assert b[i] in a;
    }
  }

  /** A document reads back, up to the order of its top-level members, exactly
      when it holds no null and no U+007F. */
  lemma TomlReadsBackIff(members: seq<Member>)
    requires WellFormed(Object(members))
    ensures (ReadToml(TomlText(members)).Some? && SameMembers(ReadToml(TomlText(members)).value, members))
            <==> !HasNull(Object(members)) && !HasDel(Object(members))
  {
    hide ReadToml, TomlText, WellFormed, HasNull, HasDel, Ordered, Select;
    TomlReadsAs(members);
    OrderedIsPermutation(members);
    var ordered := Ordered(members);
    var read := NullAsEmptyMembers(ordered);
    SameMembersSameNulls(ordered, members);
    NoNullLeft(Object(ordered));
    assert NullAsEmpty(Object(ordered)) == Object(read);
    NullAsEmptyIsIdentityIff(Object(ordered));
    if SameMembers(read, members) {
      SameMembersSameNulls(read, members);
    }
  }

  /** A document TOML cannot carry, and one whose null comes back as text. */
  lemma DelAndNullDoNotReadBack()
    ensures
      var del := [Member("k", Str([DEL]))];
      WellFormed(Object(del)) && ReadToml(TomlText(del)).None?
    ensures
      var absent := [Member("k", Null)];
      WellFormed(Object(absent)) && ReadToml(TomlText(absent)) == Some([Member("k", Str(""))])
  {
    hide ReadToml, TomlText, Select;
    var del, absent := [Member("k", Str([DEL]))], [Member("k", Null)];
    assert MemberHasDel(del[0]);
    TomlReadsAs(del);
    TomlReadsAs(absent);
    SelectStep(absent, Inline);
    SelectStep(absent, Table);
    SelectStep(absent, Tables);
    EmptyTexts();
    assert absent[1..] == [] && KindOf(absent[0].value) == Inline;
    assert Ordered(absent) == absent;
    assert NullAsEmptyMembers(absent) == [Member("k", Str(""))];
  }
}
