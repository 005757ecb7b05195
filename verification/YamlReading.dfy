/** What the YAML text of any document reads as, given on the document itself:
    which value, if any, a reader that goes by columns makes of it. */
module YamlReading {
  import opened Prelude
  import opened JsonText
  import opened Yaml

  // ---- The reading, without the text ----

  /** Lines that the node on whose first line they began does not take: items, or
      members, written at `indent`. `reading` is what a sequence in column
      2 * indent makes of the items. */
  datatype Left =
    | Dashes(indent: nat, items: seq<Value>, reading: Option<seq<Value>>)
    | Keys(indent: nat, members: seq<Member>)

  /** What a value is read as where the emitter means it to stand: in column
      2 * indent. */
  function ReadNode(v: Value, indent: nat): Option<Value>
    decreases v, 0
  {
    if v.Array? then
      var items := ReadItems(v.items, indent);
      if items.Some? then Some(Array(items.value)) else None
    else if v.Object? then
      var members := ReadMembers(v.members, indent);
      if members.Some? then Some(Object(members.value)) else None
    else Some(NullAsEmpty(v))
  }

  function ReadItems(items: seq<Value>, indent: nat): (r: Option<seq<Value>>)
    ensures r.Some? ==> |r.value| == |items|
    decreases items, 0
  {
    if items == [] then Some([])
    else
      var first := ReadItem(items[0], indent);
      var more := ReadItems(items[1..], indent);
      if first.Some? && more.Some? then Some([first.value] + more.value) else None
  }

  /** An array within an array starts too far right, and must leave no line. */
  function ReadItem(item: Value, indent: nat): Option<Value>
    decreases item, 1
  {
    if item.Array? && item.items != [] then
      var r := ReadShifted(item, indent + 1, 4 * indent + 4);
      if r.Some? && r.value.1 == [] then Some(r.value.0) else None
    else ReadNode(item, indent + 1)
  }

  function ReadMembers(members: seq<Member>, indent: nat): (r: Option<seq<Member>>)
    ensures r.Some? ==> |r.value| == |members| && forall i :: 0 <= i < |members| ==> r.value[i].key == members[i].key
    decreases members, 0
  {
    if members == [] then Some([])
    else
      var first := ReadNode(members[0].value, indent + 1);
      var more := ReadMembers(members[1..], indent);
      if first.Some? && more.Some? then Some([Member(members[0].key, first.value)] + more.value) else None
  }

  /** What a value is read as whose first line starts further right, in column
      `col`, and the lines it leaves, nearest first. */
  function ReadShifted(v: Value, indent: nat, col: nat): Option<(Value, seq<Left>)>
    decreases v, 0
  {
    if v.Array? && v.items != [] then
      var first := ReadShifted(v.items[0], indent + 1, col + 2 + Gap(v.items[0], indent));
      if first.None? then None
      else Rejoined(first.value.0, first.value.1 + OtherItems(v.items, indent), col)
    else if v.Object? && v.members != [] then
      var m := v.members[0];
      if IsBlock(m.value) then
        Some((Object([Member(m.key, Null)]), [Below(m.value, indent + 1)] + OtherMembers(v.members, indent)))
      else Some((Object([Member(m.key, NullAsEmpty(m.value))]), OtherMembers(v.members, indent)))
    else Some((NullAsEmpty(v), []))
  }

  /** The padding that an array gets even right after a dash. */
  function Gap(item: Value, indent: nat): nat {
    if item.Array? && item.items != [] then 2 * (indent + 1) else 0
  }

  function OtherItems(items: seq<Value>, indent: nat): seq<Left>
    requires items != []
    decreases items, 1
  {
    if |items| == 1 then [] else [Dashes(indent, items[1..], ReadItems(items[1..], indent))]
  }

  function OtherMembers(members: seq<Member>, indent: nat): seq<Left>
    requires members != []
  {
    if |members| == 1 then [] else [Keys(indent, members[1..])]
  }

  /** A block that is not deeper than its own key. */
  function Below(v: Value, indent: nat): Left
    requires IsBlock(v)
    decreases v, 1
  {
    if v.Array? then Dashes(indent, v.items, ReadItems(v.items, indent)) else Keys(indent, v.members)
  }

  /** A sequence in column `col`, after its first item: dashes left in that very
      column are taken for its own items, nearer lines end it, lines further
      right fit nowhere. */
  function Rejoined(first: Value, left: seq<Left>, col: nat): Option<(Value, seq<Left>)> {
    if left == [] || 2 * left[0].indent < col || (2 * left[0].indent == col && left[0].Keys?) then
      Some((Array([first]), left))
    else if 2 * left[0].indent == col && left[0].reading.Some? then
      Some((Array([first] + left[0].reading.value), left[1..]))
    else None
  }

  // ---- The lines left, as text ----

  function LeftText(left: seq<Left>): string {
    if left == [] then "" else LinesOf(left[0]) + LeftText(left[1..])
  }

  function LinesOf(l: Left): string {
    match l
    case Dashes(indent, items, _) => ItemsText(items, indent)
    case Keys(indent, members) => MembersText(members, indent)
  }

  lemma {:induction false} LeftTextAppend(a: seq<Left>, b: seq<Left>)
    ensures LeftText(a + b) == LeftText(a) + LeftText(b)
  {
    if a == [] {
      assert a + b == b;
    } else {
      assert (a + b)[0] == a[0] && (a + b)[1..] == a[1..] + b;
      LeftTextAppend(a[1..], b);
    }
  }

  function WithRest<T>(r: Option<T>, rest: string): Option<(T, string)> {
    if r.Some? then Some((r.value, rest)) else None
  }

  function WithLeft(r: Option<(Value, seq<Left>)>, rest: string): Option<(Value, string)> {
    if r.Some? then Some((r.value.0, LeftText(r.value.1) + rest)) else None
  }

  /** A sequence whose first item starts right here. */
  function SeqText(items: seq<Value>, indent: nat, rest: string): string
    requires items != []
  {
    ItemText(items[0], indent) + ItemsText(items[1..], indent) + rest
  }

  /** `reading` is indeed what the text of the items reads as. */
  predicate ReadsBefore(d: Left, rest: string)
    requires d.Dashes? && d.items != []
  {
    ParseSeq(SeqText(d.items, d.indent, rest), 2 * d.indent) == WithRest(d.reading, rest)
  }

  ghost predicate IsLeft(l: Left, indent: nat) {
    && l.indent >= indent
    && (l.Keys? ==> l.members != [])
    && (l.Dashes? ==> l.items != [] && forall rest: string :: Outdented(rest, 2 * l.indent) ==> ReadsBefore(l, rest))
  }

  /** Lines are left from the inside out, each less indented than the last. */
  ghost predicate AreLeft(left: seq<Left>, indent: nat) {
    && (forall i :: 0 <= i < |left| ==> IsLeft(left[i], indent))
    && (forall i, j :: 0 <= i < j < |left| ==> left[i].indent > left[j].indent)
  }

  lemma LinesStand(l: Left, tail: string)
    requires (l.Dashes? ==> l.items != []) && (l.Keys? ==> l.members != [])
    requires Outdented(tail, 2 * l.indent)
    ensures
      var after := LinesOf(l) + tail;
      && after != "" && Indent(after) == 2 * l.indent
      && (l.Dashes? <==> IsDash(after[2 * l.indent..]))
      && (l.Dashes? ==> after[2 * l.indent..] == SeqText(l.items, l.indent, tail))
  {
    hide ItemsText, ItemText, MembersText, MemberText, Indent;
    if l.Dashes? {
      NextItem(l.items, l.indent, tail);
    } else {
      NextMember(l.members, l.indent, tail);
    }
  }

  lemma SplitLeft(left: seq<Left>, indent: nat)
    requires left != [] && AreLeft(left, indent)
    ensures IsLeft(left[0], indent) && AreLeft(left[1..], indent) && left[0].indent >= indent
    ensures (left[0].Dashes? ==> left[0].items != []) && (left[0].Keys? ==> left[0].members != [])
    ensures left[1..] != [] ==> left[0].indent > left[1..][0].indent
  {
    hide ReadsBefore;
  }

  /** Lines left lie left of whatever came before them. */
  lemma {:induction false} LeftIsOutdented(before: nat, left: seq<Left>, indent: nat, rest: string)
    requires AreLeft(left, indent) && Outdented(rest, 2 * indent)
    requires before >= indent && (left != [] ==> before > left[0].indent)
    ensures Outdented(LeftText(left) + rest, 2 * before)
    decreases |left|
  {
    hide LinesOf, IsDash, Indent, SeqText, AreLeft, IsLeft;
    if left == [] {
      assert LeftText(left) + rest == rest;
    } else {
      var l, more := left[0], left[1..];
      SplitLeft(left, indent);
      LeftIsOutdented(l.indent, more, indent, rest);
      LinesStand(l, LeftText(more) + rest);
      assert LeftText(left) + rest == LinesOf(l) + (LeftText(more) + rest);
    }
  }

  /** The first line left. */
  lemma FirstLeft(left: seq<Left>, indent: nat, rest: string)
    requires AreLeft(left, indent) && Outdented(rest, 2 * indent)
    ensures
      var after := LeftText(left) + rest;
      if left == [] then after == rest
      else
        var tail := LeftText(left[1..]) + rest;
        && after != "" && Indent(after) == 2 * left[0].indent
        && Outdented(tail, 2 * left[0].indent)
        && (left[0].Dashes? <==> IsDash(after[2 * left[0].indent..]))
        && (left[0].Dashes? ==> after[2 * left[0].indent..] == SeqText(left[0].items, left[0].indent, tail))
  {
    hide LinesOf, IsDash, Indent, SeqText, AreLeft, IsLeft, Outdented;
    if left == [] {
      assert LeftText(left) + rest == rest;
    } else {
      var l, more := left[0], left[1..];
      SplitLeft(left, indent);
      LeftIsOutdented(l.indent, more, indent, rest);
      LinesStand(l, LeftText(more) + rest);
      assert LeftText(left) + rest == LinesOf(l) + (LeftText(more) + rest);
    }
  }

  // ---- The text reads as that ----

  lemma RejoinedReadsAs(first: Value, left: seq<Left>, indent: nat, col: nat, rest: string)
    requires AreLeft(left, indent) && Outdented(rest, 2 * indent) && col > 2 * indent
    ensures
      var items := SeqAfter(first, LeftText(left) + rest, col);
      (if items.None? then None else Some((Array(items.value.0), items.value.1))) == WithLeft(Rejoined(first, left, col), rest)
  {
    hide ParseSeq, LeftText, LinesOf, IsDash, Indent, SeqText;
    FirstLeft(left, indent, rest);
    if left != [] && 2 * left[0].indent == col && left[0].Dashes? {
      assert IsLeft(left[0], indent);
      assert ReadsBefore(left[0], LeftText(left[1..]) + rest);
    } else if left == [] {
      assert LeftText([]) == "" by {
        EmptyLeft();
      }
    }
  }

  lemma EmptyLeft()
    ensures LeftText([]) == ""
  {
  }

  lemma OneLeft(l: Left)
    ensures LeftText([l]) == LinesOf(l)
  {
    hide LinesOf;
    assert [l][1..] == [];
  }

  /** The text of further items or members is what is left of them. */
  lemma OthersText(v: Value, indent: nat)
    requires IsBlock(v)
    ensures v.Array? ==> LeftText(OtherItems(v.items, indent)) == ItemsText(v.items[1..], indent)
    ensures v.Object? ==> LeftText(OtherMembers(v.members, indent)) == MembersText(v.members[1..], indent)
  {
    hide ReadItems, ItemText, MemberText, LeftText;
    EmptyLeft();
    if v.Array? && |v.items| > 1 {
      OneLeft(OtherItems(v.items, indent)[0]);
    } else if v.Object? && |v.members| > 1 {
      OneLeft(OtherMembers(v.members, indent)[0]);
    }
  }

  lemma RejoinedAreLeft(first: Value, left: seq<Left>, indent: nat, col: nat)
    requires AreLeft(left, indent)
    ensures Rejoined(first, left, col).Some? ==> AreLeft(Rejoined(first, left, col).value.1, indent)
  {
    hide IsLeft;
  }

  /** The lines of the further items come after those the first item left. */
  lemma OtherItemsAreLeft(left: seq<Left>, items: seq<Value>, indent: nat, rest: string)
    requires items != [] && AreLeft(left, indent + 1)
    requires forall l, tail: string :: l in OtherItems(items, indent) && Outdented(tail, 2 * indent) ==> ReadsBefore(l, tail)
    ensures AreLeft(left + OtherItems(items, indent), indent)
    ensures LeftText(left + OtherItems(items, indent)) + rest == LeftText(left) + (ItemsText(items[1..], indent) + rest)
  {
    hide ReadsBefore, ItemsText, LeftText;
    var others := OtherItems(items, indent);
    LeftTextAppend(left, others);
    OthersText(Array(items), indent);
    forall i | 0 <= i < |left + others|
      ensures IsLeft((left + others)[i], indent)
    {
      if i < |left| {
        assert IsLeft(left[i], indent + 1);
      }
    }
  }

  lemma {:induction false} NodeReadsAs(v: Value, indent: nat, rest: string)
    requires WellFormed(v) && (v.Array? ==> indent > 0)
    requires IsBlock(v) ==> Outdented(rest, 2 * indent)
    ensures ParseNode(Body(v, indent) + rest, 2 * indent) == WithRest(ReadNode(v, indent), rest)
    decreases v, 1
  {
    hide ParseSeq, ParseMap, ParseInline, ItemText, ItemsText, MemberText, MembersText, YamlText, WellFormed;
    var s := Body(v, indent) + rest;
    if v.Array? && v.items != [] {
      ItemsReadAs(v.items, indent, rest);
      ItemStarts(v.items[0], indent);
      assert s == SeqText(v.items, indent, rest);
    } else if v.Object? && v.members != [] {
      var next := MembersText(v.members[1..], indent) + rest;
      MemberIsNode(v.members[0], indent, next);
      assert s == MemberText(v.members[0], indent) + next;
      MembersReadAs(v.members, indent, rest);
    } else {
      InlineNodeReadsAs(v, indent, rest, 2 * indent);
    }
  }

  lemma InlineNodeReadsAs(v: Value, indent: nat, rest: string, col: nat)
    requires WellFormed(v) && !IsBlock(v)
    ensures ParseNode(Body(v, indent) + rest, col) == Some((NullAsEmpty(v), rest))
    ensures ReadNode(v, indent) == Some(NullAsEmpty(v))
  {
    hide ParseSeq, ParseMap, ParseInline, YamlText, WellFormed;
    InlineReadsBack(v, indent, rest);
    NotANode(v, indent, rest);
    NullAsEmptyIsIdentityIff(v);
  }

  lemma {:induction false} ItemsReadAs(items: seq<Value>, indent: nat, rest: string)
    requires items != [] && WellFormed(Array(items)) && indent > 0
    requires Outdented(rest, 2 * indent)
    ensures ParseSeq(SeqText(items, indent, rest), 2 * indent) == WithRest(ReadItems(items, indent), rest)
    decreases items, 0
  {
    hide ParseSeq, ParseNode, Body, YamlText, ItemText, ItemsText, WellFormed, ReadItem, IsDash, Indent;
    var next := ItemsText(items[1..], indent) + rest;
    var s := SeqText(items, indent, rest);
    assert s == ItemText(items[0], indent) + next;
    FirstIsWellFormed(items);
    NextItem(items[1..], indent, rest);
    ItemReadsAs(items[0], indent, next);
    var more := items[1..];
    if more == [] {
      assert ReadItems(more, indent) == Some([]);
      assert forall first: Value :: [first] + [] == [first];
    } else {
      LinesStand(Dashes(indent, more, None), rest);
      ItemsReadAs(more, indent, rest);
    }
  }

  /** One item where it is meant to be: if it takes all its lines, the sequence
      goes on with what follows; otherwise a line that fits nowhere is next. */
  lemma {:induction false} ItemReadsAs(item: Value, indent: nat, next: string)
    requires WellFormed(item) && indent > 0 && Outdented(next, 2 * indent + 2)
    ensures IsDash(ItemText(item, indent) + next)
    ensures
      var read := ReadItem(item, indent);
      ParseSeq(ItemText(item, indent) + next, 2 * indent)
      == if read.None? then None else SeqAfter(read.value, next, 2 * indent)
    decreases item, 3
  {
    hide ParseSeq, ParseNode, Body, YamlText, ItemText, WellFormed, ReadNode, ReadShifted, IsDash, Indent, SeqAfter, AreLeft, Outdented;
    var s := ItemText(item, indent) + next;
    ItemStands(item, indent, 2 * indent, next);
    SeqStep(s, 2 * indent);
    if item.Array? && item.items != [] {
      ShiftedReadsAs(item, indent + 1, 4 * indent + 4, next);
      ShiftedAreLeft(item, indent + 1, 4 * indent + 4);
      var r := ReadShifted(item, indent + 1, 4 * indent + 4);
      if r.Some? {
        NothingMayBeLeft(r.value.0, r.value.1, indent, next);
      }
    } else {
      NodeReadsAs(item, indent + 1, next);
    }
  }

  /** Right of a sequence's column, lines left by an item end the reading. */
  lemma NothingMayBeLeft(first: Value, left: seq<Left>, indent: nat, next: string)
    requires AreLeft(left, indent + 1) && Outdented(next, 2 * (indent + 1))
    ensures
      SeqAfter(first, LeftText(left) + next, 2 * indent) == if left == [] then SeqAfter(first, next, 2 * indent) else None
  {
    hide ParseSeq, LeftText, IsDash, Indent;
    FirstLeft(left, indent + 1, next);
    assert left != [] ==> IsLeft(left[0], indent + 1);
  }

  predicate KeyStarts(s: string) {
    StartsWith(s, '"') && ReadString(s).Some? && StartsWith(ReadString(s).value.1, ':')
  }

  lemma KeyStartsMeans(s: string)
    requires KeyStarts(s)
    ensures ReadString(s).Some? && StartsWith(ReadString(s).value.1, ':')
  {
  }

  function MapText(members: seq<Member>, indent: nat, rest: string): string
    requires members != []
  {
    MemberText(members[0], indent) + (MembersText(members[1..], indent) + rest)
  }

  /** The reader at a key: which value comes of it. */
  lemma KeyReads(m: Member, indent: nat, next: string, col: nat)
    ensures
      var s := MemberText(m, indent) + next;
      && KeyStarts(s) && ReadString(s).value.0 == m.key
      && ReadString(s).value.1[1..] == (if IsBlock(m.value) then "\n" else " ") + (YamlText(m.value, indent + 1) + next)
  {
    hide YamlText, MemberText, ReadString;
    MemberIsNode(m, indent, next);
    var value := (if IsBlock(m.value) then "\n" else " ") + YamlText(m.value, indent + 1) + next;
    assert (":" + value)[1..] == value;
    assert value == (if IsBlock(m.value) then "\n" else " ") + (YamlText(m.value, indent + 1) + next);
  }

  /** The value after a key, in column `col` of a mapping: taken if inline or
      deeper than the key, otherwise missing, which is null. */
  lemma {:induction false} ValueReadsAs(m: Member, indent: nat, col: nat, next: string)
    requires WellFormed(m.value) && Column(indent, col) && Outdented(next, 2 * indent + 2)
    ensures
      var block := YamlText(m.value, indent + 1) + next;
      ParseMapValue((if IsBlock(m.value) then "\n" else " ") + block, col)
      == if !IsBlock(m.value) then Some((NullAsEmpty(m.value), next))
         else if col == 2 * indent then WithRest(ReadNode(m.value, indent + 1), next)
         else Some((Null, block))
    decreases m, 2
  {
    hide ParseNode, ParseMapValue, Body, YamlText, ParseInline, WellFormed, Outdented, Indent, ReadNode;
    BodyIsUnpadded(m.value, indent + 1);
    var block := YamlText(m.value, indent + 1) + next;
    if IsBlock(m.value) {
      var body := Body(m.value, indent + 1);
      assert block == Pad(indent + 1) + body + next;
      BlockValueStands(indent, body, next, col);
      if col == 2 * indent {
        NodeReadsAs(m.value, indent + 1, next);
      }
    } else {
      InlineValueStands(block, col);
      InlineReadsBack(m.value, indent + 1, next);
    }
  }

  lemma {:induction false} MembersReadAs(members: seq<Member>, indent: nat, rest: string)
    requires members != [] && WellFormed(Object(members)) && Outdented(rest, 2 * indent)
    ensures ParseMap(MapText(members, indent, rest), 2 * indent) == WithRest(ReadMembers(members, indent), rest)
    decreases members, 0
  {
    hide ParseMap, ParseMapValue, YamlText, MembersText, ReadString, MemberText, WellFormed, Indent, ReadNode, KeyStarts, IsBlock;
    var m, more := members[0], members[1..];
    var next := MembersText(more, indent) + rest;
    var s := MapText(members, indent, rest);
    FirstMemberIsWellFormed(members);
    NextMember(more, indent, rest);
    KeyReads(m, indent, next, 2 * indent);
    ValueReadsAs(m, indent, 2 * indent, next);
    if !IsBlock(m.value) {
      InlineIsRead(m.value, indent + 1);
    }
    KeyStartsMeans(s);
    MapStep(s, 2 * indent);
    if more == [] {
      assert ReadMembers(more, indent) == Some([]);
      assert forall first: Member :: [first] + [] == [first];
    } else {
      MembersReadAs(more, indent, rest);
      assert next[2 * indent..] == MapText(more, indent, rest);
      assert forall i :: 0 <= i < |more| ==> more[i] == members[i + 1];
    }
  }

  lemma InlineIsRead(v: Value, indent: nat)
    requires !IsBlock(v)
    ensures ReadNode(v, indent) == Some(NullAsEmpty(v))
  {
    NullAsEmptyIsIdentityIff(v);
  }

  lemma {:induction false} ShiftedReadsAs(v: Value, indent: nat, col: nat, rest: string)
    requires WellFormed(v) && col >= 2 * indent + 4 && (v.Array? ==> indent > 0)
    requires IsBlock(v) ==> Outdented(rest, 2 * indent)
    ensures ParseNode(Body(v, indent) + rest, col) == WithLeft(ReadShifted(v, indent, col), rest)
    decreases v, 1
  {
    hide ParseNode, Body, WellFormed, ReadShifted;
    if v.Array? && v.items != [] {
      ShiftedItemsReadAs(v, indent, col, rest);
    } else if v.Object? && v.members != [] {
      ShiftedMembersReadAs(v, indent, col, rest);
    } else {
      InlineNodeReadsAs(v, indent, rest, col);
      ShiftedInline(v, indent, col, rest);
    }
  }

  lemma ShiftedInline(v: Value, indent: nat, col: nat, rest: string)
    requires !IsBlock(v)
    ensures WithLeft(ReadShifted(v, indent, col), rest) == Some((NullAsEmpty(v), rest))
  {
    assert LeftText([]) + rest == rest;
  }

  lemma {:induction false} ShiftedItemsReadAs(v: Value, indent: nat, col: nat, rest: string)
    requires v.Array? && v.items != []
    requires WellFormed(v) && col >= 2 * indent + 4 && indent > 0 && Outdented(rest, 2 * indent)
    ensures ParseNode(Body(v, indent) + rest, col) == WithLeft(ReadShifted(v, indent, col), rest)
    decreases v, 0
  {
    hide ParseSeq, ParseNode, Body, YamlText, ItemText, ItemsText, WellFormed, IsDash, Indent, LeftText, SeqAfter, Rejoined,
         OtherItems, Outdented, AreLeft;
    var first, col' := v.items[0], col + 2 + Gap(v.items[0], indent);
    var next := ItemsText(v.items[1..], indent) + rest;
    FirstIsWellFormed(v.items);
    NextItem(v.items[1..], indent, rest);
    ShiftedReadsAs(first, indent + 1, col', next);
    ShiftedAreLeft(first, indent + 1, col');
    FirstItemReads(v, indent, col, rest);
    var r := ReadShifted(first, indent + 1, col');
    if r.Some? {
      ItemsAreLeft(r.value.1, v.items, indent, rest);
      RejoinedReadsAs(r.value.0, r.value.1 + OtherItems(v.items, indent), indent, col, rest);
    }
  }

  /** The reader at a dash: the first item, then the rest of the sequence. */
  lemma FirstItemReads(v: Value, indent: nat, col: nat, rest: string)
    requires v.Array? && v.items != []
    requires WellFormed(v) && col >= 2 * indent + 4 && indent > 0
    ensures
      var first, next := v.items[0], ItemsText(v.items[1..], indent) + rest;
      var item := ParseNode(Body(first, indent + 1) + next, col + 2 + Gap(first, indent));
      var items := if item.None? then None else SeqAfter(item.value.0, item.value.1, col);
      ParseNode(Body(v, indent) + rest, col) == if items.Some? then Some((Array(items.value.0), items.value.1)) else None
  {
    hide ParseSeq, ParseNode, YamlText, ItemText, ItemsText, WellFormed, IsDash, Indent, SeqAfter;
    var first, next := v.items[0], ItemsText(v.items[1..], indent) + rest;
    var s := ItemText(first, indent) + next;
    assert Body(v, indent) + rest == s;
    FirstIsWellFormed(v.items);
    ItemStands(first, indent, col, next);
    SeqStep(s, col);
    DashIsSeq(s, col);
  }

  lemma DashIsSeq(s: string, col: nat)
    requires IsDash(s)
    ensures
      var items := ParseSeq(s, col);
      ParseNode(s, col) == if items.Some? then Some((Array(items.value.0), items.value.1)) else None
  {
    hide ParseSeq;
  }

  lemma KeyIsMap(s: string, col: nat)
    requires KeyStarts(s)
    ensures
      var members := ParseMap(s, col);
      ParseNode(s, col) == if members.Some? then Some((Object(members.value.0), members.value.1)) else None
  {
    hide ParseMap, ReadString;
  }

  /** What a first item left, and the items after it. */
  lemma {:induction false} ItemsAreLeft(left: seq<Left>, items: seq<Value>, indent: nat, rest: string)
    requires items != [] && WellFormed(Array(items)) && indent > 0 && AreLeft(left, indent + 1)
    ensures AreLeft(left + OtherItems(items, indent), indent)
    ensures LeftText(left + OtherItems(items, indent)) + rest == LeftText(left) + (ItemsText(items[1..], indent) + rest)
    decreases items, 1
  {
    hide ReadsBefore, ItemsText, LeftText, AreLeft, WellFormed, ReadItems;
    FirstIsWellFormed(items);
    if |items| > 1 {
      var d := OtherItems(items, indent)[0];
      forall tail: string | Outdented(tail, 2 * indent)
        ensures ReadsBefore(d, tail)
      {
        ItemsReadBefore(items[1..], indent, tail);
      }
    }
    OtherItemsAreLeft(left, items, indent, rest);
  }

  lemma {:induction false} ItemsReadBefore(items: seq<Value>, indent: nat, tail: string)
    requires items != [] && WellFormed(Array(items)) && indent > 0 && Outdented(tail, 2 * indent)
    ensures ReadsBefore(Dashes(indent, items, ReadItems(items, indent)), tail)
    decreases items, 1
  {
    hide ParseSeq, SeqText, ReadItems, WellFormed;
    ItemsReadAs(items, indent, tail);
  }

  lemma {:induction false} ShiftedMembersReadAs(v: Value, indent: nat, col: nat, rest: string)
    requires v.Object? && v.members != []
    requires WellFormed(v) && col >= 2 * indent + 4 && Outdented(rest, 2 * indent)
    ensures ParseNode(Body(v, indent) + rest, col) == WithLeft(ReadShifted(v, indent, col), rest)
    decreases v, 0
  {
    hide ParseMap, ParseNode, ParseMapValue, YamlText, MemberText, MembersText, WellFormed, Indent, LeftText, ReadString, ReadNode, KeyStarts, OtherMembers, Below;
    var m := v.members[0];
    var next := MembersText(v.members[1..], indent) + rest;
    var s := MemberText(m, indent) + next;
    assert Body(v, indent) + rest == s;
    FirstMemberIsWellFormed(v.members);
    NextMember(v.members[1..], indent, rest);
    KeyReads(m, indent, next, col);
    ValueReadsAs(m, indent, col, next);
    KeyIsMap(s, col);
    KeyStartsMeans(s);
    MapStep(s, col);
    OthersText(v, indent);
    if IsBlock(m.value) {
      BlockIsLeft(v, indent, rest);
      PaddedBlock(m.value, indent + 1, next);
    }
  }

  /** What the first member's block and the other members leave behind. */
  lemma BlockIsLeft(v: Value, indent: nat, rest: string)
    requires v.Object? && v.members != [] && IsBlock(v.members[0].value)
    ensures LeftText([Below(v.members[0].value, indent + 1)] + OtherMembers(v.members, indent)) + rest
            == YamlText(v.members[0].value, indent + 1) + (MembersText(v.members[1..], indent) + rest)
  {
    hide YamlText, MembersText, LeftText, OtherMembers, Below;
    var below := Below(v.members[0].value, indent + 1);
    BelowText(v.members[0].value, indent + 1);
    LeftTextAppend([below], OtherMembers(v.members, indent));
    OneLeft(below);
    OthersText(v, indent);
  }

  lemma BelowText(v: Value, indent: nat)
    requires IsBlock(v)
    ensures LinesOf(Below(v, indent)) == YamlText(v, indent)
  {
    hide ReadItems, ItemsText, MembersText;
  }

  lemma PaddedBlock(v: Value, indent: nat, next: string)
    requires WellFormed(v) && IsBlock(v)
    ensures Indent(YamlText(v, indent) + next) == 2 * indent
  {
    hide YamlText, Body, WellFormed;
    BodyIsUnpadded(v, indent);
    PaddedLine(indent, Body(v, indent), next);
  }

  /** Whatever a shifted value leaves lies at or right of its own indentation,
      and reads as it says. */
  lemma {:induction false} ShiftedAreLeft(v: Value, indent: nat, col: nat)
    requires WellFormed(v) && (v.Array? ==> indent > 0)
    ensures ReadShifted(v, indent, col).Some? ==> AreLeft(ReadShifted(v, indent, col).value.1, indent)
    decreases v, 2
  {
    hide WellFormed, AreLeft, Rejoined, OtherItems;
    if v.Array? && v.items != [] {
      var col' := col + 2 + Gap(v.items[0], indent);
      FirstIsWellFormed(v.items);
      ShiftedAreLeft(v.items[0], indent + 1, col');
      var r := ReadShifted(v.items[0], indent + 1, col');
      if r.Some? {
        ItemsAreLeft(r.value.1, v.items, indent, "");
        RejoinedAreLeft(r.value.0, r.value.1 + OtherItems(v.items, indent), indent, col);
      }
    } else if v.Object? && v.members != [] {
      MembersAreLeft(v, indent);
    } else {
      NothingLeft(indent);
    }
  }

  lemma NothingLeft(indent: nat)
    ensures AreLeft([], indent)
  {
  }

  lemma {:induction false} MembersAreLeft(v: Value, indent: nat)
    requires v.Object? && v.members != [] && WellFormed(v)
    ensures AreLeft(OtherMembers(v.members, indent), indent)
    ensures IsBlock(v.members[0].value) ==>
              AreLeft([Below(v.members[0].value, indent + 1)] + OtherMembers(v.members, indent), indent)
    decreases v, 1
  {
    hide ReadsBefore, WellFormed, ReadItems;
    FirstMemberIsWellFormed(v.members);
    var value := v.members[0].value;
    if value.Array? && value.items != [] {
      var d, at := Below(value, indent + 1), 2 * (indent + 1);
      forall tail: string | Outdented(tail, at)
        ensures ReadsBefore(d, tail)
      {
        ItemsReadBefore(value.items, indent + 1, tail);
      }
    }
  }

  /** What the YAML text of a document reads as, for every document: a value
      computed from the document alone, or nothing. */
  function ReadsAs(members: seq<Member>): Option<Value> {
    ReadNode(Object(members), 0)
  }

  lemma YamlReadsAs(members: seq<Member>)
    requires WellFormed(Object(members))
    ensures ParseDocument(YamlDocument(members)) == ReadsAs(members)
  {
    hide ParseNode, WellFormed, YamlText, Body, ReadNode;
    var v := Object(members);
    BodyIsUnpadded(v, 0);
    assert YamlText(v, 0) == Body(v, 0) + "";
    NodeReadsAs(v, 0, "");
  }
}
