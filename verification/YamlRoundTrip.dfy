/** Which documents their YAML text recovers, which it makes unreadable, and
    which it silently changes into others. */
module YamlRoundTrip {
  import opened Prelude
  import opened JsonText
  import opened Yaml
  import opened YamlReading

  // ---- Recovered ----

  /** Written on a single line. */
  predicate OneLine(v: Value) {
    match v
    case Array(items) => items == [] || (|items| == 1 && OneLine(items[0]))
    case Object(members) => members == [] || (|members| == 1 && !IsBlock(members[0].value))
    case _ => true
  }

  /** Every array that is an item of an array takes one line. This holds when
      no array directly holds a non-empty array. */
  predicate Laid(v: Value)
    decreases v, 0
  {
    match v
    case Array(items) => forall i :: 0 <= i < |items| ==> LaidItem(items[i])
    case Object(members) => forall i :: 0 <= i < |members| ==> Laid(members[i].value)
    case _ => true
  }

  predicate LaidItem(item: Value)
    decreases item, 1
  {
    if item.Array? then OneLine(item) else Laid(item)
  }

  /** Neither the value nor what is left of it once nulls are empty strings. */
  predicate Differs(w: Value, v: Value) {
    w != v && w != NullAsEmpty(v)
  }

  /** Shifted to the right, a value is recovered exactly when it takes one line:
      of an array that takes more, only the first item is still in place. */
  lemma {:induction false} ShiftedReadsBack(v: Value, indent: nat, col: nat)
    requires col >= 2 * indent + 4
    ensures OneLine(v) ==> ReadShifted(v, indent, col) == Some((NullAsEmpty(v), []))
    ensures !OneLine(v) && ReadShifted(v, indent, col).Some? ==> Differs(ReadShifted(v, indent, col).value.0, v)
  {
    hide ReadItems, ReadMembers;
    if v.Array? && v.items != [] {
      var first, col' := v.items[0], col + 2 + Gap(v.items[0], indent);
      ShiftedReadsBack(first, indent + 1, col');
      var r := ReadShifted(first, indent + 1, col');
      if OneLine(first) {
        assert [] + OtherItems(v.items, indent) == OtherItems(v.items, indent);
        assert ReadShifted(v, indent, col) == Some((Array([NullAsEmpty(first)]), OtherItems(v.items, indent)));
        assert |v.items| == 1 ==> NullAsEmptyItems(v.items) == [NullAsEmpty(first)];
      } else if ReadShifted(v, indent, col).Some? {
        assert ReadShifted(v, indent, col).value.0.items[0] == r.value.0;
        assert NullAsEmptyItems(v.items)[0] == NullAsEmpty(first);
      }
    } else if v.Object? && v.members != [] {
      var m := v.members[0];
      assert NullAsEmptyMembers(v.members)[0] == Member(m.key, NullAsEmpty(m.value));
      assert |v.members| == 1 ==> NullAsEmptyMembers(v.members) == [Member(m.key, NullAsEmpty(m.value))];
    }
  }

  lemma {:induction false} NodeReadsBack(v: Value, indent: nat)
    requires v.Array? ==> indent > 0
    ensures Laid(v) ==> ReadNode(v, indent) == Some(NullAsEmpty(v))
    ensures !Laid(v) && ReadNode(v, indent).Some? ==> Differs(ReadNode(v, indent).value, v)
    decreases v, 0
  {
    hide ReadItems, ReadMembers;
    if v.Array? {
      ItemsReadBack(v.items, indent);
    } else if v.Object? {
      MembersReadBack(v.members, indent);
    }
  }

  lemma {:induction false} ItemReadsBack(item: Value, indent: nat)
    requires indent > 0
    ensures LaidItem(item) ==> ReadItem(item, indent) == Some(NullAsEmpty(item))
    ensures !LaidItem(item) && ReadItem(item, indent).Some? ==> Differs(ReadItem(item, indent).value, item)
    decreases item, 1
  {
    hide ReadNode, ReadShifted;
    if item.Array? && item.items != [] {
      ShiftedReadsBack(item, indent + 1, 4 * indent + 4);
    } else {
      NodeReadsBack(item, indent + 1);
    }
  }

  lemma {:induction false} ItemsReadBack(items: seq<Value>, indent: nat)
    requires indent > 0
    ensures Laid(Array(items)) ==> ReadItems(items, indent) == Some(NullAsEmptyItems(items))
    ensures !Laid(Array(items)) && ReadItems(items, indent).Some? ==>
              ReadItems(items, indent).value != items && ReadItems(items, indent).value != NullAsEmptyItems(items)
    decreases items, 0
  {
    hide ReadItem, LaidItem;
    if items != [] {
      var first, more := items[0], items[1..];
      ItemReadsBack(first, indent);
      ItemsReadBack(more, indent);
      assert Laid(Array(items)) <==> LaidItem(first) && Laid(Array(more)) by {
        assert forall i :: 1 <= i < |items| ==> items[i] == more[i - 1];
      }
      if ReadItems(items, indent).Some? {
        var read := ReadItems(items, indent).value;
        assert read[0] == ReadItem(first, indent).value && read[1..] == ReadItems(more, indent).value;
        assert NullAsEmptyItems(items)[0] == NullAsEmpty(first) && NullAsEmptyItems(items)[1..] == NullAsEmptyItems(more);
      }
    }
  }

  lemma {:induction false} MembersReadBack(members: seq<Member>, indent: nat)
    ensures Laid(Object(members)) ==> ReadMembers(members, indent) == Some(NullAsEmptyMembers(members))
    ensures !Laid(Object(members)) && ReadMembers(members, indent).Some? ==>
              ReadMembers(members, indent).value != members && ReadMembers(members, indent).value != NullAsEmptyMembers(members)
    decreases members, 0
  {
    hide ReadNode;
    if members != [] {
      var m, more := members[0], members[1..];
      NodeReadsBack(m.value, indent + 1);
      MembersReadBack(more, indent);
      assert Laid(Object(members)) <==> Laid(m.value) && Laid(Object(more)) by {
        assert forall i :: 1 <= i < |members| ==> members[i] == more[i - 1];
      }
      if ReadMembers(members, indent).Some? {
        var read := ReadMembers(members, indent).value;
        assert read[0].value == ReadNode(m.value, indent + 1).value && read[1..] == ReadMembers(more, indent).value;
        assert NullAsEmptyMembers(members)[0].value == NullAsEmpty(m.value);
        assert NullAsEmptyMembers(members)[1..] == NullAsEmptyMembers(more);
      }
    }
  }

  /** A document reads back exactly when it holds no null, and every array that
      is an item of an array takes a single line. Nulls aside, only the latter
      decides. */
  lemma YamlReadsBackIff(members: seq<Member>)
    requires WellFormed(Object(members))
    ensures ParseDocument(YamlDocument(members)) == Some(Object(members)) <==> !HasNull(Object(members)) && Laid(Object(members))
    ensures ParseDocument(YamlDocument(members)) == Some(NullAsEmpty(Object(members))) <==> Laid(Object(members))
  {
    hide ParseDocument, YamlDocument, Laid, WellFormed, ReadNode, HasNull, NullAsEmpty;
    YamlReadsAs(members);
    NodeReadsBack(Object(members), 0);
    NullAsEmptyIsIdentityIff(Object(members));
  }

  /** The promise that every document reads back fails for this one, where an
      array of two items is itself an item, and for one that holds a null. */
  lemma NestedArrayAndNullDoNotReadBack()
    ensures
      var nested := [Member("k", Array([Array([Bool(true), Bool(false)])]))];
      WellFormed(Object(nested)) && ParseDocument(YamlDocument(nested)) != Some(Object(nested))
    ensures
      var absent := [Member("k", Null)];
      WellFormed(Object(absent)) && ParseDocument(YamlDocument(absent)) == Some(Object([Member("k", Str(""))]))
  {
    hide ParseDocument, YamlDocument, WellFormed, Laid, HasNull, NullAsEmpty;
    var absent := [Member("k", Null)];
    NestedIsWellFormed();
    AbsentHasNull();
    YamlReadsBackIff([Member("k", Array([Array([Bool(true), Bool(false)])]))]);
    YamlReadsBackIff(absent);
  }

  lemma NestedIsWellFormed()
    ensures
      var nested := Object([Member("k", Array([Array([Bool(true), Bool(false)])]))]);
      WellFormed(nested) && !Laid(nested)
  {
    var inner := Array([Bool(true), Bool(false)]);
    assert WellFormed(inner);
    assert WellFormed(Array([inner]));
    assert !Laid(Array([inner])) by {
      assert !LaidItem(Array([inner]).items[0]);
    }
    var members := [Member("k", Array([inner]))];
    assert !Laid(members[0].value);
    assert !Laid(Object(members));
  }

  lemma AbsentHasNull()
    ensures
      var absent := Object([Member("k", Null)]);
      WellFormed(absent) && Laid(absent) && NullAsEmpty(absent) == Object([Member("k", Str(""))])
  {
    assert NullAsEmptyMembers([Member("k", Null)]) == [Member("k", Str(""))];
  }

  /** A document is changed into another one exactly when some array within an
      array takes several lines and the reading still comes to an end. */
  lemma YamlMisreadIff(members: seq<Member>)
    requires WellFormed(Object(members))
    ensures
      var read := ParseDocument(YamlDocument(members));
      read.Some? && Differs(read.value, Object(members)) <==> !Laid(Object(members)) && ReadsAs(members).Some?
  {
    hide ParseDocument, YamlDocument, Laid, WellFormed, ReadNode, NullAsEmpty;
    YamlReadsAs(members);
    NodeReadsBack(Object(members), 0);
  }

  // ---- Refused rather than changed ----

  /** The indentation of the first line a value leaves when shifted to the right,
      if that line starts with a dash. */
  function FirstDash(v: Value, indent: nat): Option<nat> {
    if OneLine(v) then None
    else if v.Array? then if OneLine(v.items[0]) then Some(indent) else FirstDash(v.items[0], indent + 1)
    else if v.members[0].value.Array? && v.members[0].value.items != [] then Some(indent + 1)
    else None
  }

  /** Within an array written at `indent`, no array's first line left lies as far
      right as that array stands: column 4 * indent + 4. */
  predicate Settled(v: Value, indent: nat)
    decreases v, 0
  {
    match v
    case Array(items) => forall i :: 0 <= i < |items| ==> SettledItem(items[i], indent)
    case Object(members) => forall i :: 0 <= i < |members| ==> Settled(members[i].value, indent + 1)
    case _ => true
  }

  predicate SettledItem(item: Value, indent: nat)
    decreases item, 1
  {
    if item.Array? && item.items != [] then
      var dash := FirstDash(item, indent + 1);
      dash.None? || dash.value < 2 * indent + 2
    else Settled(item, indent + 1)
  }

  /** A shifted value of several lines leaves some, and none that an enclosing
      shifted array would take for its own. */
  lemma {:induction false} LinesStayLeft(v: Value, indent: nat, col: nat, bound: nat)
    requires !OneLine(v) && col >= 2 * indent + 4 && col >= 2 * bound
    requires FirstDash(v, indent).None? || FirstDash(v, indent).value < bound
    ensures ReadShifted(v, indent, col).Some? ==>
              var left := ReadShifted(v, indent, col).value.1;
              left != [] && (left[0].Keys? || left[0].indent < bound)
  {
    hide ReadItems, NullAsEmpty;
    if v.Array? {
      var first, col' := v.items[0], col + 2 + Gap(v.items[0], indent);
      ShiftedReadsBack(first, indent + 1, col');
      if OneLine(first) {
        assert [] + OtherItems(v.items, indent) == OtherItems(v.items, indent);
      } else {
        LinesStayLeft(first, indent + 1, col', bound);
      }
    }
  }

  lemma {:induction false} SettledIsRefusedOrRecovered(v: Value, indent: nat)
    requires Settled(v, indent) && (v.Array? ==> indent > 0)
    ensures ReadNode(v, indent).None? || Laid(v)
    decreases v, 0
  {
    hide ReadShifted;
    if v.Array? {
      forall i | 0 <= i < |v.items|
        ensures ReadItem(v.items[i], indent).None? || LaidItem(v.items[i])
      {
        assert SettledItem(v.items[i], indent);
        SettledItemIsRefusedOrRecovered(v.items[i], indent);
      }
      if i :| 0 <= i < |v.items| && !LaidItem(v.items[i]) {
        ItemsNeedEach(v.items, indent, i);
      }
    } else if v.Object? {
      forall i | 0 <= i < |v.members|
        ensures ReadNode(v.members[i].value, indent + 1).None? || Laid(v.members[i].value)
      {
        SettledIsRefusedOrRecovered(v.members[i].value, indent + 1);
      }
      if i :| 0 <= i < |v.members| && !Laid(v.members[i].value) {
        MembersNeedEach(v.members, indent, i);
      }
    }
  }

  lemma {:induction false} SettledItemIsRefusedOrRecovered(item: Value, indent: nat)
    requires SettledItem(item, indent) && indent > 0
    ensures ReadItem(item, indent).None? || LaidItem(item)
    decreases item, 1
  {
    hide ReadShifted, FirstDash;
    if item.Array? && item.items != [] {
      if !OneLine(item) {
        LinesStayLeft(item, indent + 1, 4 * indent + 4, 2 * indent + 2);
      }
    } else {
      SettledIsRefusedOrRecovered(item, indent + 1);
    }
  }

  lemma {:induction false} ItemsNeedEach(items: seq<Value>, indent: nat, i: nat)
    requires i < |items| && ReadItem(items[i], indent).None?
    ensures ReadItems(items, indent).None?
    decreases i
  {
    if i > 0 {
      ItemsNeedEach(items[1..], indent, i - 1);
    }
  }

  lemma {:induction false} MembersNeedEach(members: seq<Member>, indent: nat, i: nat)
    requires i < |members| && ReadNode(members[i].value, indent + 1).None?
    ensures ReadMembers(members, indent).None?
    decreases i
  {
    if i > 0 {
      MembersNeedEach(members[1..], indent, i - 1);
    }
  }

  /** A settled document is recovered (nulls as empty strings) or refused, never
      read as anything else. */
  lemma SettledIsNeverMisread(members: seq<Member>)
    requires WellFormed(Object(members)) && Settled(Object(members), 0)
    ensures
      ParseDocument(YamlDocument(members))
      == if Laid(Object(members)) then Some(NullAsEmpty(Object(members))) else None
  {
    hide ParseDocument, YamlDocument, Laid, WellFormed, ReadNode, Settled, NullAsEmpty;
    YamlReadsAs(members);
    NodeReadsBack(Object(members), 0);
    SettledIsRefusedOrRecovered(Object(members), 0);
  }

  /** The same in terms a reader of a document can check without columns: no more
      than three arrays directly within each other, and in an array that is an
      item no object with a member of several lines. */
  predicate Shallow(v: Value)
    decreases v, 0
  {
    match v
    case Array(items) => forall i :: 0 <= i < |items| ==> ShallowItem(items[i], 2)
    case Object(members) => forall i :: 0 <= i < |members| ==> Shallow(members[i].value)
    case _ => true
  }

  predicate ShallowItem(item: Value, arrays: nat)
    decreases item, 1
  {
    if item.Array? && item.items != [] then
      arrays > 0 && forall i :: 0 <= i < |item.items| ==> ShallowWithin(item.items[i], arrays - 1)
    else Shallow(item)
  }

  predicate ShallowWithin(v: Value, arrays: nat)
    decreases v, 2
  {
    if v.Object? then forall i :: 0 <= i < |v.members| ==> !IsBlock(v.members[i].value) else ShallowItem(v, arrays)
  }

  lemma {:induction false} ShallowIsSettled(v: Value, indent: nat)
    requires Shallow(v) && (v.Array? ==> indent > 0)
    ensures Settled(v, indent)
    decreases v, 0
  {
    match v
    case Array(items) =>
      forall i | 0 <= i < |items|
        ensures SettledItem(items[i], indent)
      {
        assert ShallowItem(items[i], 2);
        if items[i].Array? && items[i].items != [] {
          ShallowFirstDash(items[i], indent);
        } else {
          ShallowIsSettled(items[i], indent + 1);
        }
      }
    case Object(members) =>
      forall i | 0 <= i < |members|
        ensures Settled(members[i].value, indent + 1)
      {
        ShallowIsSettled(members[i].value, indent + 1);
      }
    case _ =>
  }

  lemma ShallowFirstDash(item: Value, indent: nat)
    requires item.Array? && item.items != [] && ShallowItem(item, 2) && indent > 0
    ensures FirstDash(item, indent + 1).None? || FirstDash(item, indent + 1).value <= indent + 2
  {
    var first := item.items[0];
    assert ShallowWithin(first, 1);
    if !OneLine(item) && !OneLine(first) && first.Array? {
      var second := first.items[0];
      assert ShallowItem(first, 1);
      assert ShallowWithin(second, 0);
      assert second.Array? ==> OneLine(second);
      assert FirstDash(first, indent + 2) == if OneLine(second) then Some(indent + 2) else FirstDash(second, indent + 3);
    }
  }

  /** Such a document is never misread. */
  lemma ShallowIsNeverMisread(members: seq<Member>)
    requires WellFormed(Object(members)) && Shallow(Object(members))
    ensures
      ParseDocument(YamlDocument(members))
      == if Laid(Object(members)) then Some(NullAsEmpty(Object(members))) else None
  {
    hide ParseDocument, YamlDocument, Laid, WellFormed, Settled, Shallow;
    ShallowIsSettled(Object(members), 0);
    SettledIsNeverMisread(members);
  }

  // ---- Silently changed ----

  /** `v` alone within n arrays. */
  function Wrap(v: Value, n: nat): Value {
    if n == 0 then v else Array([Wrap(v, n - 1)])
  }

  /** `v` as the one member of n objects, each the one member of the next. */
  function Under(v: Value, n: nat): Value {
    if n == 0 then v else Object([Member("k", Under(v, n - 1))])
  }

  lemma {:induction false} UnderReads(v: Value, n: nat, indent: nat)
    ensures ReadNode(Under(v, n), indent)
         == if ReadNode(v, indent + n).Some? then Some(Under(ReadNode(v, indent + n).value, n)) else None
    decreases n
  {
    if n > 0 {
      var inner := Under(v, n - 1);
      UnderReads(v, n - 1, indent + 1);
      var members := [Member("k", inner)];
      assert members[1..] == [] && ReadMembers([], indent) == Some([]);
      var read := ReadNode(inner, indent + 1);
      if read.Some? {
        assert [Member("k", read.value)] + [] == [Member("k", read.value)];
        assert ReadMembers(members, indent) == Some([Member("k", read.value)]);
      }
    }
  }

  /** Read at `indent` in any column right of its lines, `v` yields `w` and leaves
      the dashes `d`, no more. */
  ghost predicate Leaves(v: Value, indent: nat, w: Value, d: Left) {
    forall col: nat :: col > 2 * d.indent && col >= 2 * indent + 4 ==> ReadShifted(v, indent, col) == Some((w, [d]))
  }

  lemma {:induction false} WrapLeaves(v: Value, n: nat, indent: nat, w: Value, d: Left)
    requires Leaves(v, indent + n, w, d)
    ensures Leaves(Wrap(v, n), indent, Wrap(w, n), d)
    decreases n
  {
    if n > 0 {
      WrapLeaves(v, n - 1, indent + 1, w, d);
      var inner := Wrap(v, n - 1);
      forall col: nat | col > 2 * d.indent && col >= 2 * indent + 4
        ensures ReadShifted(Wrap(v, n), indent, col) == Some((Wrap(w, n), [d]))
      {
        var col' := col + 2 + Gap(inner, indent);
        assert ReadShifted(inner, indent + 1, col') == Some((Wrap(w, n - 1), [d]));
        assert [d] + OtherItems([inner], indent) == [d];
      }
    }
  }

  /** Dashes left in the very column of an enclosing shifted array become its
      items. */
  lemma DashesRejoin(v: Value, indent: nat, w: Value, d: Left)
    requires indent > 0 && Leaves(v, indent + 2, w, d)
    requires d.Dashes? && d.indent == 2 * indent + 2 && d.reading.Some?
    ensures ReadNode(Array([Array([v])]), indent) == Some(Array([Array([w] + d.reading.value)]))
  {
    var col := 4 * indent + 4;
    var col' := col + 2 + Gap(v, indent + 1);
    assert ReadShifted(v, indent + 2, col') == Some((w, [d]));
    assert [d] + OtherItems([v], indent + 1) == [d] && [d][1..] == [];
    var item := Array([v]);
    var rejoined := Array([w] + d.reading.value);
    assert ReadShifted(item, indent + 1, col) == Some((rejoined, []));
    assert ReadItem(item, indent) == Some(rejoined);
    assert [item][1..] == [] && ReadItems([], indent) == Some([]);
    assert [rejoined] + [] == [rejoined];
    assert ReadItems([item], indent) == Some([rejoined]);
  }

  lemma ItemsWellFormed(first: Value, rest: seq<Value>)
    requires WellFormed(first) && WellFormed(Array(rest))
    ensures WellFormed(Array([first] + rest))
    ensures rest != [] ==> !OneLine(Array([first] + rest))
  {
  }

  /** A document around a value whose lines an enclosing array takes over. */
  lemma LeftDashesMislead(v: Value, n: nat, w: Value, d: Left)
    requires n > 0 && Leaves(v, n + 2, w, d) && WellFormed(v) && !OneLine(v)
    requires d.Dashes? && d.indent == 2 * n + 2 && d.reading.Some?
    ensures
      var written := Under(Array([Array([v])]), n);
      var read := Under(Array([Array([w] + d.reading.value)]), n);
      WellFormed(written) && ParseDocument(YamlDocument(written.members)) == Some(read) && !Laid(written)
  {
    hide ParseDocument, YamlDocument, ReadNode, ReadItems, Leaves, Under;
    var outer := Array([Array([v])]);
    assert WellFormed(Array([v]));
    assert !Laid(outer) by {
      assert !LaidItem(outer.items[0]);
    }
    DashesRejoin(v, n, w, d);
    UnderIsMisread(outer, n);
  }

  lemma ItemsLeave(first: Value, rest: seq<Value>, indent: nat)
    requires OneLine(first) && rest != []
    ensures Leaves(Array([first] + rest), indent, Array([NullAsEmpty(first)]), Dashes(indent, rest, ReadItems(rest, indent)))
  {
    hide ReadItems, NullAsEmpty;
    var items, d := [first] + rest, Dashes(indent, rest, ReadItems(rest, indent));
    forall col: nat | col > 2 * d.indent && col >= 2 * indent + 4
      ensures ReadShifted(Array(items), indent, col) == Some((Array([NullAsEmpty(first)]), [d]))
    {
      ShiftedReadsBack(first, indent + 1, col + 2 + Gap(first, indent));
      assert items[1..] == rest;
      assert [] + OtherItems(items, indent) == [d];
    }
  }

  lemma MemberLeaves(key: string, items: seq<Value>, indent: nat)
    requires items != []
    ensures Leaves(Object([Member(key, Array(items))]), indent, Object([Member(key, Null)]),
                   Dashes(indent + 1, items, ReadItems(items, indent + 1)))
  {
    hide ReadItems;
    var d, members := Dashes(indent + 1, items, ReadItems(items, indent + 1)), [Member(key, Array(items))];
    assert [Below(Array(items), indent + 1)] + OtherMembers(members, indent) == [d];
  }

  /** The bound on arrays is tight, at every depth of the document. Of n + 3
      arrays directly within each other, the outermost written at indentation n,
      let the innermost hold further items: they move to the second, whatever
      they are. */
  lemma LongChainIsMisread(n: nat, first: Value, rest: seq<Value>)
    requires n > 0 && OneLine(first) && rest != [] && Laid(Array(rest))
    requires WellFormed(first) && WellFormed(Array(rest))
    ensures
      var written := Under(Array([Wrap(Array([first] + rest), n + 1)]), n);
      var read := Under(Array([Array([Wrap(Array([NullAsEmpty(first)]), n)] + NullAsEmptyItems(rest))]), n);
      WellFormed(written) && ParseDocument(YamlDocument(written.members)) == Some(read) && !Laid(written)
  {
    hide ParseDocument, YamlDocument, ReadItems, Leaves, WellFormed, Laid, NullAsEmpty, NullAsEmptyItems, OneLine, Under;
    var items, d := Array([first] + rest), Dashes(2 * n + 2, rest, ReadItems(rest, 2 * n + 2));
    ItemsReadBack(rest, 2 * n + 2);
    ItemsLeave(first, rest, 2 * n + 2);
    WrapLeaves(items, n, n + 2, Array([NullAsEmpty(first)]), d);
    ItemsWellFormed(first, rest);
    WrapIsWellFormed(items, n);
    WrapIsLong(items, n);
    LeftDashesMislead(Wrap(items, n), n, Wrap(Array([NullAsEmpty(first)]), n), d);
  }

  /** The condition on objects is tight as well. Of n + 1 arrays directly within
      each other, the outermost written at indentation n, let the innermost hold
      an object whose one member is an array: its items move to the second, and
      the member is left null. */
  lemma BlockMemberIsMisread(n: nat, key: string, items: seq<Value>)
    requires n > 0 && items != [] && Laid(Array(items)) && WellFormed(Array(items))
    ensures
      var written := Under(Array([Wrap(Object([Member(key, Array(items))]), n)]), n);
      var read := Under(Array([Array([Wrap(Object([Member(key, Null)]), n - 1)] + NullAsEmptyItems(items))]), n);
      WellFormed(written) && ParseDocument(YamlDocument(written.members)) == Some(read) && !Laid(written)
  {
    hide ParseDocument, YamlDocument, ReadItems, Leaves, Laid, NullAsEmptyItems, Under;
    var entry, d := Object([Member(key, Array(items))]), Dashes(2 * n + 2, items, ReadItems(items, 2 * n + 2));
    ItemsReadBack(items, 2 * n + 2);
    MemberLeaves(key, items, 2 * n + 1);
    WrapLeaves(entry, n - 1, n + 2, Object([Member(key, Null)]), d);
    assert WellFormed(entry);
    WrapIsWellFormed(entry, n - 1);
    WrapIsLong(entry, n - 1);
    LeftDashesMislead(Wrap(entry, n - 1), n, Wrap(Object([Member(key, Null)]), n - 1), d);
  }

  lemma {:induction false} WrapIsWellFormed(v: Value, n: nat)
    requires WellFormed(v)
    ensures WellFormed(Wrap(v, n))
  {
    if n > 0 {
      WrapIsWellFormed(v, n - 1);
    }
  }

  lemma {:induction false} WrapIsLong(v: Value, n: nat)
    requires !OneLine(v)
    ensures !OneLine(Wrap(v, n))
  {
    if n > 0 {
      WrapIsLong(v, n - 1);
    }
  }

  /** A misread value makes its whole document misread. */
  lemma UnderIsMisread(v: Value, n: nat)
    requires n > 0 && WellFormed(v) && !Laid(v)
    ensures WellFormed(Under(v, n)) && !Laid(Under(v, n))
    ensures ReadNode(v, n).Some? ==>
              ParseDocument(YamlDocument(Under(v, n).members)) == Some(Under(ReadNode(v, n).value, n))
  {
    hide ParseDocument, YamlDocument, ReadNode;
    UnderIsSame(v, n);
    UnderReads(v, n, 0);
    YamlReadsAs(Under(v, n).members);
  }

  lemma {:induction false} UnderIsSame(v: Value, n: nat)
    ensures WellFormed(Under(v, n)) <==> WellFormed(v)
    ensures Laid(Under(v, n)) <==> Laid(v)
  {
    if n > 0 {
      UnderIsSame(v, n - 1);
      var members := [Member("k", Under(v, n - 1))];
      assert Under(v, n) == Object(members);
      assert WellFormed(Object(members)) <==> WellFormed(members[0].value);
      assert Laid(Object(members)) <==> Laid(members[0].value);
    }
  }

  lemma UnderOne(v: Value)
    ensures Under(v, 1) == Object([Member("k", v)])
  {
    assert Under(v, 0) == v;
  }

  lemma WrapUpToTwo(v: Value)
    ensures Wrap(v, 0) == v && Wrap(v, 1) == Array([v]) && Wrap(v, 2) == Array([Array([v])])
  {
    assert Wrap(v, 1) == Array([Wrap(v, 0)]);
    assert Wrap(v, 2) == Array([Wrap(v, 1)]);
  }

  lemma OneBool(flag: bool)
    ensures NullAsEmptyItems([Bool(flag)]) == [Bool(flag)] && Laid(Array([Bool(flag)]))
    ensures WellFormed(Array([Bool(flag)])) && WellFormed(Bool(flag))
  {
    assert [Bool(flag)][1..] == [];
  }

  /** The least of these documents: four arrays, and two arrays with an object,
      each two lines long where the emitter expects one. */
  lemma LeastMisreadDocuments()
    ensures
      var four := Array([Array([Array([Array([Bool(true), Bool(false)])])])]);
      ParseDocument(YamlDocument([Member("k", four)]))
      == Some(Object([Member("k", Array([Array([Array([Array([Bool(true)])]), Bool(false)])]))]))
    ensures
      var two := Array([Array([Object([Member("b", Array([Bool(true)]))])])]);
      ParseDocument(YamlDocument([Member("k", two)]))
      == Some(Object([Member("k", Array([Array([Object([Member("b", Null)]), Bool(true)])]))]))
  {
    hide ParseDocument, YamlDocument, Wrap, Under, Laid, WellFormed, NullAsEmptyItems;
    var yes, no := Bool(true), Bool(false);
    OneBool(true);
    OneBool(false);
    LongChainIsMisread(1, yes, [no]);
    WrapUpToTwo(Array([yes] + [no]));
    WrapUpToTwo(Array([yes]));
    assert [yes] + [no] == [yes, no];
    assert [Array([Array([yes])])] + [no] == [Array([Array([yes])]), no];
    UnderOne(Array([Array([Array([Array([yes, no])])])]));
    UnderOne(Array([Array([Array([Array([yes])]), no])]));
    BlockMemberIsMisread(1, "b", [yes]);
    var written, read := Object([Member("b", Array([yes]))]), Object([Member("b", Null)]);
    WrapUpToTwo(written);
    WrapUpToTwo(read);
    assert [read] + [yes] == [read, yes];
    UnderOne(Array([Array([written])]));
    UnderOne(Array([Array([read, yes])]));
  }
}
