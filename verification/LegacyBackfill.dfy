/** Numbering the audit rows that predate the chain
    (migration/src/m20260726_000008_audit_chain.rs), so that the unique
    (org_id, seq) index can be created and later appends continue from them. */
module LegacyBackfill {
  import opened Prelude
  import opened AuditChain
  import opened AuditProtocol

  /** A row with the two columns the ranking compares. */
  datatype Stamped = Stamped(row: Row, at: int, id: int)

  /** `earlier.at < r.at OR (earlier.at = r.at AND earlier.id <= r.id)`. */
  predicate Precedes(earlier: Stamped, r: Stamped) {
    earlier.at < r.at || (earlier.at == r.at && earlier.id <= r.id)
  }

  function OrgIndices(table: seq<Stamped>, org: string): set<nat> {
    set i: nat | i < |table| && table[i].row.orgId == org
  }

  /** The correlated `COUNT(*)` of the UPDATE statement. */
  function Rank(table: seq<Stamped>, r: Stamped): nat {
    |set i: nat | i < |table| && table[i].row.orgId == r.row.orgId && Precedes(table[i], r)|
  }

  /** `id` is the primary key. */
  ghost predicate UniqueIds(table: seq<Stamped>) {
    forall i, j :: 0 <= i < j < |table| ==> table[i].id != table[j].id
  }

  /** As the columns are added: position 0 and no hash. */
  ghost predicate Unnumbered(table: seq<Stamped>) {
    forall i :: 0 <= i < |table| ==> table[i].row.entryHash == ""
  }

  function Numbered(table: seq<Stamped>): (r: seq<Stamped>)
    ensures |r| == |table|
    ensures forall i :: 0 <= i < |table| ==> r[i] == table[i].(row := table[i].row.(seqNo := Rank(table, table[i])))
  {
    seq(|table|, i requires 0 <= i < |table| => table[i].(row := table[i].row.(seqNo := Rank(table, table[i]))))
  }

  /** Rank only reads columns the update does not write. */
  lemma RankIgnoresSeq(a: seq<Stamped>, b: seq<Stamped>, r: Stamped, r': Stamped)
    requires |a| == |b|
    requires forall i :: 0 <= i < |a| ==> b[i].at == a[i].at && b[i].id == a[i].id && b[i].row.orgId == a[i].row.orgId
    requires r'.at == r.at && r'.id == r.id && r'.row.orgId == r.row.orgId
    ensures Rank(a, r) == Rank(b, r')
  {
    assert (set i: nat | i < |a| && a[i].row.orgId == r.row.orgId && Precedes(a[i], r)) ==
           (set i: nat | i < |b| && b[i].row.orgId == r'.row.orgId && Precedes(b[i], r'));
  }

  /** The UPDATE rewrites `seq` row by row; later rows rank the same although
      earlier ones have already been renumbered. */
  method BackfillLegacySeq(table: array<Stamped>)
    modifies table
    ensures table[..] == Numbered(old(table[..]))
  {
    ghost var before := table[..];
    var i := 0;
    while i < table.Length
      invariant 0 <= i <= table.Length
      invariant forall j :: 0 <= j < i ==> table[j] == Numbered(before)[j]
      invariant forall j :: i <= j < table.Length ==> table[j] == before[j]
    {
      var r := table[i];
      RankIgnoresSeq(before, table[..], before[i], r);
      table[i] := r.(row := r.row.(seqNo := Rank(table[..], r)));
      i := i + 1;
    }
  }

  lemma {:induction false} InjectiveImageSize(s: set<nat>, f: nat -> int)
    requires forall i, j :: i in s && j in s && f(i) == f(j) ==> i == j
    ensures |set i | i in s :: f(i)| == |s|
    decreases |s|
  {
    if s != {} {
      var x :| x in s;
      var rest := s - {x};
      InjectiveImageSize(rest, f);
      assert (set i | i in s :: f(i)) == (set i | i in rest :: f(i)) + {f(x)};
      assert f(x) !in (set i | i in rest :: f(i));
    }
  }

  function UpTo(n: nat): (r: set<int>)
    ensures |r| == n && forall k :: k in r <==> 1 <= k <= n
  {
    if n == 0 then {} else UpTo(n - 1) + {n}
  }

  lemma RankBounds(table: seq<Stamped>, i: nat)
    requires i < |table|
    ensures 1 <= Rank(table, table[i]) <= |OrgIndices(table, table[i].row.orgId)|
  {
    var counted := set j: nat | j < |table| && table[j].row.orgId == table[i].row.orgId && Precedes(table[j], table[i]);
    assert i in counted && counted <= OrgIndices(table, table[i].row.orgId);
    SubsetSize({i}, counted);
    SubsetSize(counted, OrgIndices(table, table[i].row.orgId));
  }

  /** Ranking follows the recorded order: strictly earlier, strictly smaller. */
  lemma RankFollowsOrder(table: seq<Stamped>, i: nat, j: nat)
    requires i < |table| && j < |table| && i != j && UniqueIds(table)
    requires table[i].row.orgId == table[j].row.orgId && Precedes(table[i], table[j])
    ensures Rank(table, table[i]) < Rank(table, table[j])
  {
    var org := table[i].row.orgId;
    var first := set k: nat | k < |table| && table[k].row.orgId == org && Precedes(table[k], table[i]);
    var second := set k: nat | k < |table| && table[k].row.orgId == org && Precedes(table[k], table[j]);
    assert table[i].id != table[j].id;
    assert j in second && j !in first;
    assert first <= second;
    SubsetSize(first, second);
  }

  /** Two rows of an org never share a rank, and rank as they were recorded. */
  lemma RanksAreOrdered(table: seq<Stamped>, i: nat, j: nat)
    requires i < |table| && j < |table| && i != j && UniqueIds(table)
    requires table[i].row.orgId == table[j].row.orgId
    ensures Rank(table, table[i]) != Rank(table, table[j])
    ensures Rank(table, table[i]) < Rank(table, table[j]) 
            <==> table[i].at < table[j].at || (table[i].at == table[j].at && table[i].id < table[j].id)
  {
    if Precedes(table[i], table[j]) {
      RankFollowsOrder(table, i, j);
    } else {
      RankFollowsOrder(table, j, i);
    }
  }

  function RankAt(table: seq<Stamped>, i: nat): int {
    if i < |table| then Rank(table, table[i]) else 0
  }

  /** Each org's n rows get exactly the ranks 1..n. */
  lemma RanksAreExactlyOneToN(table: seq<Stamped>, org: string)
    requires UniqueIds(table)
    ensures (set i | i in OrgIndices(table, org) :: RankAt(table, i)) == UpTo(|OrgIndices(table, org)|)
  {
    hide Rank, Precedes, UniqueIds, OrgIndices;
    var s := OrgIndices(table, org);
    var f := (i: nat) => RankAt(table, i);
    forall i, j | i in s && j in s && f(i) == f(j)
      ensures i == j
    {
      SameRankSameRow(table, org, i, j);
    }
    InjectiveImageSize(s, f);
    var image := set i | i in s :: f(i);
    forall i | i in s
      ensures f(i) in UpTo(|s|)
    {
      RankInRange(table, org, i);
    }
    SubsetSize(image, UpTo(|s|));
    assert image == set i | i in s :: RankAt(table, i);
  }

  lemma SameRankSameRow(table: seq<Stamped>, org: string, i: nat, j: nat)
    requires UniqueIds(table) && i in OrgIndices(table, org) && j in OrgIndices(table, org)
    requires RankAt(table, i) == RankAt(table, j)
    ensures i == j
  {
    hide Rank;
    if i != j {
      RanksAreOrdered(table, i, j);
    }
  }

  lemma RankInRange(table: seq<Stamped>, org: string, i: nat)
    requires i in OrgIndices(table, org)
    ensures RankAt(table, i) in UpTo(|OrgIndices(table, org)|)
  {
    hide Rank;
    RankBounds(table, i);
  }

  // ---- The table under its new unique index ----

  function Slot(r: Stamped): (string, int) {
    (r.row.orgId, r.row.seqNo)
  }

  /** Creating the unique index fails on a repeated (org, seq). */
  ghost predicate Indexable(table: seq<Stamped>) {
    forall i, j :: 0 <= i < j < |table| ==> Slot(table[i]) != Slot(table[j])
  }

  function IndexOf(table: seq<Stamped>): Log {
    if table == [] then map[]
    else
      var last := table[|table| - 1];
      IndexOf(table[..|table| - 1])[Slot(last) := last.row]
  }

  lemma {:induction false} IndexHoldsTable(table: seq<Stamped>)
    requires Indexable(table)
    ensures |IndexOf(table)| == |table|
    ensures forall i :: 0 <= i < |table| ==> Slot(table[i]) in IndexOf(table) && IndexOf(table)[Slot(table[i])] == table[i].row
    ensures forall slot :: slot in IndexOf(table) ==> exists i :: 0 <= i < |table| && Slot(table[i]) == slot
  {
    if table != [] {
      IndexHoldsTable(table[..|table| - 1]);
    }
  }

  lemma BackfillIsIndexable(table: seq<Stamped>)
    requires UniqueIds(table)
    ensures Indexable(Numbered(table))
  {
    var t := Numbered(table);
    forall i, j | 0 <= i < j < |t|
      ensures Slot(t[i]) != Slot(t[j])
    {
      if t[i].row.orgId == t[j].row.orgId {
        RanksAreOrdered(table, i, j);
      }
    }
  }

  /** The positions an org holds after the upgrade are 1..n. */
  lemma BackfilledSlots(table: seq<Stamped>, org: string, k: int)
    requires UniqueIds(table) && Unnumbered(table)
    ensures (org, k) in IndexOf(Numbered(table)) <==> 1 <= k <= |OrgIndices(table, org)|
    ensures (org, k) in IndexOf(Numbered(table)) ==>
              var row := IndexOf(Numbered(table))[(org, k)];
              row.entryHash == "" && row.orgId == org && row.seqNo == k
  {
    hide Rank;
    BackfillIsIndexable(table);
    var t := Numbered(table);
    IndexHoldsTable(t);
    if (org, k) in IndexOf(t) {
      var i :| 0 <= i < |t| && Slot(t[i]) == (org, k);
      RankBounds(table, i);
    }
    if 1 <= k <= |OrgIndices(table, org)| {
      RanksAreExactlyOneToN(table, org);
      assert k in UpTo(|OrgIndices(table, org)|);
      var i :| i in OrgIndices(table, org) && RankAt(table, i) == k;
      assert Slot(t[i]) == (org, k);
    }
  }

  /** The migrated table meets the append protocol's starting conditions: the
      index exists, every row is legacy, and each org's tip is its row count. */
  lemma BackfillStartsTheChain(digest: Digest, table: seq<Stamped>, org: string)
    requires UniqueIds(table) && Unnumbered(table)
    ensures Indexable(Numbered(table))
    ensures
      var log := IndexOf(Numbered(table));
      && |log| == |table| && WellFormedLog(digest, log)
      && (forall slot :: slot in log ==> log[slot].entryHash == "")
      && IsTip(log, org, |OrgIndices(table, org)|)
  {
    hide Rank, Numbered, IndexOf, OrgIndices;
    BackfillIsIndexable(table);
    IndexHoldsTable(Numbered(table));
    var log := IndexOf(Numbered(table));
    forall o, k
      ensures (o, k) in log <==> 1 <= k <= |OrgIndices(table, o)|
      ensures (o, k) in log ==> log[(o, k)].entryHash == "" && log[(o, k)].orgId == o && log[(o, k)].seqNo == k
    {
      BackfilledSlots(table, o, k);
    }
    assert forall slot :: slot in log ==> (slot.0, slot.1) == slot;
    forall o, k | (o, k) in log
      ensures RowFits(digest, log, o, k)
    {
      assert k > 1 ==> (o, k - 1) in log;
    }
  }

  /** Upgrade, then any interleaving of appenders: the org verifies as intact,
      counting only the rows appended since the upgrade. */
  lemma UpgradedOrgVerifiesIntact(digest: Digest, table: seq<Stamped>, actions: seq<Action>, org: string, tip: nat)
    requires NeverEmpty(digest) && UniqueIds(table) && Unnumbered(table)
    requires IsTip(Run(digest, State(IndexOf(Numbered(table)), map[]), actions).log, org, tip)
    ensures WellFormedLog(digest, Run(digest, State(IndexOf(Numbered(table)), map[]), actions).log)
    ensures
      var rows := RowsOf(digest, Run(digest, State(IndexOf(Numbered(table)), map[]), actions).log, org, tip);
      Linked(digest, Chained(rows)) && |Chained(rows)| == tip - |OrgIndices(table, org)|
  {
    BackfillStartsTheChain(digest, table, org);
    EveryRunVerifiesIntact(digest, IndexOf(Numbered(table)), actions, org, |OrgIndices(table, org)|, tip);
  }
}
