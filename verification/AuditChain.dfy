/** The tamper-evident audit chain: the verifier loop and what an intact
    verdict is worth (src/audit.rs). The digest of an entry's canonical
    preimage is a parameter, `digest`. */
module AuditChain {
  import opened Prelude

  /** The fields the digest covers. */
  datatype ChainInput = ChainInput(
    orgId: string, seqNo: nat, at: string, action: string, subject: string,
    actorTokenId: Option<string>, actorTokenName: string, actorRole: string,
    detail: Option<string>, prevHash: string)

  type Digest = ChainInput -> string

  /** One `audit_log` row; `seqNo` is the i64 column `seq`. */
  datatype Row = Row(
    id: string, orgId: string, at: string, action: string, subject: string,
    actorTokenId: Option<string>, actorTokenName: string, actorRole: string,
    detail: Option<string>, seqNo: int, entryHash: string, prevHash: Option<string>)

  datatype ChainProblem = HashMismatch | BrokenLink | SequenceGap

  datatype ChainReport = ChainReport(
    intact: bool, entriesChecked: nat, firstBadSeq: Option<int>,
    problem: Option<ChainProblem>, headHash: Option<string>)

  /** `row.seq as u64`. */
  function AsU64(i: int): nat {
    i % 0x1_0000_0000_0000_0000
  }

  function InputOf(row: Row, prevHash: string): ChainInput {
    ChainInput(row.orgId, AsU64(row.seqNo), row.at, row.action, row.subject, row.actorTokenId,
               row.actorTokenName, row.actorRole, row.detail, prevHash)
  }

  function ExpectedHash(digest: Digest, row: Row, prevHash: string): string {
    digest(InputOf(row, prevHash))
  }

  function OwnPrev(row: Row): string {
    if row.prevHash.Some? then row.prevHash.value else ""
  }

  predicate IsChained(row: Row) {
    row.seqNo > 0 && row.entryHash != ""
  }

  function Chained(rows: seq<Row>): (r: seq<Row>)
    ensures forall row :: row in r ==> IsChained(row)
  {
    if rows == [] then []
    else if IsChained(rows[0]) then [rows[0]] + Chained(rows[1..])
    else Chained(rows[1..])
  }

  function PrevHashAt(chain: seq<Row>, i: nat): string
    requires i <= |chain|
  {
    if i == 0 then "" else chain[i - 1].entryHash
  }

  predicate LinkedAt(digest: Digest, chain: seq<Row>, i: nat)
    requires i < |chain|
  {
    && (i > 0 ==> chain[i].seqNo == chain[i - 1].seqNo + 1)
    && ExpectedHash(digest, chain[i], PrevHashAt(chain, i)) == chain[i].entryHash
  }

  /** Contiguous positions, every entry hashing over its predecessor's hash. */
  ghost predicate Linked(digest: Digest, chain: seq<Row>) {
    forall i :: 0 <= i < |chain| ==> LinkedAt(digest, chain, i)
  }

  function Head(chain: seq<Row>): Option<string> {
    if chain == [] then None else Some(chain[|chain| - 1].entryHash)
  }

  /** The diagnosis owed to the first entry that does not fit. */
  ghost predicate Diagnoses(digest: Digest, chain: seq<Row>, report: ChainReport) {
    var k := report.entriesChecked;
    && k < |chain|
    && (forall i :: 0 <= i < k ==> LinkedAt(digest, chain, i))
    && !LinkedAt(digest, chain, k)
    && report.headHash == Head(chain[..k])
    && if k > 0 && chain[k].seqNo != chain[k - 1].seqNo + 1 then
         report.problem == Some(SequenceGap) && report.firstBadSeq == Some(chain[k - 1].seqNo + 1)
       else
         && report.firstBadSeq == Some(chain[k].seqNo)
         && report.problem == Some(
              if ExpectedHash(digest, chain[k], OwnPrev(chain[k])) == chain[k].entryHash
              then BrokenLink else HashMismatch)
  }

  /** What the verifier reports of a stored log. */
  ghost predicate Reports(digest: Digest, rows: seq<Row>, report: ChainReport) {
    var chain := Chained(rows);
    && (report.intact <==> Linked(digest, chain))
    && if report.intact then report == ChainReport(true, |chain|, None, None, Head(chain))
       else Diagnoses(digest, chain, report)
  }

  lemma {:induction false} ChainedAppend(a: seq<Row>, b: seq<Row>)
    ensures Chained(a + b) == Chained(a) + Chained(b)
  {
    if a == [] {
      assert a + b == b;
    } else {
      assert (a + b)[1..] == a[1..] + b;
      ChainedAppend(a[1..], b);
    }
  }

  lemma EmptyChain(rows: seq<Row>)
    ensures Chained(rows[..0]) == []
  {
  }

  lemma ChainedOne(row: Row)
    ensures Chained([row]) == if IsChained(row) then [row] else []
  {
    assert [row][1..] == [];
  }

  lemma ChainedStep(rows: seq<Row>, i: nat)
    requires i < |rows|
    ensures Chained(rows[..i + 1]) == Chained(rows[..i]) + (if IsChained(rows[i]) then [rows[i]] else [])
  {
    hide Chained, IsChained;
    ChainedAppend(rows[..i], [rows[i]]);
    ChainedOne(rows[i]);
    assert rows[..i + 1] == rows[..i] + [rows[i]];
  }

  lemma ChainedPrefix(rows: seq<Row>, n: nat)
    requires n <= |rows|
    ensures Chained(rows[..n]) <= Chained(rows)
  {
    hide Chained;
    ChainedAppend(rows[..n], rows[n..]);
    assert rows[..n] + rows[n..] == rows;
  }

  /** Walk the rows in ascending position, skipping unchained ones. The report
      is determined: intact exactly for a linked chain, otherwise naming the
      first entry that does not fit and why. */
  method VerifyChain(digest: Digest, rows: seq<Row>) returns (report: ChainReport)
    ensures Reports(digest, rows, report)
  {
    hide ExpectedHash, Chained;
    ghost var chain := Chained(rows);
    var prevHash := "";
    var expectedSeq: Option<int> := None;
    var checked: nat := 0;
    var head: Option<string> := None;
    var i := 0;
    EmptyChain(rows);
    while i < |rows|
      invariant 0 <= i <= |rows|
      invariant |Chained(rows[..i])| == checked <= |chain|
      invariant forall j :: 0 <= j < checked ==> LinkedAt(digest, chain, j)
      invariant prevHash == PrevHashAt(chain, checked)
      invariant expectedSeq == if checked == 0 then None else Some(chain[checked - 1].seqNo + 1)
      invariant head == Head(chain[..checked])
    {
      var row := rows[i];
      ChainedStep(rows, i);
      ChainedPrefix(rows, i + 1);
      i := i + 1;
      if !(row.seqNo > 0 && row.entryHash != "") {
        continue;
      }
      assert chain[checked] == row;
      if expectedSeq.Some? && row.seqNo != expectedSeq.value {
        assert !LinkedAt(digest, chain, checked);
        return ChainReport(false, checked, expectedSeq, Some(SequenceGap), head);
      }
      if ExpectedHash(digest, row, prevHash) != row.entryHash {
        assert !LinkedAt(digest, chain, checked);
        var problem := if ExpectedHash(digest, row, OwnPrev(row)) == row.entryHash then BrokenLink else HashMismatch;
        return ChainReport(false, checked, Some(row.seqNo), Some(problem), head);
      }
      prevHash := row.entryHash;
      head := Some(row.entryHash);
      expectedSeq := Some(row.seqNo + 1);
      checked := checked + 1;
    }
    assert rows[..i] == rows && chain[..checked] == chain;
    return ChainReport(true, checked, None, None, head);
  }

  // ---- What an intact verdict commits to ----

  ghost predicate Injective(digest: Digest) {
    forall x, y :: digest(x) == digest(y) ==> x == y
  }

  /** The columns an entry's hash is to cover. */
  predicate SameEntry(a: Row, b: Row) {
    && a.orgId == b.orgId && a.seqNo == b.seqNo && a.at == b.at && a.action == b.action && a.subject == b.subject
    && a.actorTokenId == b.actorTokenId && a.actorTokenName == b.actorTokenName && a.actorRole == b.actorRole
    && a.detail == b.detail
  }

  /** `seq` is an i64 column. */
  ghost predicate FitI64(rows: seq<Row>) {
    forall i :: 0 <= i < |rows| ==> -(I64_MAX as int) - 1 <= rows[i].seqNo <= I64_MAX
  }

  lemma InputIffSameEntry(a: Row, b: Row, prevA: string, prevB: string)
    requires FitI64([a, b])
    ensures InputOf(a, prevA) == InputOf(b, prevB) <==> SameEntry(a, b) && prevA == prevB
  {
    assert FitI64([a, b]) && [a, b][0] == a && [a, b][1] == b;
    assert AsU64(a.seqNo) == AsU64(b.seqNo) <==> a.seqNo == b.seqNo;
  }

  ghost predicate SameHistory(a: seq<Row>, b: seq<Row>) {
    |a| == |b| && forall i :: 0 <= i < |a| ==> SameEntry(a[i], b[i]) && a[i].entryHash == b[i].entryHash
  }

  lemma LinkedPrefix(digest: Digest, chain: seq<Row>, n: nat)
    requires Linked(digest, chain) && n <= |chain|
    ensures Linked(digest, chain[..n])
  {
    forall i | 0 <= i < n
      ensures LinkedAt(digest, chain[..n], i)
    {
      assert LinkedAt(digest, chain, i);
    }
  }

  ghost predicate AllChained(chain: seq<Row>) {
    forall i :: 0 <= i < |chain| ==> IsChained(chain[i])
  }

  lemma ChainedIsAllChained(rows: seq<Row>)
    ensures AllChained(Chained(rows))
  {
    forall i | 0 <= i < |Chained(rows)|
      ensures IsChained(Chained(rows)[i])
    {
      assert Chained(rows)[i] in Chained(rows);
    }
  }

  lemma {:induction false} ChainedFits(rows: seq<Row>)
    requires FitI64(rows)
    ensures FitI64(Chained(rows))
  {
    if rows != [] {
      ChainedFits(rows[1..]);
    }
  }

  /** Equal heads force equal last entries over equal predecessors. */
  lemma HeadCommitsToLast(digest: Digest, a: seq<Row>, b: seq<Row>)
    requires Injective(digest) && a != [] && b != []
    requires FitI64(a) && FitI64(b)
    requires Linked(digest, a) && Linked(digest, b) && Head(a) == Head(b)
    ensures SameEntry(a[|a| - 1], b[|b| - 1])
    ensures PrevHashAt(a, |a| - 1) == PrevHashAt(b, |b| - 1)
  {
    var n, m := |a| - 1, |b| - 1;
    assert LinkedAt(digest, a, n) && LinkedAt(digest, b, m);
    assert InputOf(a[n], PrevHashAt(a, n)) == InputOf(b[m], PrevHashAt(b, m));
    InputIffSameEntry(a[n], b[m], PrevHashAt(a, n), PrevHashAt(b, m));
  }

  /** Two linked chains with one head hash record the same history: nothing in
      them, nor their length or order, can differ. */
  lemma {:induction false} HeadCommitsToHistory(digest: Digest, a: seq<Row>, b: seq<Row>)
    requires Injective(digest) && AllChained(a) && AllChained(b) && FitI64(a) && FitI64(b)
    requires Linked(digest, a) && Linked(digest, b) && Head(a) == Head(b)
    ensures SameHistory(a, b)
  {
    hide LinkedAt, Injective, InputOf, SameEntry;
    if a != [] {
      var a', b' := a[..|a| - 1], b[..|b| - 1];
      HeadCommitsToLast(digest, a, b);
      LinkedPrefix(digest, a, |a| - 1);
      LinkedPrefix(digest, b, |b| - 1);
      assert Head(a') == Head(b') by {
        assert a' != [] ==> IsChained(a[|a| - 2]);
        assert b' != [] ==> IsChained(b[|b| - 2]);
      }
      HeadCommitsToHistory(digest, a', b');
    }
  }

  /** Stored rows that both verify and share a head agree on every hashed field
      of every chained row: an edit, deletion, reordering or truncation that
      still verifies has moved the head. */
  lemma TamperingMovesHead(digest: Digest, before: seq<Row>, after: seq<Row>)
    requires Injective(digest) && FitI64(before) && FitI64(after)
    requires Linked(digest, Chained(before)) && Linked(digest, Chained(after))
    requires !SameHistory(Chained(before), Chained(after))
    ensures Head(Chained(before)) != Head(Chained(after))
  {
    if Head(Chained(before)) == Head(Chained(after)) {
      ChainedIsAllChained(before);
      ChainedIsAllChained(after);
      ChainedFits(before);
      ChainedFits(after);
      HeadCommitsToHistory(digest, Chained(before), Chained(after));
    }
  }

  /** Edit any covered column of one entry of an intact log, its hash left as it
      was: the verifier stops at that very entry. */
  lemma EditIsDetected(digest: Digest, chain: seq<Row>, k: nat, edited: Row, report: ChainReport)
    requires Injective(digest) && AllChained(chain) && Linked(digest, chain) && FitI64(chain)
    requires k < |chain| && FitI64([edited]) && IsChained(edited)
    requires edited.entryHash == chain[k].entryHash && !SameEntry(edited, chain[k])
    requires Reports(digest, chain[k := edited], report)
    ensures !report.intact && report.entriesChecked == k
    ensures edited.seqNo == chain[k].seqNo ==> report.firstBadSeq == Some(edited.seqNo) && report.problem == Some(HashMismatch)
    ensures k > 0 && edited.seqNo != chain[k].seqNo ==>
              report.firstBadSeq == Some(chain[k].seqNo) && report.problem == Some(SequenceGap)
  {
    var after := chain[k := edited];
    AllChainedIsChained(after);
    assert [edited][0] == edited;
    InputIffSameEntry(edited, chain[k], PrevHashAt(chain, k), PrevHashAt(chain, k));
    InputIffSameEntry(edited, chain[k], OwnPrev(edited), PrevHashAt(chain, k));
    assert LinkedAt(digest, chain, k) && PrevHashAt(after, k) == PrevHashAt(chain, k);
    assert !LinkedAt(digest, after, k);
    forall i | 0 <= i < k
      ensures LinkedAt(digest, after, i)
    {
      assert LinkedAt(digest, chain, i);
    }
  }

  lemma {:induction false} AllChainedIsChained(rows: seq<Row>)
    requires AllChained(rows)
    ensures Chained(rows) == rows
  {
    if rows != [] {
      assert AllChained(rows[1..]);
      AllChainedIsChained(rows[1..]);
    }
  }

  /** The stored `prev_hash` column aside. */
  function WithoutPrev(row: Row): Row {
    row.(prevHash := None)
  }

  ghost predicate SameButPrev(a: seq<Row>, b: seq<Row>) {
    |a| == |b| && forall i :: 0 <= i < |a| ==> WithoutPrev(a[i]) == WithoutPrev(b[i])
  }

  lemma {:induction false} ChainedIgnoresPrev(a: seq<Row>, b: seq<Row>)
    requires SameButPrev(a, b)
    ensures SameButPrev(Chained(a), Chained(b))
  {
    if a != [] {
      assert WithoutPrev(a[0]) == WithoutPrev(b[0]);
      assert forall i :: 0 <= i < |a| - 1 ==> a[1..][i] == a[i + 1] && b[1..][i] == b[i + 1];
      ChainedIgnoresPrev(a[1..], b[1..]);
    }
  }

  lemma LinksIgnorePrev(digest: Digest, a: seq<Row>, b: seq<Row>, i: nat)
    requires SameButPrev(a, b) && i < |a|
    ensures LinkedAt(digest, a, i) <==> LinkedAt(digest, b, i)
    ensures a[i].seqNo == b[i].seqNo && a[i].entryHash == b[i].entryHash
  {
    assert WithoutPrev(a[i]) == WithoutPrev(b[i]);
    assert i > 0 ==> WithoutPrev(a[i - 1]) == WithoutPrev(b[i - 1]);
  }

  /** The stored `prev_hash` column is no part of the commitment: rewrite it in
      any rows of any log, and verdict, count, place of the fault and head stay
      as they were. Of a broken log only the wording may change, between a
      changed entry and a rewritten link; a gap stays a gap. */
  lemma StoredPrevHashIsUnchecked(
    digest: Digest, rows: seq<Row>, forged: seq<Row>, report: ChainReport, forgedReport: ChainReport)
    requires SameButPrev(rows, forged)
    requires Reports(digest, rows, report) && Reports(digest, forged, forgedReport)
    ensures forgedReport.(problem := None) == report.(problem := None)
    ensures forgedReport.problem == Some(SequenceGap) <==> report.problem == Some(SequenceGap)
  {
    hide Chained, ExpectedHash, LinkedAt, WithoutPrev;
    ChainedIgnoresPrev(rows, forged);
    var a, b := Chained(rows), Chained(forged);
    forall i | 0 <= i < |a|
      ensures LinkedAt(digest, a, i) <==> LinkedAt(digest, b, i)
      ensures a[i].seqNo == b[i].seqNo && a[i].entryHash == b[i].entryHash
    {
      LinksIgnorePrev(digest, a, b, i);
    }
    if !report.intact {
      var k, l := report.entriesChecked, forgedReport.entriesChecked;
      assert !LinkedAt(digest, a, k) && !LinkedAt(digest, b, l);
      assert k == l;
      assert Head(a[..k]) == Head(b[..k]);
    }
  }

  // ---- Long logs ----

  /** One request walks at most this many rows (src/routes/audit.rs). */
  const MAX_VERIFY_ROWS: nat := 50_000

  function Walked(rows: seq<Row>): seq<Row> {
    if |rows| <= MAX_VERIFY_ROWS then rows else rows[..MAX_VERIFY_ROWS]
  }

  /** Of two logs whose walked rows verify, the reported heads agree exactly when
      the walked rows record one history. Whatever differs only in rows beyond
      the limit goes unseen. */
  lemma ReportedHeadCoversWalkedRows(digest: Digest, before: seq<Row>, after: seq<Row>)
    requires Injective(digest) && FitI64(before) && FitI64(after)
    requires Linked(digest, Chained(Walked(before))) && Linked(digest, Chained(Walked(after)))
    ensures Head(Chained(Walked(before))) == Head(Chained(Walked(after)))
            <==> SameHistory(Chained(Walked(before)), Chained(Walked(after)))
    ensures |before| >= 50_000 && before[..50_000] <= after ==> Walked(after) == Walked(before)
    ensures |Walked(before)| == if |before| <= 50_000 then |before| else 50_000
    ensures Walked(before) <= before
  {
    hide Chained, Linked;
    if !SameHistory(Chained(Walked(before)), Chained(Walked(after))) {
      TamperingMovesHead(digest, Walked(before), Walked(after));
    }
  }
}
