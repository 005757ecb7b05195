/** Any number of writers appending to the audit log at once, each reading the
    tip, planning the next link and inserting it if the unique (org, seq) slot
    is still free (src/audit.rs). The advisory lock is not assumed. */
module AuditProtocol {
  import opened Prelude
  import opened AuditChain

  const APPEND_ATTEMPTS: nat := 4

  /** What a caller asks to record; time and row id are drawn per attempt. */
  datatype Entry = Entry(
    orgId: string, action: string, subject: string, actorTokenId: string,
    actorTokenName: string, actorRole: string, detail: Option<string>)

  /** The table under its unique index on (org_id, seq). */
  type Log = map<(string, int), Row>

  datatype Phase =
    | Ready(entry: Entry, attemptsLeft: nat)
    | Planned(entry: Entry, row: Row, attemptsLeft: nat)
    | Recorded(entry: Entry, seqNo: int)
    | GaveUp

  datatype State = State(log: Log, writers: map<nat, Phase>)

  datatype Action =
    | Begin(w: nat, entry: Entry)
    | ReadTip(w: nat, tip: int, at: string, id: string)
    | Insert(w: nat)
    | Abort(w: nat) // a database error or a crash

  /** The highest position of an org, 0 when it has none. */
  ghost predicate IsTip(log: Log, org: string, tip: int) {
    && tip >= 0
    && (tip > 0 ==> (org, tip) in log)
    && forall k :: (org, k) in log ==> k <= tip
  }

  function HashBefore(log: Log, org: string, seqNo: int): string {
    if (org, seqNo - 1) in log then log[(org, seqNo - 1)].entryHash else ""
  }

  /** The link `append_chained` builds on the tip it read. */
  function NextLink(digest: Digest, log: Log, entry: Entry, tip: int, at: string, id: string): Row {
    var prev := HashBefore(log, entry.orgId, tip + 1);
    var unhashed := Row(id, entry.orgId, at, entry.action, entry.subject, Some(entry.actorTokenId),
                        entry.actorTokenName, entry.actorRole, entry.detail, tip + 1, "",
                        if prev == "" then None else Some(prev));
    unhashed.(entryHash := ExpectedHash(digest, unhashed, prev))
  }

  ghost function Next(digest: Digest, s: State, a: Action): State {
    match a
    case Begin(w, entry) =>
      if w in s.writers then s else s.(writers := s.writers[w := Ready(entry, APPEND_ATTEMPTS)])
    case ReadTip(w, tip, at, id) =>
      if w in s.writers && s.writers[w].Ready? && IsTip(s.log, s.writers[w].entry.orgId, tip) then
        var p := s.writers[w];
        s.(writers := s.writers[w := Planned(p.entry, NextLink(digest, s.log, p.entry, tip, at, id), p.attemptsLeft)])
      else s
    case Insert(w) =>
      if w in s.writers && s.writers[w].Planned? then
        var p := s.writers[w];
        var slot := (p.entry.orgId, p.row.seqNo);
        if slot !in s.log then
          State(s.log[slot := p.row], s.writers[w := Recorded(p.entry, p.row.seqNo)])
        else if p.attemptsLeft > 1 then
          s.(writers := s.writers[w := Ready(p.entry, p.attemptsLeft - 1)])
        else
          s.(writers := s.writers[w := GaveUp])
      else s
    case Abort(w) =>
      if w in s.writers && (s.writers[w].Ready? || s.writers[w].Planned?)
      then s.(writers := s.writers[w := GaveUp]) else s
  }

  ghost function Run(digest: Digest, s: State, actions: seq<Action>): State
    decreases |actions|
  {
    if actions == [] then s else Run(digest, Next(digest, s, actions[0]), actions[1..])
  }

  /** Rows sit at contiguous positions from 1; unchained legacy rows come
      first; every chained row hashes over the row just before it. */
  ghost predicate RowFits(digest: Digest, log: Log, org: string, k: int)
    requires (org, k) in log
  {
    var row := log[(org, k)];
    && k >= 1
    && (k > 1 ==> (org, k - 1) in log)
    && row.orgId == org && row.seqNo == k
    && (row.entryHash != "" ==> row.entryHash == ExpectedHash(digest, row, HashBefore(log, org, k)))
    && (row.entryHash == "" ==> HashBefore(log, org, k) == "")
  }

  ghost predicate WellFormedLog(digest: Digest, log: Log) {
    forall org, k :: (org, k) in log ==> RowFits(digest, log, org, k)
  }

  /** The row says what the entry says, and who acted. */
  predicate Carries(row: Row, entry: Entry) {
    && row.orgId == entry.orgId && row.action == entry.action && row.subject == entry.subject
    && row.actorTokenId == Some(entry.actorTokenId) && row.actorTokenName == entry.actorTokenName
    && row.actorRole == entry.actorRole && row.detail == entry.detail
  }

  /** A planned link follows a row that is still there, and is honestly hashed. */
  ghost predicate PlanFits(digest: Digest, log: Log, p: Phase)
    requires p.Planned?
  {
    var row := p.row;
    && Carries(row, p.entry) && row.seqNo >= 1
    && (row.seqNo > 1 ==> (row.orgId, row.seqNo - 1) in log)
    && row.entryHash == ExpectedHash(digest, row, HashBefore(log, row.orgId, row.seqNo))
  }

  function SlotOf(p: Phase): (string, int)
    requires p.Recorded?
  {
    (p.entry.orgId, p.seqNo)
  }

  /** A recorded writer's row carries what it asked to record. */
  ghost predicate RecordFits(log: Log, p: Phase)
    requires p.Recorded?
  {
    var slot := SlotOf(p);
    slot in log && Carries(log[slot], p.entry) && log[slot].seqNo == p.seqNo && log[slot].entryHash != ""
  }

  /** `w` was told that its entry was recorded, and `slot` is where. */
  predicate Owns(s: State, w: nat, slot: (string, int)) {
    w in s.writers && s.writers[w].Recorded? && SlotOf(s.writers[w]) == slot
  }

  /** The rows that were not there at first, and the recorded writers, match one
      to one. */
  ghost predicate OneRowEach(origin: Log, s: State) {
    && (forall w, slot :: Owns(s, w, slot) ==> slot in s.log && slot !in origin)
    && (forall v, w, slot :: Owns(s, v, slot) && Owns(s, w, slot) ==> v == w)
    && (forall slot :: slot in s.log && slot !in origin ==> exists w :: Owns(s, w, slot))
  }

  ghost predicate PhaseFits(digest: Digest, log: Log, p: Phase) {
    && (p.Planned? ==> PlanFits(digest, log, p))
    && (p.Recorded? ==> RecordFits(log, p))
  }

  function RecordedBy(s: State): set<nat> {
    set w | w in s.writers && s.writers[w].Recorded?
  }

  ghost predicate Invariant(digest: Digest, origin: Log, s: State) {
    && WellFormedLog(digest, s.log)
    && (forall w :: w in s.writers ==> PhaseFits(digest, s.log, s.writers[w]))
    && (forall slot :: slot in origin ==> slot in s.log && s.log[slot] == origin[slot])
    && (forall slot :: slot in s.log && slot !in origin ==> s.log[slot].entryHash != "")
    && |s.log| == |origin| + |RecordedBy(s)|
    && OneRowEach(origin, s)
  }

  ghost predicate NeverEmpty(digest: Digest) {
    forall x :: digest(x) != ""
  }

  /** Rows are only ever added: none is changed or removed. */
  lemma AppendOnly(digest: Digest, s: State, a: Action)
    ensures forall slot :: slot in s.log ==> slot in Next(digest, s, a).log && Next(digest, s, a).log[slot] == s.log[slot]
  {
  }

  lemma RecordedCount(s: State, w: nat, p: Phase)
    requires w !in s.writers || !s.writers[w].Recorded?
    ensures |RecordedBy(s.(writers := s.writers[w := p]))| == |RecordedBy(s)| + if p.Recorded? then 1 else 0
  {
    var s' := s.(writers := s.writers[w := p]);
    assert RecordedBy(s') == if p.Recorded? then RecordedBy(s) + {w} else RecordedBy(s);
  }

  lemma InsertKeepsLog(digest: Digest, log: Log, p: Phase)
    requires WellFormedLog(digest, log) && p.Planned? && PlanFits(digest, log, p)
    requires (p.entry.orgId, p.row.seqNo) !in log && p.row.entryHash != ""
    ensures WellFormedLog(digest, log[(p.entry.orgId, p.row.seqNo) := p.row])
  {
    var slot := (p.entry.orgId, p.row.seqNo);
    var log' := log[slot := p.row];
    forall org, k | (org, k) in log'
      ensures RowFits(digest, log', org, k)
    {
      if (org, k) != slot {
        assert RowFits(digest, log, org, k);
      }
    }
  }

  /** A step of one writer that leaves the table alone. */
  lemma MoveWriter(digest: Digest, origin: Log, s: State, w: nat, p: Phase)
    requires Invariant(digest, origin, s) && PhaseFits(digest, s.log, p)
    requires !p.Recorded? && (w in s.writers ==> !s.writers[w].Recorded?)
    ensures Invariant(digest, origin, s.(writers := s.writers[w := p]))
  {
    MoveKeepsOwners(origin, s, w, p);
    hide OneRowEach;
    RecordedCount(s, w, p);
  }

  /** A plan built on the current tip is honest. */
  lemma NextLinkFits(digest: Digest, log: Log, entry: Entry, tip: int, at: string, id: string, left: nat)
    requires IsTip(log, entry.orgId, tip)
    ensures PlanFits(digest, log, Planned(entry, NextLink(digest, log, entry, tip, at, id), left))
  {
  }

  /** Adding a row at a free slot never invalidates another writer's phase. */
  lemma PhaseStaysFit(digest: Digest, log: Log, slot: (string, int), row: Row, p: Phase)
    requires slot !in log && slot.1 >= 1 && PhaseFits(digest, log, p) && WellFormedLog(digest, log)
    ensures PhaseFits(digest, log[slot := row], p)
  {
    if p.Planned? && p.row.seqNo == 1 {
      PositionsStartAtOne(digest, log, p.row.orgId);
    }
  }

  lemma PositionsStartAtOne(digest: Digest, log: Log, org: string)
    requires WellFormedLog(digest, log)
    ensures (org, 0) !in log
  {
  }

  lemma InsertAddsOwner(digest: Digest, origin: Log, s: State, w: nat)
    requires OneRowEach(origin, s)
    requires forall slot :: slot in origin ==> slot in s.log
    requires w in s.writers && s.writers[w].Planned?
    requires (s.writers[w].entry.orgId, s.writers[w].row.seqNo) !in s.log
    ensures OneRowEach(origin, Next(digest, s, Insert(w)))
  {
    var s' := Next(digest, s, Insert(w));
    var added := (s.writers[w].entry.orgId, s.writers[w].row.seqNo);
    assert Owns(s', w, added);
    assert forall v, slot :: v != w ==> (Owns(s', v, slot) <==> Owns(s, v, slot));
    forall slot | slot in s'.log && slot !in origin
      ensures exists v :: Owns(s', v, slot)
    {
      if slot != added {
        var v :| Owns(s, v, slot);
        assert Owns(s', v, slot);
      }
    }
  }

  /** A step that records nothing leaves every owner where it was. */
  lemma MoveKeepsOwners(origin: Log, s: State, w: nat, p: Phase)
    requires OneRowEach(origin, s) && !p.Recorded? && (w in s.writers ==> !s.writers[w].Recorded?)
    ensures OneRowEach(origin, s.(writers := s.writers[w := p]))
  {
    var s' := s.(writers := s.writers[w := p]);
    assert forall v, slot :: Owns(s', v, slot) <==> Owns(s, v, slot);
  }

  lemma InsertRow(digest: Digest, origin: Log, s: State, w: nat)
    requires NeverEmpty(digest) && Invariant(digest, origin, s)
    requires w in s.writers && s.writers[w].Planned?
    requires (s.writers[w].entry.orgId, s.writers[w].row.seqNo) !in s.log
    ensures Invariant(digest, origin, Next(digest, s, Insert(w)))
  {
    var p := s.writers[w];
    var slot := (p.entry.orgId, p.row.seqNo);
    var s' := Next(digest, s, Insert(w));
    assert PhaseFits(digest, s.log, p);
    assert p.row.entryHash == digest(InputOf(p.row, HashBefore(s.log, p.row.orgId, p.row.seqNo)));
    InsertKeepsLog(digest, s.log, p);
    RecordedCount(s, w, Recorded(p.entry, p.row.seqNo));
    InsertAddsOwner(digest, origin, s, w);
    assert RecordedBy(s') == RecordedBy(s.(writers := s'.writers));
    forall v | v in s'.writers
      ensures PhaseFits(digest, s'.log, s'.writers[v])
    {
      if v != w {
        PhaseStaysFit(digest, s.log, slot, p.row, s.writers[v]);
      }
    }
  }

  lemma NextKeepsInvariant(digest: Digest, origin: Log, s: State, a: Action)
    requires NeverEmpty(digest) && Invariant(digest, origin, s)
    ensures Invariant(digest, origin, Next(digest, s, a))
  {
    hide Invariant, PhaseFits;
    var s' := Next(digest, s, a);
    if s'.log != s.log {
      InsertRow(digest, origin, s, a.w);
    } else if s' != s {
      if a.ReadTip? {
        var p := s.writers[a.w];
        NextLinkFits(digest, s.log, p.entry, a.tip, a.at, a.id, p.attemptsLeft);
      }
      PlainPhaseFits(digest, s.log, s'.writers[a.w]);
      MoveWriter(digest, origin, s, a.w, s'.writers[a.w]);
      assert s' == s.(writers := s.writers[a.w := s'.writers[a.w]]);
    }
  }

  lemma PlainPhaseFits(digest: Digest, log: Log, p: Phase)
    requires !p.Recorded? && (p.Planned? ==> PlanFits(digest, log, p))
    ensures PhaseFits(digest, log, p)
  {
  }

  lemma {:induction false} RunKeepsInvariant(digest: Digest, origin: Log, s: State, actions: seq<Action>)
    requires NeverEmpty(digest) && Invariant(digest, origin, s)
    ensures Invariant(digest, origin, Run(digest, s, actions))
    decreases |actions|
  {
    if actions != [] {
      NextKeepsInvariant(digest, origin, s, actions[0]);
      RunKeepsInvariant(digest, origin, Next(digest, s, actions[0]), actions[1..]);
    }
  }

  // ---- What the verifier sees ----

  /** An org's rows in ascending position, as the verifier reads them. */
  ghost function RowsOf(digest: Digest, log: Log, org: string, tip: nat): seq<Row>
    requires WellFormedLog(digest, log) && IsTip(log, org, tip)
  {
    Contiguous(digest, log, org, tip);
    seq(tip, i requires 0 <= i < tip => log[(org, i + 1)])
  }

  lemma {:induction false} Contiguous(digest: Digest, log: Log, org: string, tip: nat)
    requires WellFormedLog(digest, log) && (tip > 0 ==> (org, tip) in log)
    ensures forall k :: 1 <= k <= tip ==> (org, k) in log
  {
    if tip > 0 {
      assert RowFits(digest, log, org, tip);
      Contiguous(digest, log, org, tip - 1);
    }
  }

  /** Unchained rows followed by chained ones: the verifier sees the latter. */
  lemma {:induction false} ChainedIsSuffix(rows: seq<Row>, legacy: nat)
    requires legacy <= |rows|
    requires forall i :: 0 <= i < |rows| ==> (IsChained(rows[i]) <==> i >= legacy)
    ensures Chained(rows) == rows[legacy..]
  {
    if rows != [] {
      ChainedIsSuffix(rows[1..], if legacy > 0 then legacy - 1 else 0);
    }
  }

  lemma FreshTableIsConsistent(digest: Digest, origin: Log)
    requires WellFormedLog(digest, origin)
    ensures Invariant(digest, origin, State(origin, map[]))
  {
    assert RecordedBy(State(origin, map[])) == {};
  }

  /** `log` is `origin`, all legacy, plus chained rows. */
  ghost predicate Extends(digest: Digest, origin: Log, log: Log) {
    && WellFormedLog(digest, origin) && WellFormedLog(digest, log)
    && (forall slot :: slot in origin ==> slot in log && log[slot] == origin[slot] && log[slot].entryHash == "")
    && (forall slot :: slot in log && slot !in origin ==> log[slot].entryHash != "")
  }

  lemma RowAtPosition(digest: Digest, origin: Log, log: Log, org: string, legacy: nat, tip: nat, k: nat)
    requires Extends(digest, origin, log)
    requires IsTip(origin, org, legacy) && IsTip(log, org, tip) && 1 <= k <= tip
    ensures (org, k) in log && RowFits(digest, log, org, k)
    ensures IsChained(log[(org, k)]) <==> k > legacy
  {
    hide RowFits, ExpectedHash;
    Contiguous(digest, origin, org, legacy);
    Contiguous(digest, log, org, tip);
    assert RowFits(digest, log, org, k);
    SeqNoIsPosition(digest, log, org, k);
  }

  lemma SeqNoIsPosition(digest: Digest, log: Log, org: string, k: int)
    requires (org, k) in log && RowFits(digest, log, org, k)
    ensures k >= 1 && log[(org, k)].seqNo == k
  {
  }

  lemma LinkAtPosition(digest: Digest, log: Log, org: string, k: nat, chain: seq<Row>, i: nat)
    requires i < |chain| && (org, k) in log && RowFits(digest, log, org, k)
    requires chain[i] == log[(org, k)] && IsChained(chain[i])
    requires HashBefore(log, org, k) == PrevHashAt(chain, i)
    requires i > 0 ==> chain[i - 1].seqNo == k - 1
    ensures LinkedAt(digest, chain, i)
  {
  }

  lemma TableVerifiesIntact(digest: Digest, origin: Log, log: Log, org: string, legacy: nat, tip: nat)
    requires Extends(digest, origin, log)
    requires IsTip(origin, org, legacy) && IsTip(log, org, tip)
    ensures
      var rows := RowsOf(digest, log, org, tip);
      && Linked(digest, Chained(rows))
      && legacy <= tip && |Chained(rows)| == tip - legacy
      && Head(Chained(rows)) == if tip > legacy then Some(rows[tip - 1].entryHash) else None
  {
    hide ExpectedHash, Chained, IsChained, RowFits, LinkedAt;
    var rows := RowsOf(digest, log, org, tip);
    Contiguous(digest, origin, org, legacy);
    assert legacy <= tip;
    forall i | 0 <= i < tip
      ensures IsChained(rows[i]) <==> i >= legacy
    {
      RowAtPosition(digest, origin, log, org, legacy, tip, i + 1);
    }
    ChainedIsSuffix(rows, legacy);
    var chain := rows[legacy..];
    forall i | 0 <= i < tip - legacy
      ensures LinkedAt(digest, chain, i)
    {
      var k := legacy + i + 1;
      RowAtPosition(digest, origin, log, org, legacy, tip, k);
      if k > 1 {
        RowAtPosition(digest, origin, log, org, legacy, tip, k - 1);
        SeqNoIsPosition(digest, log, org, k - 1);
      } else {
        PositionsStartAtOne(digest, log, org);
      }
      assert i == 0 && k > 1 ==> log[(org, k - 1)].entryHash == "" by {
        if i == 0 && k > 1 {
          NotChainedNoHash(log[(org, k - 1)], k - 1);
        }
      }
      LinkAtPosition(digest, log, org, k, chain, i);
    }
  }

  lemma NotChainedNoHash(row: Row, k: int)
    requires k >= 1 && row.seqNo == k && !IsChained(row)
    ensures row.entryHash == ""
  {
  }

  /** After any interleaving of any number of writers, starting from a table of
      `legacy` unchained rows for the org, the org's rows verify as intact, the
      verifier counts exactly the rows appended since, and its head is the
      last of them. */
  lemma EveryRunVerifiesIntact(digest: Digest, origin: Log, actions: seq<Action>, org: string, legacy: nat, tip: nat)
    requires NeverEmpty(digest) && WellFormedLog(digest, origin)
    requires forall slot :: slot in origin ==> origin[slot].entryHash == ""
    requires IsTip(origin, org, legacy)
    requires IsTip(Run(digest, State(origin, map[]), actions).log, org, tip)
    ensures WellFormedLog(digest, Run(digest, State(origin, map[]), actions).log)
    ensures
      var rows := RowsOf(digest, Run(digest, State(origin, map[]), actions).log, org, tip);
      && Linked(digest, Chained(rows))
      && legacy <= tip && |Chained(rows)| == tip - legacy
      && Head(Chained(rows)) == if tip > legacy then Some(rows[tip - 1].entryHash) else None
  {
    hide Run;
    FreshTableIsConsistent(digest, origin);
    RunKeepsInvariant(digest, origin, State(origin, map[]), actions);
    TableVerifiesIntact(digest, origin, Run(digest, State(origin, map[]), actions).log, org, legacy, tip);
  }

  /** Nothing is lost and nothing doubled: the rows added since the start and
      the writers told that their entry was recorded match one to one, and
      each such row carries its writer's entry, the actor included. */
  lemma EveryRecordLandsOnce(digest: Digest, origin: Log, actions: seq<Action>)
    requires NeverEmpty(digest) && WellFormedLog(digest, origin)
    ensures
      var s := Run(digest, State(origin, map[]), actions);
      && |s.log| == |origin| + |RecordedBy(s)|
      && OneRowEach(origin, s)
      && (forall w, slot :: Owns(s, w, slot) ==>
            slot in s.log && Carries(s.log[slot], s.writers[w].entry) && IsChained(s.log[slot]))
      && (forall slot :: slot in origin ==> slot in s.log && s.log[slot] == origin[slot])
  {
    hide Run;
    FreshTableIsConsistent(digest, origin);
    RunKeepsInvariant(digest, origin, State(origin, map[]), actions);
    var s := Run(digest, State(origin, map[]), actions);
    forall w, slot | Owns(s, w, slot)
      ensures slot in s.log && Carries(s.log[slot], s.writers[w].entry) && IsChained(s.log[slot])
    {
      assert PhaseFits(digest, s.log, s.writers[w]);
      assert RowFits(digest, s.log, slot.0, slot.1);
    }
  }

  // ---- No writer gives up early ----

  /** How often the writer's insert met a slot that was already taken. */
  ghost function Collisions(digest: Digest, s: State, actions: seq<Action>, w: nat): nat
    decreases |actions|
  {
    if actions == [] then 0
    else
      (if actions[0] == Insert(w) && MeetsTakenSlot(s, w) then 1 else 0)
      + Collisions(digest, Next(digest, s, actions[0]), actions[1..], w)
  }

  predicate MeetsTakenSlot(s: State, w: nat) {
    w in s.writers && s.writers[w].Planned? && (s.writers[w].entry.orgId, s.writers[w].row.seqNo) in s.log
  }

  /** The phase is what so many collisions leave of n attempts. */
  predicate Spent(s: State, w: nat, n: nat, collisions: nat) {
    w in s.writers &&
    match s.writers[w]
    case Ready(_, left) => left > 0 && left + collisions == n
    case Planned(_, _, left) => left > 0 && left + collisions == n
    case Recorded(_, _) => collisions < n
    case GaveUp => collisions == n
  }

  lemma StepSpends(digest: Digest, s: State, a: Action, w: nat, n: nat)
    requires w in s.writers && (s.writers[w].Ready? || s.writers[w].Planned?) && s.writers[w].attemptsLeft == n > 0
    requires a != Abort(w)
    ensures Spent(Next(digest, s, a), w, n, if a == Insert(w) && MeetsTakenSlot(s, w) then 1 else 0)
  {
    hide NextLink;
  }

  lemma StepKeepsEnded(digest: Digest, s: State, a: Action, w: nat)
    requires w in s.writers && (s.writers[w].Recorded? || s.writers[w].GaveUp?)
    ensures w in Next(digest, s, a).writers && Next(digest, s, a).writers[w] == s.writers[w]
    ensures !MeetsTakenSlot(s, w)
  {
    hide NextLink;
  }

  lemma {:induction false} EndedStaysEnded(digest: Digest, s: State, actions: seq<Action>, w: nat)
    requires w in s.writers && (s.writers[w].Recorded? || s.writers[w].GaveUp?)
    ensures w in Run(digest, s, actions).writers && Run(digest, s, actions).writers[w] == s.writers[w]
    ensures Collisions(digest, s, actions, w) == 0
    decreases |actions|
  {
    hide Next, MeetsTakenSlot;
    if actions != [] {
      StepKeepsEnded(digest, s, actions[0], w);
      EndedStaysEnded(digest, Next(digest, s, actions[0]), actions[1..], w);
    }
  }

  lemma {:induction false} RunSpends(digest: Digest, s: State, actions: seq<Action>, w: nat, n: nat)
    requires w in s.writers && (s.writers[w].Ready? || s.writers[w].Planned?) && s.writers[w].attemptsLeft == n > 0
    requires Abort(w) !in actions
    ensures Spent(Run(digest, s, actions), w, n, Collisions(digest, s, actions, w))
    decreases |actions|
  {
    hide Next, MeetsTakenSlot;
    if actions != [] {
      var s1 := Next(digest, s, actions[0]);
      StepSpends(digest, s, actions[0], w, n);
      if s1.writers[w].Ready? || s1.writers[w].Planned? {
        RunSpends(digest, s1, actions[1..], w, s1.writers[w].attemptsLeft);
      } else {
        EndedStaysEnded(digest, s1, actions[1..], w);
      }
    }
  }

  lemma StepBegins(digest: Digest, s: State, a: Action, w: nat)
    requires w !in s.writers
    ensures w in Next(digest, s, a).writers ==> Next(digest, s, a).writers[w] == Ready(a.entry, 4) && a.Begin?
  {
    hide NextLink;
  }

  /** Unless it is aborted, a writer gives up only after four slots it planned for
      were taken, and it never ends with its entry lost before that. */
  lemma {:induction false} GivesUpOnlyAfterFour(digest: Digest, s: State, actions: seq<Action>, w: nat)
    requires w !in s.writers && Abort(w) !in actions
    ensures w in Run(digest, s, actions).writers ==> Spent(Run(digest, s, actions), w, 4, Collisions(digest, s, actions, w))
    decreases |actions|
  {
    hide Next, MeetsTakenSlot;
    if actions != [] {
      var s1 := Next(digest, s, actions[0]);
      StepBegins(digest, s, actions[0], w);
      NotPlanned(s, w);
      if w in s1.writers {
        RunSpends(digest, s1, actions[1..], w, 4);
      } else {
        GivesUpOnlyAfterFour(digest, s1, actions[1..], w);
      }
    }
  }

  lemma NotPlanned(s: State, w: nat)
    requires w !in s.writers
    ensures !MeetsTakenSlot(s, w)
  {
  }

  /** A writer that nobody overtakes is recorded right after the tip. */
  lemma LoneWriterIsRecorded(digest: Digest, s: State, w: nat, entry: Entry, tip: int, at: string, id: string)
    requires w !in s.writers && IsTip(s.log, entry.orgId, tip)
    ensures
      var s' := Next(digest, Next(digest, Next(digest, s, Begin(w, entry)), ReadTip(w, tip, at, id)), Insert(w));
      var slot := (entry.orgId, tip + 1);
      && s'.writers[w] == Recorded(entry, tip + 1)
      && s'.log.Keys == s.log.Keys + {slot}
      && Carries(s'.log[slot], entry) && s'.log[slot].at == at && s'.log[slot].id == id && s'.log[slot].seqNo == tip + 1
      && s'.log[slot].prevHash
         == (if (entry.orgId, tip) in s.log && s.log[(entry.orgId, tip)].entryHash != ""
             then Some(s.log[(entry.orgId, tip)].entryHash) else None)
  {
    var s1 := Next(digest, s, Begin(w, entry));
    assert s1 == s.(writers := s.writers[w := Ready(entry, APPEND_ATTEMPTS)]);
    var s2 := Next(digest, s1, ReadTip(w, tip, at, id));
    assert s2.log == s.log && s2.writers[w] == Planned(entry, NextLink(digest, s.log, entry, tip, at, id), APPEND_ATTEMPTS);
  }
}
