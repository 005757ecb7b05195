/** Publishing and yanking package versions (src/routes/publish.rs,
    src/routes/yank.rs): any number of concurrent requests that upload a
    content-addressed blob, then race in a metadata transaction. A request may
    crash or roll back at any point; blobs are retained. */
module Publication {
  import opened Prelude
  import opened ArtifactStore

  datatype Package = Package(org: string, name: string)

  datatype Slot = Slot(package: Package, version: string)

  datatype Request = Request(
    slot: Slot, artifact: Bytes, declaredSha: string, declaredSize: nat, format: string,
    vcsTag: string, vcsCommit: Option<string>, description: string,
    publishedAt: int,           // as the publisher declared it, or the clock's
    mirrors: seq<string>, signatures: seq<string>)

  datatype VersionRow = VersionRow(
    sha256: string, size: nat, format: string, vcsTag: string, vcsCommit: Option<string>,
    artifactKey: string, publishedAt: int, mirrors: seq<string>, signatures: seq<string>, yanked: bool)

  /** The six columns a retry is compared on; the canonical plane receives
      these and never the timestamp, mirrors or signatures. */
  datatype Release = Release(
    sha256: string, size: nat, format: string, vcsTag: string, vcsCommit: Option<string>, artifactKey: string)

  datatype PackageRow = PackageRow(description: string, indexSequence: nat)

  datatype Phase =
    | Admitted(req: Request)                    // digest and size recomputed
    | Checked(req: Request)                     // no committed row seen
    | Stored(req: Request)                      // blob put succeeded
    | Upserted(req: Request, sequence: nat)     // in a transaction, package row locked
    | Inserted(req: Request, sequence: nat)     // version row inserted, uncommitted
    | Reconciling(req: Request, won: bool)      // canonical adoption due
    | Published(req: Request)
    | Conflicted(req: Request)
    | Rejected(req: Request)
    | Failed(req: Request)

  /** Committed state, row locks of open transactions, and the requests. */
  datatype State = State(
    store: Objects, packages: map<Package, PackageRow>, versions: map<Slot, VersionRow>,
    canonical: map<Slot, Release>, locks: map<Package, nat>, requests: map<nat, Phase>)

  datatype Action =
    | Receive(r: nat, req: Request)
    | CheckExisting(r: nat)
    | PutBlob(r: nat)
    | UpsertPackage(r: nat)
    | InsertVersion(r: nat)
    | Commit(r: nat)
    | Adopt(r: nat)
    | Abort(r: nat) // a refused put, a database error, or a crash
    | SetYanked(slot: Slot, yanked: bool)

  /** The row a request asks for. */
  function RowFor(digest: Digest, req: Request): VersionRow {
    var sha := digest(req.artifact);
    VersionRow(sha, |req.artifact|, req.format, req.vcsTag, req.vcsCommit, ArtifactKey(sha, req.format),
               req.publishedAt, req.mirrors, req.signatures, false)
  }

  function ReleaseFor(digest: Digest, req: Request): Release {
    ReleaseOf(RowFor(digest, req))
  }

  function ReleaseOf(row: VersionRow): Release {
    Release(row.sha256, row.size, row.format, row.vcsTag, row.vcsCommit, row.artifactKey)
  }

  /** `legacy_version_matches`: six columns agree. */
  predicate VersionMatches(digest: Digest, existing: VersionRow, req: Request) {
    && existing.sha256 == digest(req.artifact)
    && existing.size == |req.artifact|
    && existing.format == req.format
    && existing.vcsTag == req.vcsTag
    && existing.vcsCommit == req.vcsCommit
    && existing.artifactKey == ArtifactKey(digest(req.artifact), req.format)
  }

  /** What may never change of a row: every column but `yanked`. */
  function Facts(row: VersionRow): VersionRow {
    row.(yanked := false)
  }

  /** `saturating_add(1).max(1)` on the value read in the transaction; a new
      package row starts at 1. */
  function NextSequence(packages: map<Package, PackageRow>, package: Package): nat {
    var current := if package in packages then packages[package].indexSequence else 1;
    if current + 1 > I64_MAX then I64_MAX else current + 1
  }

  function Move(s: State, r: nat, p: Phase): State {
    s.(requests := s.requests[r := p])
  }

  function Unlock(s: State, r: nat, package: Package): (s': State)
    ensures s' == s.(locks := s'.locks)
  {
    if package in s.locks && s.locks[package] == r then s.(locks := s.locks - {package}) else s
  }

  /** What a request learns when its slot is already taken. */
  function OnExisting(digest: Digest, s: State, req: Request): Phase
    requires req.slot in s.versions
  {
    if VersionMatches(digest, s.versions[req.slot], req) then Reconciling(req, false) else Conflicted(req)
  }

  function Next(digest: Digest, s: State, a: Action): State {
    match a
    case Receive(r, req) =>
      if r in s.requests then s
      else if digest(req.artifact) != req.declaredSha || |req.artifact| != req.declaredSize
      then Move(s, r, Rejected(req)) else Move(s, r, Admitted(req))
    case SetYanked(slot, yanked) =>
      if slot in s.versions then s.(versions := s.versions[slot := s.versions[slot].(yanked := yanked)]) else s
    case _ =>
      if a.r in s.requests then RequestStep(digest, s, a, s.requests[a.r]) else s
  }

  function RequestStep(digest: Digest, s: State, a: Action, p: Phase): State
    requires !a.Receive? && !a.SetYanked?
  {
    var req := p.req;
    var key := ArtifactKey(digest(req.artifact), req.format);
    match a
    case CheckExisting(r) =>
      if !p.Admitted? then s
      else if req.slot in s.versions then Move(s, r, OnExisting(digest, s, req))
      else Move(s, r, Checked(req))
    case PutBlob(r) =>
      if !p.Checked? then s
      else if key !in s.store then Move(s, r, Stored(req)).(store := s.store[key := req.artifact])
      else if ObjectMatches(digest, s.store[key], |req.artifact|, digest(req.artifact)) then Move(s, r, Stored(req))
      else Move(s, r, Failed(req))
    case UpsertPackage(r) =>
      if !p.Stored? || req.slot.package in s.locks then s
      else Move(s, r, Upserted(req, NextSequence(s.packages, req.slot.package))).(locks := s.locks[req.slot.package := r])
    case InsertVersion(r) =>
      if !p.Upserted? then s
      else if req.slot in s.versions then Unlock(Move(s, r, OnExisting(digest, s, req)), r, req.slot.package)
      else Move(s, r, Inserted(req, p.sequence))
    case Commit(r) =>
      if !p.Inserted? then s
      else
        Unlock(Move(s, r, Reconciling(req, true)), r, req.slot.package)
        .(packages := s.packages[req.slot.package := PackageRow(req.description, p.sequence)],
          versions := s.versions[req.slot := RowFor(digest, req)])
    case Adopt(r) =>
      if !p.Reconciling? then s
      else Move(s, r, if p.won then Published(req) else Conflicted(req))
           .(canonical := s.canonical[req.slot := ReleaseFor(digest, req)])
    case Abort(r) =>
      if p.Published? || p.Conflicted? || p.Rejected? || p.Failed? then s
      else Unlock(Move(s, r, Failed(req)), r, req.slot.package)
  }

  function Run(digest: Digest, s: State, actions: seq<Action>): State
    decreases |actions|
  {
    if actions == [] then s else Run(digest, Next(digest, s, actions[0]), actions[1..])
  }

  // ---- The invariant ----

  /** A row's blob is in the store with the row's length and digest. */
  ghost predicate Backed(digest: Digest, store: Objects, row: VersionRow) {
    && row.artifactKey == ArtifactKey(row.sha256, row.format)
    && row.artifactKey in store
    && ObjectMatches(digest, store[row.artifactKey], row.size, row.sha256)
  }

  predicate InTransaction(p: Phase) {
    p.Upserted? || p.Inserted?
  }

  /** Told, or about to be told, that it published its version. */
  predicate Won(p: Phase) {
    p.Published? || (p.Reconciling? && p.won)
  }

  ghost predicate PhaseFits(digest: Digest, s: State, r: nat, p: Phase) {
    var package := p.req.slot.package;
    && (p.Stored? || InTransaction(p) ==> Backed(digest, s.store, RowFor(digest, p.req)))
    && (InTransaction(p) ==>
          package in s.locks && s.locks[package] == r && p.sequence == NextSequence(s.packages, package))
    && (p.Inserted? ==> p.req.slot !in s.versions)
    && (p.Reconciling? || p.Published? ==>
          p.req.slot in s.versions && ReleaseOf(s.versions[p.req.slot]) == ReleaseFor(digest, p.req))
    && (Won(p) ==> Facts(s.versions[p.req.slot]) == RowFor(digest, p.req))
  }

  function VersionsOf(s: State, package: Package): set<Slot> {
    set slot | slot in s.versions && slot.package == package
  }

  /** The counter's value after n committed versions. */
  function SequenceAfter(n: nat): nat {
    if n + 1 > I64_MAX then I64_MAX else n + 1
  }

  ghost predicate PackageFits(s: State, package: Package) {
    var n := |VersionsOf(s, package)|;
    && (package in s.packages <==> n > 0)
    && (package in s.packages ==> s.packages[package].indexSequence == SequenceAfter(n))
  }

  ghost predicate RowsFit(digest: Digest, s: State) {
    && (forall slot :: slot in s.versions ==> Backed(digest, s.store, s.versions[slot]))
    && (forall slot :: slot in s.canonical ==> slot in s.versions && s.canonical[slot] == ReleaseOf(s.versions[slot]))
  }

  ghost predicate OneWinner(s: State) {
    forall p, q :: p in s.requests && q in s.requests && p != q && Won(s.requests[p]) && Won(s.requests[q])
      ==> s.requests[p].req.slot != s.requests[q].req.slot
  }

  ghost predicate Invariant(digest: Digest, s: State) {
    && RowsFit(digest, s)
    && OneWinner(s)
    && (forall package :: PackageFits(s, package))
    && (forall r :: r in s.requests ==> PhaseFits(digest, s, r, s.requests[r]))
  }

  /** What holds between any earlier and later state: blobs are write-once,
      versions are never removed, and only `yanked` may differ. */
  ghost predicate Immutable(s: State, later: State) {
    && (forall k :: k in s.store ==> k in later.store && later.store[k] == s.store[k])
    && (forall slot :: slot in s.versions ==>
          slot in later.versions && Facts(later.versions[slot]) == Facts(s.versions[slot]))
  }

  // ---- Steps ----

  /** A request moves and locks change; the committed state does not. */
  lemma QuietStep(digest: Digest, s: State, r: nat, p: Phase, locks: map<Package, nat>)
    requires Invariant(digest, s)
    requires PhaseFits(digest, s.(locks := locks), r, p)
    requires forall q :: q in s.requests && q != r && InTransaction(s.requests[q]) ==>
               var package := s.requests[q].req.slot.package; package in locks && locks[package] == q
    requires Won(p) ==> r in s.requests && Won(s.requests[r]) && s.requests[r].req == p.req
    ensures Invariant(digest, s.(requests := s.requests[r := p], locks := locks))
  {
    hide PhaseFits, PackageFits, RowsFit;
    var s' := s.(requests := s.requests[r := p], locks := locks);
    forall q | q in s'.requests
      ensures PhaseFits(digest, s', q, s'.requests[q])
    {
      if q == r {
        PhaseStaysFit(digest, s.(locks := locks), s', q, p);
      } else {
        PhaseStaysFit(digest, s, s', q, s.requests[q]);
      }
    }
    SameVersionsSamePackages(s, s');
    SameRowsFit(digest, s, s');
  }

  /** A phase fits what is committed and, in a transaction, its lock. */
  lemma PhaseStaysFit(digest: Digest, s: State, s': State, r: nat, p: Phase)
    requires PhaseFits(digest, s, r, p)
    requires s'.store == s.store && s'.packages == s.packages && s'.versions == s.versions
    requires s'.locks == s.locks || (InTransaction(p) ==> p.req.slot.package in s'.locks && s'.locks[p.req.slot.package] == r)
    ensures PhaseFits(digest, s', r, p)
  {
    hide Backed, RowFor, ReleaseFor, NextSequence;
  }

  lemma SameRowsFit(digest: Digest, s: State, s': State)
    requires RowsFit(digest, s)
    requires s'.store == s.store && s'.versions == s.versions && s'.canonical == s.canonical
    ensures RowsFit(digest, s')
  {
    hide Backed;
  }

  lemma SameVersionsSamePackages(s: State, s': State)
    requires s'.versions.Keys == s.versions.Keys && s'.packages == s.packages
    requires forall package :: PackageFits(s, package)
    ensures forall package :: PackageFits(s', package)
  {
    forall package
      ensures PackageFits(s', package)
    {
      assert PackageFits(s, package) && VersionsOf(s', package) == VersionsOf(s, package);
    }
  }

  lemma StoreGrows(digest: Digest, s: State, key: string, bytes: Bytes)
    requires Invariant(digest, s) && key !in s.store
    ensures Invariant(digest, s.(store := s.store[key := bytes]))
  {
    var s' := s.(store := s.store[key := bytes]);
    SameVersionsSamePackages(s, s');
    forall r | r in s'.requests
      ensures PhaseFits(digest, s', r, s'.requests[r])
    {
      assert PhaseFits(digest, s, r, s.requests[r]);
    }
  }

  lemma CanonicalGrows(digest: Digest, s: State, slot: Slot)
    requires Invariant(digest, s) && slot in s.versions
    ensures Invariant(digest, s.(canonical := s.canonical[slot := ReleaseOf(s.versions[slot])]))
  {
    var s' := s.(canonical := s.canonical[slot := ReleaseOf(s.versions[slot])]);
    SameVersionsSamePackages(s, s');
    forall r | r in s'.requests
      ensures PhaseFits(digest, s', r, s'.requests[r])
    {
      assert PhaseFits(digest, s, r, s.requests[r]);
    }
  }

  lemma YankKeepsInvariant(digest: Digest, s: State, slot: Slot, yanked: bool)
    requires Invariant(digest, s) && slot in s.versions
    ensures Invariant(digest, s.(versions := s.versions[slot := s.versions[slot].(yanked := yanked)]))
  {
    var s' := s.(versions := s.versions[slot := s.versions[slot].(yanked := yanked)]);
    SameVersionsSamePackages(s, s');
    assert Backed(digest, s.store, s.versions[slot]);
    forall r | r in s'.requests
      ensures PhaseFits(digest, s', r, s'.requests[r])
    {
      assert PhaseFits(digest, s, r, s.requests[r]);
    }
  }

  /** The committed state once the transaction of request `r` lands. */
  function Committed(digest: Digest, s: State, r: nat): State
    requires r in s.requests && s.requests[r].Inserted?
  {
    var req, package := s.requests[r].req, s.requests[r].req.slot.package;
    s.(requests := s.requests[r := Reconciling(req, true)],
       locks := s.locks - {package},
       packages := s.packages[package := PackageRow(req.description, s.requests[r].sequence)],
       versions := s.versions[req.slot := RowFor(digest, req)])
  }

  lemma CommitIsCommitted(digest: Digest, s: State, r: nat)
    requires Invariant(digest, s) && r in s.requests && s.requests[r].Inserted?
    ensures Next(digest, s, Commit(r)) == Committed(digest, s, r)
    ensures s.requests[r].req.slot !in s.versions
    ensures s.requests[r].sequence == NextSequence(s.packages, s.requests[r].req.slot.package)
    ensures Backed(digest, s.store, RowFor(digest, s.requests[r].req))
    ensures var package := s.requests[r].req.slot.package; package in s.locks && s.locks[package] == r
  {
    assert PhaseFits(digest, s, r, s.requests[r]);
    CommitWhenLocked(digest, s, r);
  }

  lemma CommitWhenLocked(digest: Digest, s: State, r: nat)
    requires r in s.requests && s.requests[r].Inserted?
    requires s.requests[r].req.slot.package in s.locks && s.locks[s.requests[r].req.slot.package] == r
    ensures Next(digest, s, Commit(r)) == Committed(digest, s, r)
  {
    hide RowFor, ReleaseFor, ArtifactKey;
  }

  lemma AddVersionCounts(s: State, s': State, slot: Slot, package: Package)
    requires slot !in s.versions && s'.versions.Keys == s.versions.Keys + {slot} && PackageFits(s, package)
    requires if slot.package == package
             then package in s'.packages && s'.packages[package].indexSequence == NextSequence(s.packages, package)
             else (package in s'.packages <==> package in s.packages)
                  && (package in s.packages ==> s'.packages[package] == s.packages[package])
    ensures VersionsOf(s', package) == VersionsOf(s, package) + (if slot.package == package then {slot} else {})
    ensures |VersionsOf(s', package)| == |VersionsOf(s, package)| + (if slot.package == package then 1 else 0)
    ensures PackageFits(s', package)
  {
    hide VersionsOf;
    AddVersionSets(s, s', slot, package);
  }

  lemma AddVersionSets(s: State, s': State, slot: Slot, package: Package)
    requires slot !in s.versions && s'.versions.Keys == s.versions.Keys + {slot}
    ensures VersionsOf(s', package) == VersionsOf(s, package) + (if slot.package == package then {slot} else {})
    ensures |VersionsOf(s', package)| == |VersionsOf(s, package)| + (if slot.package == package then 1 else 0)
  {
    assert VersionsOf(s', package) == VersionsOf(s, package) + (if slot.package == package then {slot} else {});
    assert slot !in VersionsOf(s, package);
  }

  /** The new row is the package's one new version, and bumps its counter. */
  lemma CommitAddsOneVersion(digest: Digest, s: State, r: nat, package: Package)
    requires Invariant(digest, s) && r in s.requests && s.requests[r].Inserted?
    ensures
      var s', slot := Committed(digest, s, r), s.requests[r].req.slot;
      && VersionsOf(s', package) == VersionsOf(s, package) + (if slot.package == package then {slot} else {})
      && |VersionsOf(s', package)| == |VersionsOf(s, package)| + (if slot.package == package then 1 else 0)
      && PackageFits(s', package)
  {
    hide Invariant, Backed, RowFor, ReleaseFor, PackageFits, VersionsOf, NextSequence, Next, Committed;
    PackageOf(digest, s, package);
    CommitIsCommitted(digest, s, r);
    CommittedTables(digest, s, r, package);
    AddVersionCounts(s, Committed(digest, s, r), s.requests[r].req.slot, package);
  }

  lemma PackageOf(digest: Digest, s: State, package: Package)
    requires Invariant(digest, s)
    ensures PackageFits(s, package)
  {
    hide PackageFits, RowsFit, OneWinner, PhaseFits;
  }

  lemma CommittedTables(digest: Digest, s: State, r: nat, package: Package)
    requires r in s.requests && s.requests[r].Inserted?
    ensures
      var s', p := Committed(digest, s, r), s.requests[r];
      && s'.versions.Keys == s.versions.Keys + {p.req.slot}
      && if p.req.slot.package == package
         then package in s'.packages && s'.packages[package].indexSequence == p.sequence
         else (package in s'.packages <==> package in s.packages)
              && (package in s.packages ==> s'.packages[package] == s.packages[package])
  {
    hide RowFor, ReleaseFor;
  }

  /** No other open transaction is on the package being committed. */
  lemma CommitKeepsPhases(digest: Digest, s: State, r: nat, q: nat)
    requires Invariant(digest, s) && r in s.requests && s.requests[r].Inserted? && q in s.requests
    ensures PhaseFits(digest, Committed(digest, s, r), q, Committed(digest, s, r).requests[q])
    ensures q != r ==> (Won(s.requests[q]) ==> s.requests[q].req.slot != s.requests[r].req.slot)
  {
    hide Backed;
    CommitIsCommitted(digest, s, r);
    assert PhaseFits(digest, s, q, s.requests[q]);
  }

  lemma CommitKeepsInvariant(digest: Digest, s: State, r: nat)
    requires Invariant(digest, s) && r in s.requests && s.requests[r].Inserted?
    ensures Invariant(digest, Committed(digest, s, r)) && Immutable(s, Committed(digest, s, r))
  {
    hide Backed, PackageFits, PhaseFits, NextSequence, RowFor;
    CommitIsCommitted(digest, s, r);
    var s' := Committed(digest, s, r);
    forall package
      ensures PackageFits(s', package)
    {
      CommitAddsOneVersion(digest, s, r, package);
    }
    forall q | q in s'.requests
      ensures PhaseFits(digest, s', q, s'.requests[q])
      ensures q != r ==> (Won(s.requests[q]) ==> s.requests[q].req.slot != s.requests[r].req.slot)
    {
      CommitKeepsPhases(digest, s, r, q);
    }
  }

  /** What every other request still holds once `r` gives up its lock. */
  lemma OthersKeepLocks(digest: Digest, s: State, r: nat, package: Package)
    requires Invariant(digest, s)
    ensures forall q :: q in s.requests && q != r && InTransaction(s.requests[q]) ==>
              var mine := s.requests[q].req.slot.package;
              && mine in s.locks && s.locks[mine] == q
              && mine in Unlock(s, r, package).locks && Unlock(s, r, package).locks[mine] == q
  {
    forall q | q in s.requests && q != r && InTransaction(s.requests[q])
      ensures var mine := s.requests[q].req.slot.package; mine in s.locks && s.locks[mine] == q
    {
      assert PhaseFits(digest, s, q, s.requests[q]);
    }
  }

  /** The comparison decides the six columns. The row is all the request asked
      for only if the three columns it does not look at agree as well. */
  lemma MatchingRowHasItsFacts(digest: Digest, existing: VersionRow, req: Request)
    ensures VersionMatches(digest, existing, req) <==> ReleaseOf(existing) == ReleaseFor(digest, req)
    ensures Facts(existing) == RowFor(digest, req)
            <==> VersionMatches(digest, existing, req) && existing.publishedAt == req.publishedAt
                 && existing.mirrors == req.mirrors && existing.signatures == req.signatures
  {
  }

  /** Where the steps that leave the committed state alone take a request. */
  lemma QuietKeepsInvariant(digest: Digest, s: State, a: Action)
    requires Invariant(digest, s)
    requires a.Receive? || a.CheckExisting? || a.UpsertPackage? || a.InsertVersion? || a.Abort?
    ensures Invariant(digest, Next(digest, s, a)) && Immutable(s, Next(digest, s, a))
  {
    hide Invariant, RowFor, ReleaseFor, Backed, NextSequence, VersionMatches, Next, PhaseFits;
    var s' := Next(digest, s, a);
    if s' != s {
      QuietFields(digest, s, a);
      QuietPhaseFits(digest, s, a);
      var p := s'.requests[a.r];
      OthersKeepLocks(digest, s, a.r, p.req.slot.package);
      QuietStep(digest, s, a.r, p, s'.locks);
    }
  }

  lemma PhaseOf(digest: Digest, s: State, r: nat)
    requires Invariant(digest, s)
    ensures r in s.requests ==> PhaseFits(digest, s, r, s.requests[r])
  {
  }

  /** One request moved, without winning, and at most its own lock changed. */
  predicate QuietEffect(s: State, s': State, r: nat) {
    && r in s'.requests
    && s' == s.(requests := s.requests[r := s'.requests[r]], locks := s'.locks)
    && !Won(s'.requests[r])
    && var package := s'.requests[r].req.slot.package;
       || s'.locks == s.locks
       || (package !in s.locks && s'.locks == s.locks[package := r])
       || s'.locks == Unlock(s, r, package).locks
  }

  lemma OnExistingIsNotWon(digest: Digest, s: State, req: Request)
    requires req.slot in s.versions
    ensures !Won(OnExisting(digest, s, req)) && OnExisting(digest, s, req).req == req
  {
    hide VersionMatches;
  }

  lemma ReceiveIsQuiet(digest: Digest, s: State, a: Action)
    requires a.Receive? && Next(digest, s, a) != s
    ensures QuietEffect(s, Next(digest, s, a), a.r)
  {
    hide RowFor, ReleaseFor, NextSequence, VersionMatches, ArtifactKey, OnExisting;
  }

  lemma CheckExistingIsQuiet(digest: Digest, s: State, a: Action)
    requires a.CheckExisting? && Next(digest, s, a) != s
    ensures QuietEffect(s, Next(digest, s, a), a.r)
  {
    hide RowFor, ReleaseFor, NextSequence, VersionMatches, ArtifactKey, OnExisting;
    var req := s.requests[a.r].req;
    if req.slot in s.versions {
      OnExistingIsNotWon(digest, s, req);
    }
  }

  lemma UpsertPackageIsQuiet(digest: Digest, s: State, a: Action)
    requires a.UpsertPackage? && Next(digest, s, a) != s
    ensures QuietEffect(s, Next(digest, s, a), a.r)
  {
    hide RowFor, ReleaseFor, NextSequence, VersionMatches, ArtifactKey, OnExisting;
  }

  lemma InsertVersionIsQuiet(digest: Digest, s: State, a: Action)
    requires a.InsertVersion? && Next(digest, s, a) != s
    ensures QuietEffect(s, Next(digest, s, a), a.r)
  {
    hide RowFor, ReleaseFor, NextSequence, VersionMatches, ArtifactKey, OnExisting;
    var req := s.requests[a.r].req;
    if req.slot in s.versions {
      OnExistingIsNotWon(digest, s, req);
    }
  }

  lemma AbortIsQuiet(digest: Digest, s: State, a: Action)
    requires a.Abort? && Next(digest, s, a) != s
    ensures QuietEffect(s, Next(digest, s, a), a.r)
  {
    hide RowFor, ReleaseFor, NextSequence, VersionMatches, ArtifactKey, OnExisting;
  }

  lemma QuietFields(digest: Digest, s: State, a: Action)
    requires Next(digest, s, a) != s
    requires a.Receive? || a.CheckExisting? || a.UpsertPackage? || a.InsertVersion? || a.Abort?
    ensures QuietEffect(s, Next(digest, s, a), a.r)
  {
    hide Next, QuietEffect;
    match a
    case Receive(_, _) => ReceiveIsQuiet(digest, s, a);
    case CheckExisting(_) => CheckExistingIsQuiet(digest, s, a);
    case UpsertPackage(_) => UpsertPackageIsQuiet(digest, s, a);
    case InsertVersion(_) => InsertVersionIsQuiet(digest, s, a);
    case Abort(_) => AbortIsQuiet(digest, s, a);
  }

  lemma CheckExistingPhaseFits(digest: Digest, s: State, r: nat)
    requires r in s.requests && PhaseFits(digest, s, r, s.requests[r]) && Next(digest, s, CheckExisting(r)) != s
    ensures var s' := Next(digest, s, CheckExisting(r));
            r in s'.requests && PhaseFits(digest, s.(locks := s'.locks), r, s'.requests[r])
  {
    var req := s.requests[r].req;
    if req.slot in s.versions {
      MatchingRowHasItsFacts(digest, s.versions[req.slot], req);
    }
    hide Backed, NextSequence, VersionMatches, Facts, RowFor, ArtifactKey, ReleaseOf, ReleaseFor;
  }

  lemma UpsertPackagePhaseFits(digest: Digest, s: State, r: nat)
    requires r in s.requests && PhaseFits(digest, s, r, s.requests[r]) && Next(digest, s, UpsertPackage(r)) != s
    ensures var s' := Next(digest, s, UpsertPackage(r));
            r in s'.requests && PhaseFits(digest, s.(locks := s'.locks), r, s'.requests[r])
  {
    hide Backed, NextSequence, VersionMatches, Facts, RowFor, ArtifactKey, ReleaseOf, ReleaseFor;
  }

  lemma InsertVersionPhaseFits(digest: Digest, s: State, r: nat)
    requires r in s.requests && PhaseFits(digest, s, r, s.requests[r]) && Next(digest, s, InsertVersion(r)) != s
    ensures var s' := Next(digest, s, InsertVersion(r));
            r in s'.requests && PhaseFits(digest, s.(locks := s'.locks), r, s'.requests[r])
  {
    var req := s.requests[r].req;
    if req.slot in s.versions {
      MatchingRowHasItsFacts(digest, s.versions[req.slot], req);
    }
    hide Backed, NextSequence, VersionMatches, Facts, RowFor, ArtifactKey, ReleaseOf, ReleaseFor;
  }

  lemma AbortPhaseFits(digest: Digest, s: State, r: nat)
    requires r in s.requests && PhaseFits(digest, s, r, s.requests[r]) && Next(digest, s, Abort(r)) != s
    ensures var s' := Next(digest, s, Abort(r));
            r in s'.requests && PhaseFits(digest, s.(locks := s'.locks), r, s'.requests[r])
  {
    hide Backed, NextSequence, VersionMatches, Facts, RowFor, ArtifactKey, ReleaseOf, ReleaseFor;
  }

  lemma QuietPhaseFits(digest: Digest, s: State, a: Action)
    requires Invariant(digest, s) && Next(digest, s, a) != s
    requires a.Receive? || a.CheckExisting? || a.UpsertPackage? || a.InsertVersion? || a.Abort?
    ensures var s' := Next(digest, s, a);
            a.r in s'.requests && PhaseFits(digest, s.(locks := s'.locks), a.r, s'.requests[a.r])
  {
    PhaseOf(digest, s, a.r);
    hide Invariant, PhaseFits, RequestStep;
    match a
    case Receive(r, req) => FreshPhaseFits(digest, s.(locks := s.locks), r, req);
    case CheckExisting(r) => CheckExistingPhaseFits(digest, s, r);
    case UpsertPackage(r) => UpsertPackagePhaseFits(digest, s, r);
    case InsertVersion(r) => InsertVersionPhaseFits(digest, s, r);
    case Abort(r) => AbortPhaseFits(digest, s, r);
  }

  lemma FreshPhaseFits(digest: Digest, s: State, r: nat, req: Request)
    ensures PhaseFits(digest, s, r, Rejected(req)) && PhaseFits(digest, s, r, Admitted(req))
  {
  }

  lemma PutOfAbsentKey(digest: Digest, s: State, r: nat)
    requires r in s.requests && s.requests[r].Checked?
    requires ArtifactKey(digest(s.requests[r].req.artifact), s.requests[r].req.format) !in s.store
    ensures
      var req := s.requests[r].req;
      var key := ArtifactKey(digest(req.artifact), req.format);
      Next(digest, s, PutBlob(r))
      == s.(requests := s.requests[r := Stored(req)], store := s.store[key := req.artifact])
  {
    hide ArtifactKey, ObjectMatches;
  }

  lemma PutOfPresentKey(digest: Digest, s: State, r: nat)
    requires r in s.requests && s.requests[r].Checked?
    requires ArtifactKey(digest(s.requests[r].req.artifact), s.requests[r].req.format) in s.store
    ensures
      var req := s.requests[r].req;
      var key := ArtifactKey(digest(req.artifact), req.format);
      var matched := ObjectMatches(digest, s.store[key], |req.artifact|, digest(req.artifact));
      Next(digest, s, PutBlob(r)) == s.(requests := s.requests[r := if matched then Stored(req) else Failed(req)])
  {
    hide ArtifactKey, ObjectMatches;
  }

  lemma IdlePut(digest: Digest, s: State, r: nat)
    requires !(r in s.requests && s.requests[r].Checked?)
    ensures Next(digest, s, PutBlob(r)) == s
  {
    hide ArtifactKey, ObjectMatches;
  }

  /** A put that succeeds leaves the row's blob behind. */
  lemma PutBacksRow(digest: Digest, s: State, r: nat, req: Request)
    requires
      var key := ArtifactKey(digest(req.artifact), req.format);
      key in s.store && ObjectMatches(digest, s.store[key], |req.artifact|, digest(req.artifact))
    ensures PhaseFits(digest, s, r, Stored(req))
  {
  }

  lemma PutKeepsInvariant(digest: Digest, s: State, r: nat)
    requires Invariant(digest, s)
    ensures Invariant(digest, Next(digest, s, PutBlob(r))) && Immutable(s, Next(digest, s, PutBlob(r)))
  {
    hide Invariant, Next, PhaseFits, ArtifactKey;
    if r in s.requests && s.requests[r].Checked? {
      var req := s.requests[r].req;
      var key := ArtifactKey(digest(req.artifact), req.format);
      OthersKeepLocks(digest, s, r, req.slot.package);
      if key !in s.store {
        var s1 := s.(store := s.store[key := req.artifact]);
        PutOfAbsentKey(digest, s, r);
        StoreGrows(digest, s, key, req.artifact);
        PutBacksRow(digest, s1, r, req);
        QuietStep(digest, s1, r, Stored(req), s.locks);
      } else {
        var matched := ObjectMatches(digest, s.store[key], |req.artifact|, digest(req.artifact));
        PutOfPresentKey(digest, s, r);
        if matched {
          PutBacksRow(digest, s, r, req);
        } else {
          FailedFits(digest, s, r, req);
        }
        QuietStep(digest, s, r, if matched then Stored(req) else Failed(req), s.locks);
      }
    } else {
      IdlePut(digest, s, r);
    }
  }

  lemma FailedFits(digest: Digest, s: State, r: nat, req: Request)
    ensures PhaseFits(digest, s, r, Failed(req))
  {
  }

  lemma AdoptIsAdopted(digest: Digest, s: State, r: nat)
    requires r in s.requests && s.requests[r].Reconciling?
    requires s.requests[r].req.slot in s.versions
    requires ReleaseOf(s.versions[s.requests[r].req.slot]) == ReleaseFor(digest, s.requests[r].req)
    ensures
      var p, req := s.requests[r], s.requests[r].req;
      Next(digest, s, Adopt(r))
      == s.(requests := s.requests[r := if p.won then Published(req) else Conflicted(req)],
            canonical := s.canonical[req.slot := ReleaseOf(s.versions[req.slot])])
  {
    hide RowFor, ReleaseFor, ArtifactKey;
  }

  lemma AdoptKeepsInvariant(digest: Digest, s: State, r: nat)
    requires Invariant(digest, s)
    ensures Invariant(digest, Next(digest, s, Adopt(r))) && Immutable(s, Next(digest, s, Adopt(r)))
  {
    if r in s.requests && s.requests[r].Reconciling? {
      PhaseOf(digest, s, r);
      hide Backed, RowFor, ReleaseFor, ArtifactKey, NextSequence, Next, Invariant, Facts, ReleaseOf;
      var p, req := s.requests[r], s.requests[r].req;
      AdoptIsAdopted(digest, s, r);
      OthersKeepLocks(digest, s, r, req.slot.package);
      CanonicalGrows(digest, s, req.slot);
      var s1 := s.(canonical := s.canonical[req.slot := ReleaseOf(s.versions[req.slot])]);
      QuietStep(digest, s1, r, if p.won then Published(req) else Conflicted(req), s.locks);
      assert Next(digest, s, Adopt(r)).store == s.store && Next(digest, s, Adopt(r)).versions == s.versions;
    } else {
      IdleAdopt(digest, s, r);
    }
  }

  lemma IdleAdopt(digest: Digest, s: State, r: nat)
    requires !(r in s.requests && s.requests[r].Reconciling?)
    ensures Next(digest, s, Adopt(r)) == s
  {
    hide RowFor, ReleaseFor, ArtifactKey;
  }

  lemma NextKeepsInvariant(digest: Digest, s: State, a: Action)
    requires Invariant(digest, s)
    ensures Invariant(digest, Next(digest, s, a)) && Immutable(s, Next(digest, s, a))
  {
    hide Invariant, RequestStep;
    match a
    case PutBlob(r) => PutKeepsInvariant(digest, s, r);
    case Adopt(r) => AdoptKeepsInvariant(digest, s, r);
    case Commit(r) =>
      if r in s.requests && s.requests[r].Inserted? {
        CommitIsCommitted(digest, s, r);
        CommitKeepsInvariant(digest, s, r);
      } else {
        IdleCommit(digest, s, r);
      }
    case SetYanked(slot, yanked) =>
      if slot in s.versions {
        YankKeepsInvariant(digest, s, slot, yanked);
      }
    case _ => QuietKeepsInvariant(digest, s, a);
  }

  lemma IdleCommit(digest: Digest, s: State, r: nat)
    requires !(r in s.requests && s.requests[r].Inserted?)
    ensures Next(digest, s, Commit(r)) == s
  {
  }

  /** A package's metadata and counter move only together with exactly one new
      version of it: a failed publication never rewrites them. */
  lemma MetadataMovesWithVersions(digest: Digest, s: State, a: Action, package: Package)
    requires Invariant(digest, s)
    ensures
      var s' := Next(digest, s, a);
      var before, after := VersionsOf(s, package), VersionsOf(s', package);
      || (after == before && (package in s'.packages <==> package in s.packages)
          && (package in s.packages ==> s'.packages[package] == s.packages[package]))
      || (a.Commit? && |after| == |before| + 1 && before <= after && package in s'.packages
          && s'.packages[package].indexSequence == NextSequence(s.packages, package))
  {
    hide Invariant;
    if a.Commit? && a.r in s.requests && s.requests[a.r].Inserted? {
      CommitIsCommitted(digest, s, a.r);
      CommitAddsOneVersion(digest, s, a.r, package);
    } else {
      OnlyCommitMovesPackages(digest, s, a);
      assert VersionsOf(Next(digest, s, a), package) == VersionsOf(s, package);
    }
  }

  lemma OnlyCommitMovesPackages(digest: Digest, s: State, a: Action)
    requires a.Commit? ==> !(a.r in s.requests && s.requests[a.r].Inserted?)
    ensures Next(digest, s, a).packages == s.packages && Next(digest, s, a).versions.Keys == s.versions.Keys
  {
    hide RequestStep;
    match a
    case Receive(_, _) =>
    case SetYanked(_, _) =>
    case _ =>
      if a.r in s.requests {
        StepLeavesPackages(digest, s, a, s.requests[a.r]);
      }
  }

  lemma StepLeavesPackages(digest: Digest, s: State, a: Action, p: Phase)
    requires !a.Receive? && !a.SetYanked? && (a.Commit? ==> !p.Inserted?)
    ensures
      var s' := RequestStep(digest, s, a, p);
      s'.packages == s.packages && s'.versions == s.versions
  {
    hide RowFor, ReleaseFor, NextSequence, OnExisting, ArtifactKey, ObjectMatches, Unlock;
  }

  // ---- Runs ----

  lemma ImmutableIsTransitive(a: State, b: State, c: State)
    requires Immutable(a, b) && Immutable(b, c)
    ensures Immutable(a, c)
  {
  }

  /** From any two points of any run: the invariant holds at both, and nothing
      immutable has changed in between. */
  lemma {:induction false} RunIsSafe(digest: Digest, s: State, actions: seq<Action>)
    requires Invariant(digest, s)
    ensures Invariant(digest, Run(digest, s, actions)) && Immutable(s, Run(digest, s, actions))
    decreases |actions|
  {
    if actions != [] {
      var s1 := Next(digest, s, actions[0]);
      NextKeepsInvariant(digest, s, actions[0]);
      RunIsSafe(digest, s1, actions[1..]);
      ImmutableIsTransitive(s, s1, Run(digest, s, actions));
    }
  }

  /** The registry before any publication, over whatever the store holds. */
  function Fresh(store: Objects): State {
    State(store, map[], map[], map[], map[], map[])
  }

  lemma FreshIsSafe(digest: Digest, store: Objects)
    ensures Invariant(digest, Fresh(store))
  {
    assert forall package :: VersionsOf(Fresh(store), package) == {};
  }

  /** Publication safety, for any number of requests in any interleaving: every
      committed version has its blob with the recorded length and digest, at
      most one request is told it published a given version and the row is that
      request's in every column, the canonical plane holds only committed facts,
      and each package's counter is one more than its number of versions (up to
      the i64 ceiling). */
  lemma PublicationIsSafe(digest: Digest, store: Objects, actions: seq<Action>)
    ensures
      var s := Run(digest, Fresh(store), actions);
      && (forall slot :: slot in s.versions ==>
            var row := s.versions[slot];
            row.artifactKey in s.store && |s.store[row.artifactKey]| == row.size
            && digest(s.store[row.artifactKey]) == row.sha256)
      && OneWinner(s)
      && (forall r :: r in s.requests && Won(s.requests[r]) ==>
            var req := s.requests[r].req;
            req.slot in s.versions && Facts(s.versions[req.slot]) == RowFor(digest, req))
      && (forall slot :: slot in s.canonical ==> slot in s.versions && s.canonical[slot] == ReleaseOf(s.versions[slot]))
      && (forall package :: package in s.packages ==>
            s.packages[package].indexSequence == SequenceAfter(|VersionsOf(s, package)|))
  {
    FreshIsSafe(digest, store);
    RunIsSafe(digest, Fresh(store), actions);
    var s := Run(digest, Fresh(store), actions);
    forall package | package in s.packages
      ensures s.packages[package].indexSequence == SequenceAfter(|VersionsOf(s, package)|)
    {
      assert PackageFits(s, package);
    }
    forall slot | slot in s.versions
      ensures Backed(digest, s.store, s.versions[slot])
    {
    }
    forall r | r in s.requests && Won(s.requests[r])
      ensures var req := s.requests[r].req;
              req.slot in s.versions && Facts(s.versions[req.slot]) == RowFor(digest, req)
    {
      PhaseOf(digest, s, r);
    }
  }

  /** A retry that agrees with the stored row on the six compared columns, run to
      its end without interference, reports a conflict, repairs a missing
      canonical projection, and otherwise changes nothing. */
  lemma MatchingRetryReconciles(digest: Digest, s: State, r: nat, req: Request)
    requires Invariant(digest, s) && r !in s.requests
    requires digest(req.artifact) == req.declaredSha && |req.artifact| == req.declaredSize
    requires req.slot in s.versions && VersionMatches(digest, s.versions[req.slot], req)
    ensures Run(digest, s, [Receive(r, req), CheckExisting(r), Adopt(r)])
         == s.(requests := s.requests[r := Conflicted(req)], canonical := s.canonical[req.slot := ReleaseOf(s.versions[req.slot])])
  {
    hide ArtifactKey, NextSequence, ObjectMatches, Invariant;
    var s1 := Next(digest, s, Receive(r, req));
    var s2 := Next(digest, s1, CheckExisting(r));
    var s3 := Next(digest, s2, Adopt(r));
    assert [Receive(r, req), CheckExisting(r), Adopt(r)][1..] == [CheckExisting(r), Adopt(r)];
    assert [CheckExisting(r), Adopt(r)][1..] == [Adopt(r)] && [Adopt(r)][1..] == [];
    assert Run(digest, s3, []) == s3;
    assert Run(digest, s2, [Adopt(r)]) == s3;
    assert s3.requests == s.requests[r := Conflicted(req)];
  }

  /** A retry need not be identical to be taken for one: signed anew, it is
      reconciled all the same, and the row keeps the signatures it had. */
  lemma ResignedRetryIsReconciled(digest: Digest, s: State, r: nat, req: Request, signatures: seq<string>)
    requires Invariant(digest, s) && r !in s.requests
    requires digest(req.artifact) == req.declaredSha && |req.artifact| == req.declaredSize
    requires req.slot in s.versions && Facts(s.versions[req.slot]) == RowFor(digest, req)
    requires signatures != req.signatures
    ensures
      var retry := req.(signatures := signatures);
      var s' := Run(digest, s, [Receive(r, retry), CheckExisting(r), Adopt(r)]);
      && s' == s.(requests := s.requests[r := Conflicted(retry)],
                  canonical := s.canonical[req.slot := ReleaseFor(digest, retry)])
      && s'.versions[req.slot].signatures == req.signatures != retry.signatures
      && Facts(s'.versions[req.slot]) != RowFor(digest, retry)
  {
    hide Run, Next, Invariant;
    var retry := req.(signatures := signatures);
    MatchingRowHasItsFacts(digest, s.versions[req.slot], req);
    MatchingRowHasItsFacts(digest, s.versions[req.slot], retry);
    MatchingRetryReconciles(digest, s, r, retry);
  }

  /** A retry is refused at its first look exactly when one of the six compared
      columns differs, and then never reaches the canonical plane. */
  lemma DivergentRetryIsRefused(digest: Digest, s: State, r: nat)
    requires r in s.requests && s.requests[r].Admitted?
    requires s.requests[r].req.slot in s.versions
    ensures Next(digest, s, CheckExisting(r)).requests[r].Conflicted?
       <==> ReleaseOf(s.versions[s.requests[r].req.slot]) != ReleaseFor(digest, s.requests[r].req)
    ensures
      var s' := Next(digest, s, CheckExisting(r));
      s'.versions == s.versions && s'.store == s.store && s'.canonical == s.canonical
  {
  }

  // ---- One handler on its own ----

  /** A request served from start to finish with nothing interleaved. */
  function Handled(digest: Digest, s: State, req: Request): State {
    var s1 := Next(digest, Next(digest, s, Receive(0, req)), CheckExisting(0));
    var s2 := Next(digest, Next(digest, s1, PutBlob(0)), UpsertPackage(0));
    Next(digest, Next(digest, Next(digest, s2, InsertVersion(0)), Commit(0)), Adopt(0))
  }

  predicate Admissible(digest: Digest, req: Request) {
    digest(req.artifact) == req.declaredSha && |req.artifact| == req.declaredSize
  }

  /** No request in flight: only the committed state. */
  predicate Idle(s: State) {
    s.requests == map[] && s.locks == map[]
  }

  lemma HandledRefusal(digest: Digest, s: State, req: Request)
    requires Idle(s) && !Admissible(digest, req)
    ensures Handled(digest, s, req) == s.(requests := map[0 := Rejected(req)])
  {
    hide RowFor, ReleaseFor, VersionMatches, ArtifactKey;
    assert Next(digest, s, Receive(0, req)) == s.(requests := map[0 := Rejected(req)]);
  }

  lemma HandledConflict(digest: Digest, s: State, req: Request)
    requires Idle(s) && Admissible(digest, req) && req.slot in s.versions
    ensures Handled(digest, s, req)
         == s.(requests := map[0 := Conflicted(req)],
               canonical := if VersionMatches(digest, s.versions[req.slot], req)
                            then s.canonical[req.slot := ReleaseFor(digest, req)] else s.canonical)
  {
    hide RowFor, ReleaseFor, VersionMatches, ArtifactKey;
    var s1 := Next(digest, s, Receive(0, req));
    assert s1 == s.(requests := map[0 := Admitted(req)]);
    var s2 := Next(digest, s1, CheckExisting(0));
    assert s2 == s.(requests := map[0 := OnExisting(digest, s, req)]);
  }

  lemma HandledPut(digest: Digest, s: State, req: Request)
    requires Idle(s) && Admissible(digest, req) && req.slot !in s.versions
    ensures
      var key := ArtifactKey(digest(req.artifact), req.format);
      var s1 := Next(digest, Next(digest, s, Receive(0, req)), CheckExisting(0));
      var matched := key !in s.store || ObjectMatches(digest, s.store[key], |req.artifact|, digest(req.artifact));
      Next(digest, s1, PutBlob(0))
      == s.(requests := map[0 := if matched then Stored(req) else Failed(req)],
            store := if key in s.store then s.store else s.store[key := req.artifact])
  {
    hide ArtifactKey;
    var s1 := Next(digest, s, Receive(0, req));
    assert s1 == s.(requests := map[0 := Admitted(req)]);
    assert Next(digest, s1, CheckExisting(0)) == s.(requests := map[0 := Checked(req)]);
  }

  lemma FailedStaysFailed(digest: Digest, s: State, req: Request)
    requires s.requests == map[0 := Failed(req)]
    ensures Next(digest, Next(digest, Next(digest, Next(digest, s, UpsertPackage(0)), InsertVersion(0)), Commit(0)), Adopt(0)) == s
  {
    hide RowFor, ReleaseFor, VersionMatches, ArtifactKey;
  }

  lemma StoredIsPublished(digest: Digest, s: State, req: Request)
    requires s.requests == map[0 := Stored(req)] && s.locks == map[] && req.slot !in s.versions
    ensures Next(digest, Next(digest, Next(digest, Next(digest, s, UpsertPackage(0)), InsertVersion(0)), Commit(0)), Adopt(0))
         == s.(requests := map[0 := Published(req)],
               packages := s.packages[req.slot.package := PackageRow(req.description, NextSequence(s.packages, req.slot.package))],
               versions := s.versions[req.slot := RowFor(digest, req)],
               canonical := s.canonical[req.slot := ReleaseFor(digest, req)])
  {
    hide RowFor, ReleaseFor, VersionMatches, ArtifactKey, NextSequence, RequestStep;
    var sequence := NextSequence(s.packages, req.slot.package);
    StoredIsInserted(digest, s, req);
    var s2 := s.(requests := map[0 := Inserted(req, sequence)], locks := map[req.slot.package := 0]);
    CommitWhenLocked(digest, s2, 0);
    var s3 := Committed(digest, s2, 0);
    assert s3.requests == map[0 := Reconciling(req, true)] && s3.locks == map[];
    WonIsAdopted(digest, s3, req);
  }

  lemma StoredIsInserted(digest: Digest, s: State, req: Request)
    requires s.requests == map[0 := Stored(req)] && s.locks == map[] && req.slot !in s.versions
    ensures Next(digest, Next(digest, s, UpsertPackage(0)), InsertVersion(0))
         == s.(requests := map[0 := Inserted(req, NextSequence(s.packages, req.slot.package))],
               locks := map[req.slot.package := 0])
  {
    hide RowFor, ReleaseFor, VersionMatches, ArtifactKey, NextSequence;
    var package, sequence := req.slot.package, NextSequence(s.packages, req.slot.package);
    var s1 := Next(digest, s, UpsertPackage(0));
    assert s1 == s.(requests := map[0 := Upserted(req, sequence)], locks := map[package := 0]);
  }

  lemma WonIsAdopted(digest: Digest, s: State, req: Request)
    requires s.requests == map[0 := Reconciling(req, true)]
    ensures Next(digest, s, Adopt(0))
         == s.(requests := map[0 := Published(req)], canonical := s.canonical[req.slot := ReleaseFor(digest, req)])
  {
    hide RowFor, ReleaseFor, VersionMatches, ArtifactKey;
  }

  lemma HandledFresh(digest: Digest, s: State, req: Request)
    requires Idle(s) && Admissible(digest, req) && req.slot !in s.versions
    ensures
      var key := ArtifactKey(digest(req.artifact), req.format);
      Handled(digest, s, req)
      == if key !in s.store || ObjectMatches(digest, s.store[key], |req.artifact|, digest(req.artifact))
         then s.(requests := map[0 := Published(req)],
                 store := if key in s.store then s.store else s.store[key := req.artifact],
                 packages := s.packages[req.slot.package := PackageRow(req.description, NextSequence(s.packages, req.slot.package))],
                 versions := s.versions[req.slot := RowFor(digest, req)],
                 canonical := s.canonical[req.slot := ReleaseFor(digest, req)])
         else s.(requests := map[0 := Failed(req)])
  {
    hide Next, RowFor, ReleaseFor, ArtifactKey, NextSequence, ObjectMatches;
    HandledPut(digest, s, req);
    var stored := Next(digest, Next(digest, Next(digest, s, Receive(0, req)), CheckExisting(0)), PutBlob(0));
    if stored.requests[0].Stored? {
      StoredIsPublished(digest, stored, req);
    } else {
      FailedStaysFailed(digest, stored, req);
    }
  }

  /** One handler on its own is a run like any other. */
  lemma HandledIsSafe(digest: Digest, s: State, req: Request)
    requires Invariant(digest, s)
    ensures Invariant(digest, Handled(digest, s, req)) && Immutable(s, Handled(digest, s, req))
  {
    hide Next, Invariant, Immutable;
    var s1 := Next(digest, s, Receive(0, req));
    var s2 := Next(digest, s1, CheckExisting(0));
    var s3 := Next(digest, s2, PutBlob(0));
    var s4 := Next(digest, s3, UpsertPackage(0));
    var s5 := Next(digest, s4, InsertVersion(0));
    var s6 := Next(digest, s5, Commit(0));
    NextKeepsInvariant(digest, s, Receive(0, req));
    NextKeepsInvariant(digest, s1, CheckExisting(0));
    NextKeepsInvariant(digest, s2, PutBlob(0));
    NextKeepsInvariant(digest, s3, UpsertPackage(0));
    NextKeepsInvariant(digest, s4, InsertVersion(0));
    NextKeepsInvariant(digest, s5, Commit(0));
    NextKeepsInvariant(digest, s6, Adopt(0));
    ImmutableIsTransitive(s, s1, s2);
    ImmutableIsTransitive(s, s2, s3);
    ImmutableIsTransitive(s, s3, s4);
    ImmutableIsTransitive(s, s4, s5);
    ImmutableIsTransitive(s, s5, s6);
    ImmutableIsTransitive(s, s6, Handled(digest, s, req));
  }

  /** Once the request is answered only the committed state is left. */
  lemma AnsweredIsIdle(digest: Digest, before: State, handled: State, view: State, ending: Phase)
    requires Invariant(digest, handled) && Immutable(before, handled)
    requires view.requests == map[] && view.(requests := map[0 := ending]) == handled
    ensures Invariant(digest, view) && Immutable(before, view)
  {
    assert view == handled.(requests := map[]);
    SameVersionsSamePackages(handled, view);
  }

  // ---- Yanking ----

  /** Where an action, and the last yank or unyank of the version, leave its
      flag. */
  function FlagOnce(a: Action, slot: Slot, flag: bool): bool {
    if a.SetYanked? && a.slot == slot then a.yanked else flag
  }

  function FlagAfter(actions: seq<Action>, slot: Slot, flag: bool): bool {
    if actions == [] then flag else FlagAfter(actions[1..], slot, FlagOnce(actions[0], slot, flag))
  }

  lemma FlagAfterStep(digest: Digest, s: State, a: Action, slot: Slot)
    requires Invariant(digest, s) && slot in s.versions
    ensures slot in Next(digest, s, a).versions
    ensures Next(digest, s, a).versions[slot].yanked == FlagOnce(a, slot, s.versions[slot].yanked)
  {
    hide Invariant, Next, Committed, RequestStep;
    match a
    case SetYanked(_, _) => FlagAfterYank(digest, s, a, slot);
    case Receive(_, _) => FlagAfterReceive(digest, s, a);
    case Commit(r) =>
      if r in s.requests && s.requests[r].Inserted? {
        CommitIsCommitted(digest, s, r);
        FlagAfterCommit(digest, s, r, slot);
      } else {
        IdleCommit(digest, s, r);
      }
    case _ => FlagAfterRequest(digest, s, a);
  }

  lemma FlagAfterYank(digest: Digest, s: State, a: Action, slot: Slot)
    requires a.SetYanked? && slot in s.versions
    ensures slot in Next(digest, s, a).versions
    ensures Next(digest, s, a).versions[slot].yanked == FlagOnce(a, slot, s.versions[slot].yanked)
  {
    hide RequestStep;
  }

  lemma FlagAfterReceive(digest: Digest, s: State, a: Action)
    requires a.Receive?
    ensures Next(digest, s, a).versions == s.versions
  {
  }

  lemma FlagAfterCommit(digest: Digest, s: State, r: nat, slot: Slot)
    requires r in s.requests && s.requests[r].Inserted? && slot in s.versions && slot != s.requests[r].req.slot
    ensures slot in Committed(digest, s, r).versions && Committed(digest, s, r).versions[slot] == s.versions[slot]
  {
    hide RowFor;
  }

  lemma FlagAfterRequest(digest: Digest, s: State, a: Action)
    requires !a.Receive? && !a.SetYanked? && !a.Commit?
    ensures Next(digest, s, a).versions == s.versions
  {
    hide RequestStep;
    if a.r in s.requests {
      StepLeavesPackages(digest, s, a, s.requests[a.r]);
    }
  }

  /** Over any run a version's flag is the one last asked for: no publication,
      retry or abort touches it. */
  lemma {:induction false} FlagIsLastYank(digest: Digest, s: State, actions: seq<Action>, slot: Slot)
    requires Invariant(digest, s) && slot in s.versions
    ensures slot in Run(digest, s, actions).versions
    ensures Run(digest, s, actions).versions[slot].yanked == FlagAfter(actions, slot, s.versions[slot].yanked)
    decreases |actions|
  {
    hide Invariant, Next;
    if actions != [] {
      NextKeepsInvariant(digest, s, actions[0]);
      FlagAfterStep(digest, s, actions[0], slot);
      FlagIsLastYank(digest, Next(digest, s, actions[0]), actions[1..], slot);
    }
  }

  // ---- Races ----

  /** Whoever locks a package is in a transaction on it: an ended one, however it
      ended, locks none. */
  ghost predicate LocksAreLive(s: State) {
    forall package :: package in s.locks ==>
      var r := s.locks[package];
      r in s.requests && InTransaction(s.requests[r]) && s.requests[r].req.slot.package == package
  }

  lemma NextKeepsLocksLive(digest: Digest, s: State, a: Action)
    requires LocksAreLive(s)
    ensures LocksAreLive(Next(digest, s, a))
  {
    hide RequestStep, LocksAreLive;
    match a
    case Receive(r, req) => LiveAfterReceive(digest, s, a);
    case SetYanked(_, _) => LiveAfterYank(digest, s, a);
    case _ =>
      if a.r in s.requests {
        LiveAfterStep(digest, s, a);
      }
  }

  lemma LiveAfterReceive(digest: Digest, s: State, a: Action)
    requires LocksAreLive(s) && a.Receive?
    ensures LocksAreLive(Next(digest, s, a))
  {
  }

  lemma LiveAfterYank(digest: Digest, s: State, a: Action)
    requires LocksAreLive(s) && a.SetYanked?
    ensures LocksAreLive(Next(digest, s, a))
  {
  }

  lemma LiveAfterStep(digest: Digest, s: State, a: Action)
    requires LocksAreLive(s) && !a.Receive? && !a.SetYanked? && a.r in s.requests
    ensures LocksAreLive(RequestStep(digest, s, a, s.requests[a.r]))
  {
    hide RequestStep, LocksAreLive;
    match a
    case CheckExisting(_) => LiveAfterCheck(digest, s, a);
    case PutBlob(_) => LiveAfterPut(digest, s, a);
    case UpsertPackage(_) => LiveAfterUpsert(digest, s, a);
    case InsertVersion(_) => LiveAfterInsert(digest, s, a);
    case Commit(_) => LiveAfterEnd(digest, s, a);
    case Abort(_) => LiveAfterEnd(digest, s, a);
    case Adopt(_) => LiveAfterPut(digest, s, a);
  }

  lemma LiveAfterCheck(digest: Digest, s: State, a: Action)
    requires LocksAreLive(s) && a.CheckExisting? && a.r in s.requests
    ensures LocksAreLive(RequestStep(digest, s, a, s.requests[a.r]))
  {
    hide RowFor, ReleaseFor, NextSequence, VersionMatches, ArtifactKey, ObjectMatches, OnExisting;
    OnExistingEnds(digest, s, s.requests[a.r].req);
    if s.requests[a.r].req.slot in s.versions {
      OnExistingIsNotWon(digest, s, s.requests[a.r].req);
    }
  }

  lemma LiveAfterPut(digest: Digest, s: State, a: Action)
    requires LocksAreLive(s) && (a.PutBlob? || a.Adopt?) && a.r in s.requests
    ensures LocksAreLive(RequestStep(digest, s, a, s.requests[a.r]))
  {
    hide RowFor, ReleaseFor, NextSequence, VersionMatches, ArtifactKey, ObjectMatches, OnExisting;
  }

  lemma LiveAfterUpsert(digest: Digest, s: State, a: Action)
    requires LocksAreLive(s) && a.UpsertPackage? && a.r in s.requests
    ensures LocksAreLive(RequestStep(digest, s, a, s.requests[a.r]))
  {
    hide RowFor, ReleaseFor, NextSequence, VersionMatches, ArtifactKey, ObjectMatches, OnExisting;
  }

  lemma LiveAfterInsert(digest: Digest, s: State, a: Action)
    requires LocksAreLive(s) && a.InsertVersion? && a.r in s.requests
    ensures LocksAreLive(RequestStep(digest, s, a, s.requests[a.r]))
  {
    hide RowFor, ReleaseFor, NextSequence, VersionMatches, ArtifactKey, ObjectMatches, OnExisting;
    OnExistingEnds(digest, s, s.requests[a.r].req);
    if s.requests[a.r].req.slot in s.versions {
      OnExistingIsNotWon(digest, s, s.requests[a.r].req);
    }
  }

  lemma LiveAfterEnd(digest: Digest, s: State, a: Action)
    requires LocksAreLive(s) && (a.Commit? || a.Abort?) && a.r in s.requests
    ensures LocksAreLive(RequestStep(digest, s, a, s.requests[a.r]))
  {
    hide RowFor, ReleaseFor, NextSequence, VersionMatches, ArtifactKey, ObjectMatches, OnExisting;
  }

  lemma OnExistingEnds(digest: Digest, s: State, req: Request)
    ensures req.slot in s.versions ==> !InTransaction(OnExisting(digest, s, req))
  {
  }

  /** A request that finds its version taken at the insert is told so, whether or
      not it first repairs the canonical plane; no table moves, and its lock is
      free again. */
  lemma LoserIsToldConflict(digest: Digest, s: State, r: nat)
    requires r in s.requests && s.requests[r].Upserted? && s.requests[r].req.slot in s.versions
    ensures
      var req := s.requests[r].req;
      var s' := Next(digest, Next(digest, s, InsertVersion(r)), Adopt(r));
      && s'.requests == s.requests[r := Conflicted(req)]
      && s'.versions == s.versions && s'.packages == s.packages && s'.store == s.store
      && (req.slot.package in s'.locks ==> s'.locks[req.slot.package] != r)
  {
    hide RowFor, ReleaseFor, NextSequence, VersionMatches, ArtifactKey;
    var req := s.requests[r].req;
    var s1 := Next(digest, s, InsertVersion(r));
    assert s1.requests == s.requests[r := OnExisting(digest, s, req)];
    var s2 := Next(digest, s1, Adopt(r));
    assert s2.requests == s.requests[r := Conflicted(req)];
  }

  // ---- What a request is answered ----

  /** What SHA-256 is taken to be: 64 hex digits, different for different bytes. */
  ghost predicate IdentifiesBytes(digest: Digest) {
    && (forall bytes: Bytes :: IsLowerHex64(digest(bytes)))
    && (forall a: Bytes, b: Bytes :: digest(a) == digest(b) ==> a == b)
  }

  /** Every blob lies under the key of its own digest. */
  ghost predicate IsAddressed(digest: Digest, store: Objects) {
    forall key :: key in store ==> exists format :: key == ArtifactKey(digest(store[key]), format)
  }

  lemma NextKeepsAddressed(digest: Digest, s: State, a: Action)
    requires IsAddressed(digest, s.store)
    ensures IsAddressed(digest, Next(digest, s, a).store)
  {
    if a.PutBlob? && a.r in s.requests && s.requests[a.r].Checked? {
      hide Next, ArtifactKey;
      var req := s.requests[a.r].req;
      var key := ArtifactKey(digest(req.artifact), req.format);
      if key !in s.store {
        PutOfAbsentKey(digest, s, a.r);
      } else {
        PutOfPresentKey(digest, s, a.r);
      }
    } else {
      OnlyPutStores(digest, s, a);
    }
  }

  lemma OnlyPutStores(digest: Digest, s: State, a: Action)
    requires !(a.PutBlob? && a.r in s.requests && s.requests[a.r].Checked?)
    ensures Next(digest, s, a).store == s.store
  {
    hide RequestStep;
    match a
    case Receive(_, _) =>
    case SetYanked(_, _) =>
    case _ =>
      if a.r in s.requests {
        StepLeavesStore(digest, s, a, s.requests[a.r]);
      }
  }

  lemma StepLeavesStore(digest: Digest, s: State, a: Action, p: Phase)
    requires !a.Receive? && !a.SetYanked? && !(a.PutBlob? && p.Checked?)
    ensures RequestStep(digest, s, a, p).store == s.store
  {
    hide RowFor, ReleaseFor, NextSequence, OnExisting, ArtifactKey, ObjectMatches, Unlock;
  }

  lemma {:induction false} RunKeepsAddressed(digest: Digest, s: State, actions: seq<Action>)
    requires IsAddressed(digest, s.store)
    ensures IsAddressed(digest, Run(digest, s, actions).store)
    decreases |actions|
  {
    hide Next, IsAddressed;
    if actions != [] {
      NextKeepsAddressed(digest, s, actions[0]);
      RunKeepsAddressed(digest, Next(digest, s, actions[0]), actions[1..]);
    }
  }

  /** A new artifact never meets another one's blob. */
  lemma OwnKeyHoldsOwnBytes(digest: Digest, store: Objects, artifact: Bytes, format: string)
    requires IdentifiesBytes(digest) && IsAddressed(digest, store)
    requires ArtifactKey(digest(artifact), format) in store
    ensures store[ArtifactKey(digest(artifact), format)] == artifact
  {
    hide ArtifactKey;
    var key := ArtifactKey(digest(artifact), format);
    var other :| key == ArtifactKey(digest(store[key]), other);
    KeyDecides(digest(artifact), format, digest(store[key]), other);
  }

  /** The one answer each request gets, when nothing else is in flight: refused
      input for a wrong digest or size, a conflict for a taken version, and
      otherwise publication, which stores the artifact, adds exactly the row
      asked for, and moves the package. */
  lemma HandledAnswers(digest: Digest, s: State, req: Request)
    requires Idle(s) && IdentifiesBytes(digest) && IsAddressed(digest, s.store)
    ensures
      var done := Handled(digest, s, req);
      var wrong := digest(req.artifact) != req.declaredSha || |req.artifact| != req.declaredSize;
      && done.requests == map[0 := if wrong then Rejected(req) else if req.slot in s.versions then Conflicted(req) else Published(req)]
      && (wrong || req.slot in s.versions ==> done.versions == s.versions && done.packages == s.packages && done.store == s.store)
      && (!wrong && req.slot !in s.versions ==> PublishedAs(digest, s, done, req))
  {
    hide Handled, ArtifactKey, RowFor, NextSequence, VersionMatches, IdentifiesBytes, IsAddressed;
    if !Admissible(digest, req) {
      HandledRefusal(digest, s, req);
    } else if req.slot in s.versions {
      HandledConflict(digest, s, req);
    } else {
      var key := ArtifactKey(digest(req.artifact), req.format);
      if key in s.store {
        OwnKeyHoldsOwnBytes(digest, s.store, req.artifact, req.format);
      }
      HandledFresh(digest, s, req);
      FreshRow(digest, s, req);
    }
  }

  lemma FreshRow(digest: Digest, s: State, req: Request)
    ensures
      var row := RowFor(digest, req);
      && row.artifactKey == ArtifactKey(digest(req.artifact), req.format)
      && row == VersionRow(digest(req.artifact), |req.artifact|, req.format, req.vcsTag, req.vcsCommit, row.artifactKey,
                           req.publishedAt, req.mirrors, req.signatures, false)
      && ReleaseFor(digest, req)
         == Release(row.sha256, row.size, row.format, row.vcsTag, row.vcsCommit, row.artifactKey)
    ensures NextSequence(s.packages, req.slot.package)
         == if req.slot.package !in s.packages then 2
            else if s.packages[req.slot.package].indexSequence < 0x7FFF_FFFF_FFFF_FFFF
            then s.packages[req.slot.package].indexSequence + 1 else 0x7FFF_FFFF_FFFF_FFFF
  {
    hide ArtifactKey;
  }

  /** The state a publication leaves, column by column. */
  ghost predicate PublishedAs(digest: Digest, s: State, done: State, req: Request) {
    && done.versions.Keys == s.versions.Keys + {req.slot}
    && (forall slot :: slot in s.versions ==> done.versions[slot] == s.versions[slot])
    && var row, package := done.versions[req.slot], req.slot.package;
       && row.artifactKey in done.store && done.store[row.artifactKey] == req.artifact
       && row == VersionRow(digest(req.artifact), |req.artifact|, req.format, req.vcsTag, req.vcsCommit, row.artifactKey,
                            req.publishedAt, req.mirrors, req.signatures, false)
       && done.packages.Keys == s.packages.Keys + {package}
       && (forall p :: p in s.packages && p != package ==> done.packages[p] == s.packages[p])
       && done.packages[package].description == req.description
       && done.packages[package].indexSequence
          == (if package !in s.packages then 2
              else if s.packages[package].indexSequence < 0x7FFF_FFFF_FFFF_FFFF then s.packages[package].indexSequence + 1
              else 0x7FFF_FFFF_FFFF_FFFF)
       && req.slot in done.canonical
       && done.canonical[req.slot] == Release(row.sha256, row.size, row.format, row.vcsTag, row.vcsCommit, row.artifactKey)
  }

  lemma PublishedIgnoresRequests(digest: Digest, s: State, done: State, view: State, req: Request)
    requires view == done.(requests := view.requests)
    ensures PublishedAs(digest, s, done, req) <==> PublishedAs(digest, s, view, req)
  {
  }

  lemma HandledKeepsAddressed(digest: Digest, s: State, req: Request)
    requires IsAddressed(digest, s.store)
    ensures IsAddressed(digest, Handled(digest, s, req).store)
  {
    hide Next, IsAddressed;
    var s1 := Next(digest, s, Receive(0, req));
    var s2 := Next(digest, s1, CheckExisting(0));
    var s3 := Next(digest, s2, PutBlob(0));
    var s4 := Next(digest, s3, UpsertPackage(0));
    var s5 := Next(digest, s4, InsertVersion(0));
    NextKeepsAddressed(digest, s, Receive(0, req));
    NextKeepsAddressed(digest, s1, CheckExisting(0));
    NextKeepsAddressed(digest, s2, PutBlob(0));
    NextKeepsAddressed(digest, s3, UpsertPackage(0));
    NextKeepsAddressed(digest, s4, InsertVersion(0));
    NextKeepsAddressed(digest, s5, Commit(0));
    NextKeepsAddressed(digest, Next(digest, s5, Commit(0)), Adopt(0));
  }

  /** From whatever any run has committed, starting with an empty store. */
  lemma ReachableAnswers(digest: Digest, actions: seq<Action>, req: Request)
    requires IdentifiesBytes(digest)
    ensures
      var s := Run(digest, Fresh(map[]), actions).(requests := map[], locks := map[]);
      var wrong := digest(req.artifact) != req.declaredSha || |req.artifact| != req.declaredSize;
      Handled(digest, s, req).requests
      == map[0 := if wrong then Rejected(req) else if req.slot in s.versions then Conflicted(req) else Published(req)]
  {
    hide Run, Handled, IdentifiesBytes;
    RunKeepsAddressed(digest, Fresh(map[]), actions);
    HandledAnswers(digest, Run(digest, Fresh(map[]), actions).(requests := map[], locks := map[]), req);
  }

  datatype Outcome = PublishedNow | AlreadyPublished | RefusedInput | StoreRefused

  function Ending(outcome: Outcome, req: Request): Phase {
    match outcome
    case PublishedNow => Published(req)
    case AlreadyPublished => Conflicted(req)
    case RefusedInput => Rejected(req)
    case StoreRefused => Failed(req)
  }

  /** The registry's tables and store, changed in place by the handlers. */
  class Registry {
    const digest: Digest
    var store: Objects
    var packages: map<Package, PackageRow>
    var versions: map<Slot, VersionRow>
    var canonical: map<Slot, Release>

    function View(): State
      reads this
    {
      State(store, packages, versions, canonical, map[], map[])
    }

    ghost predicate Valid()
      reads this
    {
      Invariant(digest, View()) && IsAddressed(digest, store)
    }

    constructor (digest: Digest)
      ensures Valid() && View() == Fresh(map[]) && this.digest == digest
    {
      this.digest := digest;
      store, packages, versions, canonical := map[], map[], map[], map[];
      new;
      FreshIsSafe(digest, map[]);
    }

    /** The `publish` handler. */
    method Publish(req: Request) returns (outcome: Outcome)
      requires Valid()
      modifies this
      ensures Valid() && Immutable(old(View()), View())
      ensures View().(requests := map[0 := Ending(outcome, req)]) == Handled(digest, old(View()), req)
      ensures
        IdentifiesBytes(digest) ==>
          var wrong := digest(req.artifact) != req.declaredSha || |req.artifact| != req.declaredSize;
          && (outcome == RefusedInput <==> wrong)
          && (outcome == AlreadyPublished <==> !wrong && req.slot in old(versions))
          && (outcome == PublishedNow <==> !wrong && req.slot !in old(versions))
          && (outcome == PublishedNow ==> PublishedAs(digest, old(View()), View(), req))
    {
      hide Invariant, Immutable, Handled, IsAddressed, IdentifiesBytes, PublishedAs;
      ghost var before := View();
      outcome := Serve(req);
      HandledKeepsAddressed(digest, before, req);
      if IdentifiesBytes(digest) {
        HandledAnswers(digest, before, req);
        assert Handled(digest, before, req).requests[0] == Ending(outcome, req);
        PublishedIgnoresRequests(digest, before, Handled(digest, before, req), View(), req);
      }
      HandledIsSafe(digest, before, req);
      AnsweredIsIdle(digest, before, Handled(digest, before, req), View(), Ending(outcome, req));
    }

    /** Verify, look, put, upsert, insert, adopt. */
    method Serve(req: Request) returns (outcome: Outcome)
      modifies this
      ensures View().(requests := map[0 := Ending(outcome, req)]) == Handled(digest, old(View()), req)
    {
      hide Next, RowFor, ReleaseFor, VersionMatches, NextSequence, ArtifactKey, Handled, ObjectMatches;
      ghost var before := View();
      var sha := digest(req.artifact);
      if sha != req.declaredSha || |req.artifact| != req.declaredSize {
        HandledRefusal(digest, before, req);
        return RefusedInput;
      }
      if req.slot in versions {
        if VersionMatches(digest, versions[req.slot], req) {
          canonical := canonical[req.slot := ReleaseFor(digest, req)];
        }
        HandledConflict(digest, before, req);
        return AlreadyPublished;
      }
      HandledFresh(digest, before, req);
      var key := ArtifactKey(sha, req.format);
      if key !in store {
        store := store[key := req.artifact];
      } else if !ObjectMatches(digest, store[key], |req.artifact|, sha) {
        return StoreRefused;
      }
      packages := packages[req.slot.package := PackageRow(req.description, NextSequence(packages, req.slot.package))];
      versions := versions[req.slot := RowFor(digest, req)];
      canonical := canonical[req.slot := ReleaseFor(digest, req)];
      return PublishedNow;
    }

    /** The `yank` handler: flips one flag of an existing row. */
    method Yank(slot: Slot, yanked: bool) returns (found: bool)
      requires Valid()
      modifies this`versions
      ensures Valid() && Immutable(old(View()), View())
      ensures found <==> slot in old(versions)
      ensures View() == Next(digest, old(View()), SetYanked(slot, yanked))
      ensures versions.Keys == old(versions).Keys
      ensures forall other :: other in versions && other != slot ==> versions[other] == old(versions)[other]
      ensures found ==> versions[slot].yanked == yanked && Facts(versions[slot]) == Facts(old(versions)[slot])
    {
      hide Invariant, Immutable;
      NextKeepsInvariant(digest, View(), SetYanked(slot, yanked));
      if slot !in versions {
        return false;
      }
      versions := versions[slot := versions[slot].(yanked := yanked)];
      return true;
    }
  }
}
