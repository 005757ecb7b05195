/** Claiming organisation slugs under a per-token quota (src/routes/orgs.rs):
    any number of claim transactions on any number of replicas, serialised only
    by an advisory lock on a hash of the token. */
module OrgClaims {
  /** Parameters of a deployment: the lock hash, which tokens are org-scoped,
      and the quota. */
  datatype Config = Config(lockHash: nat -> int, scoped: nat -> bool, maxOrgs: nat)

  datatype Phase =
    | Requested(token: nat, slug: string)
    | Queued(token: nat, slug: string)    // the slug looked free before the lock
    | Locked(token: nat, slug: string)
    | Counted(token: nat, slug: string)   // under quota, or exempt
    | Inserted(token: nat, slug: string)  // row inserted, uncommitted
    | Claimed(token: nat, slug: string)
    | Closed                              // ended without a new org

  /** Committed orgs with the token that created each, held locks, claims. */
  datatype State = State(orgs: map<string, nat>, locks: map<int, nat>, claims: map<nat, Phase>)

  datatype Action =
    | Request(c: nat, token: nat, slug: string)
    | PreCheck(c: nat)
    | TakeLock(c: nat)
    | CountClaims(c: nat)
    | InsertOrg(c: nat)
    | Commit(c: nat)
    | Abort(c: nat) // error, rollback, or crash: the lock dies with the transaction

  function OwnedBy(orgs: map<string, nat>, token: nat): set<string> {
    set slug | slug in orgs && orgs[slug] == token
  }

  function Move(s: State, c: nat, p: Phase): State {
    s.(claims := s.claims[c := p])
  }

  /** End of transaction: release whatever lock claim `c` holds. */
  function Ended(cfg: Config, s: State, c: nat, token: nat, p: Phase): State {
    var lock := cfg.lockHash(token);
    Move(s, c, p).(locks := if lock in s.locks && s.locks[lock] == c then s.locks - {lock} else s.locks)
  }

  /** Another transaction's uncommitted row for the slug makes an insert wait. */
  predicate SlugPending(s: State, c: nat, slug: string) {
    exists d :: d in s.claims && d != c && s.claims[d].Inserted? && s.claims[d].slug == slug
  }

  function Next(cfg: Config, s: State, a: Action): State {
    if a.Request? then
      if a.c in s.claims then s else Move(s, a.c, Requested(a.token, a.slug))
    else if a.c !in s.claims then s
    else
      var p := s.claims[a.c];
      match a
      case PreCheck(c) =>
        if !p.Requested? then s else Move(s, c, if p.slug in s.orgs then Closed else Queued(p.token, p.slug))
      case TakeLock(c) =>
        if !p.Queued? || cfg.lockHash(p.token) in s.locks then s
        else Move(s, c, Locked(p.token, p.slug)).(locks := s.locks[cfg.lockHash(p.token) := c])
      case CountClaims(c) =>
        if !p.Locked? then s
        else if cfg.scoped(p.token) && |OwnedBy(s.orgs, p.token)| >= cfg.maxOrgs
        then Ended(cfg, s, c, p.token, Closed)
        else Move(s, c, Counted(p.token, p.slug))
      case InsertOrg(c) =>
        if !p.Counted? || SlugPending(s, c, p.slug) then s
        else if p.slug in s.orgs then Ended(cfg, s, c, p.token, Closed)
        else Move(s, c, Inserted(p.token, p.slug))
      case Commit(c) =>
        if !p.Inserted? then s
        else Ended(cfg, s, c, p.token, Claimed(p.token, p.slug)).(orgs := s.orgs[p.slug := p.token])
      case Abort(c) =>
        if p.Claimed? || p.Closed? then s else Ended(cfg, s, c, p.token, Closed)
      case Request(_, _, _) => s
  }

  function Run(cfg: Config, s: State, actions: seq<Action>): State
    decreases |actions|
  {
    if actions == [] then s else Run(cfg, Next(cfg, s, actions[0]), actions[1..])
  }

  predicate InTransaction(p: Phase) {
    p.Locked? || p.Counted? || p.Inserted?
  }

  /** What a claim knows: it holds its lock, and once counted its token is
      still below quota. */
  ghost predicate PhaseFits(cfg: Config, s: State, c: nat, p: Phase) {
    && (InTransaction(p) ==> cfg.lockHash(p.token) in s.locks && s.locks[cfg.lockHash(p.token)] == c)
    && ((p.Counted? || p.Inserted?) && cfg.scoped(p.token) ==> |OwnedBy(s.orgs, p.token)| < cfg.maxOrgs)
    && (p.Inserted? ==> p.slug !in s.orgs && !SlugPending(s, c, p.slug))
    && (p.Claimed? ==> p.slug in s.orgs && s.orgs[p.slug] == p.token)
  }

  ghost predicate WithinQuota(cfg: Config, orgs: map<string, nat>) {
    forall token :: cfg.scoped(token) ==> |OwnedBy(orgs, token)| <= cfg.maxOrgs
  }

  ghost predicate OneClaimant(s: State) {
    forall c, d :: c in s.claims && d in s.claims && c != d && s.claims[c].Claimed? && s.claims[d].Claimed?
      ==> s.claims[c].slug != s.claims[d].slug
  }

  ghost predicate Invariant(cfg: Config, s: State) {
    && WithinQuota(cfg, s.orgs)
    && OneClaimant(s)
    && forall c :: c in s.claims ==> PhaseFits(cfg, s, c, s.claims[c])
  }

  /** A committed claim adds one org to its token and none to any other. */
  lemma CommitCounts(cfg: Config, s: State, slug: string, owner: nat, token: nat)
    requires slug !in s.orgs
    ensures |OwnedBy(s.orgs[slug := owner], token)| == |OwnedBy(s.orgs, token)| + if token == owner then 1 else 0
  {
    assert OwnedBy(s.orgs[slug := owner], token)
        == if token == owner then OwnedBy(s.orgs, token) + {slug} else OwnedBy(s.orgs, token);
  }

  lemma NextKeepsQuota(cfg: Config, s: State, a: Action)
    requires Invariant(cfg, s)
    ensures WithinQuota(cfg, Next(cfg, s, a).orgs) && OneClaimant(Next(cfg, s, a))
  {
    var s' := Next(cfg, s, a);
    if s'.orgs != s.orgs {
      var p := s.claims[a.c];
      assert PhaseFits(cfg, s, a.c, p);
      forall token | cfg.scoped(token)
        ensures |OwnedBy(s'.orgs, token)| <= cfg.maxOrgs
      {
        CommitCounts(cfg, s, p.slug, p.token, token);
      }
    }
    forall c, d | c in s'.claims && d in s'.claims && c != d && s'.claims[c].Claimed? && s'.claims[d].Claimed?
      ensures s'.claims[c].slug != s'.claims[d].slug
    {
      assert c in s.claims && d in s.claims;
      assert PhaseFits(cfg, s, c, s.claims[c]) && PhaseFits(cfg, s, d, s.claims[d]);
    }
  }

  /** Two transactions of one token never overlap, whatever else hashes to the
      same lock. */
  lemma OtherPhaseStaysFit(cfg: Config, s: State, a: Action, d: nat)
    requires Invariant(cfg, s) && d in s.claims && d != a.c
    ensures PhaseFits(cfg, Next(cfg, s, a), d, s.claims[d])
  {
    var s', p := Next(cfg, s, a), s.claims[d];
    assert PhaseFits(cfg, s, d, p);
    if a.c in s.claims {
      var q := s.claims[a.c];
      assert PhaseFits(cfg, s, a.c, q);
      if s'.orgs != s.orgs && !p.Closed? {
        CommitCounts(cfg, s, q.slug, q.token, p.token);
      }
    }
  }

  lemma OwnPhaseStaysFit(cfg: Config, s: State, a: Action)
    requires Invariant(cfg, s) && a.c in Next(cfg, s, a).claims
    ensures PhaseFits(cfg, Next(cfg, s, a), a.c, Next(cfg, s, a).claims[a.c])
  {
    if a.c in s.claims {
      assert PhaseFits(cfg, s, a.c, s.claims[a.c]);
    }
  }

  lemma NextKeepsInvariant(cfg: Config, s: State, a: Action)
    requires Invariant(cfg, s)
    ensures Invariant(cfg, Next(cfg, s, a))
  {
    hide PhaseFits, WithinQuota, OneClaimant;
    NextKeepsQuota(cfg, s, a);
    var s' := Next(cfg, s, a);
    forall d | d in s'.claims
      ensures PhaseFits(cfg, s', d, s'.claims[d])
    {
      if d == a.c {
        OwnPhaseStaysFit(cfg, s, a);
      } else {
        OtherPhaseStaysFit(cfg, s, a, d);
      }
    }
  }

  lemma NextKeepsOwners(cfg: Config, s: State, a: Action)
    requires Invariant(cfg, s)
    ensures forall slug :: slug in s.orgs ==> slug in Next(cfg, s, a).orgs && Next(cfg, s, a).orgs[slug] == s.orgs[slug]
  {
    if a.c in s.claims {
      assert PhaseFits(cfg, s, a.c, s.claims[a.c]);
    }
  }

  lemma {:induction false} RunKeepsInvariant(cfg: Config, s: State, actions: seq<Action>)
    requires Invariant(cfg, s)
    ensures Invariant(cfg, Run(cfg, s, actions))
    ensures forall slug :: slug in s.orgs ==>
              slug in Run(cfg, s, actions).orgs && Run(cfg, s, actions).orgs[slug] == s.orgs[slug]
    decreases |actions|
  {
    if actions != [] {
      NextKeepsInvariant(cfg, s, actions[0]);
      NextKeepsOwners(cfg, s, actions[0]);
      RunKeepsInvariant(cfg, Next(cfg, s, actions[0]), actions[1..]);
    }
  }

  /** From any table within quota, over every interleaving: a scoped token never
      owns more than `maxOrgs` orgs, a claimed slug keeps its owner for good,
      and each slug is granted to at most one claim. Nothing is assumed of the
      hash: distinct tokens may share a lock. */
  lemma QuotaHoldsOnEveryRun(cfg: Config, orgs: map<string, nat>, actions: seq<Action>)
    requires WithinQuota(cfg, orgs)
    ensures
      var s := Run(cfg, State(orgs, map[], map[]), actions);
      && (forall token :: cfg.scoped(token) ==> |OwnedBy(s.orgs, token)| <= cfg.maxOrgs)
      && (forall slug :: slug in orgs ==> slug in s.orgs && s.orgs[slug] == orgs[slug])
      && (forall c :: c in s.claims && s.claims[c].Claimed? ==>
            s.claims[c].slug in s.orgs && s.orgs[s.claims[c].slug] == s.claims[c].token)
      && OneClaimant(s)
  {
    RunKeepsInvariant(cfg, State(orgs, map[], map[]), actions);
    var s := Run(cfg, State(orgs, map[], map[]), actions);
    assert forall c :: c in s.claims ==> PhaseFits(cfg, s, c, s.claims[c]);
  }

  // ---- What a claim is answered ----

  /** Whoever holds a lock is in a transaction under it: an ended one, however it
      ended, holds none. */
  ghost predicate LocksAreLive(cfg: Config, s: State) {
    forall lock :: lock in s.locks ==>
      var c := s.locks[lock];
      c in s.claims && InTransaction(s.claims[c]) && cfg.lockHash(s.claims[c].token) == lock
  }

  lemma NextKeepsLocksLive(cfg: Config, s: State, a: Action)
    requires LocksAreLive(cfg, s)
    ensures LocksAreLive(cfg, Next(cfg, s, a))
  {
    hide SlugPending;
    var s' := Next(cfg, s, a);
    forall lock | lock in s'.locks
      ensures
        var c := s'.locks[lock];
        c in s'.claims && InTransaction(s'.claims[c]) && cfg.lockHash(s'.claims[c].token) == lock
    {
      if lock in s.locks {
        assert s.locks[lock] in s.claims;
      }
    }
  }

  /** The steps of a claim that nobody interferes with. */
  function LoneClaim(cfg: Config, s: State, c: nat, token: nat, slug: string): State {
    var s1 := Next(cfg, Next(cfg, s, Request(c, token, slug)), PreCheck(c));
    var s2 := Next(cfg, Next(cfg, s1, TakeLock(c)), CountClaims(c));
    Next(cfg, Next(cfg, s2, InsertOrg(c)), Commit(c))
  }

  /** Such a claim is granted exactly when the slug is free and its token, if
      scoped, owns fewer orgs than the quota. */
  lemma LoneClaimAnswers(cfg: Config, s: State, c: nat, token: nat, slug: string)
    requires c !in s.claims && cfg.lockHash(token) !in s.locks && !SlugPending(s, c, slug)
    ensures
      var granted := slug !in s.orgs && (cfg.scoped(token) ==> |OwnedBy(s.orgs, token)| < cfg.maxOrgs);
      LoneClaim(cfg, s, c, token, slug)
      == if granted then s.(orgs := s.orgs[slug := token], claims := s.claims[c := Claimed(token, slug)])
         else s.(claims := s.claims[c := Closed])
  {
    hide OwnedBy;
    var lock := cfg.lockHash(token);
    var s1 := Next(cfg, Next(cfg, s, Request(c, token, slug)), PreCheck(c));
    if slug in s.orgs {
      assert s1 == s.(claims := s.claims[c := Closed]);
    } else {
      assert s1 == s.(claims := s.claims[c := Queued(token, slug)]);
      var s2 := Next(cfg, s1, TakeLock(c));
      assert s2 == s.(claims := s.claims[c := Locked(token, slug)], locks := s.locks[lock := c]);
      var s3 := Next(cfg, s2, CountClaims(c));
      assert s.locks[lock := c] - {lock} == s.locks;
      if cfg.scoped(token) && |OwnedBy(s.orgs, token)| >= cfg.maxOrgs {
        assert s3 == s.(claims := s.claims[c := Closed]);
      } else {
        assert s3 == s.(claims := s.claims[c := Counted(token, slug)], locks := s.locks[lock := c]);
        LoneInsert(cfg, s, c, token, slug);
      }
    }
  }

  lemma LoneInsert(cfg: Config, s: State, c: nat, token: nat, slug: string)
    requires c !in s.claims && cfg.lockHash(token) !in s.locks && !SlugPending(s, c, slug) && slug !in s.orgs
    ensures
      var counted := s.(claims := s.claims[c := Counted(token, slug)], locks := s.locks[cfg.lockHash(token) := c]);
      Next(cfg, Next(cfg, counted, InsertOrg(c)), Commit(c))
      == s.(orgs := s.orgs[slug := token], claims := s.claims[c := Claimed(token, slug)])
  {
    var lock := cfg.lockHash(token);
    var counted := s.(claims := s.claims[c := Counted(token, slug)], locks := s.locks[lock := c]);
    assert !SlugPending(counted, c, slug);
    var inserted := Next(cfg, counted, InsertOrg(c));
    assert inserted == s.(claims := s.claims[c := Inserted(token, slug)], locks := s.locks[lock := c]);
    assert s.locks[lock := c] - {lock} == s.locks;
    var done := Next(cfg, inserted, Commit(c));
    assert done == s.(orgs := s.orgs[slug := token], claims := s.claims[c := Claimed(token, slug)]);
  }

  /** A claim that counted itself under quota but finds the slug taken since ends
      without an org, and frees its lock. */
  lemma TakenSinceIsClosed(cfg: Config, s: State, c: nat)
    requires c in s.claims && s.claims[c].Counted? && s.claims[c].slug in s.orgs && !SlugPending(s, c, s.claims[c].slug)
    ensures
      var s' := Next(cfg, s, InsertOrg(c));
      s'.claims[c] == Closed && s'.orgs == s.orgs && forall lock :: lock in s'.locks ==>
        lock in s.locks && s'.locks[lock] == s.locks[lock] && !(lock == cfg.lockHash(s.claims[c].token) && s.locks[lock] == c)
  {
  }
}
