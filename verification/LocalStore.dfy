/** The local-disk backend (`put_local`, src/storage.rs) as interleaved file
    system steps of any number of writers: stage in a private file, sync,
    promote with a no-clobber hard link, clean up; any writer may fail or crash
    between steps. Files are inodes, so a promoted file is the staged file. */
module LocalStore {
  import opened Prelude
  import opened ArtifactStore

  /** What a caller stores; it has recomputed `sha256` from the bytes. */
  datatype Job = Job(key: string, bytes: Bytes, sha256: string)

  datatype Phase =
    | Started(job: Job)
    | Ready(job: Job)                 // preflight saw no object
    | Staging(job: Job, written: nat) // staging file open, `written` bytes in
    | Synced(job: Job)
    | Leaving(job: Job, ok: bool)     // verdict reached, cleanup due
    | Returned(job: Job, ok: bool)
    | Crashed

  /** `staging` maps each writer to its uniquely named staging file. */
  datatype State = State(
    inodes: map<nat, Bytes>, staging: map<nat, nat>, final: map<string, nat>, writers: map<nat, Phase>)

  datatype Action =
    | Begin(w: nat, job: Job)
    | Preflight(w: nat)
    | CreateStaging(w: nat, inode: nat)
    | Write(w: nat, count: nat)
    | Sync(w: nat)
    | Link(w: nat)
    | Cleanup(w: nat, removed: bool, directorySynced: bool)
    | Fail(w: nat) // an I/O error
    | Crash(w: nat)

  /** What readers of the store see. */
  ghost function Visible(s: State): Objects
    requires forall k :: k in s.final ==> s.final[k] in s.inodes
  {
    map k | k in s.final :: s.inodes[s.final[k]]
  }

  ghost predicate Holds(digest: Digest, s: State, job: Job) {
    && job.key in s.final && s.final[job.key] in s.inodes
    && ObjectMatches(digest, s.inodes[s.final[job.key]], |job.bytes|, job.sha256)
  }

  ghost function Move(s: State, w: nat, p: Phase): State {
    s.(writers := s.writers[w := p])
  }

  ghost function Next(digest: Digest, s: State, a: Action): State {
    if a.Begin? then
      if a.w in s.writers || digest(a.job.bytes) != a.job.sha256 then s else Move(s, a.w, Started(a.job))
    else if a.w !in s.writers then s
    else
      var p := s.writers[a.w];
      match a
      case Preflight(w) =>
        if !p.Started? then s
        else if p.job.key !in s.final then Move(s, w, Ready(p.job))
        else Move(s, w, Returned(p.job, Holds(digest, s, p.job)))
      case CreateStaging(w, inode) =>
        if !p.Ready? || inode in s.inodes then s
        else Move(s, w, Staging(p.job, 0)).(inodes := s.inodes[inode := []], staging := s.staging[w := inode])
      case Write(w, count) =>
        if !p.Staging? || w !in s.staging || p.written + count > |p.job.bytes| then s
        else Move(s, w, Staging(p.job, p.written + count))
             .(inodes := s.inodes[s.staging[w] := p.job.bytes[..p.written + count]])
      case Sync(w) =>
        if !p.Staging? || p.written != |p.job.bytes| then s else Move(s, w, Synced(p.job))
      case Link(w) =>
        if !p.Synced? || w !in s.staging then s
        else if p.job.key in s.final then Move(s, w, Leaving(p.job, Holds(digest, s, p.job)))
        else Move(s, w, Leaving(p.job, true)).(final := s.final[p.job.key := s.staging[w]])
      case Cleanup(w, removed, directorySynced) =>
        if !p.Leaving? then s
        else Move(s, w, Returned(p.job, p.ok && removed && directorySynced))
             .(staging := if removed then s.staging - {w} else s.staging)
      case Fail(w) =>
        if p.Started? then Move(s, w, Returned(p.job, false))
        else if p.Ready? || p.Staging? || p.Synced? then Move(s, w, Leaving(p.job, false)) else s
      case Crash(w) =>
        if p.Returned? then s else Move(s, w, Crashed)
      case Begin(_, _) => s
  }

  ghost function Run(digest: Digest, s: State, actions: seq<Action>): State
    decreases |actions|
  {
    if actions == [] then s else Run(digest, Next(digest, s, actions[0]), actions[1..])
  }

  /** A staging file is private until linked and holds what was written. */
  ghost predicate PhaseFits(digest: Digest, s: State, w: nat, p: Phase) {
    && (!p.Crashed? ==> digest(p.job.bytes) == p.job.sha256)
    && (p.Staging? || p.Synced? ==>
          && w in s.staging && s.staging[w] in s.inodes
          && (forall k :: k in s.final ==> s.final[k] != s.staging[w])
          && var written := if p.Staging? then p.written else |p.job.bytes|;
             written <= |p.job.bytes| && s.inodes[s.staging[w]] == p.job.bytes[..written])
    && ((p.Leaving? || p.Returned?) && p.ok ==> Holds(digest, s, p.job))
  }

  ghost predicate FilesFit(s: State) {
    && (forall k :: k in s.final ==> s.final[k] in s.inodes)
    && (forall w :: w in s.staging ==> w in s.writers && s.staging[w] in s.inodes)
    && (forall w, v :: w in s.staging && v in s.staging && w != v ==> s.staging[w] != s.staging[v])
  }

  ghost predicate Invariant(digest: Digest, s: State) {
    && FilesFit(s)
    && forall w :: w in s.writers ==> PhaseFits(digest, s, w, s.writers[w])
  }

  /** Everything visible stays visible, byte for byte. */
  ghost predicate Preserves(before: Objects, after: Objects) {
    forall k :: k in before ==> k in after && after[k] == before[k]
  }

  lemma NextKeepsFiles(digest: Digest, s: State, a: Action)
    requires Invariant(digest, s)
    ensures FilesFit(Next(digest, s, a))
  {
    if a.w in s.writers {
      assert PhaseFits(digest, s, a.w, s.writers[a.w]);
    }
  }

  /** The atomic specification a step refines: nothing happens to the visible
      objects, or the stepping writer's complete bytes appear at its absent
      key. */
  ghost predicate PutIfAbsent(before: Objects, after: Objects, p: Phase) {
    || after == before
    || (!p.Crashed? && p.job.key !in before && after == before[p.job.key := p.job.bytes])
  }

  lemma StepRefinesPutIfAbsent(digest: Digest, s: State, a: Action)
    requires Invariant(digest, s)
    ensures FilesFit(Next(digest, s, a))
    ensures Preserves(Visible(s), Visible(Next(digest, s, a)))
    ensures Visible(Next(digest, s, a)) == Visible(s)
         || (a.Link? && a.w in s.writers && PutIfAbsent(Visible(s), Visible(Next(digest, s, a)), s.writers[a.w]))
  {
    NextKeepsFiles(digest, s, a);
    if a.w in s.writers {
      assert PhaseFits(digest, s, a.w, s.writers[a.w]);
      var p := s.writers[a.w];
      if a.Link? && Next(digest, s, a).final != s.final {
        assert p.job.bytes[..|p.job.bytes|] == p.job.bytes;
        assert Visible(Next(digest, s, a)) == Visible(s)[p.job.key := p.job.bytes];
      }
    }
  }

  lemma HoldsIsVisible(digest: Digest, s: State, s': State, job: Job)
    requires FilesFit(s) && FilesFit(s') && Preserves(Visible(s), Visible(s')) && Holds(digest, s, job)
    ensures Holds(digest, s', job)
  {
    assert job.key in Visible(s) && job.key in Visible(s');
  }

  /** A step of one writer leaves every other writer's view in order. */
  lemma OtherPhaseStaysFit(digest: Digest, s: State, a: Action, v: nat)
    requires Invariant(digest, s) && v in s.writers && v != a.w
    ensures PhaseFits(digest, Next(digest, s, a), v, s.writers[v])
  {
    var s' := Next(digest, s, a);
    var p := s.writers[v];
    assert PhaseFits(digest, s, v, p);
    StepRefinesPutIfAbsent(digest, s, a);
    if a.w in s.writers {
      assert PhaseFits(digest, s, a.w, s.writers[a.w]);
    }
    if (p.Leaving? || p.Returned?) && p.ok {
      HoldsIsVisible(digest, s, s', p.job);
    }
  }

  lemma OwnPhaseStaysFit(digest: Digest, s: State, a: Action)
    requires Invariant(digest, s) && a.w in Next(digest, s, a).writers
    ensures PhaseFits(digest, Next(digest, s, a), a.w, Next(digest, s, a).writers[a.w])
  {
    var s' := Next(digest, s, a);
    StepRefinesPutIfAbsent(digest, s, a);
    if a.w in s.writers {
      var p := s.writers[a.w];
      assert PhaseFits(digest, s, a.w, p);
      if s' != s && a.Link? && p.job.key !in s.final {
        assert p.job.bytes[..|p.job.bytes|] == p.job.bytes;
      }
    }
  }

  lemma NextKeepsInvariant(digest: Digest, s: State, a: Action)
    requires Invariant(digest, s)
    ensures Invariant(digest, Next(digest, s, a))
  {
    hide PhaseFits;
    var s' := Next(digest, s, a);
    NextKeepsFiles(digest, s, a);
    forall v | v in s'.writers
      ensures PhaseFits(digest, s', v, s'.writers[v])
    {
      if v == a.w {
        OwnPhaseStaysFit(digest, s, a);
      } else {
        OtherPhaseStaysFit(digest, s, a, v);
      }
    }
  }

  /** Over every interleaving with failures and crashes: an object visible at
      any point is never changed or removed afterwards. */
  lemma {:induction false} RunIsWriteOnce(digest: Digest, s: State, actions: seq<Action>)
    requires Invariant(digest, s)
    ensures Invariant(digest, Run(digest, s, actions))
    ensures Preserves(Visible(s), Visible(Run(digest, s, actions)))
    decreases |actions|
  {
    if actions != [] {
      NextKeepsInvariant(digest, s, actions[0]);
      StepRefinesPutIfAbsent(digest, s, actions[0]);
      RunIsWriteOnce(digest, Next(digest, s, actions[0]), actions[1..]);
    }
  }

  ghost predicate Submitted(actions: seq<Action>, job: Job) {
    exists i :: 0 <= i < |actions| && actions[i].Begin? && actions[i].job == job
  }

  ghost predicate OnlySubmitted(s: State, actions: seq<Action>) {
    forall w :: w in s.writers && !s.writers[w].Crashed? ==> Submitted(actions, s.writers[w].job)
  }

  ghost predicate Supplied(digest: Digest, actions: seq<Action>, key: string, bytes: Bytes, job: Job) {
    job.key == key && job.bytes == bytes && digest(job.bytes) == job.sha256 && Submitted(actions, job)
  }

  ghost predicate WholeObjects(digest: Digest, s: State, actions: seq<Action>)
    requires FilesFit(s)
  {
    forall k :: k in s.final ==> exists job: Job :: Supplied(digest, actions, k, Visible(s)[k], job)
  }

  /** Runs unfolded at the end, for histories that only grow. */
  lemma {:induction false} RunSnoc(digest: Digest, s: State, actions: seq<Action>, a: Action)
    ensures Run(digest, s, actions + [a]) == Next(digest, Run(digest, s, actions), a)
    decreases |actions|
  {
    if actions == [] {
      assert [a][1..] == [];
    } else {
      assert (actions + [a])[1..] == actions[1..] + [a];
      RunSnoc(digest, Next(digest, s, actions[0]), actions[1..], a);
    }
  }

  ghost const Empty := State(map[], map[], map[], map[])

  lemma SubmittedStays(actions: seq<Action>, a: Action, job: Job)
    requires Submitted(actions, job)
    ensures Submitted(actions + [a], job)
  {
    var i :| 0 <= i < |actions| && actions[i].Begin? && actions[i].job == job;
    assert (actions + [a])[i] == actions[i];
  }

  /** Whatever is visible after any run from an empty directory is the complete
      bytes of one submitted job, with the digest it was submitted under; and
      every writer that returned Ok left an object of its length and digest. */
  lemma {:induction false} VisibleObjectsAreWhole(digest: Digest, actions: seq<Action>)
    ensures Invariant(digest, Run(digest, Empty, actions))
    ensures OnlySubmitted(Run(digest, Empty, actions), actions)
    ensures WholeObjects(digest, Run(digest, Empty, actions), actions)
    ensures forall w :: w in Run(digest, Empty, actions).writers ==>
              var p := Run(digest, Empty, actions).writers[w];
              p.Returned? && p.ok ==> Holds(digest, Run(digest, Empty, actions), p.job)
    decreases |actions|
  {
    hide Run;
    if actions == [] {
      EmptyRun(digest);
    } else {
      var before, a := actions[..|actions| - 1], actions[|actions| - 1];
      assert actions == before + [a];
      RunSnoc(digest, Empty, before, a);
      VisibleObjectsAreWhole(digest, before);
      StepKeepsWhole(digest, Run(digest, Empty, before), before, a);
    }
    assert forall w :: w in Run(digest, Empty, actions).writers ==>
      PhaseFits(digest, Run(digest, Empty, actions), w, Run(digest, Empty, actions).writers[w]);
  }

  lemma EmptyRun(digest: Digest)
    ensures Run(digest, Empty, []) == Empty && Invariant(digest, Empty)
  {
  }

  lemma StepKeepsWhole(digest: Digest, s: State, actions: seq<Action>, a: Action)
    requires Invariant(digest, s) && OnlySubmitted(s, actions) && WholeObjects(digest, s, actions)
    ensures Invariant(digest, Next(digest, s, a))
    ensures OnlySubmitted(Next(digest, s, a), actions + [a]) && WholeObjects(digest, Next(digest, s, a), actions + [a])
  {
    var s' := Next(digest, s, a);
    NextKeepsInvariant(digest, s, a);
    StepRefinesPutIfAbsent(digest, s, a);
    forall w | w in s'.writers && !s'.writers[w].Crashed?
      ensures Submitted(actions + [a], s'.writers[w].job)
    {
      JobIsSubmitted(digest, s, actions, a, w);
    }
    forall k | k in s'.final
      ensures exists job: Job :: Supplied(digest, actions + [a], k, Visible(s')[k], job)
    {
      if k in s.final {
        var job: Job :| Supplied(digest, actions, k, Visible(s)[k], job);
        SubmittedStays(actions, a, job);
        assert Supplied(digest, actions + [a], k, Visible(s')[k], job);
      } else {
        var job := s.writers[a.w].job;
        assert PhaseFits(digest, s, a.w, s.writers[a.w]);
        SubmittedStays(actions, a, job);
        assert Supplied(digest, actions + [a], k, Visible(s')[k], job);
      }
    }
  }

  lemma JobIsSubmitted(digest: Digest, s: State, actions: seq<Action>, a: Action, w: nat)
    requires OnlySubmitted(s, actions)
    requires w in Next(digest, s, a).writers && !Next(digest, s, a).writers[w].Crashed?
    ensures Submitted(actions + [a], Next(digest, s, a).writers[w].job)
  {
    if w in s.writers && !s.writers[w].Crashed? {
      SubmittedStays(actions, a, s.writers[w].job);
    } else {
      assert (actions + [a])[|actions|] == a;
    }
  }

  // ---- What a writer is answered ----

  /** The steps of a writer that meets no I/O error. */
  ghost function LoneWrite(digest: Digest, s: State, w: nat, job: Job, inode: nat): State {
    var s1 := Next(digest, Next(digest, s, Begin(w, job)), Preflight(w));
    var s2 := Next(digest, Next(digest, s1, CreateStaging(w, inode)), Write(w, |job.bytes|));
    Next(digest, Next(digest, Next(digest, s2, Sync(w)), Link(w)), Cleanup(w, true, true))
  }

  lemma LonePreflight(digest: Digest, s: State, w: nat, job: Job)
    requires FilesFit(s) && w !in s.writers && digest(job.bytes) == job.sha256
    ensures Next(digest, Next(digest, s, Begin(w, job)), Preflight(w))
            == s.(writers := s.writers[w := if job.key in s.final then Returned(job, Holds(digest, s, job)) else Ready(job)])
  {
    hide FilesFit;
    assert Next(digest, s, Begin(w, job)) == s.(writers := s.writers[w := Started(job)]);
  }

  /** Left alone, a writer returns Ok exactly when its key was absent or held an
      object of its length and digest, and the key then holds its own bytes or
      what it held before. */
  lemma LoneWriterReturns(digest: Digest, s: State, w: nat, job: Job, inode: nat)
    requires Invariant(digest, s) && w !in s.writers && w !in s.staging && inode !in s.inodes
    requires digest(job.bytes) == job.sha256
    ensures
      var s' := LoneWrite(digest, s, w, job, inode);
      var absent := job.key !in s.final;
      && w in s'.writers
      && s'.writers[w]
         == Returned(job, absent || (var held := s.inodes[s.final[job.key]]; |held| == |job.bytes| && digest(held) == job.sha256))
      && w !in s'.staging
      && job.key in s'.final && s'.final[job.key] in s'.inodes
      && s'.inodes[s'.final[job.key]] == if absent then job.bytes else s.inodes[s.final[job.key]]
  {
    hide Invariant;
    assert FilesFit(s) by {
      FilesOf(digest, s);
    }
    LonePreflight(digest, s, w, job);
    if job.key !in s.final {
      StagedIsLinked(digest, s, w, job, inode);
    }
  }

  lemma FilesOf(digest: Digest, s: State)
    requires Invariant(digest, s)
    ensures FilesFit(s)
  {
  }

  lemma StagedIsLinked(digest: Digest, s: State, w: nat, job: Job, inode: nat)
    requires FilesFit(s) && w !in s.writers && w !in s.staging && inode !in s.inodes && job.key !in s.final
    ensures
      var ready := s.(writers := s.writers[w := Ready(job)]);
      var staged := Next(digest, Next(digest, Next(digest, ready, CreateStaging(w, inode)), Write(w, |job.bytes|)), Sync(w));
      var s' := Next(digest, Next(digest, staged, Link(w)), Cleanup(w, true, true));
      s' == State(s.inodes[inode := job.bytes], s.staging, s.final[job.key := inode], s.writers[w := Returned(job, true)])
  {
    hide Next;
    var ready := s.(writers := s.writers[w := Ready(job)]);
    StageAll(digest, ready, w, job, inode);
    var staged := ready.(
      inodes := s.inodes[inode := job.bytes], staging := s.staging[w := inode], writers := ready.writers[w := Synced(job)]);
    LinkAndCleanup(digest, staged, w, job);
    assert staged.writers[w := Returned(job, true)] == s.writers[w := Returned(job, true)];
    assert s.staging[w := inode] - {w} == s.staging;
  }

  lemma LinkAndCleanup(digest: Digest, s: State, w: nat, job: Job)
    requires w in s.writers && s.writers[w] == Synced(job) && w in s.staging && job.key !in s.final
    ensures
      Next(digest, Next(digest, s, Link(w)), Cleanup(w, true, true))
      == s.(staging := s.staging - {w}, final := s.final[job.key := s.staging[w]], writers := s.writers[w := Returned(job, true)])
  {
    hide Holds;
    var linked := Next(digest, s, Link(w));
    assert linked == s.(writers := s.writers[w := Leaving(job, true)], final := s.final[job.key := s.staging[w]]);
  }

  lemma StageAll(digest: Digest, s: State, w: nat, job: Job, inode: nat)
    requires w in s.writers && s.writers[w] == Ready(job) && inode !in s.inodes
    ensures
      Next(digest, Next(digest, Next(digest, s, CreateStaging(w, inode)), Write(w, |job.bytes|)), Sync(w))
      == s.(inodes := s.inodes[inode := job.bytes], staging := s.staging[w := inode], writers := s.writers[w := Synced(job)])
  {
    hide Holds;
    var s1 := Next(digest, s, CreateStaging(w, inode));
    assert s1 == s.(inodes := s.inodes[inode := []], staging := s.staging[w := inode], writers := s.writers[w := Staging(job, 0)]);
    var s2 := Next(digest, s1, Write(w, |job.bytes|));
    assert job.bytes[..0 + |job.bytes|] == job.bytes;
    assert s2 == s1.(inodes := s.inodes[inode := job.bytes], writers := s.writers[w := Staging(job, |job.bytes|)]);
  }

  /** A writer that loses the race to link answers by what the winner linked. */
  lemma LostLinkAnswers(digest: Digest, s: State, w: nat)
    requires FilesFit(s) && w in s.writers && s.writers[w].Synced? && w in s.staging
    requires s.writers[w].job.key in s.final
    ensures
      var job, held := s.writers[w].job, s.inodes[s.final[s.writers[w].job.key]];
      Next(digest, Next(digest, s, Link(w)), Cleanup(w, true, true)).writers[w]
      == Returned(job, |held| == |job.bytes| && digest(held) == job.sha256)
  {
  }
}
