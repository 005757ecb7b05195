/** A package's `index_sequence` under publication, which bumps it, and under
    uploads of signed indexes (`put_signed_index`, src/routes/mirrors.rs), which
    read it, compare, and later write it without looking again. */
module SignedIndex {
  import opened Prelude

  /** `sequence as i64`. */
  function AsI64(sequence: nat): int {
    if sequence <= I64_MAX then sequence else sequence - U64_MAX - 1
  }

  /** `saturating_add(1).max(1)`. */
  function Bumped(counter: int): int {
    if counter >= I64_MAX then I64_MAX else if counter < 0 then 1 else counter + 1
  }

  datatype Upload = Checked(sequence: nat) | Accepted | Refused

  datatype State = State(counter: int, uploads: map<nat, Upload>)

  datatype Action =
    | Publish                      // the bump, in a transaction that locks the row
    | Read(u: nat, sequence: nat)  // read the row and compare
    | Write(u: nat)

  predicate Passes(counter: int, sequence: nat) {
    sequence >= if counter < 0 then 0 else counter
  }

  function Next(s: State, a: Action): State {
    match a
    case Publish => s.(counter := Bumped(s.counter))
    case Read(u, sequence) =>
      if u in s.uploads then s
      else s.(uploads := s.uploads[u := if Passes(s.counter, sequence) then Checked(sequence) else Refused])
    case Write(u) =>
      if u in s.uploads && s.uploads[u].Checked?
      then State(AsI64(s.uploads[u].sequence), s.uploads[u := Accepted]) else s
  }

  function Run(s: State, actions: seq<Action>): State
    decreases |actions|
  {
    if actions == [] then s else Run(Next(s, actions[0]), actions[1..])
  }

  /** The counter fits i64, and every sequence read so far fits u64. */
  predicate InRange(s: State) {
    && s.counter <= I64_MAX
    && forall u :: u in s.uploads && s.uploads[u].Checked? ==> s.uploads[u].sequence <= U64_MAX
  }

  predicate FitsU64(a: Action) {
    a.Read? ==> a.sequence <= U64_MAX
  }

  predicate NeverDecreases(s: State, actions: seq<Action>)
    decreases |actions|
  {
    actions == [] || (s.counter <= Next(s, actions[0]).counter && NeverDecreases(Next(s, actions[0]), actions[1..]))
  }

  /** The comparison, made again when the document is written. */
  predicate HoldsAtWrite(s: State, a: Action) {
    a.Write? && a.u in s.uploads && s.uploads[a.u].Checked? ==>
      s.uploads[a.u].sequence <= I64_MAX && s.uploads[a.u].sequence >= s.counter
  }

  predicate HoldsAtWrites(s: State, actions: seq<Action>)
    decreases |actions|
  {
    actions == [] || (HoldsAtWrite(s, actions[0]) && HoldsAtWrites(Next(s, actions[0]), actions[1..]))
  }

  lemma {:induction false} CounterStaysPositive(s: State, a: Action)
    requires InRange(s) && s.counter >= 0 && FitsU64(a)
    ensures InRange(Next(s, a))
    ensures s.counter <= Next(s, a).counter <==> HoldsAtWrite(s, a)
  {
  }

  /** Of one run: the counter never decreases exactly when the comparison would
      still hold at every write, with a sequence that fits i64. */
  lemma {:induction false} NeverDecreasesIff(s: State, actions: seq<Action>)
    requires InRange(s) && s.counter >= 0 && forall i :: 0 <= i < |actions| ==> FitsU64(actions[i])
    ensures NeverDecreases(s, actions) <==> HoldsAtWrites(s, actions)
    decreases |actions|
  {
    if actions != [] {
      CounterStaysPositive(s, actions[0]);
      if s.counter <= Next(s, actions[0]).counter {
        assert forall i :: 0 <= i < |actions| - 1 ==> actions[1..][i] == actions[i + 1];
        NeverDecreasesIff(Next(s, actions[0]), actions[1..]);
      }
    }
  }

  // ---- One upload raced by publications ----

  function Publications(n: nat): seq<Action> {
    seq(n, i => Publish)
  }

  lemma {:induction false} PublicationsBump(s: State, n: nat)
    requires 0 <= s.counter <= I64_MAX
    ensures Run(s, Publications(n)) == s.(counter := if s.counter + n > I64_MAX then I64_MAX else s.counter + n)
    decreases n
  {
    if n > 0 {
      assert Publications(n)[1..] == Publications(n - 1);
      PublicationsBump(Next(s, Publish), n - 1);
    }
  }

  lemma {:induction false} RunAppend(s: State, a: seq<Action>, b: seq<Action>)
    ensures Run(s, a + b) == Run(Run(s, a), b)
    decreases |a|
  {
    if a == [] {
      assert a + b == b;
    } else {
      assert (a + b)[0] == a[0] && (a + b)[1..] == a[1..] + b;
      RunAppend(Next(s, a[0]), a[1..], b);
    }
  }

  /** An upload that was read before n publications and written after them
      undoes bumps exactly when its sequence is below what they made of the
      counter, or does not fit i64. With none in between only the cast can. */
  lemma RacedUploadLowersIff(s: State, u: nat, sequence: nat, n: nat)
    requires 0 <= s.counter <= I64_MAX && u !in s.uploads && sequence <= U64_MAX
    requires Passes(s.counter, sequence)
    ensures
      var before := Run(s, [Read(u, sequence)] + Publications(n));
      var after := Run(s, [Read(u, sequence)] + Publications(n) + [Write(u)]);
      && u in after.uploads && after.uploads[u] == Accepted
      && (after.counter < before.counter
          <==> sequence > I64_MAX || (sequence < s.counter + n && sequence < I64_MAX))
      && before.counter == (if s.counter + n <= 0x7FFF_FFFF_FFFF_FFFF then s.counter + n else 0x7FFF_FFFF_FFFF_FFFF)
      && after.counter == (if sequence <= 0x7FFF_FFFF_FFFF_FFFF then sequence else sequence - 0x1_0000_0000_0000_0000)
  {
    var s1 := Next(s, Read(u, sequence));
    var prefix := [Read(u, sequence)] + Publications(n);
    RunAppend(s, [Read(u, sequence)], Publications(n));
    assert [Read(u, sequence)][1..] == [] && [Write(u)][1..] == [];
    assert Run(s, [Read(u, sequence)]) == s1 by {
      assert Run(s1, []) == s1;
    }
    PublicationsBump(s1, n);
    RunAppend(s, prefix, [Write(u)]);
    var s2 := Run(s, prefix);
    assert Run(s2, [Write(u)]) == Next(s2, Write(u)) by {
      assert Run(Next(s2, Write(u)), []) == Next(s2, Write(u));
    }
  }

  // ---- Which schedules are safe ----

  /** A schedule: who moves when, whatever sequences the documents carry. */
  datatype Move = Publication | ReadBy(u: nat) | WriteBy(u: nat)

  type Sequence = n: nat | n <= I64_MAX

  function ActionOf(m: Move, choice: nat -> Sequence): Action {
    match m
    case Publication => Publish
    case ReadBy(u) => Read(u, choice(u))
    case WriteBy(u) => Write(u)
  }

  function Actions(schedule: seq<Move>, choice: nat -> Sequence): seq<Action> {
    seq(|schedule|, i requires 0 <= i < |schedule| => ActionOf(schedule[i], choice))
  }

  /** After the first t moves, from a counter c and no uploads. */
  function StateAt(c: nat, schedule: seq<Move>, choice: nat -> Sequence, t: nat): State
    requires t <= |schedule|
  {
    if t == 0 then State(c, map[]) else Next(StateAt(c, schedule, choice, t - 1), ActionOf(schedule[t - 1], choice))
  }

  predicate StepRises(c: nat, schedule: seq<Move>, choice: nat -> Sequence, t: nat)
    requires t < |schedule|
  {
    StateAt(c, schedule, choice, t).counter <= StateAt(c, schedule, choice, t + 1).counter
  }

  ghost predicate Rises(c: nat, schedule: seq<Move>, choice: nat -> Sequence, n: nat)
    requires n <= |schedule|
  {
    forall t: nat :: t < n ==> StepRises(c, schedule, choice, t)
  }

  lemma {:induction false} NeverDecreasesFrom(c: nat, schedule: seq<Move>, choice: nat -> Sequence, n: nat)
    requires n <= |schedule|
    ensures NeverDecreases(StateAt(c, schedule, choice, n), Actions(schedule, choice)[n..])
            <==> forall t: nat :: n <= t < |schedule| ==> StepRises(c, schedule, choice, t)
    decreases |schedule| - n
  {
    if n < |schedule| {
      var actions := Actions(schedule, choice);
      assert actions[n..][0] == ActionOf(schedule[n], choice) && actions[n..][1..] == actions[n + 1..];
      NeverDecreasesFrom(c, schedule, choice, n + 1);
      assert StateAt(c, schedule, choice, n + 1) == Next(StateAt(c, schedule, choice, n), actions[n..][0]);
      assert (forall t: nat :: n <= t < |schedule| ==> StepRises(c, schedule, choice, t))
        <==> StepRises(c, schedule, choice, n) && forall t: nat :: n + 1 <= t < |schedule| ==> StepRises(c, schedule, choice, t);
    }
  }

  lemma NeverDecreasesIsRises(c: nat, schedule: seq<Move>, choice: nat -> Sequence)
    ensures NeverDecreases(State(c, map[]), Actions(schedule, choice)) <==> Rises(c, schedule, choice, |schedule|)
  {
    hide NeverDecreases;
    NeverDecreasesFrom(c, schedule, choice, 0);
    assert Actions(schedule, choice)[0..] == Actions(schedule, choice);
    assert StateAt(c, schedule, choice, 0) == State(c, map[]);
  }

  /** The move at i is the upload's one read. */
  predicate ReadAt(schedule: seq<Move>, u: nat, i: nat) {
    i < |schedule| && schedule[i] == ReadBy(u) && forall a :: 0 <= a < i ==> schedule[a] != ReadBy(u)
  }

  predicate Unwritten(schedule: seq<Move>, u: nat, i: nat, t: nat)
    requires t <= |schedule|
  {
    forall a :: i < a < t ==> schedule[a] != WriteBy(u)
  }

  /** The upload reads at i and first writes after that at k. */
  predicate Spans(schedule: seq<Move>, u: nat, i: nat, k: nat) {
    ReadAt(schedule, u, i) && i < k < |schedule| && schedule[k] == WriteBy(u) && Unwritten(schedule, u, i, k)
  }

  function PublicationsBefore(schedule: seq<Move>, t: nat): nat
    requires t <= |schedule|
  {
    if t == 0 then 0
    else PublicationsBefore(schedule, t - 1) + if schedule[t - 1] == Publication then 1 else 0
  }

  /** Between an upload's read, where publications alone have not brought the
      counter to the ceiling, and its write: a publication, or the write of
      another upload that has read. */
  ghost predicate Disturbs(c: nat, schedule: seq<Move>, u: nat, i: nat, k: nat, j: nat) {
    && Spans(schedule, u, i, k) && i < j < k && c + PublicationsBefore(schedule, i) < I64_MAX
    && (schedule[j] == Publication || exists w, h :: w != u && Spans(schedule, w, h, j))
  }

  ghost predicate Disturbed(c: nat, schedule: seq<Move>) {
    exists u, i, k, j :: Disturbs(c, schedule, u, i, k, j)
  }

  /** The upload has read, its sequence passed, and it has not written yet. */
  ghost predicate Pending(c: nat, schedule: seq<Move>, choice: nat -> Sequence, t: nat, u: nat, i: nat)
    requires t <= |schedule|
  {
    ReadAt(schedule, u, i) && i < t && Unwritten(schedule, u, i, t) && Passes(StateAt(c, schedule, choice, i).counter, choice(u))
  }

  predicate IsChecked(s: State, u: nat) {
    u in s.uploads && s.uploads[u].Checked?
  }

  lemma {:induction false} CheckedIffPending(c: nat, schedule: seq<Move>, choice: nat -> Sequence, t: nat, u: nat)
    requires t <= |schedule|
    ensures
      var s := StateAt(c, schedule, choice, t);
      && (u in s.uploads <==> exists a :: 0 <= a < t && schedule[a] == ReadBy(u))
      && (IsChecked(s, u) <==> exists i :: Pending(c, schedule, choice, t, u, i))
      && (IsChecked(s, u) ==> s.uploads[u].sequence == choice(u))
  {
    if t > 0 {
      CheckedIffPending(c, schedule, choice, t - 1, u);
      var before, s, m := StateAt(c, schedule, choice, t - 1), StateAt(c, schedule, choice, t), schedule[t - 1];
      if m == ReadBy(u) && u !in before.uploads {
        assert ReadAt(schedule, u, t - 1);
        assert Passes(before.counter, choice(u)) ==> Pending(c, schedule, choice, t, u, t - 1);
      } else {
        if IsChecked(before, u) && m != WriteBy(u) {
          var i :| Pending(c, schedule, choice, t - 1, u, i);
          assert Pending(c, schedule, choice, t, u, i);
        }
        if i: nat :| Pending(c, schedule, choice, t, u, i) {
          assert i < t - 1;
          assert Pending(c, schedule, choice, t - 1, u, i);
        }
      }
    }
  }

  lemma {:induction false} CounterBounds(c: nat, schedule: seq<Move>, choice: nat -> Sequence, t: nat)
    requires c <= I64_MAX && t <= |schedule|
    ensures 0 <= StateAt(c, schedule, choice, t).counter <= I64_MAX
    ensures Rises(c, schedule, choice, t) ==>
              var floor := c + PublicationsBefore(schedule, t);
              StateAt(c, schedule, choice, t).counter >= if floor < I64_MAX then floor else I64_MAX
  {
    hide Pending, Passes;
    if t > 0 {
      CounterBounds(c, schedule, choice, t - 1);
      var m := schedule[t - 1];
      if m.WriteBy? {
        CheckedIffPending(c, schedule, choice, t - 1, m.u);
      }
      if Rises(c, schedule, choice, t) {
        assert Rises(c, schedule, choice, t - 1);
        assert StepRises(c, schedule, choice, t - 1);
      }
    }
  }

  lemma {:induction false} RisesTo(c: nat, schedule: seq<Move>, choice: nat -> Sequence, a: nat, b: nat)
    requires a <= b <= |schedule| && Rises(c, schedule, choice, b)
    ensures StateAt(c, schedule, choice, a).counter <= StateAt(c, schedule, choice, b).counter
    decreases b
  {
    if a < b {
      assert Rises(c, schedule, choice, b - 1);
      RisesTo(c, schedule, choice, a, b - 1);
      assert StepRises(c, schedule, choice, b - 1);
    }
  }

  /** Undisturbed since its read, an upload finds the counter as it read it. */
  lemma {:induction false} CounterStands(c: nat, schedule: seq<Move>, choice: nat -> Sequence, u: nat, i: nat, k: nat, t: nat)
    requires Spans(schedule, u, i, k) && c + PublicationsBefore(schedule, i) < I64_MAX
    requires forall j :: !Disturbs(c, schedule, u, i, k, j)
    requires i < t <= k
    ensures StateAt(c, schedule, choice, t).counter == StateAt(c, schedule, choice, i).counter
    decreases t
  {
    if t > i + 1 {
      CounterStands(c, schedule, choice, u, i, k, t - 1);
      var m := schedule[t - 1];
      assert !Disturbs(c, schedule, u, i, k, t - 1);
      if m.WriteBy? && IsChecked(StateAt(c, schedule, choice, t - 1), m.u) {
        CheckedIffPending(c, schedule, choice, t - 1, m.u);
        var h :| Pending(c, schedule, choice, t - 1, m.u, h);
        assert Spans(schedule, m.u, h, t - 1);
      }
    }
  }

  lemma {:induction false} UndisturbedRises(c: nat, schedule: seq<Move>, choice: nat -> Sequence, n: nat)
    requires c <= I64_MAX && !Disturbed(c, schedule) && n <= |schedule|
    ensures Rises(c, schedule, choice, n)
  {
    if n > 0 {
      UndisturbedRises(c, schedule, choice, n - 1);
      var t, m := n - 1, schedule[n - 1];
      CounterBounds(c, schedule, choice, t);
      if m.WriteBy? && IsChecked(StateAt(c, schedule, choice, t), m.u) {
        CheckedIffPending(c, schedule, choice, t, m.u);
        var i :| Pending(c, schedule, choice, t, m.u, i);
        assert Spans(schedule, m.u, i, t);
        CounterBounds(c, schedule, choice, i);
        assert Rises(c, schedule, choice, i);
        if c + PublicationsBefore(schedule, i) < I64_MAX {
          CounterStands(c, schedule, choice, m.u, i, t, t);
        }
      }
      assert StepRises(c, schedule, choice, t);
    }
  }

  /** The documents that make a disturbance harmful: the disturbed one carries
      the counter it reads, a disturbing one the ceiling, all others zero. */
  function Harmful(u: nat, low: Sequence, w: Option<nat>): nat -> Sequence {
    x => if x == u then low else if w == Some(x) then I64_MAX else 0
  }

  lemma {:induction false} CounterIsFloor(c: nat, schedule: seq<Move>, u: nat, i: nat, j: nat, w: Option<nat>, h: nat, t: nat)
    requires ReadAt(schedule, u, i) && i < j < |schedule| && t <= i && c + PublicationsBefore(schedule, i) < I64_MAX
    requires w.Some? ==> w.value != u && Spans(schedule, w.value, h, j)
    requires Rises(c, schedule, Harmful(u, c + PublicationsBefore(schedule, i), w), i)
    ensures StateAt(c, schedule, Harmful(u, c + PublicationsBefore(schedule, i), w), t).counter
         == c + PublicationsBefore(schedule, t)
    ensures PublicationsBefore(schedule, t) <= PublicationsBefore(schedule, i)
    decreases t
  {
    PublicationsGrow(schedule, t, i);
    if t > 0 {
      var choice := Harmful(u, c + PublicationsBefore(schedule, i), w);
      CounterIsFloor(c, schedule, u, i, j, w, h, t - 1);
      var s, m := StateAt(c, schedule, choice, t - 1), schedule[t - 1];
      assert StepRises(c, schedule, choice, t - 1);
      if m.WriteBy? && IsChecked(s, m.u) {
        CheckedIffPending(c, schedule, choice, t - 1, m.u);
        var g :| Pending(c, schedule, choice, t - 1, m.u, g);
        assert w != Some(m.u);
        assert choice(m.u) == 0;
      }
    }
  }

  lemma {:induction false} PublicationsGrow(schedule: seq<Move>, a: nat, b: nat)
    requires a <= b <= |schedule|
    ensures PublicationsBefore(schedule, a) <= PublicationsBefore(schedule, b)
    decreases b
  {
    if a < b {
      PublicationsGrow(schedule, a, b - 1);
    }
  }

  /** With those documents, the disturbance lifts the counter above what the
      disturbed upload carries. */
  lemma DisturbanceLifts(c: nat, schedule: seq<Move>, u: nat, i: nat, j: nat, w: Option<nat>, h: nat)
    requires c <= I64_MAX && ReadAt(schedule, u, i) && i < j < |schedule| && c + PublicationsBefore(schedule, i) < I64_MAX
    requires if w.Some? then w.value != u && Spans(schedule, w.value, h, j) else schedule[j] == Publication
    requires Rises(c, schedule, Harmful(u, c + PublicationsBefore(schedule, i), w), j)
    ensures
      var choice := Harmful(u, c + PublicationsBefore(schedule, i), w);
      && StateAt(c, schedule, choice, i).counter == choice(u)
      && StateAt(c, schedule, choice, j + 1).counter > choice(u)
  {
    hide Spans;
    var choice := Harmful(u, c + PublicationsBefore(schedule, i), w);
    assert Rises(c, schedule, choice, i);
    CounterIsFloor(c, schedule, u, i, j, w, h, i);
    RisesTo(c, schedule, choice, i, j);
    CounterBounds(c, schedule, choice, j);
    if w.Some? {
      CeilingIsChecked(c, schedule, choice, w.value, h, j);
    }
  }

  lemma CeilingIsChecked(c: nat, schedule: seq<Move>, choice: nat -> Sequence, w: nat, h: nat, j: nat)
    requires c <= I64_MAX && Spans(schedule, w, h, j) && choice(w) == I64_MAX
    ensures StateAt(c, schedule, choice, j + 1).counter == I64_MAX
  {
    CounterBounds(c, schedule, choice, h);
    assert Pending(c, schedule, choice, j, w, h);
    CheckedIffPending(c, schedule, choice, j, w);
  }

  /** An upload whose sequence is the counter it reads writes just that. */
  lemma OwnSequenceIsWritten(c: nat, schedule: seq<Move>, choice: nat -> Sequence, u: nat, i: nat, k: nat)
    requires Spans(schedule, u, i, k) && StateAt(c, schedule, choice, i).counter == choice(u)
    ensures StateAt(c, schedule, choice, k + 1).counter == choice(u)
  {
    assert Pending(c, schedule, choice, k, u, i);
    CheckedIffPending(c, schedule, choice, k, u);
  }

  lemma DisturbanceLowers(c: nat, schedule: seq<Move>, u: nat, i: nat, k: nat, j: nat) returns (choice: nat -> Sequence)
    requires c <= I64_MAX && Disturbs(c, schedule, u, i, k, j)
    ensures !Rises(c, schedule, choice, |schedule|)
  {
    hide StateAt, Harmful;
    var w: Option<nat>, h: nat := None, 0;
    if schedule[j] != Publication {
      var v: nat, g: nat :| v != u && Spans(schedule, v, g, j);
      w, h := Some(v), g;
    }
    choice := Harmful(u, c + PublicationsBefore(schedule, i), w);
    if Rises(c, schedule, choice, |schedule|) {
      assert Rises(c, schedule, choice, j) && Rises(c, schedule, choice, k + 1);
      DisturbanceLifts(c, schedule, u, i, j, w, h);
      OwnSequenceIsWritten(c, schedule, choice, u, i, k);
      RisesTo(c, schedule, choice, j + 1, k + 1);
    }
  }

  /** A schedule of publications and uploads is safe for every choice of documents
      exactly when nothing disturbs an upload between its read and its write. */
  lemma SafeScheduleIff(c: nat, schedule: seq<Move>)
    requires c <= I64_MAX
    ensures (forall choice: nat -> Sequence :: NeverDecreases(State(c, map[]), Actions(schedule, choice)))
            <==> !Disturbed(c, schedule)
  {
    hide Disturbs, NeverDecreases, Rises;
    if Disturbed(c, schedule) {
      var u, i, k, j :| Disturbs(c, schedule, u, i, k, j);
      var choice := DisturbanceLowers(c, schedule, u, i, k, j);
      NeverDecreasesIsRises(c, schedule, choice);
    } else {
      forall choice: nat -> Sequence
        ensures NeverDecreases(State(c, map[]), Actions(schedule, choice))
      {
        UndisturbedRises(c, schedule, choice, |schedule|);
        NeverDecreasesIsRises(c, schedule, choice);
      }
    }
  }

  /** In particular when every upload writes right after it reads. */
  lemma ImmediateWritesAreSafe(c: nat, schedule: seq<Move>, choice: nat -> Sequence)
    requires c <= I64_MAX
    requires forall u, i, k :: Spans(schedule, u, i, k) ==> k == i + 1
    ensures NeverDecreases(State(c, map[]), Actions(schedule, choice))
  {
    hide NeverDecreases, Spans;
    assert !Disturbed(c, schedule);
    SafeScheduleIff(c, schedule);
  }

  // ---- Refusals ----

  /** An upload whose sequence is below the counter it reads is refused, any other
      goes on; a refused one never writes, whatever happens next. */
  lemma RefusedIsNeverWritten(s: State, u: nat, sequence: nat, later: seq<Action>)
    requires u !in s.uploads
    ensures
      var after := Next(s, Read(u, sequence));
      && after.counter == s.counter
      && (after.uploads[u] == Refused <==> sequence < s.counter)
      && (after.uploads[u] == Checked(sequence) <==> sequence >= s.counter)
      && (sequence < s.counter ==>
            u in Run(after, later).uploads && Run(after, later).uploads[u] == Refused
            && Next(Run(after, later), Write(u)) == Run(after, later))
  {
    var after := Next(s, Read(u, sequence));
    if sequence < s.counter {
      RefusedStays(after, u, later);
    }
  }

  lemma {:induction false} RefusedStays(s: State, u: nat, actions: seq<Action>)
    requires u in s.uploads && s.uploads[u] == Refused
    ensures u in Run(s, actions).uploads && Run(s, actions).uploads[u] == Refused
    decreases |actions|
  {
    if actions != [] {
      RefusedStays(Next(s, actions[0]), u, actions[1..]);
    }
  }
}
