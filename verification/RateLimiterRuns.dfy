/** What the limiter guarantees over whole runs of checks and sweeps, at any
    times and for any keys: eviction is invisible, the admitted rate is bounded
    in every window, and the advertised wait is the right one. */
module RateLimitingRuns {
  import opened Prelude
  import opened RateLimiting

  datatype Op = Check(key: string, now: real) | Sweep(now: real)

  function Step(cfg: Config, s: State, op: Op): State
    requires cfg.perSecond > 0.0
  {
    match op
    case Check(key, now) => CheckStep(cfg, s, key, now).0
    case Sweep(now) => SweepStep(cfg, s, now)
  }

  function Run(cfg: Config, s: State, ops: seq<Op>): State
    requires cfg.perSecond > 0.0
    decreases |ops|
  {
    if ops == [] then s else Run(cfg, Step(cfg, s, ops[0]), ops[1..])
  }

  lemma StepKeepsInvariant(cfg: Config, s: State, op: Op)
    requires cfg.Valid() && Invariant(cfg, s)
    ensures Invariant(cfg, Step(cfg, s, op))
  {
    match op
    case Check(key, now) => CheckKeepsInvariant(cfg, s, key, now);
    case Sweep(now) => if now >= s.clock { RetainKeepsInvariant(cfg, s, now); }
  }

  /** The bucket map stays within `maxBuckets` at every point of every run. */
  lemma {:induction false} RunKeepsInvariant(cfg: Config, s: State, ops: seq<Op>)
    requires cfg.Valid() && Invariant(cfg, s)
    ensures Invariant(cfg, Run(cfg, s, ops)) && |Run(cfg, s, ops).buckets| <= cfg.maxBuckets
    decreases |ops|
  {
    if ops != [] {
      StepKeepsInvariant(cfg, s, ops[0]);
      RunKeepsInvariant(cfg, Step(cfg, s, ops[0]), ops[1..]);
    }
  }

  // ---- Eviction is invisible ----

  /** A limiter that never forgets a bucket and has no bound. */
  function UnboundedCheck(cfg: Config, r: map<string, Bucket>, key: string, now: real)
    : (map<string, Bucket>, Decision)
    requires cfg.perSecond > 0.0
  {
    var charged := Charge(cfg, if key in r then r[key] else Bucket(cfg.burst, now), now);
    (r[key := charged.0], charged.1)
  }

  datatype Served = Served(key: string, now: real, decision: Decision)

  /** The requests the bounded limiter decided by a bucket, with its answers. */
  function ServedLog(cfg: Config, s: State, ops: seq<Op>): seq<Served>
    requires cfg.perSecond > 0.0
    decreases |ops|
  {
    if ops == [] then []
    else
      var later := ServedLog(cfg, Step(cfg, s, ops[0]), ops[1..]);
      match ops[0]
      case Sweep(_) => later
      case Check(key, now) =>
        var o := CheckStep(cfg, s, key, now).1;
        if o.Charged? then [Served(key, now, o.decision)] + later else later
  }

  /** The never-forgetting limiter, fed the same requests, answers the same. */
  predicate AnswersAlike(cfg: Config, r: map<string, Bucket>, log: seq<Served>)
    requires cfg.perSecond > 0.0
    decreases |log|
  {
    log == [] ||
    var step := UnboundedCheck(cfg, r, log[0].key, log[0].now);
    step.1 == log[0].decision && AnswersAlike(cfg, step.0, log[1..])
  }

  predicate FullAt(cfg: Config, b: Bucket, t: real) {
    b.lastSeen <= t && b.tokens + Earned(cfg, t - b.lastSeen) >= cfg.burst
  }

  /** The true bucket `b` of a key is either held or was full when dropped. */
  ghost predicate Tracks(cfg: Config, s: State, key: string, b: Bucket) {
    if key in s.buckets then s.buckets[key] == b else FullAt(cfg, b, s.clock)
  }

  ghost predicate Simulates(cfg: Config, s: State, r: map<string, Bucket>) {
    && s.buckets.Keys <= r.Keys
    && forall k :: k in r ==> Tracks(cfg, s, k, r[k])
  }

  lemma EarnedAdds(cfg: Config, first: real, second: real)
    requires cfg.perSecond > 0.0 && second >= 0.0
    ensures Earned(cfg, first + second) == Earned(cfg, first) + Earned(cfg, second)
    ensures Earned(cfg, second) >= 0.0
  {
  }

  lemma FullStaysFull(cfg: Config, b: Bucket, t: real, later: real)
    requires cfg.Valid() && FullAt(cfg, b, t) && t <= later
    ensures FullAt(cfg, b, later)
    ensures Charge(cfg, b, later) == Charge(cfg, Bucket(cfg.burst, later), later)
  {
    hide Earned;
    EarnedIsMonotone(cfg, t - b.lastSeen, later - b.lastSeen);
    EarnedIsMonotone(cfg, 0.0, later - later);
  }

  /** A step on other keys keeps the true bucket tracked. */
  lemma StepTracks(cfg: Config, s: State, op: Op, key: string, b: Bucket)
    requires cfg.Valid() && Invariant(cfg, s) && Tracks(cfg, s, key, b)
    requires op.Check? ==> op.key != key
    ensures Tracks(cfg, Step(cfg, s, op), key, b)
  {
    if op.now >= s.clock && key !in s.buckets {
      FullStaysFull(cfg, b, s.clock, op.now);
    }
  }

  lemma {:induction false} RunTracks(cfg: Config, s: State, ops: seq<Op>, key: string, b: Bucket)
    requires cfg.Valid() && Invariant(cfg, s) && Tracks(cfg, s, key, b)
    requires forall i :: 0 <= i < |ops| && ops[i].Check? ==> ops[i].key != key
    ensures Tracks(cfg, Run(cfg, s, ops), key, b) && Invariant(cfg, Run(cfg, s, ops))
    ensures s.clock <= Run(cfg, s, ops).clock
    decreases |ops|
  {
    if ops != [] {
      StepTracks(cfg, s, ops[0], key, b);
      StepKeepsInvariant(cfg, s, ops[0]);
      RunTracks(cfg, Step(cfg, s, ops[0]), ops[1..], key, b);
    }
  }

  lemma ChargedAlike(cfg: Config, s: State, r: map<string, Bucket>, key: string, now: real)
    requires cfg.Valid() && Invariant(cfg, s) && Simulates(cfg, s, r)
    requires CheckStep(cfg, s, key, now).1.Charged?
    ensures UnboundedCheck(cfg, r, key, now).1 == CheckStep(cfg, s, key, now).1.decision
    ensures Simulates(cfg, CheckStep(cfg, s, key, now).0, UnboundedCheck(cfg, r, key, now).0)
  {
    if key in r && key !in s.buckets {
      FullStaysFull(cfg, r[key], s.clock, now);
    }
    var s', r' := CheckStep(cfg, s, key, now).0, UnboundedCheck(cfg, r, key, now).0;
    forall k | k in r'
      ensures Tracks(cfg, s', k, r'[k])
    {
      if k != key {
        StepTracks(cfg, s, Check(key, now), k, r[k]);
      }
    }
  }

  lemma {:induction false} EvictionInvisibleFrom(cfg: Config, s: State, r: map<string, Bucket>, ops: seq<Op>)
    requires cfg.Valid() && Invariant(cfg, s) && Simulates(cfg, s, r)
    ensures AnswersAlike(cfg, r, ServedLog(cfg, s, ops))
    decreases |ops|
  {
    if ops != [] {
      var op, s' := ops[0], Step(cfg, s, ops[0]);
      StepKeepsInvariant(cfg, s, op);
      if op.Check? && CheckStep(cfg, s, op.key, op.now).1.Charged? {
        ChargedAlike(cfg, s, r, op.key, op.now);
        var step := UnboundedCheck(cfg, r, op.key, op.now);
        EvictionInvisibleFrom(cfg, s', step.0, ops[1..]);
        var log := ServedLog(cfg, s, ops);
        assert log[1..] == ServedLog(cfg, s', ops[1..]);
      } else {
        forall k | k in r
          ensures Tracks(cfg, s', k, r[k])
        {
          if k !in s.buckets && op.now >= s.clock {
            FullStaysFull(cfg, r[k], s.clock, op.now);
          }
        }
        EvictionInvisibleFrom(cfg, s', r, ops[1..]);
      }
    }
  }

  /** For every run from an empty limiter, each request not refused for
      capacity or clock rewind gets the never-forgetting limiter's answer. */
  lemma EvictionInvisible(cfg: Config, clock: real, ops: seq<Op>)
    requires cfg.Valid()
    ensures AnswersAlike(cfg, map[], ServedLog(cfg, State(map[], clock), ops))
  {
    EvictionInvisibleFrom(cfg, State(map[], clock), map[], ops);
  }

  // ---- Bounded rate in every window ----

  function AllowedInWindow(cfg: Config, s: State, ops: seq<Op>, key: string, from: real, to: real): nat
    requires cfg.perSecond > 0.0
    decreases |ops|
  {
    if ops == [] then 0
    else
      Spends(cfg, s, ops[0], key, from, to)
      + AllowedInWindow(cfg, Step(cfg, s, ops[0]), ops[1..], key, from, to)
  }

  function Spends(cfg: Config, s: State, op: Op, key: string, from: real, to: real): nat
    requires cfg.perSecond > 0.0
  {
    if op.Check? && op.key == key && from <= op.now <= to
       && CheckStep(cfg, s, key, op.now).1 == Charged(Allow)
    then 1 else 0
  }

  function Balance(cfg: Config, s: State, key: string, t: real): real {
    if key in s.buckets then Refill(cfg, s.buckets[key], t) else cfg.burst
  }

  /** What the rest of a run may still spend inside [from, to]. */
  function Budget(cfg: Config, s: State, key: string, from: real, to: real): real {
    if s.clock < from then cfg.burst + Earned(cfg, to - from)
    else if s.clock <= to then Balance(cfg, s, key, s.clock) + Earned(cfg, to - s.clock)
    else 0.0
  }

  lemma BalanceGrowth(cfg: Config, s: State, key: string, t: real)
    requires cfg.Valid() && Invariant(cfg, s) && s.clock <= t
    ensures 0.0 <= Balance(cfg, s, key, s.clock)
    ensures Balance(cfg, s, key, t) <= Balance(cfg, s, key, s.clock) + Earned(cfg, t - s.clock)
    ensures Balance(cfg, s, key, t) <= cfg.burst
  {
    hide Earned;
    EarnedAdds(cfg, 0.0, t - s.clock);
    if key in s.buckets {
      var b := s.buckets[key];
      EarnedAdds(cfg, 0.0, s.clock - b.lastSeen);
      EarnedAdds(cfg, s.clock - b.lastSeen, t - s.clock);
    }
  }

  /** A step never raises a balance, and an admission costs a whole token. */
  lemma StepSpendsBalance(cfg: Config, s: State, op: Op, key: string, from: real, to: real)
    requires cfg.Valid() && Invariant(cfg, s) && op.now >= s.clock
    ensures Balance(cfg, Step(cfg, s, op), key, op.now) + Spends(cfg, s, op, key, from, to) as real
            <= Balance(cfg, s, key, op.now)
    ensures Step(cfg, s, op).clock == op.now
  {
    hide Earned;
    EarnedIsMonotone(cfg, 0.0, op.now - op.now);
  }

  lemma StepSpendsBudget(cfg: Config, s: State, op: Op, key: string, from: real, to: real)
    requires cfg.Valid() && Invariant(cfg, s) && from <= to
    ensures Budget(cfg, Step(cfg, s, op), key, from, to) + Spends(cfg, s, op, key, from, to) as real
            <= Budget(cfg, s, key, from, to)
  {
    hide Earned;
    if op.now >= s.clock {
      hide Refill, CheckStep, SweepStep;
      StepSpendsBalance(cfg, s, op, key, from, to);
      BalanceGrowth(cfg, s, key, op.now);
      EarnedAdds(cfg, 0.0, to - from);
      if from <= op.now <= to {
        EarnedAdds(cfg, to - op.now, if s.clock < from then op.now - from else op.now - s.clock);
      } else if s.clock <= to {
        EarnedAdds(cfg, 0.0, to - s.clock);
      }
    }
  }

  lemma {:induction false} SpendingWithinBudget(cfg: Config, s: State, ops: seq<Op>, key: string, from: real, to: real)
    requires cfg.Valid() && Invariant(cfg, s) && from <= to
    ensures AllowedInWindow(cfg, s, ops, key, from, to) as real <= Budget(cfg, s, key, from, to)
    decreases |ops|
  {
    if ops == [] {
      hide Earned;
      BalanceGrowth(cfg, s, key, s.clock);
      EarnedAdds(cfg, 0.0, to - from);
      if s.clock <= to {
        EarnedAdds(cfg, 0.0, to - s.clock);
      }
    } else {
      StepKeepsInvariant(cfg, s, ops[0]);
      StepSpendsBudget(cfg, s, ops[0], key, from, to);
      SpendingWithinBudget(cfg, Step(cfg, s, ops[0]), ops[1..], key, from, to);
    }
  }

  /** In every window of length d, over every run (with evictions, capacity
      refusals and rewound clocks), one key is admitted at most
      burst + perSecond * d times. */
  lemma AdmittedRateIsBounded(cfg: Config, s: State, ops: seq<Op>, key: string, from: real, d: real)
    requires cfg.Valid() && Invariant(cfg, s) && d >= 0.0
    ensures AllowedInWindow(cfg, s, ops, key, from, from + d) as real <= cfg.burst + Earned(cfg, d)
  {
    hide Earned;
    SpendingWithinBudget(cfg, s, ops, key, from, from + d);
    BalanceGrowth(cfg, s, key, s.clock);
    EarnedAdds(cfg, 0.0, d);
    if from <= s.clock <= from + d {
      EarnedAdds(cfg, from + d - s.clock, s.clock - from);
    }
    assert from + d - from == d;
  }

  // ---- The advertised wait ----

  /** The exact wait fits the u64 it is cast to. */
  predicate WaitFits(cfg: Config, tokens: real)
    requires cfg.perSecond > 0.0
  {
    (1.0 - tokens) / cfg.perSecond <= U64_MAX as real
  }

  lemma WaitRefills(cfg: Config, tokens: real, elapsed: real)
    requires cfg.Valid() && tokens < 1.0
    ensures tokens + Earned(cfg, elapsed) >= 1.0 <==> elapsed >= (1.0 - tokens) / cfg.perSecond
  {
    var need := (1.0 - tokens) / cfg.perSecond;
    assert Earned(cfg, need) == 1.0 - tokens;
    if elapsed >= need {
      EarnedIsMonotone(cfg, need, elapsed);
    } else {
      assert (need - elapsed) * cfg.perSecond > 0.0;
    }
  }

  lemma CeilBounds(x: real)
    ensures Ceil(x) as real - 1.0 < x <= Ceil(x) as real
  {
  }

  /** A denial leaves the bucket behind and rounds the true wait up to whole
      seconds, at least one and at most what a u64 holds. */
  lemma DenialLeavesWait(cfg: Config, s: State, key: string, at: real)
    requires cfg.Valid() && Invariant(cfg, s)
    requires CheckStep(cfg, s, key, at).1.Charged? && CheckStep(cfg, s, key, at).1.decision.Deny?
    ensures
      var denied := CheckStep(cfg, s, key, at);
      && key in denied.0.buckets
      && var b := denied.0.buckets[key];
      && b.lastSeen == at == denied.0.clock && b.tokens < 1.0
      && var need, wait := (1.0 - b.tokens) / cfg.perSecond, denied.1.decision.retryAfterSecs;
      && (WaitFits(cfg, b.tokens) <==> need <= wait as real)
      && (wait >= 2 ==> (wait - 1) as real < need)
  {
    hide Earned;
    CeilBounds((1.0 - CheckStep(cfg, s, key, at).0.buckets[key].tokens) / cfg.perSecond);
  }

  /** A later check of the denied key, after any traffic on other keys: denied
      until a second before the advertised wait has passed, and once it has
      passed decided Allow unless refused for capacity. */
  lemma AdvertisedWaitIsTight(cfg: Config, s: State, key: string, at: real, ops: seq<Op>, now: real)
    requires cfg.Valid() && Invariant(cfg, s)
    requires CheckStep(cfg, s, key, at).1.Charged? && CheckStep(cfg, s, key, at).1.decision.Deny?
    requires forall i :: 0 <= i < |ops| && ops[i].Check? ==> ops[i].key != key
    requires now >= Run(cfg, CheckStep(cfg, s, key, at).0, ops).clock
    ensures key in CheckStep(cfg, s, key, at).0.buckets
    ensures
      var denied := CheckStep(cfg, s, key, at);
      var wait := denied.1.decision.retryAfterSecs;
      var again := CheckStep(cfg, Run(cfg, denied.0, ops), key, now).1;
      && (now >= at + wait as real && WaitFits(cfg, denied.0.buckets[key].tokens)
          ==> again == Charged(Allow) || again == Full)
      && (wait >= 2 && now <= at + (wait - 1) as real
          ==> again.Charged? && again.decision.Deny?)
  {
    hide Earned, CheckStep, Run, Invariant, WaitFits;
    DenialLeavesWait(cfg, s, key, at);
    var denied := CheckStep(cfg, s, key, at);
    var b := denied.0.buckets[key];
    CheckKeepsInvariant(cfg, s, key, at);
    RunTracks(cfg, denied.0, ops, key, b);
    LaterCheck(cfg, Run(cfg, denied.0, ops), key, b, now);
  }

  /** A later check of a tracked bucket answers by that bucket's refill. */
  lemma LaterCheck(cfg: Config, s: State, key: string, b: Bucket, now: real)
    requires cfg.Valid() && Invariant(cfg, s) && Tracks(cfg, s, key, b) && now >= s.clock
    requires b.tokens < 1.0
    ensures
      var again, ready := CheckStep(cfg, s, key, now).1, now - b.lastSeen >= (1.0 - b.tokens) / cfg.perSecond;
      && (ready ==> again == Charged(Allow) || again == Full)
      && (ready && key in s.buckets ==> again == Charged(Allow))
      && (!ready ==> again.Charged? && again.decision.Deny?)
  {
    hide Earned;
    WaitRefills(cfg, b.tokens, now - b.lastSeen);
    if key !in s.buckets {
      FullStaysFull(cfg, b, s.clock, now);
      EarnedIsMonotone(cfg, 0.0, now - now);
    }
  }

  /** Waiting exactly the advertised time is enough if and only if the true
      wait fits in u64: a slower refill saturates the cast. */
  lemma AdvertisedWaitSufficesIff(cfg: Config, s: State, key: string, at: real)
    requires cfg.Valid() && Invariant(cfg, s)
    requires CheckStep(cfg, s, key, at).1.Charged? && CheckStep(cfg, s, key, at).1.decision.Deny?
    ensures key in CheckStep(cfg, s, key, at).0.buckets
    ensures
      var denied := CheckStep(cfg, s, key, at);
      var wait := denied.1.decision.retryAfterSecs;
      CheckStep(cfg, denied.0, key, at + wait as real).1 == Charged(Allow)
      <==> WaitFits(cfg, denied.0.buckets[key].tokens)
  {
    hide Earned;
    DenialLeavesWait(cfg, s, key, at);
    var denied := CheckStep(cfg, s, key, at);
    CheckKeepsInvariant(cfg, s, key, at);
    LaterCheck(cfg, denied.0, key, denied.0.buckets[key], at + denied.1.decision.retryAfterSecs as real);
  }

  /** If this check is denied, waiting exactly the advertised time is enough. */
  predicate WaitSuffices(cfg: Config, s: State, key: string, at: real)
    requires cfg.perSecond > 0.0
  {
    var denied := CheckStep(cfg, s, key, at);
    denied.1.Charged? && denied.1.decision.Deny? ==>
      CheckStep(cfg, denied.0, key, at + denied.1.decision.retryAfterSecs as real).1 == Charged(Allow)
  }

  function Drain(n: nat): seq<Op> {
    seq(n, i => Check("", 0.0))
  }

  lemma SpendOne(cfg: Config, tokens: nat)
    requires cfg.Valid() && 1 <= tokens && tokens as real <= cfg.burst
    ensures CheckStep(cfg, State(map["" := Bucket(tokens as real, 0.0)], 0.0), "", 0.0).0
         == State(map["" := Bucket((tokens - 1) as real, 0.0)], 0.0)
  {
    hide Retain, RetryAfter;
    assert Earned(cfg, 0.0) == 0.0;
  }

  /** One key spends its tokens, all at one instant. */
  lemma {:induction false} DrainSpends(cfg: Config, tokens: nat, n: nat)
    requires cfg.Valid() && n <= tokens && tokens as real <= cfg.burst
    ensures Run(cfg, State(map["" := Bucket(tokens as real, 0.0)], 0.0), Drain(n))
         == State(map["" := Bucket((tokens - n) as real, 0.0)], 0.0)
    decreases n
  {
    hide CheckStep;
    if n > 0 {
      assert Drain(n)[0] == Check("", 0.0) && Drain(n)[1..] == Drain(n - 1);
      SpendOne(cfg, tokens);
      DrainSpends(cfg, tokens - 1, n - 1);
    }
  }

  /** The first check opens a full bucket and takes a token from it. */
  lemma FirstCheck(cfg: Config, burst: nat)
    requires cfg.Valid() && cfg.burst == burst as real
    ensures CheckStep(cfg, State(map[], 0.0), "", 0.0).0 == State(map["" := Bucket((burst - 1) as real, 0.0)], 0.0)
  {
    assert Earned(cfg, 0.0) == 0.0;
  }

  /** A slow enough refill makes the denial that follows a spent burst advertise
      too short a wait. */
  lemma SlowRefillFails(cfg: Config, burst: nat)
    requires cfg.Valid() && cfg.burst == burst as real && cfg.perSecond * (U64_MAX as real) < 1.0
    ensures !WaitSuffices(cfg, Run(cfg, State(map[], 0.0), Drain(burst)), "", 0.0)
  {
    hide CheckStep, Invariant;
    var spent := State(map["" := Bucket(0.0, 0.0)], 0.0);
    assert Drain(burst)[1..] == Drain(burst - 1);
    FirstCheck(cfg, burst);
    DrainSpends(cfg, burst - 1, burst - 1);
    EmptyBucketDenies(cfg);
    AdvertisedWaitSufficesIff(cfg, spent, "", 0.0);
    SlowWait(cfg);
  }

  lemma EmptyBucketDenies(cfg: Config)
    requires cfg.Valid()
    ensures
      var spent := State(map["" := Bucket(0.0, 0.0)], 0.0);
      var denied := CheckStep(cfg, spent, "", 0.0);
      Invariant(cfg, spent) && denied.0 == spent && denied.1.Charged? && denied.1.decision.Deny?
  {
    assert Earned(cfg, 0.0) == 0.0;
  }

  /** An empty bucket's wait fits u64 exactly when the refill is not that slow,
      and no bucket waits longer than an empty one. */
  lemma SlowWait(cfg: Config)
    requires cfg.Valid()
    ensures WaitFits(cfg, 0.0) <==> cfg.perSecond * (U64_MAX as real) >= 1.0
    ensures forall tokens: real :: tokens >= 0.0 && WaitFits(cfg, 0.0) ==> WaitFits(cfg, tokens)
  {
    var need := 1.0 / cfg.perSecond;
    assert need * cfg.perSecond == 1.0;
    if need <= U64_MAX as real {
      assert (U64_MAX as real - need) * cfg.perSecond >= 0.0;
    } else {
      assert (need - U64_MAX as real) * cfg.perSecond > 0.0;
    }
    forall tokens: real | tokens >= 0.0 && WaitFits(cfg, 0.0)
      ensures WaitFits(cfg, tokens)
    {
      assert (1.0 - tokens) / cfg.perSecond == need - tokens / cfg.perSecond;
      assert tokens / cfg.perSecond >= 0.0;
    }
  }

  /** For every setting a limiter can be built with: the advertised wait is
      enough after every denial that can ever happen, exactly when the rate
      refills a token within u64 seconds, some 5.8e11 years. */
  lemma AdvertisedWaitSufficesForSettingsIff(burst: nat, perSecond: Rate, maxBuckets: nat)
    ensures
      var cfg := Settings(burst, perSecond, maxBuckets);
      (forall clock, ops, key, at :: WaitSuffices(cfg, Run(cfg, State(map[], clock), ops), key, at))
      <==> cfg.perSecond * (U64_MAX as real) >= 1.0
  {
    hide CheckStep, Run, WaitSuffices;
    var cfg := Settings(burst, perSecond, maxBuckets);
    if cfg.perSecond * (U64_MAX as real) >= 1.0 {
      forall clock, ops, key, at
        ensures WaitSuffices(cfg, Run(cfg, State(map[], clock), ops), key, at)
      {
        RunKeepsInvariant(cfg, State(map[], clock), ops);
        FastRefillSuffices(cfg, Run(cfg, State(map[], clock), ops), key, at);
      }
    } else {
      SlowRefillFails(cfg, if burst >= 1 then burst else 1);
      assert !WaitSuffices(cfg, Run(cfg, State(map[], 0.0), Drain(if burst >= 1 then burst else 1)), "", 0.0);
    }
  }

  lemma FastRefillSuffices(cfg: Config, s: State, key: string, at: real)
    requires cfg.Valid() && Invariant(cfg, s) && cfg.perSecond * (U64_MAX as real) >= 1.0
    ensures WaitSuffices(cfg, s, key, at)
  {
    hide CheckStep;
    var denied := CheckStep(cfg, s, key, at);
    if denied.1.Charged? && denied.1.decision.Deny? {
      AdvertisedWaitSufficesIff(cfg, s, key, at);
      CheckKeepsInvariant(cfg, s, key, at);
      SlowWait(cfg);
      assert InRange(cfg, denied.0.buckets[key], denied.0.clock);
    }
  }
}
