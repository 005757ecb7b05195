/** The per-credential token bucket limiter (src/ratelimit.rs): its state
    change as functions, and the class that performs it in place. Time and
    token balances are real numbers; `Instant` is seconds since some origin. */
module RateLimiting {
  import opened Prelude

  const IDLE_EVICTION: real := 600.0

  datatype Rate = Finite(value: real) | NotFinite

  datatype Bucket = Bucket(tokens: real, lastSeen: real)

  datatype Config = Config(burst: real, perSecond: real, maxBuckets: nat) {
    ghost predicate Valid() {
      burst >= 1.0 && perSecond > 0.0 && maxBuckets >= 1
    }
  }

  /** The configuration that given settings lead to. */
  function Settings(burst: nat, perSecond: Rate, maxBuckets: nat): (cfg: Config)
    ensures cfg.Valid()
    ensures burst >= 1 ==> cfg.burst == burst as real
    ensures burst == 0 ==> cfg.burst == 1.0
    ensures perSecond.Finite? && perSecond.value > 0.0 ==> cfg.perSecond == perSecond.value
    ensures !(perSecond.Finite? && perSecond.value > 0.0) ==> cfg.perSecond == 1.0
    ensures maxBuckets >= 1 ==> cfg.maxBuckets == maxBuckets
    ensures maxBuckets == 0 ==> cfg.maxBuckets == 1
  {
    Config(
      if burst >= 1 then burst as real else 1.0,
      if perSecond.Finite? && perSecond.value > 0.0 then perSecond.value else 1.0,
      if maxBuckets >= 1 then maxBuckets else 1)
  }

  datatype Decision = Allow | Deny(retryAfterSecs: nat)

  datatype State = State(buckets: map<string, Bucket>, clock: real)

  /** Why a check ended as it did: refused for a backwards clock, refused
      because no bucket could be reclaimed, or decided by the bucket. */
  datatype Outcome = Rewound | Full | Charged(decision: Decision)

  function DecisionOf(o: Outcome): Decision {
    if o.Charged? then o.decision else Deny(1)
  }

  function Ceil(x: real): int {
    -(-x).Floor
  }

  /** Tokens earned over a stretch of time: refill is continuous. */
  function Earned(cfg: Config, elapsed: real): real {
    elapsed * cfg.perSecond
  }

  function Refill(cfg: Config, b: Bucket, now: real): real {
    var grown := b.tokens + Earned(cfg, now - b.lastSeen);
    if grown < cfg.burst then grown else cfg.burst
  }

  function SafeToForget(cfg: Config, b: Bucket, now: real): bool {
    now >= b.lastSeen
    && now - b.lastSeen >= IDLE_EVICTION
    && b.tokens + Earned(cfg, now - b.lastSeen) >= cfg.burst
  }

  function Retain(cfg: Config, m: map<string, Bucket>, now: real): map<string, Bucket> {
    map k | k in m && !SafeToForget(cfg, m[k], now) :: m[k]
  }

  /** Seconds to advertise; the cast to u64 saturates. */
  function RetryAfter(cfg: Config, tokens: real): nat
    requires cfg.perSecond > 0.0
  {
    var wait := Ceil((1.0 - tokens) / cfg.perSecond);
    if wait <= 1 then 1 else if wait > U64_MAX then U64_MAX else wait
  }

  function Charge(cfg: Config, b: Bucket, now: real): (Bucket, Decision)
    requires cfg.perSecond > 0.0
  {
    var tokens := Refill(cfg, b, now);
    if tokens >= 1.0 then (Bucket(tokens - 1.0, now), Allow)
    else (Bucket(tokens, now), Deny(RetryAfter(cfg, tokens)))
  }

  function CheckStep(cfg: Config, s: State, key: string, now: real): (State, Outcome)
    requires cfg.perSecond > 0.0
  {
    if now < s.clock then (s, Rewound)
    else
      var crowded := key !in s.buckets && |s.buckets| >= cfg.maxBuckets;
      var kept := if crowded then Retain(cfg, s.buckets, now) else s.buckets;
      if crowded && |kept| >= cfg.maxBuckets then (State(kept, now), Full)
      else
        var charged := Charge(cfg, if key in kept then kept[key] else Bucket(cfg.burst, now), now);
        (State(kept[key := charged.0], now), Charged(charged.1))
  }

  function SweepStep(cfg: Config, s: State, now: real): State {
    if now < s.clock then s else State(Retain(cfg, s.buckets, now), now)
  }

  ghost predicate Invariant(cfg: Config, s: State) {
    && |s.buckets| <= cfg.maxBuckets
    && forall k :: k in s.buckets ==>
         InRange(cfg, s.buckets[k], s.clock)
  }

  lemma RetainKeepsInvariant(cfg: Config, s: State, now: real)
    requires Invariant(cfg, s) && now >= s.clock
    ensures Invariant(cfg, State(Retain(cfg, s.buckets, now), now))
  {
    var kept := Retain(cfg, s.buckets, now);
    SubsetSize(kept.Keys, s.buckets.Keys);
  }

  lemma EarnedIsMonotone(cfg: Config, shorter: real, longer: real)
    requires cfg.perSecond > 0.0 && shorter <= longer
    ensures Earned(cfg, shorter) <= Earned(cfg, longer) && Earned(cfg, 0.0) == 0.0
  {
    assert (longer - shorter) * cfg.perSecond >= 0.0;
  }

  predicate InRange(cfg: Config, b: Bucket, t: real) {
    0.0 <= b.tokens <= cfg.burst && b.lastSeen <= t
  }

  lemma ChargeInRange(cfg: Config, b: Bucket, now: real)
    requires cfg.Valid() && InRange(cfg, b, now)
    ensures InRange(cfg, Charge(cfg, b, now).0, now)
  {
    hide Earned;
    EarnedIsMonotone(cfg, 0.0, now - b.lastSeen);
  }

  /** The map never outgrows its bound and no balance leaves [0, burst]. */
  lemma CheckKeepsInvariant(cfg: Config, s: State, key: string, now: real)
    requires cfg.Valid() && Invariant(cfg, s)
    ensures Invariant(cfg, CheckStep(cfg, s, key, now).0)
  {
    if now >= s.clock {
      RetainKeepsInvariant(cfg, s, now);
      ChargeInRange(cfg, if key in s.buckets then s.buckets[key] else Bucket(cfg.burst, now), now);
    }
  }

  /** A limiter holding a map and a watermark that it updates in place. */
  class RateLimiter {
    const cfg: Config
    var buckets: map<string, Bucket>
    var clock: real

    function View(): State
      reads this
    {
      State(buckets, clock)
    }

    ghost predicate Valid()
      reads this
    {
      cfg.Valid() && Invariant(cfg, View())
    }

    /** Degenerate settings are replaced, never accepted. */
    constructor NewWithLimit(burst: nat, perSecond: Rate, maxBuckets: nat, now: real)
      ensures Valid() && View() == State(map[], now)
      ensures cfg == Settings(burst, perSecond, maxBuckets)
    {
      cfg := Settings(burst, perSecond, maxBuckets);
      buckets := map[];
      clock := now;
    }

    /** `check_serialized`: advance the watermark, reclaim if crowded, refill
        the bucket and charge one token. */
    method CheckSerialized(key: string, now: real) returns (decision: Decision)
      requires Valid()
      modifies this
      ensures Valid()
      ensures View() == CheckStep(cfg, old(View()), key, now).0
      ensures decision == DecisionOf(CheckStep(cfg, old(View()), key, now).1)
    {
      hide Earned, Retain, RetryAfter, Refill, Invariant;
      CheckKeepsInvariant(cfg, View(), key, now);
      if now < clock {
        return Deny(1);
      }
      clock := now;
      if key !in buckets && |buckets| >= cfg.maxBuckets {
        buckets := Retain(cfg, buckets, now);
        if |buckets| >= cfg.maxBuckets {
          return Deny(1);
        }
      }
      if key !in buckets {
        buckets := buckets[key := Bucket(cfg.burst, now)];
      }
      var bucket := buckets[key];
      bucket := Bucket(Refill(cfg, bucket, now), now);
      if bucket.tokens >= 1.0 {
        buckets := buckets[key := bucket.(tokens := bucket.tokens - 1.0)];
        assert View() == CheckStep(cfg, old(View()), key, now).0;
        return Allow;
      }
      buckets := buckets[key := bucket];
      assert View() == CheckStep(cfg, old(View()), key, now).0;
      return Deny(RetryAfter(cfg, bucket.tokens));
    }

    /** `sweep_serialized`: drop only idle buckets that are full again. */
    method SweepSerialized(now: real)
      requires Valid()
      modifies this
      ensures Valid() && View() == SweepStep(cfg, old(View()), now)
    {
      if now < clock {
        return;
      }
      RetainKeepsInvariant(cfg, View(), now);
      clock := now;
      buckets := Retain(cfg, buckets, now);
    }
  }
}
