/** The answer of one check, and what check and sweep leave behind, written out
    in terms of the buckets held and the times (src/ratelimit.rs). */
module RateLimiterAnswers {
  import opened Prelude
  import opened RateLimiting

  /** Unused for ten minutes, and full again by now. */
  predicate IdleAndFull(cfg: Config, b: Bucket, now: real) {
    now - b.lastSeen >= 600.0 && b.tokens + (now - b.lastSeen) * cfg.perSecond >= cfg.burst
  }

  function Busy(cfg: Config, buckets: map<string, Bucket>, now: real): set<string> {
    set k | k in buckets && !IdleAndFull(cfg, buckets[k], now)
  }

  /** The tokens a key can spend: refilled since it was last seen, never above
      the burst, and the whole burst for a key not held. */
  function Available(cfg: Config, s: State, key: string, now: real): real {
    if key !in s.buckets then cfg.burst
    else
      var grown := s.buckets[key].tokens + (now - s.buckets[key].lastSeen) * cfg.perSecond;
      if grown <= cfg.burst then grown else cfg.burst
  }

  predicate Crowded(cfg: Config, s: State, key: string) {
    key !in s.buckets && |s.buckets| >= cfg.maxBuckets
  }

  lemma RetainIsBusy(cfg: Config, buckets: map<string, Bucket>, now: real)
    ensures Retain(cfg, buckets, now).Keys == Busy(cfg, buckets, now)
    ensures |Retain(cfg, buckets, now)| == |Busy(cfg, buckets, now)|
    ensures forall k :: k in Retain(cfg, buckets, now) ==> Retain(cfg, buckets, now)[k] == buckets[k]
  {
    forall k | k in buckets
      ensures SafeToForget(cfg, buckets[k], now) <==> IdleAndFull(cfg, buckets[k], now)
    {
    }
    var kept := Retain(cfg, buckets, now);
    assert kept.Keys == Busy(cfg, buckets, now);
  }

  lemma BusyMeans(cfg: Config, buckets: map<string, Bucket>, now: real)
    ensures forall k :: k in Busy(cfg, buckets, now) <==> k in buckets && !IdleAndFull(cfg, buckets[k], now)
  {
    hide IdleAndFull;
  }

  lemma RefillIsAvailable(cfg: Config, s: State, key: string, now: real)
    ensures Refill(cfg, if key in s.buckets then s.buckets[key] else Bucket(cfg.burst, now), now) == Available(cfg, s, key, now)
  {
    assert Earned(cfg, now - now) == 0.0;
  }

  /** A check is refused for its clock, refused for capacity, allowed, or denied,
      each in exactly one case: capacity only runs out when as many buckets as
      may be held are all still in use. */
  lemma CheckAnswers(cfg: Config, s: State, key: string, now: real)
    requires cfg.Valid()
    ensures
      var outcome := CheckStep(cfg, s, key, now).1;
      var full := Crowded(cfg, s, key) && |Busy(cfg, s.buckets, now)| >= cfg.maxBuckets;
      && (outcome == Rewound <==> now < s.clock)
      && (outcome == Full <==> now >= s.clock && full)
      && (outcome == Charged(Allow) <==> now >= s.clock && !full && Available(cfg, s, key, now) >= 1.0)
      && (outcome.Charged? && outcome.decision.Deny? <==> now >= s.clock && !full && Available(cfg, s, key, now) < 1.0)
  {
    hide Retain, Busy, RetryAfter, Refill, Available, IdleAndFull;
    RetainIsBusy(cfg, s.buckets, now);
    BusyMeans(cfg, s.buckets, now);
    RefillIsAvailable(cfg, s, key, now);
  }

  /** What a check leaves: its key's bucket, charged and stamped; every other
      bucket as it was, those idle and full given up only under pressure. */
  lemma CheckLeaves(cfg: Config, s: State, key: string, now: real)
    requires cfg.Valid()
    ensures
      var (after, outcome) := CheckStep(cfg, s, key, now);
      && (outcome == Rewound ==> after == s)
      && (outcome != Rewound ==> after.clock == now)
      && (outcome != Rewound ==>
            forall k :: k != key ==>
              && (k in after.buckets <==> k in s.buckets && (Crowded(cfg, s, key) ==> !IdleAndFull(cfg, s.buckets[k], now)))
              && (k in after.buckets ==> after.buckets[k] == s.buckets[k]))
      && (outcome == Full ==> key !in after.buckets)
      && (outcome.Charged? ==>
            && key in after.buckets
            && var available := Available(cfg, s, key, now);
               after.buckets[key] == Bucket(if available >= 1.0 then available - 1.0 else available, now))
  {
    hide Retain, Busy, RetryAfter, IdleAndFull, Refill, Available;
    RetainIsBusy(cfg, s.buckets, now);
    RefillIsAvailable(cfg, s, key, now);
    BusyMeans(cfg, s.buckets, now);
  }

  /** A sweep gives up exactly the buckets idle and full, unless the clock went
      back. */
  lemma SweepLeaves(cfg: Config, s: State, now: real)
    ensures
      var after := SweepStep(cfg, s, now);
      && (now < s.clock ==> after == s)
      && (now >= s.clock ==>
            && after.clock == now && after.buckets.Keys == Busy(cfg, s.buckets, now)
            && forall k :: k in after.buckets ==> after.buckets[k] == s.buckets[k])
  {
    hide Retain, Busy;
    RetainIsBusy(cfg, s.buckets, now);
  }

  /** The advertised wait is the least whole number of seconds, at least one, in
      which a token refills, or all a u64 holds if that is less. */
  lemma RetryIsLeast(cfg: Config, tokens: real)
    requires cfg.Valid() && tokens < 1.0
    ensures
      var wait, need := RetryAfter(cfg, tokens), (1.0 - tokens) / cfg.perSecond;
      && 1 <= wait <= 0xFFFF_FFFF_FFFF_FFFF
      && (need <= wait as real || wait == 0xFFFF_FFFF_FFFF_FFFF)
      && (wait >= 2 ==> (wait - 1) as real < need)
  {
    var need := (1.0 - tokens) / cfg.perSecond;
    assert (-need).Floor as real <= -need < (-need).Floor as real + 1.0;
  }

  /** A fresh identity is served while there is room, whoever else is. */
  lemma RoomMeansService(cfg: Config, s: State, key: string, now: real)
    requires cfg.Valid() && now >= s.clock && key !in s.buckets && |s.buckets| < cfg.maxBuckets
    ensures CheckStep(cfg, s, key, now).1 == Charged(Allow)
  {
    hide CheckStep;
    CheckAnswers(cfg, s, key, now);
  }
}
