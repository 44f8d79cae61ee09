/** How many grants bring a lockout, and how long it lasts. */
module LimiterLockout {
  import opened Integers
  import opened LoginLimiter
  import opened LimiterSafety
  import opened LimiterCeiling
  import LimiterReference

  /** Call i is granted to the key, and no failure of the key before it still counts. */
  ghost predicate StartsCount(config: Config, calls: seq<Call>, key: Key, i: nat) {
    && i < |calls| && Granted(config, Before(config, calls, i), calls[i], key)
    && Normalize(config, View(Before(config, calls, i), key), calls[i].now) == DEFAULT
  }

  /** Call m neither records a success of the key nor evicts it. */
  ghost predicate Spares(config: Config, calls: seq<Call>, key: Key, m: nat)
    requires m < |calls|
  {
    calls[m] != Success(key, calls[m].now) && !Evicts(config, Before(config, calls, m), calls[m], key)
  }

  /** No call from i + 1 up to call j drops the key or finds its window or lockout over. */
  ghost predicate KeepsCount(config: Config, calls: seq<Call>, key: Key, i: nat, j: nat)
    requires j <= |calls|
  {
    forall m :: i < m < j ==>
      && Spares(config, calls, key, m)
      && Normalize(config, View(Before(config, calls, m), key), calls[m].now) == View(Before(config, calls, m), key)
  }

  ghost function GrantsFrom(config: Config, calls: seq<Call>, key: Key, i: nat, j: nat): nat
    requires i <= j <= |calls|
    decreases j
  {
    if i == j then 0
    else GrantsFrom(config, calls, key, i, j - 1)
         + if Granted(config, Before(config, calls, j - 1), calls[j - 1], key) then 1 else 0
  }

  /** A live bucket that is charged was not locked. */
  lemma ChargedOnce(config: Config, live: Bucket, now: nat)
    requires config.Valid() && GoodBucket(config, live) && Normalize(config, live, now) == live && live.lockedUntil <= now
    ensures var charged := Charge(config, live, now);
            && charged.failures == live.failures + 1 <= config.maxFailures
            && (live.started > 0 ==> charged.started == live.started)
  {
  }

  lemma FirstCharge(config: Config, now: nat)
    requires config.Valid()
    ensures var charged := Charge(config, DEFAULT, now);
            charged.failures == 1 && charged.started == now
  {
  }

  lemma TrackedIsGood(config: Config, s: State, key: Key)
    requires Good(config, s) && View(s, key).failures > 0
    ensures GoodBucket(config, View(s, key))
  {
  }

  lemma OnlyAudited(config: Config, before: Bucket, after: Bucket, now: nat)
    requires OnlyNormalized(config, before, after, now) && Normalize(config, before, now) == before
    ensures after.failures == before.failures && after.started == before.started && after.lockedUntil == before.lockedUntil
  {
  }

  /** While its count lasts, a key's bucket counts its grants, from the time of the first. */
  lemma {:induction false} BucketCountsGrants(config: Config, calls: seq<Call>, key: Key, i: nat, j: nat)
    requires config.Valid() && StartsCount(config, calls, key, i) && i < j <= |calls| && KeepsCount(config, calls, key, i, j)
    ensures var bucket := View(Before(config, calls, j), key);
            && bucket.failures == GrantsFrom(config, calls, key, i, j)
            && 1 <= bucket.failures <= config.maxFailures
            && (calls[i].now > 0 ==> bucket.started == calls[i].now)
    decreases j
  {
    hide Step, Granted, Evicts, Good, GoodBucket, Charge, Normalize, View, OnlyNormalized, Run;
    var n := j - 1;
    var s, call := Before(config, calls, n), calls[n];
    StepOf(config, calls, n);
    RunsStayGood(config, calls[..n]);
    if n == i {
      GrantIsNoSuccess(config, s, call, key);
      KeyEffect(config, s, call, key);
      FirstCharge(config, call.now);
      assert GrantsFrom(config, calls, key, i, i) == 0;
    } else {
      BucketCountsGrants(config, calls, key, i, n);
      assert Spares(config, calls, key, n);
      KeyEffect(config, s, call, key);
      TrackedIsGood(config, s, key);
      if Granted(config, s, call, key) {
        ChargedOnce(config, View(s, key), call.now);
      } else {
        OnlyAudited(config, View(s, key), View(Before(config, calls, j), key), call.now);
      }
    }
  }

  lemma StepOf(config: Config, calls: seq<Call>, n: nat)
    requires n < |calls|
    ensures Before(config, calls, n + 1) == Step(config, Before(config, calls, n), calls[n]).0
  {
    hide Step;
    assert calls[..n + 1][..n] == calls[..n];
  }

  /** A call granted to a key neither evicts it nor records its success. */
  lemma GrantIsNoSuccess(config: Config, s: State, call: Call, key: Key)
    requires Granted(config, s, call, key)
    ensures !Evicts(config, s, call, key) && call != Success(key, call.now)
  {
    hide Refusal, Prune, Evict, Charge, ChargeGlobal, PruneIfDue, MakeRoom;
    if Full(config, s, call) {
      PruneOnlyDrops(config, Refusal(config, PruneIfDue(config, s, call.now), key, call.now).0, call.now);
    }
  }

  // ---------------------------------------------------------------------------------------
  // The lockout
  // ---------------------------------------------------------------------------------------

  /** When a lockout that begins now is over. */
  function Until(config: Config, now: nat): nat {
    Min(now + Millis(config.lockoutSeconds), U64_MAX)
  }

  lemma ChargeLocks(config: Config, live: Bucket, now: nat)
    requires config.Valid() && Charge(config, live, now).failures == config.maxFailures
    ensures Charge(config, live, now).lockedUntil == Min(now + Millis(config.lockoutSeconds), U64_MAX)
  {
  }

  lemma LockIsLive(config: Config, bucket: Bucket, now: nat)
    requires bucket.lockedUntil > now
    ensures Normalize(config, bucket, now) == bucket
  {
  }

  /** The lockout stays as it was set. */
  lemma {:induction false} LockStays(config: Config, calls: seq<Call>, key: Key, g: nat, j: nat)
    requires config.Valid() && g < j <= |calls| && Granted(config, Before(config, calls, g), calls[g], key)
    requires View(Before(config, calls, g + 1), key).failures == config.maxFailures
    requires forall m :: g < m < j ==> Spares(config, calls, key, m) && calls[m].now < Until(config, calls[g].now)
    ensures View(Before(config, calls, j), key).lockedUntil == Until(config, calls[g].now)
    decreases j
  {
    hide Step, Granted, Evicts, Good, GoodBucket, Charge, Normalize, View, Until, Run;
    var n := j - 1;
    var s, call := Before(config, calls, n), calls[n];
    StepOf(config, calls, n);
    RunsStayGood(config, calls[..n]);
    if n == g {
      GrantIsNoSuccess(config, s, call, key);
      KeyEffect(config, s, call, key);
      ChargeLocks(config, Normalize(config, View(s, key), call.now), call.now);
      assert Until(config, call.now) == Min(call.now + Millis(config.lockoutSeconds), U64_MAX) by { UntilIs(config, call.now); }
    } else {
      LockStays(config, calls, key, g, n);
      assert Spares(config, calls, key, n);
      KeyEffect(config, s, call, key);
      LockIsLive(config, View(s, key), call.now);
    }
  }

  lemma UntilIs(config: Config, now: nat)
    ensures Until(config, now) == Min(now + Millis(config.lockoutSeconds), U64_MAX)
  {
  }

  /** What a call of a locked key is answered. */
  lemma LockedAnswer(config: Config, s: State, call: Call)
    requires config.Valid() && Good(config, s) && (call.Check? || call.Reserve?) && View(s, call.key).lockedUntil > 0
    ensures Step(config, s, call).1.Decided?
    ensures Step(config, s, call).1.decision.Limited? <==> call.now < View(s, call.key).lockedUntil
  {
    hide Step, Good, Charge;
    LimiterReference.AnswerView(config, s, call);
  }

  /**
    The grant that brings a key's count to the limit locks the key out: until the lockout ends
    every call of the key is refused, and then none is, whatever the ceiling says.  The lockout
    ends `lockout` seconds after that grant, or when the clock does.
  */
  lemma {:induction false} LimitLocksOut(config: Config, calls: seq<Call>, key: Key, i: nat, g: nat, j: nat)
    requires config.Valid() && i <= g < j < |calls| && StartsCount(config, calls, key, i)
    requires KeepsCount(config, calls, key, i, g + 1) && Granted(config, Before(config, calls, g), calls[g], key)
    requires GrantsFrom(config, calls, key, i, g + 1) == config.maxFailures
    requires forall m :: g < m < j ==>
      Spares(config, calls, key, m) && calls[m].now < Min(calls[g].now + Millis(config.lockoutSeconds), U64_MAX)
    requires calls[j] == Check(key, calls[j].now) || calls[j] == Reserve(key, calls[j].now)
    ensures var answer := Step(config, Before(config, calls, j), calls[j]).1;
            && answer.Decided?
            && (answer.decision.Limited? <==>
                calls[j].now < Min(calls[g].now + Millis(config.lockoutSeconds), U64_MAX))
  {
    hide Step, Granted, Good, View, Run, Spares, KeepsCount, GrantsFrom, StartsCount, Millis;
    BucketCountsGrants(config, calls, key, i, g + 1);
    LockStays(config, calls, key, g, j);
    RunsStayGood(config, calls[..j]);
    LockoutIsSome(config, calls[g].now);
    LockedAnswer(config, Before(config, calls, j), calls[j]);
  }

  lemma LockoutIsSome(config: Config, now: nat)
    requires config.Valid()
    ensures Until(config, now) > 0
  {
  }
}
