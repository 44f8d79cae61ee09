/**
  The admin login rate limiter: failed password checks are counted per client key in windows,
  a key that reaches the limit is locked out, a server-wide soft ceiling holds back keys that
  already failed, and the table of keys is pruned and bounded.
*/
module LoginLimiter {
  import opened Bytes
  import opened Integers

  /** A client and username digest, as the byte string its ordering compares. */
  type Key = Bytes

  const GLOBAL_FAILURE_FACTOR: nat := 20
  const MAX_KEYS: nat := 65536

  datatype Config = Config(maxFailures: nat, windowSeconds: nat, lockoutSeconds: nat, globalMax: nat, maxKeys: nat) {
    predicate Valid() {
      && 1 <= maxFailures <= U32_MAX && 1 <= windowSeconds <= U64_MAX && 1 <= lockoutSeconds <= U64_MAX
      && 1 <= globalMax <= U32_MAX && 1 <= maxKeys
    }
  }

  function SaturatingSub(a: nat, b: nat): nat { if a >= b then a - b else 0 }
  function Millis(seconds: nat): nat { Min(seconds * 1000, U64_MAX) }

  /** Settings below one are raised to one; the ceiling is a multiple of the per-key limit. */
  function NewConfig(maxFailures: nat, windowSeconds: nat, lockoutSeconds: nat): (config: Config)
    requires maxFailures <= U32_MAX && windowSeconds <= U64_MAX && lockoutSeconds <= U64_MAX
    ensures config.Valid()
    ensures maxFailures > 0 ==> config.maxFailures == maxFailures
    ensures windowSeconds > 0 ==> config.windowSeconds == windowSeconds
    ensures lockoutSeconds > 0 ==> config.lockoutSeconds == lockoutSeconds
    ensures maxFailures == 0 ==> config.maxFailures == 1
    ensures windowSeconds == 0 ==> config.windowSeconds == 1
    ensures lockoutSeconds == 0 ==> config.lockoutSeconds == 1
    ensures config.globalMax == 20 * config.maxFailures || config.globalMax == U32_MAX < 20 * config.maxFailures
    ensures config.maxKeys == 65536
  {
    var failures := Max(maxFailures, 1);
    Config(failures, Max(windowSeconds, 1), Max(lockoutSeconds, 1),
           Min(failures * GLOBAL_FAILURE_FACTOR, U32_MAX), MAX_KEYS)
  }

  datatype Bucket = Bucket(failures: nat, started: nat, lockedUntil: nat, audited: bool) {
    predicate Empty() { failures == 0 && started == 0 && lockedUntil == 0 }
  }

  const DEFAULT := Bucket(0, 0, 0, false)

  datatype State = State(keys: map<Key, Bucket>, global: Bucket, unknownUsers: Bucket, lastPrune: nat)

  const INITIAL := State(map[], DEFAULT, DEFAULT, 0)

  datatype Decision = Allowed(ceilingCrossed: bool) | Limited(audit: bool)
  datatype AuditDecision = Event | Coalesced | Skip

  /** A bucket whose lockout or window is over starts afresh. */
  function Normalize(config: Config, bucket: Bucket, now: nat): Bucket {
    if bucket.lockedUntil != 0 && bucket.lockedUntil <= now then DEFAULT
    else if bucket.lockedUntil == 0 && bucket.started != 0
            && SaturatingSub(now, bucket.started) > Millis(config.windowSeconds) then DEFAULT
    else bucket
  }

  function CountFailure(bucket: Bucket, now: nat): Bucket {
    bucket.(started := if bucket.started == 0 then now else bucket.started,
            failures := Min(bucket.failures + 1, U32_MAX))
  }

  /** One more failure on a key, with the lockout that reaching the limit brings. */
  function Charge(config: Config, bucket: Bucket, now: nat): Bucket {
    var counted := CountFailure(bucket, now).(audited := false);
    if counted.failures >= config.maxFailures
    then counted.(lockedUntil := Min(now + Millis(config.lockoutSeconds), U64_MAX))
    else counted
  }

  function Prune(config: Config, s: State, now: nat): State {
    s.(keys := map k | k in s.keys && !Normalize(config, s.keys[k], now).Empty() :: Normalize(config, s.keys[k], now),
       lastPrune := now)
  }

  function PruneIfDue(config: Config, s: State, now: nat): State {
    if SaturatingSub(now, s.lastPrune) > Millis(config.windowSeconds) then Prune(config, s, now) else s
  }

  predicate LimitedNow(config: Config, global: Bucket, bucket: Bucket, now: nat) {
    bucket.lockedUntil > now || (global.failures >= config.globalMax && bucket.failures > 0)
  }

  /** Whether a key is refused, and if so whether this refusal is the one to audit. */
  function Refusal(config: Config, s: State, key: Key, now: nat): (State, Option<bool>) {
    var global := Normalize(config, s.global, now);
    if key !in s.keys then (s.(global := global), None) else
    var bucket := Normalize(config, s.keys[key], now);
    if bucket.Empty() then (s.(global := global, keys := s.keys - {key}), None)
    else if !LimitedNow(config, global, bucket, now) then (s.(global := global, keys := s.keys[key := bucket]), None)
    else (s.(global := global, keys := s.keys[key := bucket.(audited := true)]), Some(!bucket.audited))
  }

  /** Eviction order: unlocked before locked, then the older window. */
  predicate EvictsBefore(a: Bucket, b: Bucket, now: nat) {
    var x, y := a.lockedUntil > now, b.lockedUntil > now;
    (!x && y) || (x == y && a.started < b.started)
  }

  /** The first least bucket of an ordered scan. */
  function Victim(order: seq<Key>, keys: map<Key, Bucket>, now: nat): (victim: Key)
    requires order != [] && forall k :: k in order ==> k in keys
    ensures victim in order
  {
    var last := order[|order| - 1];
    if |order| == 1 then last else
    var best := Victim(order[..|order| - 1], keys, now);
    if EvictsBefore(keys[last], keys[best], now) then last else best
  }

  lemma VictimOfOne(order: seq<Key>, keys: map<Key, Bucket>, now: nat)
    requires order != [] && forall k :: k in order ==> k in keys
    ensures Victim(order[..1], keys, now) == order[0]
  {
  }

  lemma VictimStep(order: seq<Key>, keys: map<Key, Bucket>, now: nat, i: nat)
    requires 1 <= i < |order| && forall k :: k in order ==> k in keys
    ensures var best := Victim(order[..i], keys, now);
            Victim(order[..i + 1], keys, now) == if EvictsBefore(keys[order[i]], keys[best], now) then order[i] else best
  {
    hide EvictsBefore;
    assert order[..i + 1][..i] == order[..i];
  }

  function Evict(keys: map<Key, Bucket>, now: nat): map<Key, Bucket> {
    var order := Ordered(keys.Keys);
    if order == [] then keys else keys - {Victim(order, keys, now)}
  }

  /** Room for one more key: prune, and evict one entry when that was not enough. */
  function MakeRoom(config: Config, s: State, key: Key, now: nat): State {
    if key in s.keys || |s.keys| < config.maxKeys then s else
    var pruned := Prune(config, s, now);
    if |pruned.keys| >= config.maxKeys then pruned.(keys := Evict(pruned.keys, now)) else pruned
  }

  function View(s: State, key: Key): Bucket {
    if key in s.keys then s.keys[key] else DEFAULT
  }

  /** One more reserved attempt against the ceiling; true when this one crosses it. */
  function ChargeGlobal(config: Config, global: Bucket, now: nat): (Bucket, bool) {
    var counted := CountFailure(global, now);
    var crossed := counted.failures >= config.globalMax && !counted.audited;
    (counted.(audited := counted.audited || crossed), crossed)
  }

  function Reserved(config: Config, s: State, key: Key, now: nat): (State, Decision) {
    var room := MakeRoom(config, s, key, now);
    var (global, crossed) := ChargeGlobal(config, room.global, now);
    (room.(keys := room.keys[key := Charge(config, View(room, key), now)], global := global), Allowed(crossed))
  }

  function CheckAt(config: Config, s: State, key: Key, now: nat): (State, Decision) {
    var (after, refusal) := Refusal(config, PruneIfDue(config, s, now), key, now);
    (after, if refusal.Some? then Limited(refusal.value) else Allowed(false))
  }

  function ReserveAt(config: Config, s: State, key: Key, now: nat): (State, Decision) {
    var (after, refusal) := Refusal(config, PruneIfDue(config, s, now), key, now);
    if refusal.Some? then (after, Limited(refusal.value)) else Reserved(config, after, key, now)
  }

  function TakeBack(config: Config, global: Bucket, now: nat): Bucket {
    var live := Normalize(config, global, now);
    live.(failures := SaturatingSub(live.failures, 1))
  }

  function RecordSuccessAt(config: Config, s: State, key: Key, now: nat): State {
    s.(keys := s.keys - {key}, global := TakeBack(config, s.global, now))
  }

  function UnknownUser(config: Config, bucket: Bucket, now: nat): (Bucket, AuditDecision) {
    var counted := CountFailure(Normalize(config, bucket, now), now);
    if counted.failures <= config.globalMax then (counted, Event)
    else if counted.audited then (counted, Skip)
    else (counted.(audited := true), Coalesced)
  }

  // ---------------------------------------------------------------------------------------
  // The limiter as an object updated in place
  // ---------------------------------------------------------------------------------------

  class AdminLoginRateLimiter {
    const config: Config
    var keys: map<Key, Bucket>
    var global: Bucket
    var unknownUsers: Bucket
    var lastPrune: nat

    function Now(): State
      reads this
    {
      State(keys, global, unknownUsers, lastPrune)
    }

    constructor (config: Config)
      ensures this.config == config && Now() == INITIAL
    {
      this.config := config;
      keys, global, unknownUsers, lastPrune := map[], DEFAULT, DEFAULT, 0;
    }

    method PruneKeys(now: nat)
      modifies this
      ensures Now() == Prune(config, old(Now()), now)
    {
      hide Normalize, StrictlyAscending, Ordered;
      var order := Ordered(keys.Keys);
      var kept := map[];
      for i := 0 to |order|
        invariant Now() == old(Now())
        invariant forall j :: 0 <= j < i ==>
          (order[j] in kept <==> !Normalize(config, keys[order[j]], now).Empty())
        invariant forall k :: k in kept ==>
          k in keys && kept[k] == Normalize(config, keys[k], now) && !kept[k].Empty()
      {
        var bucket := Normalize(config, keys[order[i]], now);
        if !bucket.Empty() {
          kept := kept[order[i] := bucket];
        }
      }
      assert kept == Prune(config, Now(), now).keys;
      keys := kept;
      lastPrune := now;
    }

    method PruneWhenDue(now: nat)
      modifies this
      ensures Now() == PruneIfDue(config, old(Now()), now)
    {
      if SaturatingSub(now, lastPrune) > Millis(config.windowSeconds) {
        PruneKeys(now);
      }
    }

    method EvictKey(now: nat)
      modifies `keys
      ensures keys == Evict(old(keys), now)
    {
      hide Victim, EvictsBefore, StrictlyAscending;
      var tracked := keys;
      var order := Ordered(tracked.Keys);
      if order != [] {
        var victim := order[0];
        VictimOfOne(order, tracked, now);
        var i := 1;
        while i < |order|
          invariant 1 <= i <= |order| && keys == tracked
          invariant victim == Victim(order[..i], tracked, now)
        {
          VictimStep(order, tracked, now, i);
          if EvictsBefore(tracked[order[i]], tracked[victim], now) {
            victim := order[i];
          }
          i := i + 1;
        }
        assert order[..i] == order;
        keys := tracked - {victim};
      }
    }

    method Refuse(key: Key, now: nat) returns (refusal: Option<bool>)
      modifies this
      ensures (Now(), refusal) == Refusal(config, old(Now()), key, now)
    {
      global := Normalize(config, global, now);
      var ceilingReached := global.failures >= config.globalMax;
      if key !in keys {
        return None;
      }
      var bucket := Normalize(config, keys[key], now);
      keys := keys[key := bucket];
      if bucket.Empty() {
        keys := keys - {key};
        assert keys == old(keys) - {key};
        return None;
      }
      var limited := bucket.lockedUntil > now || (ceilingReached && bucket.failures > 0);
      if !limited {
        return None;
      }
      var audit := !bucket.audited;
      bucket := bucket.(audited := true);
      keys := keys[key := bucket];
      assert keys == old(keys)[key := bucket];
      return Some(audit);
    }

    method Check(key: Key, now: nat) returns (decision: Decision)
      modifies this
      ensures (Now(), decision) == CheckAt(config, old(Now()), key, now)
    {
      hide Refusal, PruneIfDue;
      PruneWhenDue(now);
      var refusal := Refuse(key, now);
      return if refusal.Some? then Limited(refusal.value) else Allowed(false);
    }

    method Reserve(key: Key, now: nat) returns (decision: Decision)
      modifies this
      ensures (Now(), decision) == ReserveAt(config, old(Now()), key, now)
    {
      hide Refusal, PruneIfDue, Prune, Evict;
      PruneWhenDue(now);
      var refusal := Refuse(key, now);
      if refusal.Some? {
        return Limited(refusal.value);
      }
      ghost var open := Now();
      if key !in keys && |keys| >= config.maxKeys {
        PruneKeys(now);
        if |keys| >= config.maxKeys {
          EvictKey(now);
        }
      }
      assert Now() == MakeRoom(config, open, key, now);
      var bucket := if key in keys then keys[key] else DEFAULT;
      bucket := CountFailure(bucket, now);
      bucket := bucket.(audited := false);
      if bucket.failures >= config.maxFailures {
        bucket := bucket.(lockedUntil := Min(now + Millis(config.lockoutSeconds), U64_MAX));
      }
      keys := keys[key := bucket];
      global := CountFailure(global, now);
      var crossed := global.failures >= config.globalMax && !global.audited;
      if crossed {
        global := global.(audited := true);
      }
      return Allowed(crossed);
    }

    method RecordSuccess(key: Key, now: nat)
      modifies this
      ensures Now() == RecordSuccessAt(config, old(Now()), key, now)
    {
      keys := keys - {key};
      global := Normalize(config, global, now);
      global := global.(failures := SaturatingSub(global.failures, 1));
    }

    method RecordUnknownUser(now: nat) returns (decision: AuditDecision)
      modifies `unknownUsers
      ensures (unknownUsers, decision) == UnknownUser(config, old(unknownUsers), now)
    {
      unknownUsers := Normalize(config, unknownUsers, now);
      unknownUsers := CountFailure(unknownUsers, now);
      if unknownUsers.failures <= config.globalMax {
        return Event;
      } else if unknownUsers.audited {
        return Skip;
      } else {
        unknownUsers := unknownUsers.(audited := true);
        return Coalesced;
      }
    }
  }
}
