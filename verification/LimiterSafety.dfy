/** What every run of the login limiter keeps, and how often it can let one key through. */
module LimiterSafety {
  import opened Bytes
  import opened LoginLimiter

  datatype Call =
    | Check(key: Key, now: nat)
    | Reserve(key: Key, now: nat)
    | Success(key: Key, now: nat)
    | Unknown(now: nat)

  datatype Answer = Decided(decision: Decision) | Recorded | Audited(audit: AuditDecision)

  function Step(config: Config, s: State, call: Call): (State, Answer) {
    match call
    case Check(key, now) => var (after, decision) := CheckAt(config, s, key, now); (after, Decided(decision))
    case Reserve(key, now) => var (after, decision) := ReserveAt(config, s, key, now); (after, Decided(decision))
    case Success(key, now) => (RecordSuccessAt(config, s, key, now), Recorded)
    case Unknown(now) =>
      var (bucket, audit) := UnknownUser(config, s.unknownUsers, now);
      (s.(unknownUsers := bucket), Audited(audit))
  }

  /** The states of a run: Run(...)[i] is the state before call i. */
  function Run(config: Config, s: State, calls: seq<Call>): State {
    if calls == [] then s else Step(config, Run(config, s, calls[..|calls| - 1]), calls[|calls| - 1]).0
  }

  // ---------------------------------------------------------------------------------------
  // Invariants, whatever the clock does
  // ---------------------------------------------------------------------------------------

  ghost predicate GoodBucket(config: Config, bucket: Bucket) {
    && 1 <= bucket.failures <= config.maxFailures
    && (bucket.lockedUntil != 0 <==> bucket.failures == config.maxFailures)
  }

  ghost predicate Good(config: Config, s: State) {
    && |s.keys| <= config.maxKeys
    && forall k :: k in s.keys ==> GoodBucket(config, s.keys[k])
  }

  lemma SubsetSize<T>(a: set<T>, b: set<T>)
    requires a <= b
    ensures |a| <= |b|
    ensures a != b ==> |a| < |b|
  {
    assert b == a + (b - a);
    if a != b {
      assert b - a != {};
    }
  }

  lemma PruneKeepsGood(config: Config, s: State, now: nat)
    requires Good(config, s)
    ensures Good(config, Prune(config, s, now))
    ensures Prune(config, s, now).keys.Keys <= s.keys.Keys
  {
    SubsetSize(Prune(config, s, now).keys.Keys, s.keys.Keys);
  }

  lemma RefusalKeepsGood(config: Config, s: State, key: Key, now: nat)
    requires Good(config, s)
    ensures Good(config, Refusal(config, s, key, now).0)
  {
    var after := Refusal(config, s, key, now).0;
    assert after.keys.Keys <= s.keys.Keys;
    SubsetSize(after.keys.Keys, s.keys.Keys);
  }

  lemma EvictMakesRoom(keys: map<Key, Bucket>, now: nat)
    requires keys != map[]
    ensures |Evict(keys, now)| == |keys| - 1
    ensures Evict(keys, now).Keys <= keys.Keys
  {
    hide Victim, StrictlyAscending;
    var order := Ordered(keys.Keys);
    assert exists k :: k in keys;
    assert order != [];
    var victim := Victim(order, keys, now);
    assert Evict(keys, now).Keys == keys.Keys - {victim};
  }

  lemma MakeRoomKeepsGood(config: Config, s: State, key: Key, now: nat)
    requires config.Valid() && Good(config, s)
    ensures Good(config, MakeRoom(config, s, key, now))
    ensures key !in s.keys ==> |MakeRoom(config, s, key, now).keys| < config.maxKeys
    ensures key in MakeRoom(config, s, key, now).keys ==> key in s.keys
  {
    hide Prune, Evict;
    if key !in s.keys && |s.keys| >= config.maxKeys {
      PruneKeepsGood(config, s, now);
      var pruned := Prune(config, s, now);
      if |pruned.keys| >= config.maxKeys {
        EvictMakesRoom(pruned.keys, now);
        EvictKeeps(pruned.keys, now);
      }
    }
  }

  lemma EvictKeeps(keys: map<Key, Bucket>, now: nat)
    ensures forall k :: k in Evict(keys, now) ==> k in keys && Evict(keys, now)[k] == keys[k]
  {
    hide Victim;
  }

  lemma ReservedKeepsGood(config: Config, s: State, key: Key, now: nat)
    requires config.Valid() && Good(config, s) && (key in s.keys ==> s.keys[key].lockedUntil == 0)
    ensures Good(config, Reserved(config, s, key, now).0)
  {
    hide MakeRoom;
    var room := MakeRoom(config, s, key, now);
    MakeRoomKeepsGood(config, s, key, now);
    MakeRoomView(config, s, key, now);
    var after := Reserved(config, s, key, now).0;
    assert after.keys.Keys == room.keys.Keys + {key};
  }

  /** Making room never touches the key it makes room for. */
  lemma MakeRoomView(config: Config, s: State, key: Key, now: nat)
    ensures View(MakeRoom(config, s, key, now), key) == View(s, key)
    ensures MakeRoom(config, s, key, now).global == s.global
  {
    hide Normalize, Victim;
  }

  lemma RefusalUnlocked(config: Config, s: State, key: Key, now: nat)
    requires Refusal(config, s, key, now).1.None?
    ensures var after := Refusal(config, s, key, now).0;
            key in after.keys ==> after.keys[key].lockedUntil == 0
  {
  }

  /**
    Whatever the clock does, tracked keys stay within the bound, every bucket counts between
    one and the limit, and a bucket is locked exactly when it has reached the limit.
  */
  lemma StepKeepsGood(config: Config, s: State, call: Call)
    requires config.Valid() && Good(config, s)
    ensures Good(config, Step(config, s, call).0)
  {
    hide Refusal, PruneIfDue, Reserved;
    match call {
      case Check(key, now) =>
        PruneIfDueKeepsGood(config, s, now);
        RefusalKeepsGood(config, PruneIfDue(config, s, now), key, now);
      case Reserve(key, now) =>
        PruneIfDueKeepsGood(config, s, now);
        var pruned := PruneIfDue(config, s, now);
        RefusalKeepsGood(config, pruned, key, now);
        if Refusal(config, pruned, key, now).1.None? {
          RefusalUnlocked(config, pruned, key, now);
          ReservedKeepsGood(config, Refusal(config, pruned, key, now).0, key, now);
        }
      case Success(key, now) =>
        SubsetSize((s.keys - {key}).Keys, s.keys.Keys);
      case Unknown(_) =>
    }
  }

  lemma PruneIfDueKeepsGood(config: Config, s: State, now: nat)
    requires Good(config, s)
    ensures Good(config, PruneIfDue(config, s, now))
  {
    hide Prune;
    PruneKeepsGood(config, s, now);
  }

  lemma {:induction false} RunsStayGood(config: Config, calls: seq<Call>)
    requires config.Valid()
    ensures Good(config, Run(config, INITIAL, calls))
  {
    hide Step;
    if calls != [] {
      RunsStayGood(config, calls[..|calls| - 1]);
      StepKeepsGood(config, Run(config, INITIAL, calls[..|calls| - 1]), calls[|calls| - 1]);
    }
  }

  // ---------------------------------------------------------------------------------------
  // Eviction and lockouts
  // ---------------------------------------------------------------------------------------

  /** The table a reservation would have to evict from, when it has to. */
  ghost predicate Full(config: Config, s: State, call: Call) {
    && call.Reserve?
    && var (open, refusal) := Refusal(config, PruneIfDue(config, s, call.now), call.key, call.now);
       && refusal.None? && call.key !in open.keys && |open.keys| >= config.maxKeys
       && |Prune(config, open, call.now).keys| >= config.maxKeys
  }

  ghost function Candidates(config: Config, s: State, call: Call): map<Key, Bucket>
    requires call.Reserve?
  {
    Prune(config, Refusal(config, PruneIfDue(config, s, call.now), call.key, call.now).0, call.now).keys
  }

  ghost predicate Evicts(config: Config, s: State, call: Call, key: Key) {
    && Full(config, s, call)
    && key in Candidates(config, s, call)
    && key !in Evict(Candidates(config, s, call), call.now)
  }

  /** The evicted entry is least in the eviction order, and the first such key. */
  lemma {:induction false} VictimIsLeast(order: seq<Key>, keys: map<Key, Bucket>, now: nat)
    requires order != [] && StrictlyAscending(order) && forall k :: k in order ==> k in keys
    ensures var victim := Victim(order, keys, now);
            && (forall k :: k in order ==> !EvictsBefore(keys[k], keys[victim], now))
            && (forall k :: k in order && k != victim && !EvictsBefore(keys[victim], keys[k], now) ==> Below(victim, k))
  {
    hide Below;
    var n := |order| - 1;
    if n > 0 {
      assert StrictlyAscending(order[..n]);
      VictimIsLeast(order[..n], keys, now);
      assert order == order[..n] + [order[n]];
      assert forall k :: k in order[..n] ==> Below(k, order[n]);
    }
  }

  /** Whom an eviction drops: a key that is not locked out, if there is one; among those alike the
  one with the oldest window, and then the one that comes first. */
  lemma EvictedIsLeast(keys: map<Key, Bucket>, now: nat, key: Key)
    requires key in keys && key !in Evict(keys, now)
    ensures forall k :: k in keys ==>
      && (keys[k].lockedUntil > now || keys[key].lockedUntil <= now)
      && ((keys[k].lockedUntil > now <==> keys[key].lockedUntil > now) ==>
            && keys[key].started <= keys[k].started
            && (keys[key].started == keys[k].started && k != key ==> Below(key, k)))
  {
    hide Victim, Below;
    VictimIsLeast(Ordered(keys.Keys), keys, now);
  }

  /** Neither the lockout nor the window of the bucket is over. */
  predicate Live(config: Config, bucket: Bucket, now: nat) {
    if bucket.lockedUntil > 0 then now < bucket.lockedUntil
    else bucket.started == 0 || now <= bucket.started + Millis(config.windowSeconds)
  }

  /** Every tracked key but one is live. */
  ghost predicate OthersLive(config: Config, s: State, key: Key, now: nat) {
    forall k :: k in s.keys && k != key ==> Live(config, s.keys[k], now)
  }

  lemma PrunedIsLive(config: Config, s: State, key: Key, now: nat)
    ensures OthersLive(config, Prune(config, s, now), key, now)
  {
  }

  lemma RefusalKeepsOthers(config: Config, s: State, key: Key, now: nat)
    ensures var after := Refusal(config, s, key, now).0;
            after.lastPrune == s.lastPrune && forall k :: k in after.keys && k != key ==> k in s.keys && after.keys[k] == s.keys[k]
  {
  }

  lemma RoomKeepsOthersLive(config: Config, s: State, key: Key, now: nat)
    requires OthersLive(config, s, key, now) && s.lastPrune == now
    ensures var room := MakeRoom(config, s, key, now);
            OthersLive(config, room, key, now) && room.lastPrune == now
  {
    hide Evict, Live, Normalize;
    PrunedIsLive(config, s, key, now);
    EvictKeeps(Prune(config, s, now).keys, now);
  }

  /** A login call made more than a window after the last pruning leaves no other key behind whose
  lockout or window is over, and counts as a pruning. */
  lemma PruningHappens(config: Config, s: State, call: Call)
    requires (call.Check? || call.Reserve?) && call.now > s.lastPrune + Millis(config.windowSeconds)
    ensures var after := Step(config, s, call).0;
            after.lastPrune == call.now && OthersLive(config, after, call.key, call.now)
  {
    hide Prune, Refusal, MakeRoom, Live, Charge, ChargeGlobal;
    var now, key := call.now, call.key;
    var pruned := Prune(config, s, now);
    assert pruned.lastPrune == now by { PruneDates(config, s, now); }
    PrunedIsLive(config, s, key, now);
    RefusalKeepsOthers(config, pruned, key, now);
    RoomKeepsOthersLive(config, Refusal(config, pruned, key, now).0, key, now);
  }

  lemma PruneDates(config: Config, s: State, now: nat)
    ensures Prune(config, s, now).lastPrune == now
  {
  }

  /** Pruning keeps a bucket that is still locked, as it is. */
  lemma PruneKeepsLock(config: Config, s: State, key: Key, now: nat)
    requires key in s.keys && s.keys[key].lockedUntil > now
    ensures key in Prune(config, s, now).keys && Prune(config, s, now).keys[key] == s.keys[key]
  {
  }

  lemma RefusalKeepsLock(config: Config, s: State, key: Key, asked: Key, now: nat)
    requires key in s.keys && s.keys[key].lockedUntil > now
    ensures var (after, refusal) := Refusal(config, s, asked, now);
            && key in after.keys && after.keys[key].lockedUntil == s.keys[key].lockedUntil
            && (asked == key ==> refusal.Some?)
  {
  }

  /**
    A lockout that has not run out is lost only to a recorded success of that key, or to an
    eviction at a moment when every tracked key is locked out.
  */
  lemma LockoutsSurvive(config: Config, s: State, call: Call, key: Key)
    requires key in s.keys && s.keys[key].lockedUntil > call.now
    requires call != Success(key, call.now)
    ensures var after := Step(config, s, call).0;
            || (key in after.keys && after.keys[key].lockedUntil == s.keys[key].lockedUntil)
            || (Evicts(config, s, call, key) &&
                forall k :: k in Candidates(config, s, call) ==> Candidates(config, s, call)[k].lockedUntil > call.now)
  {
    hide Refusal, Prune, Evict, Charge, ChargeGlobal;
    if call.Check? || call.Reserve? {
      var now := call.now;
      PruneKeepsLock(config, s, key, now);
      var pruned := PruneIfDue(config, s, now);
      RefusalKeepsLock(config, pruned, key, call.key, now);
      var (open, refusal) := Refusal(config, pruned, call.key, now);
      if call.Reserve? && refusal.None? && call.key !in open.keys && |open.keys| >= config.maxKeys {
        PruneKeepsLock(config, open, key, now);
        var candidates := Prune(config, open, now).keys;
        if |candidates| >= config.maxKeys {
          EvictKeeps(candidates, now);
          if key !in Evict(candidates, now) {
            EvictedIsLeast(candidates, now, key);
          }
        }
      }
    }
  }

  // ---------------------------------------------------------------------------------------
  // The effect of one call on one key
  // ---------------------------------------------------------------------------------------

  /** Normalising now and again later is normalising later. */
  lemma NormalizeTwice(config: Config, bucket: Bucket, early: nat, late: nat)
    requires early <= late
    ensures Normalize(config, Normalize(config, bucket, early), late) == Normalize(config, bucket, late)
  {
  }

  ghost predicate Granted(config: Config, s: State, call: Call, key: Key) {
    call.Reserve? && call.key == key && ReserveAt(config, s, key, call.now).1.Allowed?
  }

  /** The bucket as it was, normalised, or normalised and marked as audited. */
  ghost predicate OnlyNormalized(config: Config, before: Bucket, after: Bucket, now: nat) {
    var live := Normalize(config, before, now);
    || after == before
    || after == live
    || (after == live.(audited := true) && live.failures > 0)
  }

  lemma PruneView(config: Config, s: State, key: Key, now: nat)
    requires Good(config, s)
    ensures View(Prune(config, s, now), key) == Normalize(config, View(s, key), now)
  {
  }

  lemma RefusalView(config: Config, s: State, asked: Key, key: Key, now: nat)
    requires Good(config, s)
    ensures var (after, refusal) := Refusal(config, s, asked, now);
            var live := Normalize(config, View(s, key), now);
            && (asked != key ==> View(after, key) == View(s, key))
            && (asked == key ==> View(after, key) == if refusal.Some? then live.(audited := true) else live)
            && (refusal.Some? <==> LimitedNow(config, Normalize(config, s.global, now), Normalize(config, View(s, asked), now), now))
            && (refusal.Some? ==> refusal.value == !Normalize(config, View(s, asked), now).audited)
            && after.global == Normalize(config, s.global, now)
  {
  }

  lemma EvictView(config: Config, s: State, call: Call, open: State, key: Key)
    requires call.Reserve? && key != call.key && !Evicts(config, s, call, key) && Good(config, open)
    requires (open, None) == Refusal(config, PruneIfDue(config, s, call.now), call.key, call.now)
    ensures var room := MakeRoom(config, open, call.key, call.now);
            View(room, key) == View(open, key) || View(room, key) == Normalize(config, View(open, key), call.now)
  {
    hide Refusal, PruneIfDue, Prune, Evict, Normalize;
    if call.key !in open.keys && |open.keys| >= config.maxKeys {
      PruneView(config, open, key, call.now);
      EvictKeeps(Prune(config, open, call.now).keys, call.now);
    }
  }

  /**
    The whole effect of a call on one key: a granted reservation charges the normalised
    bucket; any other call, whatever it prunes or whoever it is about, at most normalises it.
  */
  lemma KeyEffect(config: Config, s: State, call: Call, key: Key)
    requires Good(config, s) && !Evicts(config, s, call, key) && call != Success(key, call.now)
    ensures var before, after := View(s, key), View(Step(config, s, call).0, key);
            if Granted(config, s, call, key) then
              && after == Charge(config, Normalize(config, before, call.now), call.now)
              && Normalize(config, before, call.now).lockedUntil <= call.now
            else OnlyNormalized(config, before, after, call.now)
  {
    hide Refusal, Prune, Evict, MakeRoom, Charge, ChargeGlobal, Evicts, UnknownUser;
    if call.Check? || call.Reserve? {
      var now := call.now;
      PruneView(config, s, key, now);
      PruneIfDueKeepsGood(config, s, now);
      var pruned := PruneIfDue(config, s, now);
      NormalizeTwice(config, View(s, key), now, now);
      RefusalView(config, pruned, call.key, key, now);
      RefusalKeepsGood(config, pruned, call.key, now);
      var (open, refusal) := Refusal(config, pruned, call.key, now);
      if call.Reserve? && refusal.None? {
        MakeRoomView(config, open, call.key, now);
        if key != call.key {
          EvictView(config, s, call, open, key);
        }
      }
    }
  }

  // ---------------------------------------------------------------------------------------
  // Audited refusals
  // ---------------------------------------------------------------------------------------

  ghost predicate AuditedRefusal(config: Config, s: State, call: Call, key: Key) {
    (call.Check? || call.Reserve?) && call.key == key && Step(config, s, call).1 == Decided(Limited(true))
  }

  /** A refused key stays marked until a reservation of it is granted, unless it starts afresh. */
  ghost predicate Marked(bucket: Bucket) {
    bucket == DEFAULT || bucket.audited
  }

  lemma RefusalMarks(config: Config, s: State, call: Call)
    requires Good(config, s) && (call.Check? || call.Reserve?) && Step(config, s, call).1.decision.Limited?
    ensures Marked(View(Step(config, s, call).0, call.key))
    ensures Step(config, s, call).1.decision.audit ==> !Marked(View(s, call.key))
  {
    hide Refusal, Prune, MakeRoom, Charge, ChargeGlobal;
    PruneView(config, s, call.key, call.now);
    PruneIfDueKeepsGood(config, s, call.now);
    NormalizeTwice(config, View(s, call.key), call.now, call.now);
    RefusalView(config, PruneIfDue(config, s, call.now), call.key, call.key, call.now);
  }

  lemma MarkLasts(config: Config, s: State, call: Call, key: Key)
    requires Good(config, s) && Marked(View(s, key)) && !Granted(config, s, call, key)
    ensures Marked(View(Step(config, s, call).0, key))
  {
    hide Step, Good, Granted, Evicts;
    if Evicts(config, s, call, key) || call == Success(key, call.now) {
      DroppedView(config, s, call, key);
    } else {
      KeyEffect(config, s, call, key);
    }
  }

  /** A call that drops a key leaves no trace of it. */
  lemma DroppedView(config: Config, s: State, call: Call, key: Key)
    requires Evicts(config, s, call, key) || call == Success(key, call.now)
    ensures View(Step(config, s, call).0, key) == DEFAULT
  {
    hide Refusal, Prune, Evict, Charge, ChargeGlobal, PruneIfDue;
    if call.Reserve? {
      var open := Refusal(config, PruneIfDue(config, s, call.now), call.key, call.now).0;
      PruneOnlyDrops(config, open, call.now);
    }
  }

  lemma PruneOnlyDrops(config: Config, s: State, now: nat)
    ensures Prune(config, s, now).keys.Keys <= s.keys.Keys
  {
  }

  lemma {:induction false} MarkLastsOverRun(config: Config, calls: seq<Call>, key: Key, i: nat, j: nat)
    requires config.Valid() && i <= j <= |calls| && Marked(View(Run(config, INITIAL, calls[..i]), key))
    requires forall m :: i <= m < j ==> !Granted(config, Run(config, INITIAL, calls[..m]), calls[m], key)
    ensures Marked(View(Run(config, INITIAL, calls[..j]), key))
    decreases j
  {
    hide Step, Granted, Marked, View;
    if i < j {
      var n := j - 1;
      assert calls[..j][..n] == calls[..n];
      MarkLastsOverRun(config, calls, key, i, n);
      RunsStayGood(config, calls[..n]);
      MarkLasts(config, Run(config, INITIAL, calls[..n]), calls[n], key);
    }
  }

  /**
    Only the first refusal of a key is audited: between two audited refusals of one key a
    reservation of that key was granted, in every run and whatever the clock does.
  */
  lemma AuditedOncePerLimit(config: Config, calls: seq<Call>, key: Key, i: nat, j: nat) returns (m: nat)
    requires config.Valid() && i < j < |calls|
    requires AuditedRefusal(config, Run(config, INITIAL, calls[..i]), calls[i], key)
    requires AuditedRefusal(config, Run(config, INITIAL, calls[..j]), calls[j], key)
    ensures i < m < j && Granted(config, Run(config, INITIAL, calls[..m]), calls[m], key)
  {
    hide Step, Granted, Marked, View, Good;
    var first, second := Run(config, INITIAL, calls[..i]), Run(config, INITIAL, calls[..j]);
    RunsStayGood(config, calls[..i]);
    RunsStayGood(config, calls[..j]);
    RefusalMarks(config, first, calls[i]);
    RefusalMarks(config, second, calls[j]);
    assert calls[..i + 1][..i] == calls[..i];
    if forall n :: i < n < j ==> !Granted(config, Run(config, INITIAL, calls[..n]), calls[n], key) {
      MarkLastsOverRun(config, calls, key, i + 1, j);
      m := j;
    } else {
      m :| i < m < j && Granted(config, Run(config, INITIAL, calls[..m]), calls[m], key);
    }
  }
}
