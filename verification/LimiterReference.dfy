/**
  A limiter with a bucket for every key, which never prunes, never removes a key and never
  stores a normalised bucket unless it counts on it, and the proof that the real limiter
  answers every call of every run as this one does.
*/
module LimiterReference {
  import opened LoginLimiter
  import opened LimiterSafety
  import LimiterRate

  datatype Simple = Simple(buckets: Key -> Bucket, global: Bucket, unknownUsers: Bucket)

  ghost function Fresh(): Simple { Simple(_ => DEFAULT, DEFAULT, DEFAULT) }

  ghost function With(s: Simple, key: Key, bucket: Bucket): Simple {
    s.(buckets := k => if k == key then bucket else s.buckets(k))
  }

  ghost predicate Holds(config: Config, s: Simple, key: Key, now: nat) {
    LimitedNow(config, Normalize(config, s.global, now), Normalize(config, s.buckets(key), now), now)
  }

  /** A refusal marks the bucket, so that only the first one is audited. */
  ghost function Hold(config: Config, s: Simple, key: Key, now: nat): (Simple, Decision) {
    var live := Normalize(config, s.buckets(key), now);
    (With(s, key, live.(audited := true)), Limited(!live.audited))
  }

  ghost function SimpleStep(config: Config, s: Simple, call: Call): (Simple, Answer) {
    match call
    case Check(key, now) =>
      if Holds(config, s, key, now)
      then (Hold(config, s, key, now).0, Decided(Hold(config, s, key, now).1))
      else (s, Decided(Allowed(false)))
    case Reserve(key, now) =>
      if Holds(config, s, key, now)
      then (Hold(config, s, key, now).0, Decided(Hold(config, s, key, now).1))
      else
        var (global, crossed) := ChargeGlobal(config, Normalize(config, s.global, now), now);
        var charged := Charge(config, Normalize(config, s.buckets(key), now), now);
        (With(s, key, charged).(global := global), Decided(Allowed(crossed)))
    case Success(key, now) =>
      (With(s, key, DEFAULT).(global := TakeBack(config, s.global, now)), Recorded)
    case Unknown(now) =>
      var (bucket, audit) := UnknownUser(config, s.unknownUsers, now);
      (s.(unknownUsers := bucket), Audited(audit))
  }

  ghost function SimpleRun(config: Config, calls: seq<Call>): Simple {
    if calls == [] then Fresh()
    else SimpleStep(config, SimpleRun(config, calls[..|calls| - 1]), calls[|calls| - 1]).0
  }

  /** From now on the two limiters see the same live buckets. */
  ghost predicate Alike(config: Config, s: State, simple: Simple, now: nat) {
    && (forall k :: Normalize(config, View(s, k), now) == Normalize(config, simple.buckets(k), now))
    && Normalize(config, s.global, now) == Normalize(config, simple.global, now)
    && s.unknownUsers == simple.unknownUsers
  }

  lemma AlikeLater(config: Config, s: State, simple: Simple, early: nat, late: nat)
    requires Alike(config, s, simple, early) && early <= late
    ensures Alike(config, s, simple, late)
  {
    hide Normalize;
    forall k ensures Normalize(config, View(s, k), late) == Normalize(config, simple.buckets(k), late) {
      NormalizeTwice(config, View(s, k), early, late);
      NormalizeTwice(config, simple.buckets(k), early, late);
    }
    NormalizeTwice(config, s.global, early, late);
    NormalizeTwice(config, simple.global, early, late);
  }

  /** What a call answers, and what it does to the ceiling, in terms of live buckets. */
  lemma AnswerView(config: Config, s: State, call: Call)
    requires Good(config, s) && (call.Check? || call.Reserve?)
    ensures var live, global := Normalize(config, View(s, call.key), call.now), Normalize(config, s.global, call.now);
            var (after, answer) := Step(config, s, call);
            if LimitedNow(config, global, live, call.now) then
              && answer == Decided(Limited(!live.audited))
              && after.global == global && View(after, call.key) == live.(audited := true)
            else if call.Check? then
              answer == Decided(Allowed(false)) && after.global == global && View(after, call.key) == live
            else
              && (after.global, answer.decision.ceilingCrossed) == ChargeGlobal(config, global, call.now)
              && answer == Decided(Allowed(answer.decision.ceilingCrossed))
              && View(after, call.key) == Charge(config, live, call.now)
    ensures Step(config, s, call).0.unknownUsers == s.unknownUsers
  {
    hide Refusal, Prune, MakeRoom, Charge, ChargeGlobal, Normalize, LimitedNow, Good;
    var now, key := call.now, call.key;
    PruneView(config, s, key, now);
    PruneFrame(config, s, now);
    PruneIfDueKeepsGood(config, s, now);
    NormalizeTwice(config, View(s, key), now, now);
    var pruned := PruneIfDue(config, s, now);
    RefusalView(config, pruned, key, key, now);
    RefusalFrame(config, pruned, key, now);
    MakeRoomView(config, Refusal(config, pruned, key, now).0, key, now);
    MakeRoomFrame(config, Refusal(config, pruned, key, now).0, key, now);
  }

  lemma PruneFrame(config: Config, s: State, now: nat)
    ensures Prune(config, s, now).global == s.global && Prune(config, s, now).unknownUsers == s.unknownUsers
  {
  }

  lemma RefusalFrame(config: Config, s: State, key: Key, now: nat)
    ensures Refusal(config, s, key, now).0.unknownUsers == s.unknownUsers
  {
  }

  lemma MakeRoomFrame(config: Config, s: State, key: Key, now: nat)
    ensures MakeRoom(config, s, key, now).unknownUsers == s.unknownUsers
  {
  }

  /** A call about another key leaves a live bucket as it is. */
  lemma OtherView(config: Config, s: State, call: Call, key: Key)
    requires Good(config, s) && !Evicts(config, s, call, key)
    requires call.Unknown? || call.key != key
    ensures Normalize(config, View(Step(config, s, call).0, key), call.now) == Normalize(config, View(s, key), call.now)
  {
    hide Refusal, Prune, Evict, MakeRoom, Charge, ChargeGlobal, Evicts, UnknownUser, Normalize, Good;
    if call.Check? || call.Reserve? {
      var now := call.now;
      PruneView(config, s, key, now);
      PruneIfDueKeepsGood(config, s, now);
      var pruned := PruneIfDue(config, s, now);
      NormalizeTwice(config, View(s, key), now, now);
      RefusalView(config, pruned, call.key, key, now);
      RefusalKeepsGood(config, pruned, call.key, now);
      var (open, refusal) := Refusal(config, pruned, call.key, now);
      if call.Reserve? && refusal.None? {
        EvictView(config, s, call, open, key);
        NormalizeTwice(config, View(open, key), now, now);
      }
    }
  }

  /** One call: same answer, and alike again afterwards. */
  lemma StepsAlike(config: Config, s: State, simple: Simple, call: Call)
    requires Good(config, s) && Alike(config, s, simple, call.now) && forall k :: !Evicts(config, s, call, k)
    ensures Step(config, s, call).1 == SimpleStep(config, simple, call).1
    ensures Alike(config, Step(config, s, call).0, SimpleStep(config, simple, call).0, call.now)
  {
    hide Step, SimpleStep, Normalize, Evicts, Good, View;
    OwnStepsAlike(config, s, simple, call);
    var after, simpleAfter := Step(config, s, call).0, SimpleStep(config, simple, call).0;
    forall k
      ensures Normalize(config, View(after, k), call.now) == Normalize(config, simpleAfter.buckets(k), call.now)
    {
      if call.Unknown? || call.key != k {
        OtherView(config, s, call, k);
        SimpleOther(config, simple, call, k);
      }
    }
  }

  lemma SimpleOther(config: Config, simple: Simple, call: Call, key: Key)
    requires call.Unknown? || call.key != key
    ensures SimpleStep(config, simple, call).0.buckets(key) == simple.buckets(key)
  {
    hide Normalize, Charge, ChargeGlobal, UnknownUser;
  }

  /** The answer, the ceiling and the bucket the call is about. */
  lemma OwnStepsAlike(config: Config, s: State, simple: Simple, call: Call)
    requires Good(config, s) && Alike(config, s, simple, call.now)
    ensures Step(config, s, call).1 == SimpleStep(config, simple, call).1
    ensures var after, simpleAfter := Step(config, s, call).0, SimpleStep(config, simple, call).0;
            && Normalize(config, after.global, call.now) == Normalize(config, simpleAfter.global, call.now)
            && after.unknownUsers == simpleAfter.unknownUsers
            && (!call.Unknown? ==>
                  Normalize(config, View(after, call.key), call.now) == Normalize(config, simpleAfter.buckets(call.key), call.now))
  {
    if call.Check? || call.Reserve? {
      hide Step, Normalize, Good, Charge, ChargeGlobal, LimitedNow, View, UnknownUser;
      AnswerView(config, s, call);
      NormalizeTwice(config, View(s, call.key), call.now, call.now);
      NormalizeTwice(config, s.global, call.now, call.now);
      NormalizeTwice(config, simple.global, call.now, call.now);
    } else {
      hide Normalize, UnknownUser, Good;
    }
  }

  ghost predicate NeverEvicts(config: Config, calls: seq<Call>) {
    forall i, k :: 0 <= i < |calls| ==> !Evicts(config, Run(config, INITIAL, calls[..i]), calls[i], k)
  }

  lemma {:induction false} RunsAlike(config: Config, calls: seq<Call>, end: nat)
    requires config.Valid() && LimiterRate.Clocked(calls, 0, end) && NeverEvicts(config, calls)
    ensures Alike(config, Run(config, INITIAL, calls), SimpleRun(config, calls),
                  if calls == [] then 0 else calls[|calls| - 1].now)
  {
    hide Step, SimpleStep, Normalize, Evicts, Alike;
    if calls == [] {
      FreshAlike(config);
    } else {
      var n := |calls| - 1;
      assert NeverEvicts(config, calls[..n]) by {
        forall i, k | 0 <= i < n ensures !Evicts(config, Run(config, INITIAL, calls[..n][..i]), calls[..n][i], k) {
          assert calls[..n][..i] == calls[..i];
        }
      }
      RunsAlike(config, calls[..n], end);
      var s, simple := Run(config, INITIAL, calls[..n]), SimpleRun(config, calls[..n]);
      AlikeLater(config, s, simple, if n == 0 then 0 else calls[n - 1].now, calls[n].now);
      RunsStayGood(config, calls[..n]);
      StepsAlike(config, s, simple, calls[n]);
    }
  }

  lemma FreshAlike(config: Config)
    ensures Alike(config, INITIAL, Fresh(), 0)
  {
  }

  /**
    Pruning and lazy normalisation are invisible: as long as the clock does not go back and
    nothing is evicted, every call of every run gets the reference limiter's answer.
  */
  lemma AnswersAgree(config: Config, calls: seq<Call>, end: nat, i: nat)
    requires config.Valid() && LimiterRate.Clocked(calls, 0, end) && NeverEvicts(config, calls) && i < |calls|
    ensures Step(config, Run(config, INITIAL, calls[..i]), calls[i]).1 ==
            SimpleStep(config, SimpleRun(config, calls[..i]), calls[i]).1
  {
    hide Step, SimpleStep, Normalize, Evicts, Alike, Run, SimpleRun;
    var prefix := calls[..i];
    assert NeverEvicts(config, prefix) by {
      forall j, k | 0 <= j < i ensures !Evicts(config, Run(config, INITIAL, prefix[..j]), prefix[j], k) {
        assert prefix[..j] == calls[..j];
      }
    }
    RunsAlike(config, prefix, end);
    var s, simple := Run(config, INITIAL, prefix), SimpleRun(config, prefix);
    AlikeLater(config, s, simple, if i == 0 then 0 else calls[i - 1].now, calls[i].now);
    RunsStayGood(config, prefix);
    StepsAlike(config, s, simple, calls[i]);
  }

  // ---------------------------------------------------------------------------------------
  // When nothing is evicted
  // ---------------------------------------------------------------------------------------

  ghost predicate ReservesOnly(calls: seq<Call>, keys: set<Key>) {
    forall i :: 0 <= i < |calls| && calls[i].Reserve? ==> calls[i].key in keys
  }

  lemma StepTracks(config: Config, s: State, call: Call, keys: set<Key>)
    requires s.keys.Keys <= keys && (call.Reserve? ==> call.key in keys)
    ensures Step(config, s, call).0.keys.Keys <= keys
  {
    hide Normalize, Charge, ChargeGlobal, Victim, UnknownUser;
  }

  lemma {:induction false} RunTracks(config: Config, calls: seq<Call>, keys: set<Key>)
    requires ReservesOnly(calls, keys)
    ensures Run(config, INITIAL, calls).keys.Keys <= keys
  {
    hide Step;
    if calls != [] {
      RunTracks(config, calls[..|calls| - 1], keys);
      StepTracks(config, Run(config, INITIAL, calls[..|calls| - 1]), calls[|calls| - 1], keys);
    }
  }

  lemma CannotBeFull(config: Config, s: State, call: Call, keys: set<Key>)
    requires s.keys.Keys <= keys && |keys| <= config.maxKeys && (call.Reserve? ==> call.key in keys)
    ensures !Full(config, s, call)
  {
    hide Normalize;
    if call.Reserve? {
      var open := Refusal(config, PruneIfDue(config, s, call.now), call.key, call.now).0;
      assert open.keys.Keys <= keys;
      if call.key !in open.keys {
        SubsetSize(open.keys.Keys + {call.key}, keys);
      }
    }
  }

  /** With no more distinct keys than the table holds, nothing is ever evicted. */
  lemma FewKeysNeverEvict(config: Config, calls: seq<Call>, keys: set<Key>)
    requires ReservesOnly(calls, keys) && |keys| <= config.maxKeys
    ensures NeverEvicts(config, calls)
  {
    hide Full, Run;
    forall i, k | 0 <= i < |calls| ensures !Evicts(config, Run(config, INITIAL, calls[..i]), calls[i], k) {
      RunTracks(config, calls[..i], keys);
      CannotBeFull(config, Run(config, INITIAL, calls[..i]), calls[i], keys);
    }
  }
}
