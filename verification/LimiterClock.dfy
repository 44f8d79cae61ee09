/** The login limiter at the last moment its clock can show, and up to there. */
module LimiterClock {
  import opened Integers
  import opened LoginLimiter
  import opened LimiterSafety
  import opened LimiterRate
  import LimiterReference

  /** The rate bound for every history, every interval up to `end` and every key in it. */
  ghost predicate RateHolds(config: Config, end: nat)
    requires config.Valid()
  {
    SpanIsPositive(config);
    forall history: seq<Call>, calls: seq<Call>, key: Key, start: nat ::
      start <= end && Clocked(history, 0, start) && Clocked(calls, start, end)
      && Undisturbed(config, Run(config, INITIAL, history), calls, key) ==>
      Grants(config, Run(config, INITIAL, history), calls, key) <= config.maxFailures * ((end - start) / Span(config) + 2)
  }

  /** At the last moment a lockout is already over, and successes of another key keep the ceiling
      away: the key is reserved, the other key succeeds, and so on. */
  function Turns(key: Key, other: Key, n: nat): seq<Call> {
    if n == 0 then [] else Turns(key, other, n - 1) + [Reserve(key, U64_MAX), Success(other, U64_MAX)]
  }

  /** Only the key is tracked, its lockout is one the clock can show, and the ceiling is far. */
  ghost predicate Quiet(config: Config, s: State, key: Key) {
    && Good(config, s) && s.keys.Keys <= {key} && View(s, key).lockedUntil <= U64_MAX
    && Normalize(config, s.global, U64_MAX).failures == 0
  }

  lemma ReserveIsGranted(config: Config, s: State, key: Key)
    requires config.Valid() && Quiet(config, s, key)
    ensures var call := Reserve(key, U64_MAX);
            var after := Step(config, s, call).0;
            && Granted(config, s, call, key) && !Evicts(config, s, call, key)
            && Good(config, after) && after.keys.Keys <= {key} && View(after, key).lockedUntil <= U64_MAX
            && Normalize(config, after.global, U64_MAX).failures <= 1
  {
    hide Good, Full, ReserveAt;
    var call := Reserve(key, U64_MAX);
    StepKeepsGood(config, s, call);
    LimiterReference.AnswerView(config, s, call);
    LimiterReference.StepTracks(config, s, call, {key});
    LimiterReference.CannotBeFull(config, s, call, {key});
  }

  lemma SuccessIsQuiet(config: Config, s: State, key: Key, other: Key)
    requires config.Valid() && other != key && Good(config, s) && s.keys.Keys <= {key} && View(s, key).lockedUntil <= U64_MAX
    requires Normalize(config, s.global, U64_MAX).failures <= 1
    ensures Quiet(config, Step(config, s, Success(other, U64_MAX)).0, key)
    ensures !Evicts(config, s, Success(other, U64_MAX), key)
  {
    hide Good;
    StepKeepsGood(config, s, Success(other, U64_MAX));
  }

  /** A run at the last moment that leaves the key alone and grants it this often. */
  ghost predicate LastMoment(config: Config, calls: seq<Call>, key: Key, grants: nat) {
    && Clocked(calls, U64_MAX, U64_MAX) && Undisturbed(config, INITIAL, calls, key)
    && Grants(config, INITIAL, calls, key) == grants
  }

  lemma OneMoreCall(config: Config, calls: seq<Call>, call: Call, key: Key, grants: nat)
    requires LastMoment(config, calls, key, grants) && call.now == U64_MAX && call != Success(key, U64_MAX)
    requires !Evicts(config, Run(config, INITIAL, calls), call, key)
    ensures Run(config, INITIAL, calls + [call]) == Step(config, Run(config, INITIAL, calls), call).0
    ensures LastMoment(config, calls + [call], key,
                       grants + if Granted(config, Run(config, INITIAL, calls), call, key) then 1 else 0)
  {
    hide Step, Granted, Evicts, Clocked, Undisturbed;
    var more := calls + [call];
    assert more[..|more| - 1] == calls;
    ClockedMore(calls, call);
    UndisturbedMore(config, calls, call, key);
  }

  lemma ClockedMore(calls: seq<Call>, call: Call)
    requires Clocked(calls, U64_MAX, U64_MAX) && call.now == U64_MAX
    ensures Clocked(calls + [call], U64_MAX, U64_MAX)
  {
    var more := calls + [call];
    assert forall i :: 0 <= i < |more| ==> more[i].now == U64_MAX;
  }

  lemma UndisturbedMore(config: Config, calls: seq<Call>, call: Call, key: Key)
    requires Undisturbed(config, INITIAL, calls, key) && call != Success(key, call.now)
    requires !Evicts(config, Run(config, INITIAL, calls), call, key)
    ensures Undisturbed(config, INITIAL, calls + [call], key)
  {
    hide Run, Evicts;
    var more := calls + [call];
    forall i | 0 <= i < |more|
      ensures !Evicts(config, Run(config, INITIAL, more[..i]), more[i], key) && more[i] != Success(key, more[i].now)
    {
      if i < |calls| {
        assert more[..i] == calls[..i] && more[i] == calls[i];
      } else {
        assert more[..i] == calls;
      }
    }
  }

  lemma {:induction false} TurnsAreGranted(config: Config, key: Key, other: Key, n: nat)
    requires config.Valid() && other != key
    ensures LastMoment(config, Turns(key, other, n), key, n)
    ensures Quiet(config, Run(config, INITIAL, Turns(key, other, n)), key)
  {
    hide LastMoment, Quiet, Step, Granted, Evicts, Run, Good;
    if n == 0 {
      NothingYet(config, key);
    } else {
      TurnsAreGranted(config, key, other, n - 1);
      var before := Turns(key, other, n - 1);
      var reserve, success := Reserve(key, U64_MAX), Success(other, U64_MAX);
      var s := Run(config, INITIAL, before);
      ReserveIsGranted(config, s, key);
      OneMoreCall(config, before, reserve, key, n - 1);
      var reserved := Run(config, INITIAL, before + [reserve]);
      SuccessIsQuiet(config, reserved, key, other);
      SuccessIsNoGrant(config, reserved, key, other);
      OneMoreCall(config, before + [reserve], success, key, n);
      assert before + [reserve] + [success] == Turns(key, other, n);
    }
  }

  lemma NothingYet(config: Config, key: Key)
    ensures LastMoment(config, [], key, 0) && Quiet(config, Run(config, INITIAL, []), key)
  {
  }

  lemma SuccessIsNoGrant(config: Config, s: State, key: Key, other: Key)
    ensures !Granted(config, s, Success(other, U64_MAX), key)
  {
  }

  /** At the last moment of the clock any number of reservations of one key are granted. */
  lemma LastMomentHasNoLimit(config: Config, key: Key, n: nat) returns (calls: seq<Call>)
    requires config.Valid()
    ensures Clocked(calls, U64_MAX, U64_MAX) && Undisturbed(config, INITIAL, calls, key)
    ensures Grants(config, INITIAL, calls, key) == n
  {
    var other := key + ['x'];
    assert |other| != |key|;
    calls := Turns(key, other, n);
    TurnsAreGranted(config, key, other, n);
  }

  /**
    The rate bound holds up to a time, for every history, interval and key, if and only if
    that time is before the last moment the clock can show.
  */
  lemma RateHoldsExactly(config: Config, end: nat)
    requires config.Valid() && end <= U64_MAX
    ensures RateHolds(config, end) <==> end < U64_MAX
  {
    hide Grants, Undisturbed, Clocked, Span;
    SpanIsPositive(config);
    if end < U64_MAX {
      forall history: seq<Call>, calls: seq<Call>, key: Key, start: nat
        | start <= end && Clocked(history, 0, start) && Clocked(calls, start, end)
          && Undisturbed(config, Run(config, INITIAL, history), calls, key)
        ensures Grants(config, Run(config, INITIAL, history), calls, key)
                <= config.maxFailures * ((end - start) / Span(config) + 2)
      {
        RateIsBounded(config, history, calls, key, start, end);
      }
    } else {
      var key := [];
      var calls := LastMomentHasNoLimit(config, key, 2 * config.maxFailures + 1);
      NoHistory(config);
      NoTime(Span(config));
      assert Grants(config, Run(config, INITIAL, []), calls, key)
             > config.maxFailures * ((end - end) / Span(config) + 2);
    }
  }

  lemma NoHistory(config: Config)
    ensures Run(config, INITIAL, []) == INITIAL && Clocked([], 0, U64_MAX)
  {
  }

  lemma NoTime(span: nat)
    requires span > 0
    ensures 0 / span == 0
  {
  }
}
