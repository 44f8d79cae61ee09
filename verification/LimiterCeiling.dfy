/** What the server-wide ceiling and the per-key lockout do over whole runs, told by what was
granted and what succeeded, not by the limiter's own buckets. */
module LimiterCeiling {
  import opened Integers
  import opened LoginLimiter
  import opened LimiterSafety
  import opened LimiterAudit
  import LimiterReference

  // ---------------------------------------------------------------------------------------
  // The server-wide window
  // ---------------------------------------------------------------------------------------

  /** The state of the limiter before call m. */
  function Before(config: Config, calls: seq<Call>, m: nat): State
    requires m <= |calls|
  {
    Run(config, INITIAL, calls[..m])
  }

  ghost predicate Grants(config: Config, calls: seq<Call>, m: nat)
    requires m < |calls|
  {
    calls[m].Reserve? && Step(config, Before(config, calls, m), calls[m]).1.decision.Allowed?
  }

  /** Call i finds no server-wide window, or one that is over. */
  ghost predicate Opens(config: Config, calls: seq<Call>, i: nat) {
    i < |calls| && !calls[i].Unknown? && Normalize(config, Before(config, calls, i).global, calls[i].now) == DEFAULT
  }

  /** No call from i + 1 to j finds the server-wide window over. */
  ghost predicate Lasts(config: Config, calls: seq<Call>, i: nat, j: nat) {
    forall m :: i < m <= j && m < |calls| ==> !WindowOver(config, Before(config, calls, m), calls[m])
  }

  /** Grants less successes from call i up to call j; a success does not take the count below
  zero, nor a grant above what 32 bits hold. */
  ghost function Standing(config: Config, calls: seq<Call>, i: nat, j: nat): nat
    requires i <= j <= |calls|
    decreases j
  {
    if i == j then 0 else
    var before := Standing(config, calls, i, j - 1);
    if Grants(config, calls, j - 1) then Min(before + 1, U32_MAX)
    else if calls[j - 1].Success? then SaturatingSub(before, 1)
    else before
  }

  /** Some grant from call i up to call j reported that the ceiling was crossed. */
  ghost predicate Reported(config: Config, calls: seq<Call>, i: nat, j: nat)
    requires i <= j <= |calls|
  {
    exists m :: i <= m < j && Crosses(config, Before(config, calls, m), calls[m])
  }

  ghost predicate Tallied(bucket: Bucket, count: nat, reported: bool) {
    bucket.failures == count && bucket.lockedUntil == 0 && (bucket.audited <==> reported)
  }

  /** One call's effect on the server-wide count. */
  lemma TallyStep(config: Config, s: State, call: Call, count: nat, reported: bool)
    requires Good(config, s) && !call.Unknown? && Tallied(Normalize(config, s.global, call.now), count, reported)
    ensures var granted := call.Reserve? && Step(config, s, call).1.decision.Allowed?;
            var next := if granted then Min(count + 1, U32_MAX) else if call.Success? then SaturatingSub(count, 1) else count;
            && Tallied(Step(config, s, call).0.global, next, reported || Crosses(config, s, call))
            && (Crosses(config, s, call) <==> granted && next >= config.globalMax && !reported)
  {
    hide Normalize, LimitedNow, Charge, Good, UnknownUser;
    if !call.Success? {
      hide Step;
      LimiterReference.AnswerView(config, s, call);
    }
  }

  lemma ReportedStep(config: Config, calls: seq<Call>, i: nat, j: nat)
    requires i < j <= |calls|
    ensures Reported(config, calls, i, j) <==>
            Reported(config, calls, i, j - 1) || Crosses(config, Before(config, calls, j - 1), calls[j - 1])
  {
    hide Crosses, Before;
  }

  /** Within a window the server-wide bucket counts grants less successes, and remembers whether
  the ceiling was reported. */
  lemma {:induction false} WindowIsTallied(config: Config, calls: seq<Call>, i: nat, j: nat)
    requires config.Valid() && Opens(config, calls, i) && i < j <= |calls| && Lasts(config, calls, i, j - 1)
    ensures Tallied(Before(config, calls, j).global, Standing(config, calls, i, j), Reported(config, calls, i, j))
    decreases j
  {
    hide Step, Crosses, Tallied, Reported, Normalize, Good;
    var n := j - 1;
    assert calls[..j][..n] == calls[..n];
    RunsStayGood(config, calls[..n]);
    ReportedStep(config, calls, i, j);
    if n == i {
      assert Tallied(DEFAULT, 0, false) by { FreshTally(); }
      assert !Reported(config, calls, i, i) by { NothingReported(config, calls, i); }
      TallyStep(config, Before(config, calls, n), calls[n], 0, false);
    } else {
      WindowIsTallied(config, calls, i, n);
      if calls[n].Unknown? {
        UnknownKeepsGlobal(config, Before(config, calls, n), calls[n]);
      } else {
        TallyStep(config, Before(config, calls, n), calls[n], Standing(config, calls, i, n), Reported(config, calls, i, n));
      }
    }
  }

  lemma FreshTally()
    ensures Tallied(DEFAULT, 0, false)
  {
  }

  lemma NothingReported(config: Config, calls: seq<Call>, i: nat)
    requires i <= |calls|
    ensures !Reported(config, calls, i, i)
  {
  }

  lemma UnknownKeepsGlobal(config: Config, s: State, call: Call)
    requires call.Unknown?
    ensures Step(config, s, call).0.global == s.global && !Crosses(config, s, call)
  {
    hide UnknownUser;
  }

  // ---------------------------------------------------------------------------------------
  // What the ceiling does
  // ---------------------------------------------------------------------------------------

  /** The key has failed, and neither its lockout nor its window is over. */
  predicate HasLiveFailure(config: Config, bucket: Bucket, now: nat) {
    bucket.failures > 0 && Live(config, bucket, now)
  }

  lemma LiveBucket(config: Config, s: State, key: Key, now: nat)
    requires config.Valid() && Good(config, s)
    ensures var bucket, live := View(s, key), Normalize(config, View(s, key), now);
            && (live.failures > 0 <==> HasLiveFailure(config, bucket, now))
            && (live.lockedUntil > now <==> bucket.lockedUntil > now)
            && (bucket.lockedUntil > now ==> HasLiveFailure(config, bucket, now))
  {
  }

  /** The answer to a call, by the count it finds. */
  lemma AnswerByCount(config: Config, s: State, call: Call, count: nat, reported: bool)
    requires config.Valid() && Good(config, s) && (call.Check? || call.Reserve?)
    requires Tallied(Normalize(config, s.global, call.now), count, reported)
    ensures var answer, bucket := Step(config, s, call).1, View(s, call.key);
            && answer.Decided?
            && (count >= config.globalMax ==>
                  (answer.decision.Limited? <==> HasLiveFailure(config, bucket, call.now)))
            && (count < config.globalMax ==> (answer.decision.Limited? <==> bucket.lockedUntil > call.now))
            && (call.Check? && answer.decision.Allowed? ==> !answer.decision.ceilingCrossed)
            && (call.Reserve? && answer.decision.Allowed? ==>
                  (answer.decision.ceilingCrossed <==> Min(count + 1, U32_MAX) >= config.globalMax && !reported))
  {
    hide Normalize, Charge, Good, UnknownUser, HasLiveFailure, Step, View;
    LiveBucket(config, s, call.key, call.now);
    LimiterReference.AnswerView(config, s, call);
  }

  /**
    The ceiling, over every run.  From the call that opens a server-wide window for as long as it
    lasts: once grants less successes reach the ceiling, a call is refused exactly when its key has
    a live failure; below the ceiling, exactly when its key is locked out.  A grant reports the
    ceiling exactly when it reaches it and no grant of the window did before.
  */
  lemma {:induction false} CeilingHolds(config: Config, calls: seq<Call>, i: nat, j: nat)
    requires config.Valid() && Opens(config, calls, i) && i <= j < |calls| && Lasts(config, calls, i, j)
    requires calls[j].Check? || calls[j].Reserve?
    ensures var s, call, count := Before(config, calls, j), calls[j], Standing(config, calls, i, j);
            var answer, bucket := Step(config, s, call).1, View(s, call.key);
            && answer.Decided?
            && (count >= config.globalMax ==>
                  (answer.decision.Limited? <==> HasLiveFailure(config, bucket, call.now)))
            && (count < config.globalMax ==> (answer.decision.Limited? <==> bucket.lockedUntil > call.now))
            && (call.Check? && answer.decision.Allowed? ==> !answer.decision.ceilingCrossed)
            && (call.Reserve? && answer.decision.Allowed? ==>
                  (answer.decision.ceilingCrossed <==>
                   Min(count + 1, U32_MAX) >= config.globalMax && !Reported(config, calls, i, j)))
  {
    hide Step, Crosses, Tallied, Reported, Normalize, Good, View, HasLiveFailure, Run;
    RunsStayGood(config, calls[..j]);
    var s := Before(config, calls, j);
    if i == j {
      FreshTally();
      NothingReported(config, calls, i);
      AnswerByCount(config, s, calls[j], 0, false);
    } else {
      WindowIsTallied(config, calls, i, j);
      assert !WindowOver(config, s, calls[j]);
      AnswerByCount(config, s, calls[j], Standing(config, calls, i, j), Reported(config, calls, i, j));
    }
  }

  /** Every call that looks at the server-wide window belongs to one that some call opened. */
  lemma {:induction false} EveryCallHasAWindow(config: Config, calls: seq<Call>, j: nat) returns (i: nat)
    requires config.Valid() && j < |calls| && !calls[j].Unknown?
    ensures i <= j && Opens(config, calls, i) && Lasts(config, calls, i, j)
  {
    hide Step, Normalize;
    NormalizesOrLasts(config, Before(config, calls, j).global, calls[j].now);
    if Opens(config, calls, j) {
      i := j;
    } else {
      var m := LastLook(config, calls, j);
      i := EveryCallHasAWindow(config, calls, m);
    }
  }

  /** A window that has been counted in was last looked at by an earlier call. */
  lemma {:induction false} LastLook(config: Config, calls: seq<Call>, j: nat) returns (m: nat)
    requires config.Valid() && j <= |calls| && Before(config, calls, j).global != DEFAULT
    ensures m < j && !calls[m].Unknown? && forall n :: m < n < j ==> calls[n].Unknown?
  {
    hide Step;
    assert j > 0 by { assert calls[..0] == []; }
    var n := j - 1;
    assert calls[..j][..n] == calls[..n];
    if calls[n].Unknown? {
      UnknownKeepsGlobal(config, Before(config, calls, n), calls[n]);
      m := LastLook(config, calls, n);
    } else {
      m := n;
    }
  }
}
