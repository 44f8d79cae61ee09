/** How often the login limiter reports: the ceiling once per window, unknown users up to a cap. */
module LimiterAudit {
  import opened Integers
  import opened LoginLimiter
  import opened LimiterSafety
  import LimiterReference

  // ---------------------------------------------------------------------------------------
  // The ceiling
  // ---------------------------------------------------------------------------------------

  ghost predicate Crosses(config: Config, s: State, call: Call) {
    call.Reserve? && Step(config, s, call).1 == Decided(Allowed(true))
  }

  /** The server-wide window is over when the call looks at it. */
  ghost predicate WindowOver(config: Config, s: State, call: Call) {
    !call.Unknown? && Normalize(config, s.global, call.now) != s.global
  }

  lemma CrossingMarks(config: Config, s: State, call: Call)
    requires Good(config, s) && Crosses(config, s, call)
    ensures Step(config, s, call).0.global.audited && !Normalize(config, s.global, call.now).audited
  {
    hide Step, Normalize, LimitedNow, Charge, Good;
    LimiterReference.AnswerView(config, s, call);
  }

  lemma MarkStays(config: Config, s: State, call: Call)
    requires Good(config, s) && s.global.audited && !WindowOver(config, s, call)
    ensures Step(config, s, call).0.global.audited
  {
    hide Normalize, LimitedNow, Charge, Good, UnknownUser;
    if call.Check? || call.Reserve? {
      hide Step;
      LimiterReference.AnswerView(config, s, call);
    }
  }

  lemma {:induction false} MarkStaysOverRun(config: Config, calls: seq<Call>, i: nat, j: nat)
    requires config.Valid() && i <= j <= |calls| && Run(config, INITIAL, calls[..i]).global.audited
    requires forall m :: i <= m < j ==> !WindowOver(config, Run(config, INITIAL, calls[..m]), calls[m])
    ensures Run(config, INITIAL, calls[..j]).global.audited
    decreases j
  {
    hide Step, WindowOver;
    if i < j {
      var n := j - 1;
      assert calls[..j][..n] == calls[..n];
      MarkStaysOverRun(config, calls, i, n);
      RunsStayGood(config, calls[..n]);
      MarkStays(config, Run(config, INITIAL, calls[..n]), calls[n]);
    }
  }

  /** Crossing the ceiling is reported once: between two reports the server-wide window ran out. */
  lemma CeilingReportedOnce(config: Config, calls: seq<Call>, i: nat, j: nat) returns (m: nat)
    requires config.Valid() && i < j < |calls|
    requires Crosses(config, Run(config, INITIAL, calls[..i]), calls[i])
    requires Crosses(config, Run(config, INITIAL, calls[..j]), calls[j])
    ensures i < m <= j && WindowOver(config, Run(config, INITIAL, calls[..m]), calls[m])
  {
    hide Step, Normalize, Good;
    RunsStayGood(config, calls[..i]);
    RunsStayGood(config, calls[..j]);
    CrossingMarks(config, Run(config, INITIAL, calls[..i]), calls[i]);
    CrossingMarks(config, Run(config, INITIAL, calls[..j]), calls[j]);
    assert calls[..i + 1][..i] == calls[..i];
    m := j;
    if !WindowOver(config, Run(config, INITIAL, calls[..j]), calls[j]) {
      if forall n :: i < n < j ==> !WindowOver(config, Run(config, INITIAL, calls[..n]), calls[n]) {
        MarkStaysOverRun(config, calls, i + 1, j);
      } else {
        m :| i < m < j && WindowOver(config, Run(config, INITIAL, calls[..m]), calls[m]);
      }
    }
  }

  // ---------------------------------------------------------------------------------------
  // Unknown users
  // ---------------------------------------------------------------------------------------

  /** How many of these calls are logins of unknown users. */
  function Unknowns(calls: seq<Call>): nat {
    if calls == [] then 0
    else Unknowns(calls[..|calls| - 1]) + if calls[|calls| - 1].Unknown? then 1 else 0
  }

  /** The counter as the login at position m finds it. */
  function CounterAt(config: Config, calls: seq<Call>, m: nat): Bucket
    requires m <= |calls|
  {
    Run(config, INITIAL, calls[..m]).unknownUsers
  }

  /** The login at position i finds no window, or one that is over: it opens the next. */
  ghost predicate OpensWindow(config: Config, calls: seq<Call>, i: nat) {
    i < |calls| && calls[i].Unknown? && Normalize(config, CounterAt(config, calls, i), calls[i].now) == DEFAULT
  }

  /** No login of an unknown user from position i + 1 to position j finds its window over. */
  ghost predicate WindowLasts(config: Config, calls: seq<Call>, i: nat, j: nat) {
    forall m :: i < m <= j && m < |calls| && calls[m].Unknown? ==>
      Normalize(config, CounterAt(config, calls, m), calls[m].now) == CounterAt(config, calls, m)
  }

  /** What the counter holds after n logins of one window. */
  ghost predicate Counts(config: Config, bucket: Bucket, n: nat) {
    && bucket.failures == Min(n, U32_MAX) && bucket.lockedUntil == 0
    && (bucket.audited <==> n > config.globalMax && config.globalMax < U32_MAX)
  }

  lemma OtherCallsKeepCounter(config: Config, s: State, call: Call)
    requires Good(config, s) && !call.Unknown?
    ensures Step(config, s, call).0.unknownUsers == s.unknownUsers
  {
    if call.Check? || call.Reserve? {
      hide Step, Good;
      LimiterReference.AnswerView(config, s, call);
    }
  }

  lemma LoginCounts(config: Config, bucket: Bucket, now: nat, n: nat)
    requires config.Valid()
    requires if n == 0 then Normalize(config, bucket, now) == DEFAULT
             else Normalize(config, bucket, now) == bucket && Counts(config, bucket, n)
    ensures Counts(config, UnknownUser(config, bucket, now).0, n + 1)
    ensures UnknownUser(config, bucket, now).1 ==
            if n < config.globalMax || config.globalMax == U32_MAX then Event
            else if n == config.globalMax then Coalesced else Skip
  {
  }

  /** Only logins of unknown users change the counter. */
  lemma CounterStep(config: Config, calls: seq<Call>, m: nat)
    requires config.Valid() && m < |calls|
    ensures CounterAt(config, calls, m + 1) ==
            if calls[m].Unknown? then UnknownUser(config, CounterAt(config, calls, m), calls[m].now).0
            else CounterAt(config, calls, m)
  {
    hide UnknownUser;
    assert calls[..m + 1][..m] == calls[..m];
    if !calls[m].Unknown? {
      hide Step;
      RunsStayGood(config, calls[..m]);
      OtherCallsKeepCounter(config, Run(config, INITIAL, calls[..m]), calls[m]);
    }
  }

  /** The counter after the window's logins so far, whatever other calls came in between. */
  lemma {:induction false} CounterInWindow(config: Config, calls: seq<Call>, i: nat, j: nat)
    requires config.Valid() && OpensWindow(config, calls, i) && i < j <= |calls| && WindowLasts(config, calls, i, j - 1)
    ensures Unknowns(calls[i..j]) > 0 && Counts(config, CounterAt(config, calls, j), Unknowns(calls[i..j]))
    decreases j
  {
    hide Counts, UnknownUser, Normalize, CounterAt;
    var m := j - 1;
    assert calls[i..j][..m - i] == calls[i..m] && calls[i..j][m - i] == calls[m];
    CounterStep(config, calls, m);
    if m == i {
      assert calls[i..m] == [];
      LoginCounts(config, CounterAt(config, calls, m), calls[m].now, 0);
    } else {
      CounterInWindow(config, calls, i, m);
      if calls[m].Unknown? {
        LoginCounts(config, CounterAt(config, calls, m), calls[m].now, Unknowns(calls[i..m]));
      }
    }
  }

  /**
    In every run, whatever other calls come in between and whatever the clock shows: of the
    logins of unknown users in one window, those up to the cap get their own audit event, the
    next one a summary, and the rest nothing.  A cap as large as the counter can count is never
    exceeded.
  */
  lemma UnknownUsersAreCapped(config: Config, calls: seq<Call>, i: nat, j: nat)
    requires config.Valid() && OpensWindow(config, calls, i) && i <= j < |calls| && calls[j].Unknown?
    requires WindowLasts(config, calls, i, j)
    ensures var earlier := Unknowns(calls[i..j]);
            Step(config, Run(config, INITIAL, calls[..j]), calls[j]).1 ==
              Audited(if earlier < config.globalMax || config.globalMax == U32_MAX then Event
                      else if earlier == config.globalMax then Coalesced else Skip)
  {
    hide Counts, UnknownUser, Normalize;
    if i == j {
      assert calls[i..j] == [];
      LoginCounts(config, CounterAt(config, calls, j), calls[j].now, 0);
    } else {
      CounterInWindow(config, calls, i, j);
      LoginCounts(config, CounterAt(config, calls, j), calls[j].now, Unknowns(calls[i..j]));
    }
  }

  /** Every login of an unknown user belongs to a window that some login opened. */
  lemma {:induction false} EveryLoginHasAWindow(config: Config, calls: seq<Call>, j: nat) returns (i: nat)
    requires config.Valid() && j < |calls| && calls[j].Unknown?
    ensures i <= j && OpensWindow(config, calls, i) && WindowLasts(config, calls, i, j)
  {
    hide UnknownUser;
    if OpensWindow(config, calls, j) {
      i := j;
    } else {
      NormalizesOrLasts(config, CounterAt(config, calls, j), calls[j].now);
      var m := LastLogin(config, calls, j);
      i := EveryLoginHasAWindow(config, calls, m);
    }
  }

  lemma NormalizesOrLasts(config: Config, bucket: Bucket, now: nat)
    ensures Normalize(config, bucket, now) == DEFAULT || Normalize(config, bucket, now) == bucket
  {
  }

  lemma CounterStart(config: Config, calls: seq<Call>)
    ensures CounterAt(config, calls, 0) == DEFAULT
  {
  }

  /** A counter that has counted was last changed by an earlier login. */
  lemma {:induction false} LastLogin(config: Config, calls: seq<Call>, j: nat) returns (m: nat)
    requires config.Valid() && j <= |calls| && CounterAt(config, calls, j) != DEFAULT
    ensures m < j && calls[m].Unknown? && forall n :: m < n < j ==> !calls[n].Unknown?
  {
    hide UnknownUser, CounterAt;
    CounterStart(config, calls);
    var n := j - 1;
    CounterStep(config, calls, n);
    if calls[n].Unknown? {
      m := n;
    } else {
      m := LastLogin(config, calls, n);
    }
  }
}
