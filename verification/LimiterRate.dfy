/** How many reservations of one key any stretch of time can see granted. */
module LimiterRate {
  import opened Integers
  import opened LoginLimiter
  import opened LimiterSafety

  /** The shorter of window and lockout, in milliseconds. */
  function Span(config: Config): nat {
    Min(Millis(config.windowSeconds), Millis(config.lockoutSeconds))
  }

  /** Call times stay within the interval and never go back. */
  ghost predicate Clocked(calls: seq<Call>, start: nat, end: nat) {
    && (forall i :: 0 <= i < |calls| ==> start <= calls[i].now <= end)
    && (forall i, j :: 0 <= i < j < |calls| ==> calls[i].now <= calls[j].now)
  }

  /** No success is recorded for the key and no call evicts it. */
  ghost predicate Undisturbed(config: Config, s: State, calls: seq<Call>, key: Key) {
    forall i :: 0 <= i < |calls| ==>
      !Evicts(config, Run(config, s, calls[..i]), calls[i], key) && calls[i] != Success(key, calls[i].now)
  }

  ghost function Grants(config: Config, s: State, calls: seq<Call>, key: Key): nat {
    if calls == [] then 0 else
    var n := |calls| - 1;
    Grants(config, s, calls[..n], key) +
    if Granted(config, Run(config, s, calls[..n]), calls[n], key) then 1 else 0
  }

  // ---------------------------------------------------------------------------------------
  // No window begins in the future
  // ---------------------------------------------------------------------------------------

  ghost predicate TimelyBucket(config: Config, bucket: Bucket, now: nat) {
    bucket == DEFAULT || (GoodBucket(config, bucket) && bucket.started <= now)
  }

  ghost predicate Timely(config: Config, s: State, now: nat) {
    Good(config, s) && forall k :: k in s.keys ==> TimelyBucket(config, s.keys[k], now)
  }

  lemma TimelyView(config: Config, s: State, now: nat, key: Key)
    requires Timely(config, s, now)
    ensures TimelyBucket(config, View(s, key), now)
  {
  }

  lemma StepKeepsTimely(config: Config, s: State, call: Call, since: nat)
    requires config.Valid() && Timely(config, s, since) && since <= call.now
    ensures Timely(config, Step(config, s, call).0, call.now)
  {
    hide Step, Granted, Evicts, Good, GoodBucket;
    StepKeepsGood(config, s, call);
    var after := Step(config, s, call).0;
    forall k | k in after.keys ensures TimelyBucket(config, after.keys[k], call.now) {
      TimelyView(config, s, since, k);
      if Evicts(config, s, call, k) || call == Success(k, call.now) {
        DroppedView(config, s, call, k);
      } else {
        KeyEffect(config, s, call, k);
        BucketStaysTimely(config, View(s, k), View(after, k), since, call.now);
      }
      assert View(after, k) == after.keys[k];
    }
  }

  lemma BucketStaysTimely(config: Config, before: Bucket, after: Bucket, since: nat, now: nat)
    requires config.Valid() && TimelyBucket(config, before, since) && since <= now
    requires || OnlyNormalized(config, before, after, now)
             || (after == Charge(config, Normalize(config, before, now), now) && Normalize(config, before, now).lockedUntil <= now)
    ensures TimelyBucket(config, after, now)
  {
  }

  lemma {:induction false} RunsStayTimely(config: Config, calls: seq<Call>, end: nat)
    requires config.Valid() && Clocked(calls, 0, end)
    ensures Timely(config, Run(config, INITIAL, calls), if calls == [] then 0 else calls[|calls| - 1].now)
  {
    hide Step;
    if calls != [] {
      var n := |calls| - 1;
      RunsStayTimely(config, calls[..n], end);
      StepKeepsTimely(config, Run(config, INITIAL, calls[..n]), calls[n], if n == 0 then 0 else calls[n - 1].now);
    }
  }

  // ---------------------------------------------------------------------------------------
  // The bound
  // ---------------------------------------------------------------------------------------

  /** How many counting periods can begin in [from, end] when they begin a span apart. */
  function Periods(from: nat, end: nat, span: nat): nat
    requires span > 0
  {
    if from > end then 0 else (end - from) / span + 1
  }

  function Times(a: nat, b: nat): nat { a * b }

  lemma TimesGrows(a: nat, b: nat, c: nat)
    requires b <= c
    ensures Times(a, b) <= Times(a, c)
  {
  }

  lemma TimesStep(a: nat, b: nat)
    ensures Times(a, b + 1) == Times(a, b) + a
  {
  }

  lemma DivMod(n: nat, span: nat)
    requires span > 0
    ensures Times(span, n / span) + n % span == n && n % span < span
  {
  }

  lemma DivUnique(n: nat, span: nat, q: nat, r: nat)
    requires span > 0 && r < span && n == Times(span, q) + r
    ensures n / span == q
  {
    hide Times;
    DivMod(n, span);
    var p := n / span;
    if p < q {
      TimesGrows(span, p + 1, q);
      TimesStep(span, p);
    } else if q < p {
      TimesGrows(span, q + 1, p);
      TimesStep(span, q);
    }
  }

  lemma DivStep(n: nat, span: nat)
    requires span > 0 && n >= span
    ensures n / span == (n - span) / span + 1
  {
    hide Times;
    DivMod(n - span, span);
    TimesStep(span, (n - span) / span);
    DivUnique(n, span, (n - span) / span + 1, (n - span) % span);
  }

  lemma DivGrows(a: nat, b: nat, span: nat)
    requires span > 0 && a <= b
    ensures a / span <= b / span
  {
    hide Times;
    DivMod(a, span);
    DivMod(b, span);
    if b / span < a / span {
      TimesGrows(span, b / span + 1, a / span);
      TimesStep(span, b / span);
    }
  }

  lemma PeriodsStep(from: nat, end: nat, span: nat)
    requires span > 0 && from <= end
    ensures Periods(from, end, span) == Periods(from + span, end, span) + 1
  {
    if from + span <= end {
      DivStep(end - from, span);
    }
  }

  lemma PeriodsShrink(early: nat, late: nat, end: nat, span: nat)
    requires span > 0 && early <= late
    ensures Periods(late, end, span) <= Periods(early, end, span)
  {
    if late <= end {
      DivGrows(end - late, end - early, span);
    }
  }

  /** The earliest time at which the bucket can begin its next counting period. A window opened
      at time zero is dated by the next failure. */
  function NextPeriod(config: Config, bucket: Bucket, now: nat): nat {
    var live := Normalize(config, bucket, now);
    if live.failures == 0 then now
    else if live.lockedUntil != 0 then Max(now, live.lockedUntil)
    else if live.started == 0 then now + Span(config)
    else Max(now, live.started + Span(config))
  }

  /** What the period under way can still grant. */
  function Left(config: Config, bucket: Bucket, now: nat): nat {
    var live := Normalize(config, bucket, now);
    if live.failures == 0 || live.lockedUntil != 0 then 0 else SaturatingSub(config.maxFailures, live.failures)
  }

  /** No more than this many grants can follow up to the end of the interval. */
  function Potential(config: Config, bucket: Bucket, now: nat, end: nat): nat
    requires Span(config) > 0
  {
    Left(config, bucket, now) + Times(config.maxFailures, Periods(NextPeriod(config, bucket, now), end, Span(config)))
  }

  lemma SpanIsPositive(config: Config)
    requires config.Valid()
    ensures Span(config) > 0
  {
  }

  /** Waiting and normalising do not raise the potential. */
  lemma PotentialFalls(config: Config, before: Bucket, after: Bucket, since: nat, now: nat, end: nat)
    requires config.Valid() && Span(config) > 0 && TimelyBucket(config, before, since) && since <= now
    requires OnlyNormalized(config, before, after, now)
    ensures Potential(config, after, now, end) <= Potential(config, before, since, end)
  {
    hide Times, Periods;
    assert Left(config, after, now) <= Left(config, before, since);
    assert NextPeriod(config, before, since) <= NextPeriod(config, after, now);
    PeriodsShrink(NextPeriod(config, before, since), NextPeriod(config, after, now), end, Span(config));
    TimesGrows(config.maxFailures, Periods(NextPeriod(config, after, now), end, Span(config)),
               Periods(NextPeriod(config, before, since), end, Span(config)));
  }

  /** A grant uses up at least one unit of potential. */
  lemma GrantPays(config: Config, live: Bucket, now: nat, end: nat)
    requires config.Valid() && Span(config) > 0 && TimelyBucket(config, live, now) && now <= end < U64_MAX
    requires Normalize(config, live, now) == live && live.lockedUntil <= now
    ensures Potential(config, Charge(config, live, now), now, end) + 1 <= Potential(config, live, now, end)
  {
    hide Times, Periods;
    var span, limit := Span(config), config.maxFailures;
    var charged := Charge(config, live, now);
    var next := NextPeriod(config, charged, now);
    if live == DEFAULT {
      PeriodsStep(now, end, span);
      TimesStep(limit, Periods(now + span, end, span));
      NoLaterPeriods(now + span, next, end, span);
      TimesGrows(limit, Periods(next, end, span), Periods(now + span, end, span));
    } else {
      NoLaterPeriods(NextPeriod(config, live, now), next, end, span);
      TimesGrows(limit, Periods(next, end, span), Periods(NextPeriod(config, live, now), end, span));
    }
  }

  /** A next period no earlier, or past the end, leaves no more periods. */
  lemma NoLaterPeriods(early: nat, late: nat, end: nat, span: nat)
    requires span > 0 && (early <= late || end < late)
    ensures Periods(late, end, span) <= Periods(early, end, span)
  {
    if early <= late {
      PeriodsShrink(early, late, end, span);
    }
  }

  lemma PotentialAtStart(config: Config, bucket: Bucket, start: nat, end: nat)
    requires config.Valid() && Span(config) > 0 && start <= end
    ensures Potential(config, bucket, start, end) <= config.maxFailures * ((end - start) / Span(config) + 2)
  {
    hide Periods, Normalize;
    var span := Span(config);
    PeriodsShrink(start, NextPeriod(config, bucket, start), end, span);
    TimesGrows(config.maxFailures, Periods(NextPeriod(config, bucket, start), end, span), Periods(start, end, span));
    PeriodsAtStart(start, end, span);
    TimesStep(config.maxFailures, Periods(start, end, span));
  }

  lemma PeriodsAtStart(start: nat, end: nat, span: nat)
    requires span > 0 && start <= end
    ensures Periods(start, end, span) == (end - start) / span + 1
  {
  }

  /** Grants so far, plus what the bucket can still grant, never exceed the starting potential. */
  lemma {:induction false} GrantsAreBounded(config: Config, s: State, calls: seq<Call>, key: Key, start: nat, end: nat)
    requires config.Valid() && Span(config) > 0 && Timely(config, s, start) && start <= end < U64_MAX
    requires Clocked(calls, start, end) && Undisturbed(config, s, calls, key)
    ensures var last := if calls == [] then start else calls[|calls| - 1].now;
            var after := Run(config, s, calls);
            && Timely(config, after, last)
            && Grants(config, s, calls, key) + Potential(config, View(after, key), last, end)
               <= Potential(config, View(s, key), start, end)
  {
    hide Step, Granted, Evicts, Potential, Good, GoodBucket, Normalize, Charge, Span;
    if calls != [] {
      var n := |calls| - 1;
      var since := if n == 0 then start else calls[n - 1].now;
      UndisturbedPrefix(config, s, calls, key);
      GrantsAreBounded(config, s, calls[..n], key, start, end);
      var mid, call := Run(config, s, calls[..n]), calls[n];
      StepKeepsTimely(config, mid, call, since);
      TimelyView(config, mid, since, key);
      KeyEffect(config, mid, call, key);
      var before, live := View(mid, key), Normalize(config, View(mid, key), call.now);
      if Granted(config, mid, call, key) {
        BucketStaysTimely(config, before, live, since, call.now);
        NormalizeTwice(config, before, call.now, call.now);
        PotentialFalls(config, before, live, since, call.now, end);
        GrantPays(config, live, call.now, end);
      } else {
        PotentialFalls(config, before, View(Step(config, mid, call).0, key), since, call.now, end);
      }
    }
  }

  lemma UndisturbedPrefix(config: Config, s: State, calls: seq<Call>, key: Key)
    requires calls != [] && Undisturbed(config, s, calls, key)
    ensures Undisturbed(config, s, calls[..|calls| - 1], key)
  {
    var n := |calls| - 1;
    forall i | 0 <= i < n
      ensures !Evicts(config, Run(config, s, calls[..n][..i]), calls[..n][i], key)
    {
      assert calls[..n][..i] == calls[..i];
    }
  }

  /**
    The whole-run rate bound.  After any history, in any interval during which the key is
    neither evicted nor successful, at most limit * (length / span + 2) reservations of the
    key are granted, whatever other keys do, whenever the table is pruned and however long
    lockouts are, as long as the clock has not reached its largest value.
  */
  lemma RateIsBounded(config: Config, history: seq<Call>, calls: seq<Call>, key: Key, start: nat, end: nat)
    requires config.Valid() && start <= end < U64_MAX && Clocked(history, 0, start) && Clocked(calls, start, end)
    requires Undisturbed(config, Run(config, INITIAL, history), calls, key)
    ensures Grants(config, Run(config, INITIAL, history), calls, key)
            <= config.maxFailures * ((end - start) / Span(config) + 2)
  {
    hide Potential, Grants, Run, Undisturbed, Good, GoodBucket, Span;
    SpanIsPositive(config);
    var s := Run(config, INITIAL, history);
    RunsStayTimely(config, history, start);
    assert Timely(config, s, start);
    GrantsAreBounded(config, s, calls, key, start, end);
    PotentialAtStart(config, View(s, key), start, end);
  }

  /** A first failure at this time is forgotten at some time the clock can show. */
  ghost predicate Forgotten(config: Config, now: nat) {
    exists later: nat :: later <= U64_MAX && Normalize(config, Charge(config, DEFAULT, now), later) == DEFAULT
  }

  /**
    Time zero doubles as "no window", and the clock stops at its largest value.  A first
    failure that locks the key out is always forgotten in the end; one that does not is
    forgotten exactly when the clock was past zero and its window ends before the clock does.
  */
  lemma FirstFailureIsForgotten(config: Config, now: nat)
    requires config.Valid()
    ensures Forgotten(config, now) <==>
            config.maxFailures == 1 || (0 < now && now + Millis(config.windowSeconds) < U64_MAX)
  {
    var bucket := Charge(config, DEFAULT, now);
    if config.maxFailures == 1 {
      assert Normalize(config, bucket, U64_MAX) == DEFAULT;
    } else if 0 < now && now + Millis(config.windowSeconds) < U64_MAX {
      assert Normalize(config, bucket, now + Millis(config.windowSeconds) + 1) == DEFAULT;
    } else {
      forall later: nat | later <= U64_MAX ensures Normalize(config, bucket, later) != DEFAULT {
      }
    }
  }

  /** At time zero, and at the end of the clock, a failure below the limit is never forgotten. */
  lemma FailureCanStay(config: Config)
    requires config.Valid() && config.maxFailures > 1
    ensures !Forgotten(config, 0) && !Forgotten(config, U64_MAX)
  {
    FirstFailureIsForgotten(config, 0);
    FirstFailureIsForgotten(config, U64_MAX);
  }
}
