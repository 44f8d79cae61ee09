/** The whole journey: back up a run of the source, publish the backups, restore the chain. */
module BackupRoundTrip {
  import opened Bytes
  import opened Integers
  import opened Store
  import opened Chain
  import opened CommitLog
  import opened RestoreChecks
  import opened Restore
  import opened Producers
  import opened LogScan
  import opened SourceHistory
  import opened EndToEnd
  import opened RestorePolicy

  /** The LSN of the source at a state of its run. */
  ghost function LsnAt(steps: seq<Step>, i: nat): nat
    requires i <= |steps|
  {
    |Commits(steps[..i])|
  }

  /** States of a run of the source, in order, at which backups are taken. */
  ghost predicate Moments(states: seq<State>, steps: seq<Step>, at: seq<nat>) {
    && Run(states, steps) && BelowLimit(steps) && at != []
    && (forall k :: 0 <= k < |at| ==> at[k] < |states|)
    && (forall j, k :: 0 <= j <= k < |at| ==> at[j] <= at[k])
  }

  lemma {:induction false} MomentLsns(states: seq<State>, steps: seq<Step>, at: seq<nat>, j: nat, k: nat)
    requires Moments(states, steps, at) && j <= k < |at|
    ensures LsnAt(steps, at[j]) <= LsnAt(steps, at[k]) < U64_MAX
    ensures Commits(steps[..at[j]]) <= Commits(steps[..at[k]])
  {
    hide Genesis, Legal, After, Commits;
    assert steps[..|steps|] == steps;
    CommitsPrefix(steps, at[j], at[k]);
    CommitsPrefix(steps, at[k], |steps|);
  }

  /** A backup of `s` can follow one of `previous`, which ended at `parent`: the parent could note
  the hash of its last commit, the timeline is still the parent's, and the log reaches back. */
  ghost predicate BackupPoint(previous: State, s: State, parent: Lsn, lsn: Lsn, timeline: Bytes) {
    && (parent > 0 ==> LogCell(parent) in previous)
    && Lookup(s, TIMELINE) == Some(Raw(timeline))
    && ReachesBack(s, parent, lsn)
  }

  /** A full backup can be taken at the first moment and an incremental one at each further one. */
  ghost predicate BackupPoints(states: seq<State>, steps: seq<Step>, at: seq<nat>, timeline: Bytes, objects: Objects)
    requires Moments(states, steps, at)
  {
    && Resolvable(states[at[0]], objects)
    && forall k :: 0 < k < |at| ==> PointAt(states, steps, at, timeline, k)
  }

  ghost predicate PointAt(states: seq<State>, steps: seq<Step>, at: seq<nat>, timeline: Bytes, k: nat)
    requires Moments(states, steps, at) && 0 < k < |at|
  {
    MomentLsns(states, steps, at, k - 1, k);
    BackupPoint(states[at[k - 1]], states[at[k]], LsnAt(steps, at[k - 1]), LsnAt(steps, at[k]), timeline)
  }

  /** A backup of a state of the run, with the hash the state's log gives it. */
  ghost predicate EndsAt(m: Manifest, states: seq<State>, steps: seq<Step>, i: nat, timeline: Bytes, hash: Hash)
    requires i <= |steps| && i < |states|
  {
    && m.timeline == timeline && m.endLsn == LsnAt(steps, i)
    && CommitHashAt(states[i], m.endLsn, hash) == Ok(m.endHash)
  }

  /** The condition is exact. */
  lemma {:induction false} PointIsExact(
    states: seq<State>, steps: seq<Step>, at: seq<nat>, timeline: Bytes, hash: Hash, parent: Manifest, k: nat)
    requires Moments(states, steps, at) && 0 < k < |at|
    requires EndsAt(parent, states, steps, at[k - 1], timeline, hash)
    ensures CanFollow(states[at[k]], parent, hash) <==> PointAt(states, steps, at, timeline, k)
  {
    hide Genesis, Legal, After, Commits, Covered, LogSound, LogPresent, CurrentLsn, ReachesBack, LsnBytes;
    MomentLsns(states, steps, at, k - 1, k);
    RunsAreSound(states, steps, at[k - 1]);
    HashIsSound(states[at[k - 1]], Commits(steps[..at[k - 1]]), parent.endLsn, hash);
    if parent.endLsn == 0 || parent.endHash.Some? {
      FollowedExactly(states, steps, at[k], parent, hash);
    }
  }

  // ---- Runs that can be backed up ----

  /** Commits only, and none of them writes the stored timeline. */
  ghost predicate PlainCommits(steps: seq<Step>) {
    forall i :: 0 <= i < |steps| ==>
      steps[i].Commit? && forall w :: w in steps[i].record.writes ==> Cell(w.table, w.key) != TIMELINE
  }

  /** The timeline is stored, the log is complete, and a log floor, if any, says so. */
  ghost predicate Complete(s: State, lsn: Lsn, timeline: Bytes) {
    && Lookup(s, TIMELINE) == Some(Raw(timeline)) && Retained(s, 0, lsn)
    && (LOG_FLOOR in s ==> s[LOG_FLOOR].LsnValue? && s[LOG_FLOOR].lsn <= 1)
  }

  lemma {:induction false} UnwrittenStays(writes: seq<CommitWrite>, c: Cell, before: Option<Value>)
    requires forall w :: w in writes ==> Cell(w.table, w.key) != c
    ensures LastWrite(writes, c, before) == before
  {
    if writes != [] {
      UnwrittenStays(writes[..|writes| - 1], c, before);
    }
  }

  lemma FloorStays(r: CommitRecord)
    requires forall w :: w in r.writes ==> !EngineTable(w.table)
    ensures LOG_FLOOR !in RecordDelta(r)
  {
    hide RecordKeyspaces, PublicTables, LsnBytes;
    WritesStayOut(r.writes, r.txnId, LOG_FLOOR);
  }

  /** One commit keeps what a backup needs, and adds its own log row. */
  lemma {:induction false} CommitKeepsComplete(s: State, r: CommitRecord, after: State, timeline: Bytes)
    requires Legal(s, Commit(r)) && ApplyRecord(s, r) == Ok(after)
    requires r.txnId > 0 && Complete(s, r.txnId - 1, timeline)
    requires forall w :: w in r.writes ==> Cell(w.table, w.key) != TIMELINE
    ensures Complete(after, r.txnId, timeline)
  {
    hide ApplyRecord, RecordDelta, CurrentLsn, LsnBytes;
    RecordRow(s, r, TIMELINE);
    UnwrittenStays(r.writes, TIMELINE, Lookup(s, TIMELINE));
    FloorStays(r);
    CommitRow(s, r, after, LOG_FLOOR);
    forall n: Lsn | 0 < n <= r.txnId ensures LogCell(n) in after {
      EngineRows(r, LogCell(n));
      CommitRow(s, r, after, LogCell(n));
    }
  }

  lemma {:induction false} CommitsKeepComplete(states: seq<State>, steps: seq<Step>, timeline: Bytes, i: nat)
    requires Run(states, steps) && PlainCommits(steps) && i < |states| && LsnAt(steps, i) < U64_MAX
    requires Complete(states[0], 0, timeline)
    ensures Complete(states[i], LsnAt(steps, i), timeline)
  {
    hide Genesis, Legal, After, Complete;
    if i == 0 {
      assert steps[..0] == [];
    } else {
      assert steps[..i][..i - 1] == steps[..i - 1];
      CommitsKeepComplete(states, steps, timeline, i - 1);
      RunsAreSound(states, steps, i - 1);
      CommitStep(states[i - 1], steps[i - 1], states[i], LsnAt(steps, i - 1), timeline);
    }
  }

  lemma CommitStep(s: State, step: Step, after: State, lsn: Lsn, timeline: Bytes)
    requires step.Commit? && Legal(s, step) && After(s, step) == Ok(after) && lsn < U64_MAX
    requires CurrentLsn(s) == Ok(lsn) && Complete(s, lsn, timeline)
    requires forall w :: w in step.record.writes ==> Cell(w.table, w.key) != TIMELINE
    ensures Complete(after, lsn + 1, timeline)
  {
    hide ApplyRecord, Complete;
    CommitKeepsComplete(s, step.record, after, timeline);
  }

  /** Without maintenance every sequence of moments will do: any run of commits over a database
  with a stored timeline can be backed up anywhere. */
  lemma {:induction false} CommitsCanBeBackedUp(
    states: seq<State>, steps: seq<Step>, at: seq<nat>, timeline: Bytes, objects: Objects)
    requires Moments(states, steps, at) && PlainCommits(steps) && Complete(states[0], 0, timeline)
    requires Resolvable(states[at[0]], objects)
    ensures BackupPoints(states, steps, at, timeline, objects)
  {
    hide Genesis, Legal, After, Complete, BackupPoint, Resolvable, Commits;
    forall k | 0 < k < |at| ensures PointAt(states, steps, at, timeline, k) {
      MomentLsns(states, steps, at, k - 1, k);
      CommitsKeepComplete(states, steps, timeline, at[k - 1]);
      CommitsKeepComplete(states, steps, timeline, at[k]);
      CompleteIsEnough(states[at[k - 1]], states[at[k]], LsnAt(steps, at[k - 1]), LsnAt(steps, at[k]), timeline);
    }
  }

  lemma CompleteIsEnough(previous: State, s: State, parent: Lsn, lsn: Lsn, timeline: Bytes)
    requires Complete(previous, parent, timeline) && Complete(s, lsn, timeline)
    ensures BackupPoint(previous, s, parent, lsn, timeline)
  {
    hide LsnBytes;
  }

  // ---- The journey ----

  /** Takes a full backup at the first moment and an incremental one at each further moment. It
  succeeds exactly when each of them can be taken. */
  method TakeChain(
    states: seq<State>, ghost steps: seq<Step>, at: seq<nat>, ids: seq<Bytes>, times: seq<Time>,
    timeline: Bytes, profile: Profile, objects: Objects, hash: Hash) returns (r: Result<seq<Backup>>)
    requires Moments(states, steps, at) && |ids| == |times| == |at|
    requires Lookup(states[at[0]], TIMELINE) == Some(Raw(timeline))
    ensures r.Ok? <==> BackupPoints(states, steps, at, timeline, objects)
    ensures r.Ok? ==> Produced(states, at, r.value, objects, hash)
    ensures r.Ok? ==> forall k :: 0 <= k < |at| ==> r.value[k].manifest.id == ids[k]
    ensures r.Ok? ==> forall k :: 0 <= k < |at| ==> r.value[k].manifest.profile == profile
    ensures r.Ok? ==> r.value[0].manifest.takenAt == times[0]
  {
    hide Genesis, Legal, After, Resolvable, PointAt, EndsAt, CommitHashAt, CurrentLsn, LsnAt, FullOf, IncrementalOf,
      CanFollow, Lookup;
    PointIsReadable(states, steps, at, hash, 0);
    var full := FullBackup(states[at[0]], objects, ids[0], timeline, profile, times[0], hash);
    if full.Err? {
      return Err(full.error);
    }
    var backups := [full.value];
    FullEnds(states, steps, at, timeline, objects, hash, full.value);
    for k := 1 to |at|
      invariant |backups| == k && FullOf(states[at[0]], objects, hash, backups[0])
      invariant backups[0].manifest.takenAt == times[0]
      invariant forall j :: 0 < j < k ==> PointAt(states, steps, at, timeline, j)
      invariant forall j :: 0 < j < k ==> IncrementalOf(states[at[j]], backups[j - 1].manifest, hash, backups[j])
      invariant forall j :: 0 <= j < k ==> backups[j].manifest.id == ids[j] && backups[j].manifest.profile == profile
      invariant EndsAt(backups[k - 1].manifest, states, steps, at[k - 1], timeline, hash)
    {
      PointIsExact(states, steps, at, timeline, hash, backups[k - 1].manifest, k);
      var next := IncrementalBackup(states[at[k]], backups[k - 1].manifest, ids[k], profile, times[k], false, hash);
      if next.Err? {
        return Err(next.error);
      }
      IncrementalEnds(states, steps, at, timeline, hash, k, backups[k - 1].manifest, next.value);
      backups := backups + [next.value];
    }
    return Ok(backups);
  }

  lemma PointIsReadable(states: seq<State>, steps: seq<Step>, at: seq<nat>, hash: Hash, k: nat)
    requires Moments(states, steps, at) && k < |at|
    ensures LsnAt(steps, at[k]) < U64_MAX && CurrentLsn(states[at[k]]) == Ok(LsnAt(steps, at[k]))
    ensures CommitHashAt(states[at[k]], LsnAt(steps, at[k]), hash).Ok?
  {
    hide Genesis, Legal, After, Commits, CommitHashAt, CurrentLsn, LogSound, Covered;
    MomentLsns(states, steps, at, k, k);
    RunsAreSound(states, steps, at[k]);
    HashIsSound(states[at[k]], Commits(steps[..at[k]]), LsnAt(steps, at[k]), hash);
  }

  lemma FullEnds(
    states: seq<State>, steps: seq<Step>, at: seq<nat>, timeline: Bytes, objects: Objects, hash: Hash, b: Backup)
    requires Moments(states, steps, at) && FullOf(states[at[0]], objects, hash, b) && b.manifest.timeline == timeline
    ensures EndsAt(b.manifest, states, steps, at[0], timeline, hash)
  {
    hide Genesis, Legal, After, CommitHashAt, CurrentLsn, Resolvable, IsPayload, Commits;
    PointIsReadable(states, steps, at, hash, 0);
  }

  lemma IncrementalEnds(
    states: seq<State>, steps: seq<Step>, at: seq<nat>, timeline: Bytes, hash: Hash, k: nat, parent: Manifest, b: Backup)
    requires Moments(states, steps, at) && 0 < k < |at| && EndsAt(parent, states, steps, at[k - 1], timeline, hash)
    requires IncrementalOf(states[at[k]], parent, hash, b)
    ensures EndsAt(b.manifest, states, steps, at[k], timeline, hash)
  {
    hide Genesis, Legal, After, CommitHashAt, CurrentLsn, LogPresent, WalOf, Commits;
    PointIsReadable(states, steps, at, hash, k);
  }

  /** Publishes each backup under its id. */
  method PublishAll(ids: seq<Bytes>, backups: seq<Backup>) returns (root: Root)
    requires |ids| == |backups| && forall k :: 0 <= k < |ids| ==> backups[k].manifest.id == ids[k] && PlainId(ids[k])
    requires forall j, k :: 0 <= j < k < |ids| ==> ids[j] != ids[k]
    ensures Published(root, backups)
  {
    hide PlainId;
    root := map[];
    for k := 0 to |backups|
      invariant forall j :: 0 <= j < k ==> ids[j] in root && root[ids[j]] == backups[j]
    {
      root := root[ids[k] := backups[k]];
    }
  }

  /** A restored database stands at the LSN and on the timeline of the source, records where it was
  recovered to, and every row of it is the source's at that LSN. */
  ghost predicate Rebuilt(
    states: seq<State>, steps: seq<Step>, start: nat, lsn: nat, initial: State, rows: State, objects: Objects)
    requires |states| == |steps| + 1 && start < |states|
  {
    && (forall j :: start <= j < |states| && LsnAt(steps, j) == lsn ==> CurrentLsn(rows) == CurrentLsn(states[j]))
    && Lookup(rows, TIMELINE) == Lookup(states[start], TIMELINE)
    && rows.Keys >= {RECOVERY_LSN, Cell(KEYSPACES, BACKUP_META)}
    && rows[RECOVERY_LSN].LsnValue? && rows[RECOVERY_LSN].lsn == lsn
    && (forall j, c :: start <= j < |states| && LsnAt(steps, j) == lsn && Untouched(steps, start, j, c)
                       && !RestoreMetadata(c) && (c in initial ==> c in states[start]) ==>
          Same(c, Lookup(states[j], c), Lookup(rows, c), objects))
  }

  /** `lsn` is the one the target asks for, and what the source stored at the first moment and
  committed since then, up to it, permits the restore. */
  ghost predicate Granted(
    states: seq<State>, steps: seq<Step>, at: seq<nat>, taken: Time, profile: Profile, config: Config, target: Target,
    options: Options, lsn: nat)
    requires Moments(states, steps, at)
  {
    var first, last, history := LsnAt(steps, at[0]), LsnAt(steps, at[|at| - 1]), Commits(steps);
    && first <= lsn <= last <= |history|
    && AsksFor(target, history, first, last, taken, lsn)
    && SourcePermits(states[at[0]], history[first..lsn], profile, |at|, taken, config, target, options)
  }

  /**
  Backing up any run of the source at any moments, publishing the backups and restoring the last
  one to any target. The backups are taken exactly when the log still reaches from each to the
  next. The restore then succeeds exactly when the target is in reach of the run and what the source
  stored and committed permits it, and what it yields is the source at the LSN the target asks for: the last moment's, the one
  named, or that of the last commit by the time given before the first one after it.
  */
  method BackUpAndRestore(
    states: seq<State>, ghost steps: seq<Step>, at: seq<nat>, ids: seq<Bytes>, times: seq<Time>,
    timeline: Bytes, profile: Profile, objects: Objects, hash: Hash,
    config: Config, target: Target, options: Options, initial: State)
    returns (taken: Result<seq<Backup>>, r: Result<Restored>)
    requires Moments(states, steps, at) && |ids| == |times| == |at|
    requires Lookup(states[at[0]], TIMELINE) == Some(Raw(timeline))
    requires forall k :: 0 <= k < |ids| ==> PlainId(ids[k])
    requires forall j, k :: 0 <= j < k < |ids| ==> ids[j] != ids[k]
    requires config.absent && !config.profile.InMemory? && FreshTarget(initial)
    ensures taken.Ok? <==> BackupPoints(states, steps, at, timeline, objects)
    ensures r.Ok? ==> taken.Ok?
    ensures r.Ok? <==>
      && taken.Ok?
      && exists lsn: nat :: Granted(states, steps, at, times[0], profile, config, target, options, lsn)
    ensures r.Ok? ==>
      && Granted(states, steps, at, times[0], profile, config, target, options, r.value.lsn)
      && r.value.applied == r.value.lsn - LsnAt(steps, at[0])
      && Rebuilt(states, steps, at[0], r.value.lsn, initial, r.value.rows, objects)
  {
    hide Resolvable, Commits, Produced, Published, PolicyAllows, Accepted, Outcome, IsChain, TargetLsn,
      FreshTarget, PlainId, Rebuilt, Genesis, Legal, After, BackupPoints, Granted;
    taken := TakeChain(states, steps, at, ids, times, timeline, profile, objects, hash);
    if taken.Err? {
      return taken, Err(taken.error);
    }
    var backups := taken.value;
    Lengths(states, at, backups, objects, hash);
    var root := PublishAll(ids, backups);
    ProducedIsChain(states, steps, at, backups, objects, hash, root);
    GrantedExactly(states, steps, at, backups, objects, hash, initial, profile, config, target, options);
    r := RestoreBackup(root, ids[|ids| - 1], config, target, options, hash, initial);
    if r.Ok? {
      RestoredIsRebuilt(states, steps, at, backups, objects, hash, initial, config, target, options);
    }
  }

  /** A produced chain is accepted exactly when its target is granted. */
  lemma {:induction false} GrantedExactly(
    states: seq<State>, steps: seq<Step>, at: seq<nat>, backups: seq<Backup>, objects: Objects, hash: Hash,
    initial: State, profile: Profile, config: Config, target: Target, options: Options)
    requires Moments(states, steps, at) && Setting(states, steps, at, backups, objects, hash, initial)
    requires config.absent && !config.profile.InMemory?
    requires forall k :: 0 <= k < |backups| ==> backups[k].manifest.profile == profile
    ensures var taken, chosen := backups[0].manifest.takenAt, TargetLsn(backups, target);
            && (Accepted(backups, config, target, options, hash, initial)
                <==> exists lsn: nat :: Granted(states, steps, at, taken, profile, config, target, options, lsn))
            && (Accepted(backups, config, target, options, hash, initial) ==>
                  && chosen.Ok?
                  && Granted(states, steps, at, taken, profile, config, target, options, chosen.value))
  {
    hide Genesis, Legal, After, Commits, FullOf, IncrementalOf, TargetLsn, PolicyAllows, SourcePermits, Accepted;
    var taken, chosen := backups[0].manifest.takenAt, TargetLsn(backups, target);
    Indices(states, steps, at, backups, objects, hash);
    TargetIsOfTheRun(states, steps, at, backups, objects, hash, target);
    if chosen.Ok? {
      ProducedIsAccepted(states, steps, at, backups, objects, hash, initial, config, target, options);
      PolicyIsOfTheSource(states, steps, at, backups, objects, hash, config, target, options, profile);
      assert Granted(states, steps, at, taken, profile, config, target, options, chosen.value)
          <==> PolicyAllows(backups, config, target, options);
    } else {
      OnlyTargetsInReach(backups, config, target, options, hash, initial);
    }
    forall lsn: nat | Granted(states, steps, at, taken, profile, config, target, options, lsn)
      ensures chosen == Ok(lsn)
    {
      AskedLsnIsUnique(target, Commits(steps), LsnAt(steps, at[0]), LsnAt(steps, at[|at| - 1]), taken, lsn, chosen);
    }
  }

  /** `AsksFor` determines the LSN. */
  lemma AskedLsnIsUnique(
    target: Target, history: seq<CommitRecord>, first: nat, last: nat, taken: Time, lsn: nat, chosen: Result<Lsn>)
    requires first <= last <= |history| && AsksFor(target, history, first, last, taken, lsn)
    requires chosen.Ok? <==> !OutOfReach(target, first, last, taken)
    requires chosen.Ok? ==> AsksFor(target, history, first, last, taken, chosen.value)
    ensures chosen == Ok(lsn)
  {
  }

  lemma OnlyTargetsInReach(
    backups: seq<Backup>, config: Config, target: Target, options: Options, hash: Hash, initial: State)
    requires backups != [] && TargetLsn(backups, target).Err?
    ensures !Accepted(backups, config, target, options, hash, initial)
  {
    hide TargetLsn, TensorGate, ReplicationGate, GoodLogs, NoDuplicates, ProfileWritesOk, FullHashGate,
      TargetManifest, FloorsGate, Applied;
  }

  lemma Lengths(states: seq<State>, at: seq<nat>, backups: seq<Backup>, objects: Objects, hash: Hash)
    requires Produced(states, at, backups, objects, hash)
    ensures |backups| == |at| > 0 && backups[0].full.Some?
  {
  }

  lemma {:induction false} RestoredIsRebuilt(
    states: seq<State>, steps: seq<Step>, at: seq<nat>, backups: seq<Backup>, objects: Objects, hash: Hash,
    initial: State, config: Config, target: Target, options: Options)
    requires Setting(states, steps, at, backups, objects, hash, initial)
    requires Accepted(backups, config, target, options, hash, initial)
    ensures |at| > 0 && at[0] < |states|
    ensures var out := Outcome(backups, target, initial);
            && TargetLsn(backups, target) == Ok(out.lsn) && out.applied == out.lsn - LsnAt(steps, at[0])
            && Rebuilt(states, steps, at[0], out.lsn, initial, out.rows, objects)
  {
    hide Genesis, Legal, After, FullOf, IncrementalOf, Commits, TargetLsn, Replay, LogOf, GoodLogs, NoDuplicates,
      TensorGate, ReplicationGate, ProfileWritesOk, FullHashGate, TargetManifest, FloorsGate, Same, WithMetadata, CurrentLsn;
    RestoreIsExact(backups, config, target, options, hash, initial);
    FullLsn(states, steps, at, backups, objects, hash);
    var out := Outcome(backups, target, initial);
    RestoredPosition(states, at, backups, objects, hash, target, initial);
    forall j | at[0] <= j < |states| && LsnAt(steps, j) == out.lsn ensures CurrentLsn(states[j]) == Ok(out.lsn) {
      RunsAreSound(states, steps, j);
    }
    forall j, c | at[0] <= j < |states| && LsnAt(steps, j) == out.lsn && Untouched(steps, at[0], j, c)
      && !RestoreMetadata(c) && (c in initial ==> c in states[at[0]])
      ensures Same(c, Lookup(states[j], c), Lookup(out.rows, c), objects)
    {
      RestoreRebuildsSource(states, steps, at, backups, objects, hash, initial, config, target, options, j, c);
    }
  }

  /** The rows a restore leaves about itself. */
  lemma RestoredPosition(
    states: seq<State>, at: seq<nat>, backups: seq<Backup>, objects: Objects, hash: Hash, target: Target, initial: State)
    requires Produced(states, at, backups, objects, hash) && backups[0].full.Some? && TargetLsn(backups, target).Ok?
    requires Replay(Base(backups, initial), UpTo(LogOf(backups), TargetLsn(backups, target).value)).Ok?
    ensures var rows, lsn := Outcome(backups, target, initial).rows, TargetLsn(backups, target).value;
            && CurrentLsn(rows) == Ok(lsn)
            && Lookup(rows, TIMELINE) == Lookup(states[at[0]], TIMELINE)
            && rows.Keys >= {RECOVERY_LSN, Cell(KEYSPACES, BACKUP_META)} && rows[RECOVERY_LSN] == LsnValue(lsn)
  {
    hide Replay, LogOf, IncrementalOf, TargetLsn, IsPayload, Resolvable;
  }
}
