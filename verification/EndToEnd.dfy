/** The end-to-end guarantee of the backup engine: restoring a chain taken from any run of the
source, to any LSN in it, is refused only by policy, and rebuilds the source at that LSN. */
module EndToEnd {
  import opened Bytes
  import opened Store
  import opened Chain
  import opened CommitLog
  import opened RestoreChecks
  import opened Restore
  import opened Producers
  import opened SourceHistory

  /** A freshly created target holds only its own metadata rows. */
  ghost predicate FreshTarget(initial: State) {
    forall c :: c in initial ==> c.table == META
  }

  /** The restored value of a row is the source's; in segments and row history it may instead be
  what the source's pointer stands for. */
  ghost predicate Same(c: Cell, source: Option<Value>, restored: Option<Value>, objects: Objects) {
    source == restored
    || ((c.table == SEGMENTS || c.table == TXN_MVCC)
        && source.Some? && restored.Some? && restored.value == Resolve(source.value, objects))
  }

  /** No maintenance step from state `i` to state `j` touched the row. */
  ghost predicate Untouched(steps: seq<Step>, i: nat, j: nat, c: Cell)
    requires i <= j <= |steps|
  {
    forall k :: i <= k < j && steps[k].Maintain? ==> c !in steps[k].delta
  }

  // ---- The full payload ----

  lemma {:induction false} PayloadHasNoDuplicates(db: State, tables: set<Bytes>, payload: seq<DataRecord>)
    requires CellsOf(db, tables, payload)
    ensures NoDuplicates(payload)
  {
    forall i, j | 0 <= i < j < |payload| ensures payload[i].cell != payload[j].cell {
      BelowIrreflexive(payload[i].cell.table);
      BelowIrreflexive(payload[i].cell.key);
      assert CellBelow(payload[i].cell, payload[j].cell);
    }
  }

  lemma {:induction false} PayloadFind(db: State, objects: Objects, payload: seq<DataRecord>, c: Cell)
    requires IsPayload(db, objects, payload) && Covered(db)
    ensures NoDuplicates(payload)
    ensures c in db ==> Find(payload, c) == Some(PayloadValue(db, objects, c))
    ensures c !in db ==> Find(payload, c) == None
  {
    hide Keyspaces, PayloadValue;
    PayloadHasNoDuplicates(db, Keyspaces(db), payload);
    if c in db {
      assert HasCell(payload, c);
      var i :| 0 <= i < |payload| && payload[i].cell == c;
      FindIndex(payload, i);
    }
  }

  /** A new target that applied the full payload holds the rows of the backed-up snapshot. */
  lemma {:induction false} BaseMatches(
    db: State, objects: Objects, payload: seq<DataRecord>, initial: State, c: Cell)
    requires IsPayload(db, objects, payload) && Covered(db)
    requires c in initial ==> c in db
    ensures Same(c, Lookup(db, c), Lookup(ApplyPayload(initial, payload), c), objects)
  {
    hide IsPayload, Covered, NoDuplicates, HoldsCurrentPointer;
    PayloadFind(db, objects, payload, c);
    PayloadLookup(initial, payload, c);
    assert c in db && c.table != TXN_MVCC ==> !HoldsCurrentPointer(db, c) by {
      NotHistory(db, c);
    }
  }

  lemma NotHistory(db: State, c: Cell)
    ensures c in db && c.table != TXN_MVCC ==> !HoldsCurrentPointer(db, c)
  {
  }

  // ---- Replaying what the source did ----

  /** A commit that succeeded on the source succeeds on any state with the source's clock. */
  lemma {:induction false} ClockStep(source: State, other: State, r: CommitRecord)
    requires forall w :: w in r.writes ==> !EngineTable(w.table)
    requires Lookup(source, HLC) == Lookup(other, HLC)
    requires ApplyRecord(source, r).Ok?
    ensures ApplyRecord(other, r).Ok?
    ensures Lookup(ApplyRecord(source, r).value, HLC) == Lookup(ApplyRecord(other, r).value, HLC)
  {
    hide RecordDelta;
    EngineRows(r, HLC);
    assert Lookup(Patch(source, RecordDelta(r)), HLC) == Lookup(Patch(other, RecordDelta(r)), HLC);
  }

  /** The commits of a run after its first `n`, up to state `j`. */
  function Since(steps: seq<Step>, n: nat, j: nat): seq<CommitRecord>
    requires j <= |steps| && n <= |Commits(steps[..j])|
  {
    Commits(steps[..j])[n..]
  }

  lemma {:induction false} SinceStep(steps: seq<Step>, n: nat, j: nat)
    requires 0 < j <= |steps| && n <= |Commits(steps[..j - 1])|
    ensures n <= |Commits(steps[..j])|
    ensures steps[j - 1].Commit? ==> Since(steps, n, j) == Since(steps, n, j - 1) + [steps[j - 1].record]
    ensures steps[j - 1].Maintain? ==> Since(steps, n, j) == Since(steps, n, j - 1)
  {
    assert steps[..j][..j - 1] == steps[..j - 1];
  }

  lemma {:induction false} ReplaySnoc(s: State, log: seq<CommitRecord>, r: CommitRecord)
    requires Replay(s, log).Ok?
    ensures Replay(s, log + [r]) == ApplyRecord(Replay(s, log).value, r)
  {
    hide ApplyRecord;
    assert (log + [r])[..|log|] == log;
  }

  /** Replaying the source's commits from a snapshot with its clock succeeds and keeps the clock. */
  lemma {:induction false} FollowClock(states: seq<State>, steps: seq<Step>, i: nat, j: nat, base: State)
    requires Run(states, steps) && i <= j < |states|
    requires Lookup(base, HLC) == Lookup(states[i], HLC)
    ensures |Commits(steps[..i])| <= |Commits(steps[..j])|
    ensures var log := Since(steps, |Commits(steps[..i])|, j);
            Replay(base, log).Ok? && Lookup(Replay(base, log).value, HLC) == Lookup(states[j], HLC)
    decreases j - i
  {
    hide Replay, ApplyRecord, Commits;
    var n := |Commits(steps[..i])|;
    if i == j {
      assert Since(steps, n, j) == [];
      ReplayNothing(base);
    } else {
      FollowClock(states, steps, i, j - 1, base);
      SinceStep(steps, n, j);
      var s, step, before := states[j - 1], steps[j - 1], Since(steps, n, j - 1);
      assert Legal(s, step) && After(s, step) == Ok(states[j]);
      if step.Commit? {
        ReplaySnoc(base, before, step.record);
        ClockStep(s, Replay(base, before).value, step.record);
      }
    }
  }

  lemma ReplayNothing(s: State)
    ensures Replay(s, []) == Ok(s)
  {
  }

  /** A row that matched in the snapshot matches after replay, unless maintenance touched it. */
  lemma {:induction false} FollowRow(
    states: seq<State>, steps: seq<Step>, i: nat, j: nat, base: State, objects: Objects, c: Cell)
    requires Run(states, steps) && i <= j < |states|
    requires Lookup(base, HLC) == Lookup(states[i], HLC)
    requires Same(c, Lookup(states[i], c), Lookup(base, c), objects)
    requires Untouched(steps, i, j, c)
    ensures |Commits(steps[..i])| <= |Commits(steps[..j])|
    ensures var log := Since(steps, |Commits(steps[..i])|, j);
            Replay(base, log).Ok? && Same(c, Lookup(states[j], c), Lookup(Replay(base, log).value, c), objects)
    decreases j - i
  {
    hide Replay, ApplyRecord, Commits, RecordDelta, Resolve;
    var n := |Commits(steps[..i])|;
    FollowClock(states, steps, i, j, base);
    if i == j {
      assert Since(steps, n, j) == [];
      ReplayNothing(base);
    } else if c != HLC {
      FollowRow(states, steps, i, j - 1, base, objects, c);
      SinceStep(steps, n, j);
      var s, step, before := states[j - 1], steps[j - 1], Since(steps, n, j - 1);
      assert Legal(s, step) && After(s, step) == Ok(states[j]);
      match step {
        case Commit(r) =>
          ReplaySnoc(base, before, r);
          CommitRow(s, r, states[j], c);
          CommitRow(Replay(base, before).value, r, Replay(base, before + [r]).value, c);
        case Maintain(d) =>
          assert Lookup(states[j], c) == Lookup(s, c);
      }
    }
  }

  // ---- The restore of a produced chain ----

  /** The setting of the end-to-end theorems: a run of the source, a chain of completed backups
  taken from it, and a new target. */
  ghost predicate Setting(
    states: seq<State>, steps: seq<Step>, at: seq<nat>, backups: seq<Backup>, objects: Objects, hash: Hash,
    initial: State)
  {
    && Run(states, steps) && BelowLimit(steps)
    && Produced(states, at, backups, objects, hash)
    && FreshTarget(initial)
  }

  /** The gates that depend on what was backed up and on the operator, not on the backup's
  integrity. */
  ghost predicate PolicyAllows(backups: seq<Backup>, config: Config, target: Target, options: Options)
    requires backups != [] && backups[0].full.Some? && TargetLsn(backups, target).Ok?
  {
    var payload, lsn := backups[0].full.value, TargetLsn(backups, target).value;
    && TensorGate(backups, config.profile, payload).Ok?
    && ReplicationGate(backups, payload, target).Ok?
    && ProfileWritesOk(backups[0].manifest.profile, WritesTo(backups, |backups|, lsn))
    && TargetManifest(config.profile, payload).Ok?
    && var manifest := TargetManifest(config.profile, payload).value;
    && (manifest.Some? ==> FloorsGate(manifest.value, FlagAt(backups, lsn), options).Ok?)
  }

  /** The engine's own rows come through the full payload unchanged. */
  lemma {:induction false} EngineRowRestored(
    states: seq<State>, steps: seq<Step>, at: seq<nat>, backups: seq<Backup>, objects: Objects, hash: Hash,
    initial: State, c: Cell)
    requires Setting(states, steps, at, backups, objects, hash, initial)
    requires EngineTable(c.table)
    ensures Lookup(Base(backups, initial), c) == Lookup(states[at[0]], c)
    ensures Find(backups[0].full.value, c) == Lookup(states[at[0]], c)
    ensures NoDuplicates(backups[0].full.value)
  {
    var db, payload := states[at[0]], backups[0].full.value;
    RunsAreSound(states, steps, at[0]);
    assert IsPayload(db, objects, payload) && Covered(db);
    hide Run, Produced, Sound, IsPayload, Covered, NoDuplicates, HoldsCurrentPointer, Resolve;
    assert c !in initial;
    BaseMatches(db, objects, payload, initial, c);
    PayloadFind(db, objects, payload, c);
    NotHistory(db, c);
  }

  lemma {:induction false} FullGatesPass(
    states: seq<State>, steps: seq<Step>, at: seq<nat>, backups: seq<Backup>, objects: Objects, hash: Hash,
    initial: State)
    requires Setting(states, steps, at, backups, objects, hash, initial)
    ensures var m, payload, base := backups[0].manifest, backups[0].full.value, Base(backups, initial);
            && m.kind == Full
            && NoDuplicates(payload)
            && FullHashGate(m, payload, hash).Ok?
            && CurrentLsn(base) == Ok(m.endLsn)
            && (m.endHash.Some? ==> CommitHashAt(base, m.endLsn, hash) == Ok(m.endHash))
  {
    var db, m := states[at[0]], backups[0].manifest;
    assert FullOf(db, objects, hash, backups[0]);
    EngineRowRestored(states, steps, at, backups, objects, hash, initial, CURRENT);
    EngineRowRestored(states, steps, at, backups, objects, hash, initial, LogCell(m.endLsn));
    hide Setting, IsPayload, Resolvable, NoDuplicates, ApplyPayload, LsnBytes, Find;
  }

  lemma {:induction false} Indices(
    states: seq<State>, steps: seq<Step>, at: seq<nat>, backups: seq<Backup>, objects: Objects, hash: Hash)
    requires Run(states, steps) && Produced(states, at, backups, objects, hash)
    ensures |states| == |steps| + 1 && |at| == |backups| > 0
    ensures at[0] <= at[|at| - 1] < |states|
    ensures backups[0].full.Some?
  {
  }

  /** Replaying all or part of a produced log succeeds. */
  lemma {:induction false} ProducedReplays(
    states: seq<State>, steps: seq<Step>, at: seq<nat>, backups: seq<Backup>, objects: Objects, hash: Hash,
    initial: State, n: nat)
    requires Setting(states, steps, at, backups, objects, hash, initial)
    requires n <= |LogOf(backups)|
    ensures Replay(Base(backups, initial), LogOf(backups)[..n]).Ok?
  {
    hide Run, Produced, Commits, Replay, LogOf, Base, Lookup;
    Indices(states, steps, at, backups, objects, hash);
    var last := |backups| - 1;
    assert backups[..|backups|] == backups;
    ProducedLog(states, steps, at, backups, objects, hash, |backups|);
    FullLsn(states, steps, at, backups, objects, hash);
    EngineRowRestored(states, steps, at, backups, objects, hash, initial, HLC);
    FollowClock(states, steps, at[0], at[last], Base(backups, initial));
    CommitsPrefix(steps, at[last], |steps|);
    assert steps[..|steps|] == steps;
    var first, end, all := backups[0].manifest.endLsn, backups[last].manifest.endLsn, Commits(steps);
    assert Since(steps, first, at[last]) == all[first..end] == LogOf(backups);
    ReplayPrefix(Base(backups, initial), LogOf(backups), n);
  }

  /** What the producers write, the restore validators accept: for every target in the chain a
  restore of a produced chain succeeds exactly when policy allows it. */
  lemma {:induction false} ProducedIsAccepted(
    states: seq<State>, steps: seq<Step>, at: seq<nat>, backups: seq<Backup>, objects: Objects, hash: Hash,
    initial: State, config: Config, target: Target, options: Options)
    requires Setting(states, steps, at, backups, objects, hash, initial)
    requires config.absent && !config.profile.InMemory?
    requires TargetLsn(backups, target).Ok?
    ensures Accepted(backups, config, target, options, hash, initial)
            <==> PolicyAllows(backups, config, target, options)
  {
    hide Run, Produced, Replay, Base, CommitHashAt, CurrentLsn, LogOf, UpTo, GoodLogs, TensorGate, ReplicationGate,
      TargetManifest, FloorsGate, ProfileWritesOk, FullHashGate, NoDuplicates, TargetLsn, FlagAt;
    Indices(states, steps, at, backups, objects, hash);
    FullGatesPass(states, steps, at, backups, objects, hash, initial);
    ProducedLogs(states, steps, at, backups, objects, hash);
    ReplayedLog(backups, target, hash);
    var n := TargetLsn(backups, target).value - backups[0].manifest.endLsn;
    ProducedReplays(states, steps, at, backups, objects, hash, initial, n);
  }

  /** The LSN a target asks for, given the LSNs the chain runs from and to and the time of its
  full backup: the last one; the one asked for, if it is in the chain; or the end of the longest
  stretch of the source's history that was committed by the time, which must not be before the
  full backup. */
  ghost predicate AsksFor(target: Target, history: seq<CommitRecord>, first: nat, last: nat, taken: Time, lsn: nat)
    requires last <= |history|
  {
    match target
    case Latest => lsn == last
    case AtLsn(n) => lsn == n && first <= n <= last
    case AtTime(time) =>
      && taken <= time && first <= lsn <= last
      && (forall n :: first <= n < lsn ==> history[n].committedAt <= time)
      && (lsn < last ==> history[lsn].committedAt > time)
  }

  /** No LSN answers to the target: it is outside the chain, or its time before the full backup. */
  ghost predicate OutOfReach(target: Target, first: nat, last: nat, taken: Time) {
    match target
    case Latest => false
    case AtLsn(n) => n < first || last < n
    case AtTime(time) => time < taken
  }

  /** The target LSN of a produced chain, in terms of what the source did; a target out of reach
  is refused. */
  lemma {:induction false} TargetIsOfTheRun(
    states: seq<State>, steps: seq<Step>, at: seq<nat>, backups: seq<Backup>, objects: Objects, hash: Hash,
    target: Target)
    requires Run(states, steps) && BelowLimit(steps) && Produced(states, at, backups, objects, hash)
    ensures var first, last := |Commits(steps[..at[0]])|, |Commits(steps[..at[|at| - 1]])|;
            var taken, chosen := backups[0].manifest.takenAt, TargetLsn(backups, target);
            && first <= last <= |Commits(steps)|
            && (chosen.Ok? <==> !OutOfReach(target, first, last, taken))
            && (chosen.Ok? ==> AsksFor(target, Commits(steps), first, last, taken, chosen.value))
            && (chosen.Err? ==> chosen.error == if target.AtLsn? && last < target.lsn then Corruption else Unsupported)
  {
    hide Run, Produced, Commits, LogOf, GoodLogs, TimeLsn, Contiguous;
    Indices(states, steps, at, backups, objects, hash);
    ProducedLog(states, steps, at, backups, objects, hash, |backups|);
    FullLsn(states, steps, at, backups, objects, hash);
    assert backups[..|backups|] == backups;
    if target.AtTime? && backups[0].manifest.takenAt <= target.time {
      ProducedLogs(states, steps, at, backups, objects, hash);
      LogJoins(backups, hash);
      TimeIsOfTheRun(backups, target.time, Commits(steps));
    }
  }

  lemma {:induction false} TimeIsOfTheRun(backups: seq<Backup>, time: Time, history: seq<CommitRecord>)
    requires backups != []
    requires var first, last := backups[0].manifest.endLsn, backups[|backups| - 1].manifest.endLsn;
             first <= last <= |history| && LogOf(backups) == history[first..last]
    requires Contiguous(LogOf(backups), backups[0].manifest.endLsn)
    ensures var first, last, lsn := backups[0].manifest.endLsn, backups[|backups| - 1].manifest.endLsn,
                                   TimeLsn(backups, time);
            && first <= lsn <= last
            && (forall n :: first <= n < lsn ==> history[n].committedAt <= time)
            && (lsn < last ==> history[lsn].committedAt > time)
  {
    hide LogOf, CommitsBy;
    var first, log := backups[0].manifest.endLsn, LogOf(backups);
    var n := CommitsBy(log, time);
    assert TimeLsn(backups, time) == first + n;
    forall k | first <= k < first + n ensures history[k].committedAt <= time {
      assert log[k - first] == history[k];
    }
    assert n < |log| ==> log[n] == history[first + n];
  }

  /** Restore rebuilds the source: the restored rows are those of the source in any state `j` of
  its run whose LSN is the target's, for every row that maintenance has not touched since the
  full backup; only the restore metadata and the target's own metadata rows may differ. */
  lemma {:induction false} RestoreRebuildsSource(
    states: seq<State>, steps: seq<Step>, at: seq<nat>, backups: seq<Backup>, objects: Objects, hash: Hash,
    initial: State, config: Config, target: Target, options: Options, j: nat, c: Cell)
    requires Setting(states, steps, at, backups, objects, hash, initial)
    requires Accepted(backups, config, target, options, hash, initial)
    requires at[0] <= j < |states| && TargetLsn(backups, target) == Ok(|Commits(steps[..j])|)
    requires Untouched(steps, at[0], j, c) && !RestoreMetadata(c)
    requires c in initial ==> c in states[at[0]]
    ensures Same(c, Lookup(states[j], c), Lookup(Outcome(backups, target, initial).rows, c), objects)
  {
    hide Run, Produced, Commits, Replay, LogOf, Base, Accepted, Sound, IsPayload, Covered, Untouched, TargetLsn,
      Resolve, Lookup;
    Indices(states, steps, at, backups, objects, hash);
    var base := Base(backups, initial);
    SnapshotMatches(states, steps, at, backups, objects, hash, initial, c);
    EngineRowRestored(states, steps, at, backups, objects, hash, initial, HLC);
    FollowRow(states, steps, at[0], j, base, objects, c);
    AcceptedRows(states, steps, at, backups, objects, hash, initial, config, target, options, j);
    MetadataRow(Replay(base, Since(steps, |Commits(steps[..at[0]])|, j)).value,
      backups[0].manifest.timeline, |Commits(steps[..j])|, c);
  }

  lemma {:induction false} MetadataRow(s: State, timeline: Bytes, lsn: Lsn, c: Cell)
    requires !RestoreMetadata(c)
    ensures Lookup(WithMetadata(s, timeline, lsn), c) == Lookup(s, c)
  {
  }

  lemma {:induction false} SnapshotMatches(
    states: seq<State>, steps: seq<Step>, at: seq<nat>, backups: seq<Backup>, objects: Objects, hash: Hash,
    initial: State, c: Cell)
    requires Setting(states, steps, at, backups, objects, hash, initial)
    requires c in initial ==> c in states[at[0]]
    ensures Same(c, Lookup(states[at[0]], c), Lookup(Base(backups, initial), c), objects)
  {
    hide IsPayload, Covered, Lookup, Resolve, LogSound, Contiguous, CurrentLsn, CommitHashAt, Resolvable;
    RunsAreSound(states, steps, at[0]);
    BaseMatches(states[at[0]], objects, backups[0].full.value, initial, c);
  }

  /** An accepted restore to the LSN of state `j` replays what the source committed up to it. */
  lemma {:induction false} AcceptedRows(
    states: seq<State>, steps: seq<Step>, at: seq<nat>, backups: seq<Backup>, objects: Objects, hash: Hash,
    initial: State, config: Config, target: Target, options: Options, j: nat)
    requires Setting(states, steps, at, backups, objects, hash, initial)
    requires Accepted(backups, config, target, options, hash, initial)
    requires at[0] <= j < |states| && TargetLsn(backups, target) == Ok(|Commits(steps[..j])|)
    ensures |Commits(steps[..at[0]])| <= |Commits(steps[..j])|
    ensures var base, log := Base(backups, initial), Since(steps, |Commits(steps[..at[0]])|, j);
            && Replay(base, log).Ok?
            && Outcome(backups, target, initial).rows
               == WithMetadata(Replay(base, log).value, backups[0].manifest.timeline, |Commits(steps[..j])|)
  {
    hide Run, Produced, Commits, Replay, LogOf, Base, Checked, WithMetadata, UpTo;
    RestoreIsExact(backups, config, target, options, hash, initial);
    ProducedPrefix(states, steps, at, backups, objects, hash, j);
  }

  /** The chain's log up to a state's LSN is what the source committed up to that state. */
  lemma {:induction false} ProducedPrefix(
    states: seq<State>, steps: seq<Step>, at: seq<nat>, backups: seq<Backup>, objects: Objects, hash: Hash,
    j: nat)
    requires Run(states, steps) && BelowLimit(steps) && Produced(states, at, backups, objects, hash)
    requires at[0] <= j < |states| && |Commits(steps[..j])| <= backups[|backups| - 1].manifest.endLsn
    ensures var first, lsn := backups[0].manifest.endLsn, |Commits(steps[..j])|;
            && first == |Commits(steps[..at[0]])| <= lsn
            && lsn - first <= |LogOf(backups)|
            && LogOf(backups)[..lsn - first] == Since(steps, first, j)
  {
    hide Run, Produced, Commits, LogOf;
    Indices(states, steps, at, backups, objects, hash);
    ProducedLog(states, steps, at, backups, objects, hash, |backups|);
    FullLsn(states, steps, at, backups, objects, hash);
    CommitsPrefix(steps, at[0], j);
    CommitsPrefix(steps, j, |steps|);
    assert steps[..|steps|] == steps;
    assert backups[..|backups|] == backups;
    var first, lsn, end, all := backups[0].manifest.endLsn, |Commits(steps[..j])|,
      backups[|backups| - 1].manifest.endLsn, Commits(steps);
    assert Since(steps, first, j) == all[..lsn][first..] == all[first..lsn];
    assert all[first..end][..lsn - first] == all[first..lsn];
  }
}
