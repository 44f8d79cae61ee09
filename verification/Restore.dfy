/** Point-in-time restore (`restore_backup_with_config` in `src/backup.rs`): check everything,
then apply the full payload and replay the commit log into the new target.

`initial` holds the rows the freshly created target has before the payload is applied. */
module Restore {
  import opened Bytes
  import opened Store
  import opened Chain
  import opened CommitLog
  import opened RestoreChecks

  /** The target database; `absent` says that nothing exists at its path. */
  datatype Config = Config(profile: Profile, absent: bool)

  datatype Restored = Restored(lsn: Lsn, timeline: Bytes, applied: nat, rows: State)

  /** `write_restore_metadata`. */
  function WithMetadata(s: State, timeline: Bytes, lsn: Lsn): State {
    s[CURRENT := LsnValue(lsn)]
     [TIMELINE := Raw(timeline)]
     [RECOVERY_LSN := LsnValue(lsn)]
     [Cell(KEYSPACES, BACKUP_META) := PRESENT]
  }

  predicate RestoreMetadata(c: Cell) {
    c in {CURRENT, TIMELINE, RECOVERY_LSN, Cell(KEYSPACES, BACKUP_META)}
  }

  // ---- What a restore accepts and what it builds ----

  /** The state of the new target after the full payload. */
  function Base(chain: seq<Backup>, initial: State): State
    requires chain != [] && chain[0].full.Some?
  {
    ApplyPayload(initial, chain[0].full.value)
  }

  function FlagAt(chain: seq<Backup>, lsn: Lsn): Option<Value>
    requires chain != [] && chain[0].full.Some?
  {
    LastWrite(WritesTo(chain, |chain|, lsn), AUDIT_FLAG, Find(chain[0].full.value, AUDIT_FLAG))
  }

  /** The checks made before the target is created. */
  ghost predicate Checked(chain: seq<Backup>, config: Config, target: Target, options: Options, hash: Hash)
  {
    && chain != []
    && config.absent && !config.profile.InMemory?
    && chain[0].manifest.kind == Full
    && chain[0].full.Some?
    && var payload := chain[0].full.value;
    && NoDuplicates(payload)
    && TensorGate(chain, config.profile, payload).Ok?
    && ReplicationGate(chain, payload, target).Ok?
    && TargetLsn(chain, target).Ok?
    && var lsn := TargetLsn(chain, target).value;
    && GoodLogs(chain, hash)
    && ProfileWritesOk(chain[0].manifest.profile, WritesTo(chain, |chain|, lsn))
    && FullHashGate(chain[0].manifest, payload, hash).Ok?
    && TargetManifest(config.profile, payload).Ok?
    && var manifest := TargetManifest(config.profile, payload).value;
    && (manifest.Some? ==> FloorsGate(manifest.value, FlagAt(chain, lsn), options).Ok?)
  }

  /** The checks made on the target itself, while it is still private. */
  ghost predicate Applied(chain: seq<Backup>, target: Target, hash: Hash, initial: State)
    requires chain != [] && chain[0].full.Some? && TargetLsn(chain, target).Ok?
  {
    var m := chain[0].manifest;
    && CurrentLsn(Base(chain, initial)) == Ok(m.endLsn)
    && (m.endHash.Some? ==> CommitHashAt(Base(chain, initial), m.endLsn, hash) == Ok(m.endHash))
    && Replay(Base(chain, initial), UpTo(LogOf(chain), TargetLsn(chain, target).value)).Ok?
  }

  ghost predicate Accepted(
    chain: seq<Backup>, config: Config, target: Target, options: Options, hash: Hash, initial: State)
  {
    Checked(chain, config, target, options, hash) && Applied(chain, target, hash, initial)
  }

  function Outcome(chain: seq<Backup>, target: Target, initial: State): Restored
    requires chain != [] && chain[0].full.Some? && TargetLsn(chain, target).Ok?
    requires Replay(Base(chain, initial), UpTo(LogOf(chain), TargetLsn(chain, target).value)).Ok?
  {
    var lsn, timeline := TargetLsn(chain, target).value, chain[0].manifest.timeline;
    var log := UpTo(LogOf(chain), lsn);
    Restored(lsn, timeline, |log|, WithMetadata(Replay(Base(chain, initial), log).value, timeline, lsn))
  }

  // ---- The apply pass ----

  method ApplyFullPayload(write: WriteTransaction, payload: seq<DataRecord>)
    modifies write
    ensures write.rows == ApplyPayload(old(write.rows), payload)
  {
    for i := 0 to |payload|
      invariant write.rows == ApplyPayload(old(write.rows), payload[..i])
    {
      write.Put(payload[i].cell, payload[i].value);
      assert payload[..i + 1][..i] == payload[..i];
    }
    assert payload[..|payload|] == payload;
  }

  lemma {:induction false} ReplayNext(s: State, log: seq<CommitRecord>, i: nat)
    requires i < |log| && Replay(s, log[..i]).Ok?
    ensures Replay(s, log[..i + 1]) == ApplyRecord(Replay(s, log[..i]).value, log[i])
    ensures Replay(s, log[..i + 1]).Err? ==> Replay(s, log).Err?
  {
    hide ApplyRecord;
    assert log[..i + 1][..i] == log[..i];
    if Replay(s, log[..i + 1]).Err? {
      ReplayStuck(s, log[..i + 1], log[i + 1..]);
      assert log == log[..i + 1] + log[i + 1..];
    }
  }

  /** The commits of one payload up to the target. */
  method ReplayRecords(write: WriteTransaction, log: seq<CommitRecord>) returns (r: Result<nat>)
    modifies write
    ensures r.Ok? <==> Replay(old(write.rows), log).Ok?
    ensures r.Ok? ==> Replay(old(write.rows), log) == Ok(write.rows) && r.value == |log|
  {
    for i := 0 to |log|
      invariant Replay(old(write.rows), log[..i]) == Ok(write.rows)
    {
      ReplayNext(old(write.rows), log, i);
      var applied := write.ApplyCommitRecord(log[i]);
      if applied.Err? {
        return Err(applied.error);
      }
    }
    assert log[..|log|] == log;
    return Ok(|log|);
  }

  lemma {:induction false} ReplayStart(s: State, chain: seq<Backup>, target: Lsn)
    requires chain != []
    ensures UpTo(LogOf(chain[..1]), target) == [] && Replay(s, []) == Ok(s)
  {
  }

  /** What one more payload adds to the replay. */
  lemma {:induction false} ReplayStep(s: State, chain: seq<Backup>, i: nat, target: Lsn)
    requires 0 < i < |chain| && chain[i].wal.Some?
    requires Replay(s, UpTo(LogOf(chain[..i]), target)).Ok?
    ensures var before, next := UpTo(LogOf(chain[..i]), target), UpTo(chain[i].wal.value, target);
            && UpTo(LogOf(chain[..i + 1]), target) == before + next
            && Replay(s, before + next) == Replay(Replay(s, before).value, next)
            && (Replay(s, before + next).Err? ==> Replay(s, UpTo(LogOf(chain), target)).Err?)
  {
    hide Replay, UpTo, LogOf;
    var before, next := UpTo(LogOf(chain[..i]), target), UpTo(chain[i].wal.value, target);
    LogOfPrefix(chain, i);
    UpToJoin(LogOf(chain[..i]), chain[i].wal.value, target);
    ReplayAppend(s, before, next);
    if Replay(s, before + next).Err? {
      LogPrefix(chain, i + 1);
      var rest := LogOf(chain)[|LogOf(chain[..i + 1])|..];
      assert LogOf(chain) == LogOf(chain[..i + 1]) + rest;
      UpToJoin(LogOf(chain[..i + 1]), rest, target);
      ReplayStuck(s, before + next, UpTo(rest, target));
    }
  }

  /** `replay_incrementals`: each payload is read and checked once more and its commits up to
  the target are applied. */
  method ReplayIncrementals(write: WriteTransaction, chain: seq<Backup>, target: Lsn, hash: Hash)
    returns (r: Result<nat>)
    requires chain != []
    modifies write
    ensures r.Ok? <==> GoodLogs(chain, hash) && Replay(old(write.rows), UpTo(LogOf(chain), target)).Ok?
    ensures r.Ok? ==> Replay(old(write.rows), UpTo(LogOf(chain), target)) == Ok(write.rows)
                      && r.value == |UpTo(LogOf(chain), target)|
  {
    hide ApplyRecord, Replay, UpTo, LogOf, LogChecks;
    ghost var start := write.rows;
    ReplayStart(start, chain, target);
    var applied := 0;
    var last := chain[0].manifest.endLsn;
    for i := 1 to |chain|
      invariant forall j :: 0 < j < i ==> GoodLog(chain, j, hash)
      invariant last == chain[i - 1].manifest.endLsn
      invariant Replay(start, UpTo(LogOf(chain[..i]), target)) == Ok(write.rows)
      invariant applied == |UpTo(LogOf(chain[..i]), target)|
    {
      if chain[i].wal.None? {
        assert !GoodLog(chain, i, hash);
        return Err(Unreadable);
      }
      var checked := CheckCommitLog(chain[i].manifest, chain[i].wal.value, last, hash);
      if checked.Err? {
        assert !GoodLog(chain, i, hash);
        return Err(checked.error);
      }
      last := checked.value;
      ReplayStep(start, chain, i, target);
      var more := ReplayRecords(write, UpTo(chain[i].wal.value, target));
      if more.Err? {
        return Err(more.error);
      }
      applied := applied + more.value;
    }
    assert chain[..|chain|] == chain;
    return Ok(applied);
  }

  method WriteRestoreMetadata(write: WriteTransaction, timeline: Bytes, lsn: Lsn)
    modifies write
    ensures write.rows == WithMetadata(old(write.rows), timeline, lsn)
  {
    write.Put(CURRENT, LsnValue(lsn));
    write.Put(TIMELINE, Raw(timeline));
    write.Put(RECOVERY_LSN, LsnValue(lsn));
    write.Put(Cell(KEYSPACES, BACKUP_META), PRESENT);
  }

  /** The checks of `restore_backup_with_config` on the loaded chain, before the target exists.
  Returns the target LSN. */
  method CheckBackup(chain: seq<Backup>, config: Config, target: Target, options: Options, hash: Hash)
    returns (r: Result<Lsn>)
    requires chain != [] && config.absent && !config.profile.InMemory?
    ensures r.Ok? <==> Checked(chain, config, target, options, hash)
    ensures r.Ok? ==> r == TargetLsn(chain, target)
  {
    hide ApplyRecord;
    if chain[0].manifest.kind != Full {
      return Err(Corruption);
    }
    if chain[0].full.None? {
      return Err(Unreadable);
    }
    var payload := chain[0].full.value;
    var duplicate := HasDuplicates(payload);
    if duplicate {
      return Err(Corruption);
    }
    var tensor := TensorGate(chain, config.profile, payload);
    if tensor.Err? {
      return Err(tensor.error);
    }
    var replication := ReplicationGate(chain, payload, target);
    if replication.Err? {
      return Err(replication.error);
    }
    assert GoodLogs(chain, hash) ==> Readable(chain) by {
      if GoodLogs(chain, hash) {
        GoodLogsReadable(chain, hash);
      }
    }
    var resolved := ResolveTargetLsn(chain, target);
    if resolved.Err? {
      return Err(resolved.error);
    }
    var flag := CheckIncrementalPayloads(chain, payload, resolved.value, hash);
    if flag.Err? {
      return Err(flag.error);
    }
    var full := FullHashGate(chain[0].manifest, payload, hash);
    if full.Err? {
      return Err(full.error);
    }
    var manifest := TargetManifest(config.profile, payload);
    if manifest.Err? {
      return Err(manifest.error);
    }
    if manifest.value.Some? {
      var floors := FloorsGate(manifest.value.value, flag.value, options);
      if floors.Err? {
        return Err(floors.error);
      }
    }
    return resolved;
  }

  /** The write transaction of a restore: nothing of it is visible unless it returns `Ok`. */
  method ApplyBackup(chain: seq<Backup>, target: Target, lsn: Lsn, hash: Hash, initial: State)
    returns (r: Result<Restored>)
    requires chain != [] && chain[0].full.Some? && TargetLsn(chain, target) == Ok(lsn)
    requires GoodLogs(chain, hash)
    ensures r.Ok? <==> Applied(chain, target, hash, initial)
    ensures r.Ok? ==> r.value == Outcome(chain, target, initial)
  {
    hide ApplyRecord;
    var m := chain[0].manifest;
    var write := new WriteTransaction(initial);
    ApplyFullPayload(write, chain[0].full.value);
    var fullLsn := CurrentLsn(write.rows);
    if fullLsn.Err? {
      return Err(fullLsn.error);
    }
    if fullLsn.value != m.endLsn {
      return Err(Corruption);
    }
    var fullHash := CommitHashAt(write.rows, m.endLsn, hash);
    if m.endHash.Some? && fullHash != Ok(m.endHash) {
      return Err(Corruption);
    }
    var applied := ReplayIncrementals(write, chain, lsn, hash);
    if applied.Err? {
      return Err(applied.error);
    }
    WriteRestoreMetadata(write, m.timeline, lsn);
    return Ok(Restored(lsn, m.timeline, applied.value, write.rows));
  }

  /** `restore_backup_with_config`. It succeeds exactly when a chain ends in the selected backup
  and that chain is accepted, and then yields the state the chain stands for. */
  method RestoreBackup(
    root: Root, selected: Bytes, config: Config, target: Target, options: Options, hash: Hash,
    initial: State) returns (r: Result<Restored>)
    ensures r.Ok? ==> exists chain :: IsChain(root, selected, chain)
    ensures forall chain :: IsChain(root, selected, chain) ==>
                              && (r.Ok? <==> Accepted(chain, config, target, options, hash, initial))
                              && (r.Ok? ==> r.value == Outcome(chain, target, initial))
  {
    hide ApplyRecord;
    if config.profile.InMemory? || !config.absent {
      return Err(Unsupported);
    }
    var loaded := LoadChain(root, selected);
    if loaded.Err? {
      return Err(loaded.error);
    }
    var chain := loaded.value;
    var lsn := CheckBackup(chain, config, target, options, hash);
    if lsn.Err? {
      return Err(lsn.error);
    }
    r := ApplyBackup(chain, target, lsn.value, hash, initial);
  }

  // ---- What an accepted restore guarantees ----

  /** Restore is exact: it applies the commits after the full backup up to the target, once each
  and in order, and nothing else but its own metadata. */
  lemma {:induction false} RestoreIsExact(
    chain: seq<Backup>, config: Config, target: Target, options: Options, hash: Hash, initial: State)
    requires Accepted(chain, config, target, options, hash, initial)
    ensures var out, log, first := Outcome(chain, target, initial), LogOf(chain), chain[0].manifest.endLsn;
            && first <= out.lsn <= chain[|chain| - 1].manifest.endLsn
            && out.applied == out.lsn - first <= |log|
            && Contiguous(log[..out.applied], first)
            && Replay(Base(chain, initial), log[..out.applied]).Ok?
            && out.rows == WithMetadata(
                 Replay(Base(chain, initial), log[..out.applied]).value, chain[0].manifest.timeline, out.lsn)
  {
    hide Replay, TensorGate, ReplicationGate, FullHashGate, TargetManifest, FloorsGate, WithMetadata, GoodLogs, LogOf,
      TargetLsn, UpTo, Contiguous, NoDuplicates, ProfileWritesOk, CommitHashAt, CurrentLsn, Base;
    ReplayedLog(chain, target, hash);
  }

  /** The commits a restore replays are the prefix of the log that ends at the target. */
  lemma {:induction false} ReplayedLog(chain: seq<Backup>, target: Target, hash: Hash)
    requires chain != [] && GoodLogs(chain, hash) && TargetLsn(chain, target).Ok?
    ensures var first, lsn, log := chain[0].manifest.endLsn, TargetLsn(chain, target).value, LogOf(chain);
            && first <= lsn <= chain[|chain| - 1].manifest.endLsn
            && lsn - first <= |log|
            && UpTo(log, lsn) == log[..lsn - first]
            && Contiguous(log[..lsn - first], first)
  {
    LogJoins(chain, hash);
    TargetInRange(chain, target, hash);
    UpToIsPrefix(LogOf(chain), chain[0].manifest.endLsn, TargetLsn(chain, target).value);
  }

  /** What every accepted restore has checked, over the chain itself: nothing stands at the target
  path and the target is not in memory; the chain begins with a full backup without a row twice, at
  the LSN and the commit its manifest says. */
  lemma AcceptedIsChecked(
    chain: seq<Backup>, config: Config, target: Target, options: Options, hash: Hash, initial: State)
    requires Accepted(chain, config, target, options, hash, initial)
    ensures config.absent && !config.profile.InMemory?
    ensures chain != [] && chain[0].manifest.kind == Full && chain[0].full.Some?
    ensures var m, payload := chain[0].manifest, chain[0].full.value;
            && (forall i, j :: 0 <= i < j < |payload| ==> payload[i].cell != payload[j].cell)
            && (match Lookup(ApplyPayload(initial, payload), CURRENT)
                case None => m.endLsn == 0
                case Some(v) => v == LsnValue(m.endLsn))
            && (m.endHash.Some? ==>
                  var last := Find(payload, LogCell(m.endLsn));
                  last.Some? && last.value.RecordValue? && hash(last.value.record) == m.endHash.value)
  {
    hide TensorGate, ReplicationGate, TargetLsn, GoodLogs, ProfileWritesOk, TargetManifest, FloorsGate, Replay, LsnBytes, Find;
  }

  /** How the log was cut into incrementals does not matter: chains with the same full backup and
  the same commits up to the target restore the same rows. */
  lemma {:induction false} CutsDoNotMatter(
    a: seq<Backup>, b: seq<Backup>, config: Config, target: Target, other: Target, options: Options,
    hash: Hash, initial: State)
    requires Accepted(a, config, target, options, hash, initial)
    requires Accepted(b, config, other, options, hash, initial)
    requires a[0] == b[0] && TargetLsn(a, target) == TargetLsn(b, other)
    requires var n := TargetLsn(a, target).value - a[0].manifest.endLsn;
             0 <= n <= |LogOf(a)| && n <= |LogOf(b)| && LogOf(a)[..n] == LogOf(b)[..n]
    ensures Outcome(a, target, initial) == Outcome(b, other, initial)
  {
    RestoreIsExact(a, config, target, options, hash, initial);
    RestoreIsExact(b, config, other, options, hash, initial);
  }

  /** A row no commit keeps books in, seen through the whole restore. */
  lemma {:induction false} RestoredRow(
    chain: seq<Backup>, config: Config, target: Target, options: Options, hash: Hash, initial: State, c: Cell)
    requires Accepted(chain, config, target, options, hash, initial)
    requires !Bookkeeping(c.table) && !RestoreMetadata(c)
    ensures var payload, lsn := chain[0].full.value, TargetLsn(chain, target).value;
            var before := if Find(payload, c).Some? then Find(payload, c) else Lookup(initial, c);
            Lookup(Outcome(chain, target, initial).rows, c)
            == LastWrite(WritesTo(chain, |chain|, lsn), c, before)
  {
    hide ApplyRecord;
    var log := UpTo(LogOf(chain), TargetLsn(chain, target).value);
    assert chain[..|chain|] == chain;
    PayloadLookup(initial, chain[0].full.value, c);
    ReplayRow(Base(chain, initial), log, c);
  }

  ghost predicate AuditOn(s: State) {
    Lookup(s, AUDIT_FLAG) in {None, Some(FlagValue(true))}
  }

  /** The flag the check pass computed from the logs alone is the flag the restored database
  holds, so a restore that did not opt out never ends with audit off, or unencrypted, below a
  floor of its manifest. */
  lemma {:induction false} AuditFloorHolds(
    chain: seq<Backup>, config: Config, target: Target, options: Options, hash: Hash, initial: State)
    requires Accepted(chain, config, target, options, hash, initial)
    requires AUDIT_FLAG !in initial
    ensures Lookup(Outcome(chain, target, initial).rows, AUDIT_FLAG)
         == FlagAt(chain, TargetLsn(chain, target).value)
    ensures var m := TargetManifest(config.profile, chain[0].full.value).value;
            m.Some? && !options.allowUnmetFloors ==>
              && (m.value.floors.audit ==> AuditOn(Outcome(chain, target, initial).rows))
              && (m.value.floors.encryptionAtRest ==> options.targetEncrypted)
  {
    RestoredRow(chain, config, target, options, hash, initial, AUDIT_FLAG);
  }

  ghost predicate StoredGpu(p: Option<Value>) {
    p.Some? && p.value.ProfileValue? && p.value.profile.RequiresGpu()
  }

  /** A restore never crosses the Tensor boundary, whatever profile writes or deletes the log
  holds: the restored profile requires a GPU exactly when the target's does, and then they are
  the same. */
  lemma {:induction false} TensorBoundaryHolds(
    chain: seq<Backup>, config: Config, target: Target, options: Options, hash: Hash, initial: State)
    requires Accepted(chain, config, target, options, hash, initial)
    requires PROFILE in initial ==> initial[PROFILE] == ProfileValue(config.profile)
    ensures var p := Lookup(Outcome(chain, target, initial).rows, PROFILE);
            && (StoredGpu(p) <==> config.profile.RequiresGpu())
            && (StoredGpu(p) ==> p == Some(ProfileValue(config.profile)))
  {
    RestoredRow(chain, config, target, options, hash, initial, PROFILE);
    var payload := chain[0].full.value;
    var before := if Find(payload, PROFILE).Some? then Find(payload, PROFILE) else Lookup(initial, PROFILE);
    assert chain[0] in chain;
    ProfileKept(chain[0].manifest.profile, WritesTo(chain, |chain|, TargetLsn(chain, target).value), before);
  }

  /** Profile writes that pass the check keep a Tensor profile, and never introduce one. */
  lemma {:induction false} ProfileKept(source: Profile, writes: seq<CommitWrite>, before: Option<Value>)
    requires ProfileWritesOk(source, writes)
    requires source.RequiresGpu() ==> before == Some(ProfileValue(source))
    requires !source.RequiresGpu() ==> !StoredGpu(before)
    ensures source.RequiresGpu() ==> LastWrite(writes, PROFILE, before) == Some(ProfileValue(source))
    ensures !source.RequiresGpu() ==> !StoredGpu(LastWrite(writes, PROFILE, before))
  {
    if writes != [] {
      assert ProfileWriteOk(source, writes[|writes| - 1]);
      ProfileKept(source, writes[..|writes| - 1], before);
    }
  }
}
