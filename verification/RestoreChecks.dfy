/** The checks a restore makes before it creates anything (`src/backup.rs`): the choice of the
target LSN, the profile, replication, hash and floor gates, and the first pass over the
incremental payloads. */
module RestoreChecks {
  import opened Bytes
  import opened Store
  import opened Chain
  import opened CommitLog

  datatype Target = Latest | AtLsn(lsn: Lsn) | AtTime(time: Time)

  datatype Options = Options(targetEncrypted: bool, allowUnmetFloors: bool)

  // ---- Choosing the target LSN ----

  /** How many commits come before the first one committed after `time`. */
  function CommitsBy(log: seq<CommitRecord>, time: Time): (n: nat)
    ensures n <= |log|
    ensures forall i :: 0 <= i < n ==> log[i].committedAt <= time
    ensures n < |log| ==> log[n].committedAt > time
  {
    if log == [] || log[0].committedAt > time then 0
    else 1 + CommitsBy(log[1..], time)
  }

  /** The LSN of the last of the first `n` commits, or `start` if there are none. */
  function LsnAfter(log: seq<CommitRecord>, n: nat, start: Lsn): Lsn
    requires n <= |log|
  {
    if n == 0 then start else log[n - 1].txnId
  }

  lemma {:induction false} CommitsByIs(log: seq<CommitRecord>, time: Time, n: nat)
    requires n <= |log|
    requires forall i :: 0 <= i < n ==> log[i].committedAt <= time
    requires n < |log| ==> log[n].committedAt > time
    ensures CommitsBy(log, time) == n
  {
    if n > 0 {
      CommitsByIs(log[1..], time, n - 1);
    }
  }

  lemma {:induction false} CommitsByJoin(a: seq<CommitRecord>, b: seq<CommitRecord>, time: Time)
    ensures CommitsBy(a + b, time)
         == if CommitsBy(a, time) == |a| then |a| + CommitsBy(b, time) else CommitsBy(a, time)
  {
    if a == [] {
      assert a + b == b;
    } else {
      assert (a + b)[1..] == a[1..] + b;
      CommitsByJoin(a[1..], b, time);
    }
  }

  /** The LSN the longest prefix of the chain's log committed by `time` ends at. */
  function TimeLsn(chain: seq<Backup>, time: Time): Lsn
    requires chain != []
  {
    LsnAfter(LogOf(chain), CommitsBy(LogOf(chain), time), chain[0].manifest.endLsn)
  }

  /** Every incremental payload can be read. */
  ghost predicate Readable(chain: seq<Backup>) {
    forall i :: 0 < i < |chain| ==> chain[i].wal.Some?
  }

  lemma {:induction false} GoodLogsReadable(chain: seq<Backup>, hash: Hash)
    requires GoodLogs(chain, hash)
    ensures Readable(chain)
  {
    forall i | 0 < i < |chain| ensures chain[i].wal.Some? {
      assert GoodLog(chain, i, hash);
    }
  }

  /** The inner loop of `target_lsn_for_time`, over one payload. */
  method ScanPayload(records: seq<CommitRecord>, time: Time, before: Lsn)
    returns (selected: Lsn, tooLate: bool)
    ensures selected == LsnAfter(records, CommitsBy(records, time), before)
    ensures tooLate <==> CommitsBy(records, time) < |records|
  {
    selected := before;
    for j := 0 to |records|
      invariant forall k :: 0 <= k < j ==> records[k].committedAt <= time
      invariant selected == LsnAfter(records, j, before)
    {
      if records[j].committedAt > time {
        CommitsByIs(records, time, j);
        return selected, true;
      }
      selected := records[j].txnId;
    }
    CommitsByIs(records, time, |records|);
    tooLate := false;
  }

  /** One more payload, after a log that was committed by `time` as a whole. */
  lemma {:induction false} ScanStep(chain: seq<Backup>, i: nat, time: Time)
    requires 0 < i < |chain| && chain[i].wal.Some?
    requires CommitsBy(LogOf(chain[..i]), time) == |LogOf(chain[..i])|
    ensures var before, wal, start := LogOf(chain[..i]), chain[i].wal.value, chain[0].manifest.endLsn;
            var selected := LsnAfter(wal, CommitsBy(wal, time), LsnAfter(before, |before|, start));
            && LogOf(chain[..i + 1]) == before + wal
            && (CommitsBy(wal, time) < |wal| ==> selected == TimeLsn(chain, time))
            && (CommitsBy(wal, time) == |wal| ==>
                  && CommitsBy(before + wal, time) == |before + wal|
                  && selected == LsnAfter(before + wal, |before + wal|, start))
  {
    hide LogOf, CommitsBy;
    var before, wal := LogOf(chain[..i]), chain[i].wal.value;
    LogOfPrefix(chain, i);
    CommitsByJoin(before, wal, time);
    LogPrefix(chain, i + 1);
    var rest := LogOf(chain)[|before + wal|..];
    assert LogOf(chain) == before + wal + rest;
    CommitsByJoin(before + wal, rest, time);
  }

  /** How many backups from the front the scan can read: up to the first unreadable payload. */
  function ReadableTo(chain: seq<Backup>, i: nat): (n: nat)
    requires 0 < i <= |chain|
    ensures i <= n <= |chain|
    ensures forall j :: i <= j < n ==> chain[j].wal.Some?
    ensures n < |chain| ==> chain[n].wal.None?
    decreases |chain| - i
  {
    if i == |chain| || chain[i].wal.None? then i else ReadableTo(chain, i + 1)
  }

  /** What a time resolves to. Payloads are read one by one and the scan stops at the first commit
  made too late, so an unreadable payload matters only when no readable one stops the scan. */
  function TimeTarget(chain: seq<Backup>, time: Time): Result<Lsn>
    requires chain != []
  {
    var readable := chain[..ReadableTo(chain, 1)];
    if time < chain[0].manifest.takenAt then Err(Unsupported)
    else if |readable| < |chain| && CommitsBy(LogOf(readable), time) == |LogOf(readable)| then Err(Unreadable)
    else Ok(TimeLsn(readable, time))
  }

  lemma ReadableTarget(chain: seq<Backup>, time: Time)
    requires chain != [] && Readable(chain) && chain[0].manifest.takenAt <= time
    ensures TimeTarget(chain, time) == Ok(TimeLsn(chain, time))
  {
    assert chain[..|chain|] == chain;
  }

  /** `target_lsn_for_time`: the end of the longest prefix of the readable log that was committed
  by `time`, unless an unreadable payload comes before its end is known. */
  method TargetLsnForTime(chain: seq<Backup>, time: Time) returns (r: Result<Lsn>)
    requires chain != []
    ensures r == TimeTarget(chain, time)
  {
    hide CommitsBy, LogOf;
    if time < chain[0].manifest.takenAt {
      return Err(Unsupported);
    }
    ghost var readable := chain[..ReadableTo(chain, 1)];
    var start := chain[0].manifest.endLsn;
    var selected := start;
    NothingScanned(readable, time);
    for i := 1 to |chain|
      invariant i <= |readable|
      invariant CommitsBy(LogOf(readable[..i]), time) == |LogOf(readable[..i])|
      invariant selected == LsnAfter(LogOf(readable[..i]), |LogOf(readable[..i])|, start)
    {
      if chain[i].wal.None? {
        assert readable[..i] == readable;
        return Err(Unreadable);
      }
      var late;
      ScanStep(readable, i, time);
      selected, late := ScanPayload(chain[i].wal.value, time, selected);
      if late {
        LateStops(readable, i, time);
        return Ok(selected);
      }
    }
    assert readable[..|chain|] == readable;
    return Ok(selected);
  }

  lemma NothingScanned(chain: seq<Backup>, time: Time)
    requires chain != []
    ensures LogOf(chain[..1]) == [] && CommitsBy([], time) == 0
  {
  }

  /** A payload with a commit made too late keeps the whole log from being committed in time. */
  lemma LateStops(chain: seq<Backup>, i: nat, time: Time)
    requires 0 < i < |chain| && chain[i].wal.Some? && CommitsBy(chain[i].wal.value, time) < |chain[i].wal.value|
    ensures CommitsBy(LogOf(chain), time) < |LogOf(chain)|
  {
    hide LogOf;
    var before, wal := LogOf(chain[..i]), chain[i].wal.value;
    LogOfPrefix(chain, i);
    CommitsByJoin(before, wal, time);
    LogPrefix(chain, i + 1);
    var rest := LogOf(chain)[|before + wal|..];
    assert LogOf(chain) == before + wal + rest;
    CommitsByJoin(before + wal, rest, time);
  }

  /** What `resolve_target_lsn` chooses when every payload can be read. */
  function TargetLsn(chain: seq<Backup>, target: Target): Result<Lsn>
    requires chain != []
  {
    var first, last := chain[0].manifest, chain[|chain| - 1].manifest;
    match target
    case Latest => Ok(last.endLsn)
    case AtLsn(lsn) =>
      if lsn < first.endLsn then Err(Unsupported)
      else if lsn > last.endLsn then Err(Corruption)
      else Ok(lsn)
    case AtTime(time) =>
      if time < first.takenAt then Err(Unsupported) else Ok(TimeLsn(chain, time))
  }

  /** What `resolve_target_lsn` answers; only a time target reads payloads. */
  function ResolvedLsn(chain: seq<Backup>, target: Target): Result<Lsn>
    requires chain != []
  {
    if target.AtTime? then TimeTarget(chain, target.time) else TargetLsn(chain, target)
  }

  method ResolveTargetLsn(chain: seq<Backup>, target: Target) returns (r: Result<Lsn>)
    requires chain != []
    ensures r == ResolvedLsn(chain, target)
    ensures Readable(chain) ==> r == TargetLsn(chain, target)
  {
    var first, last := chain[0].manifest, chain[|chain| - 1].manifest;
    match target {
      case Latest => return Ok(last.endLsn);
      case AtLsn(lsn) =>
        if lsn < first.endLsn {
          return Err(Unsupported);
        }
        if lsn > last.endLsn {
          return Err(Corruption);
        }
        return Ok(lsn);
      case AtTime(time) =>
        hide ReadableTo, TimeLsn;
        r := TargetLsnForTime(chain, time);
        if Readable(chain) && first.takenAt <= time {
          ReadableTarget(chain, time);
        }
    }
  }

  /** Time-targeted recovery picks the longest prefix: the chosen LSN lies in the chain, every
  commit up to it was made by `time`, and the next one, if any, was not. */
  lemma {:induction false} TimeTargetIsLongestPrefix(chain: seq<Backup>, time: Time, hash: Hash, lsn: Lsn)
    requires chain != [] && GoodLogs(chain, hash)
    requires TargetLsn(chain, AtTime(time)) == Ok(lsn)
    ensures var first, last, log := chain[0].manifest.endLsn, chain[|chain| - 1].manifest.endLsn, LogOf(chain);
            && first <= lsn <= last
            && (forall i :: 0 <= i < |log| && log[i].txnId <= lsn ==> log[i].committedAt <= time)
            && (forall i :: 0 <= i < |log| && log[i].txnId == lsn + 1 ==> log[i].committedAt > time)
  {
    LogJoins(chain, hash);
  }

  lemma {:induction false} TargetInRange(chain: seq<Backup>, target: Target, hash: Hash)
    requires chain != [] && GoodLogs(chain, hash) && TargetLsn(chain, target).Ok?
    ensures chain[0].manifest.endLsn <= TargetLsn(chain, target).value <= chain[|chain| - 1].manifest.endLsn
  {
    LogJoins(chain, hash);
    if target.AtTime? {
      TimeTargetIsLongestPrefix(chain, target.time, hash, TargetLsn(chain, target).value);
    }
  }

  /** It is the greatest such LSN: any longer prefix holds a commit made after `time`. */
  lemma {:induction false} TimeTargetIsGreatest(chain: seq<Backup>, time: Time, hash: Hash, lsn: Lsn, other: Lsn)
    requires chain != [] && GoodLogs(chain, hash)
    requires TargetLsn(chain, AtTime(time)) == Ok(lsn)
    requires lsn < other <= chain[|chain| - 1].manifest.endLsn
    ensures exists i :: 0 <= i < |LogOf(chain)| && LogOf(chain)[i].txnId <= other
                        && LogOf(chain)[i].committedAt > time
  {
    LogJoins(chain, hash);
    var n := CommitsBy(LogOf(chain), time);
    assert LogOf(chain)[n].txnId == lsn + 1;
  }

  /** A later requested time never recovers less, whatever the wall clocks in the log did. */
  lemma {:induction false} TimeTargetMonotone(chain: seq<Backup>, early: Time, late: Time, hash: Hash)
    requires chain != [] && GoodLogs(chain, hash)
    requires chain[0].manifest.takenAt <= early <= late
    ensures TimeLsn(chain, early) <= TimeLsn(chain, late)
  {
    LogJoins(chain, hash);
    var n := CommitsBy(LogOf(chain), late);
    assert n < |LogOf(chain)| ==> LogOf(chain)[n].committedAt > early;
  }

  // ---- The gates ----

  function DecodeProfile(v: Value): Result<Profile> {
    if v.ProfileValue? then Ok(v.profile) else Err(Corruption)
  }

  function Count(payload: seq<DataRecord>, c: Cell): nat {
    if payload == [] then 0
    else Count(payload[1..], c) + if payload[0].cell == c then 1 else 0
  }

  /** `ensure_tensor_restore_profile`. */
  function TensorGate(chain: seq<Backup>, config: Profile, payload: seq<DataRecord>): Result<()>
    requires chain != []
  {
    var first := chain[0].manifest.profile;
    var found := Find(payload, PROFILE);
    var stored :- if found.Some? then
                    (var p :- DecodeProfile(found.value); Ok(Some(p)))
                  else Ok(None);
    if Count(payload, PROFILE) > 1 then Err(Corruption)
    else if !config.RequiresGpu() && !(stored.Some? && stored.value.RequiresGpu())
            && (forall i :: 0 <= i < |chain| ==> !chain[i].manifest.profile.RequiresGpu()) then Ok(())
    else if first != config then Err(ProfileMismatch(config, first))
    else if stored != Some(first) then Err(Corruption)
    else FirstOther(chain, first)
  }

  function FirstOther(chain: seq<Backup>, profile: Profile): (r: Result<()>)
    ensures r.Ok? <==> forall i :: 0 <= i < |chain| ==> chain[i].manifest.profile == profile
  {
    if chain == [] then Ok(())
    else if chain[0].manifest.profile != profile then
      Err(ProfileMismatch(profile, chain[0].manifest.profile))
    else FirstOther(chain[1..], profile)
  }

  /** `ensure_restore_replication_supported`. */
  function ReplicationGate(chain: seq<Backup>, payload: seq<DataRecord>, target: Target): Result<()>
    requires chain != []
  {
    var found := Find(payload, REPLICATION);
    if found.None? then Ok(())
    else if !found.value.ReplicationValue? then Err(Corruption)
    else if !found.value.ap then Ok(())
    else if |chain| > 1 || (target.AtTime? && target.time > chain[0].manifest.takenAt) then Err(Unsupported)
    else Ok(())
  }

  /** `check_full_commit_hash`. */
  function FullHashGate(m: Manifest, payload: seq<DataRecord>, hash: Hash): Result<()> {
    if m.endHash.None? then Ok(())
    else
      var found := Find(payload, LogCell(m.endLsn));
      if found.None? || !found.value.RecordValue? || hash(found.value.record) != m.endHash.value
      then Err(Corruption)
      else Ok(())
  }

  /** `restore_target_manifest`. */
  function TargetManifest(config: Profile, payload: seq<DataRecord>): Result<Option<ProfileManifest>> {
    var found := Find(payload, MANIFEST);
    if found.None? then Ok(None)
    else if !found.value.ManifestValue? || !found.value.manifest.valid then Err(Corruption)
    else if found.value.manifest.storageProfile != config then
      Err(ProfileMismatch(config, found.value.manifest.storageProfile))
    else Ok(Some(found.value.manifest))
  }

  function UnmetFloors(floors: Floors, auditOn: bool, encrypted: bool): seq<Bytes> {
    (if floors.audit && !auditOn then ["floors.audit"] else [])
    + (if floors.encryptionAtRest && !encrypted then ["floors.encryption_at_rest"] else [])
  }

  /** `check_restore_floors`. */
  function FloorsGate(m: ProfileManifest, flag: Option<Value>, options: Options): Result<()> {
    if m.floors.audit && flag.Some? && !flag.value.FlagValue? then Err(Corruption)
    else
      var auditOn := !m.floors.audit || flag.None? || flag.value.on;
      var unmet := UnmetFloors(m.floors, auditOn, options.targetEncrypted);
      if unmet == [] || options.allowUnmetFloors then Ok(()) else Err(FloorsNotMet(unmet))
  }

  /** A logged profile write that `check_incremental_payloads` lets through. */
  predicate ProfileWriteOk(source: Profile, w: CommitWrite) {
    Cell(w.table, w.key) != PROFILE
    || (w.value.None? && !source.RequiresGpu())
    || (w.value.Some? && w.value.value.ProfileValue?
        && (w.value.value.profile == source
            || (!source.RequiresGpu() && !w.value.value.profile.RequiresGpu())))
  }

  ghost predicate ProfileWritesOk(source: Profile, writes: seq<CommitWrite>) {
    forall i :: 0 <= i < |writes| ==> ProfileWriteOk(source, writes[i])
  }

  /** The writes of one payload: the audit flag they leave, unless a profile write is refused. */
  method CheckWrites(writes: seq<CommitWrite>, source: Profile, before: Option<Value>)
    returns (r: Result<Option<Value>>)
    ensures r.Ok? <==> ProfileWritesOk(source, writes)
    ensures r.Ok? ==> r.value == LastWrite(writes, AUDIT_FLAG, before)
    ensures r.Err? ==> r == Err(Corruption)
  {
    var flag := before;
    for i := 0 to |writes|
      invariant flag == LastWrite(writes[..i], AUDIT_FLAG, before)
      invariant ProfileWritesOk(source, writes[..i])
    {
      var w := writes[i];
      assert writes[..i + 1][..i] == writes[..i];
      if Cell(w.table, w.key) == AUDIT_FLAG {
        flag := w.value;
      }
      if Cell(w.table, w.key) == PROFILE {
        if w.value.Some? && !w.value.value.ProfileValue? {
          assert !ProfileWriteOk(source, writes[i]);
          return Err(Corruption);
        }
        var next := if w.value.Some? then Some(w.value.value.profile) else None;
        if (source.RequiresGpu() || (next.Some? && next.value.RequiresGpu())) && next != Some(source) {
          assert !ProfileWriteOk(source, writes[i]);
          return Err(Corruption);
        }
      }
    }
    assert writes[..|writes|] == writes;
    return Ok(flag);
  }

  /** The writes of the first `n` backups of a chain, up to a target. */
  function WritesTo(chain: seq<Backup>, n: nat, target: Lsn): seq<CommitWrite>
    requires n <= |chain|
  {
    WritesOf(UpTo(LogOf(chain[..n]), target))
  }

  lemma {:induction false} WritesStep(chain: seq<Backup>, i: nat, target: Lsn)
    requires 0 < i < |chain| && chain[i].wal.Some?
    ensures WritesTo(chain, i + 1, target)
         == WritesTo(chain, i, target) + WritesOf(UpTo(chain[i].wal.value, target))
  {
    LogOfPrefix(chain, i);
    UpToJoin(LogOf(chain[..i]), chain[i].wal.value, target);
    WritesJoin(UpTo(LogOf(chain[..i]), target), UpTo(chain[i].wal.value, target));
  }

  lemma {:induction false} WritesPrefix(chain: seq<Backup>, n: nat, target: Lsn)
    requires 0 < n <= |chain|
    ensures WritesTo(chain, n, target) <= WritesTo(chain, |chain|, target)
  {
    LogPrefix(chain, n);
    var a := LogOf(chain[..n]);
    var b := LogOf(chain)[|a|..];
    assert LogOf(chain) == a + b;
    UpToJoin(a, b, target);
    WritesJoin(UpTo(a, target), UpTo(b, target));
    assert chain[..|chain|] == chain;
  }

  lemma {:induction false} NoWritesYet(chain: seq<Backup>, target: Lsn, source: Profile, full: Option<Value>)
    requires chain != []
    ensures ProfileWritesOk(source, WritesTo(chain, 1, target))
    ensures LastWrite(WritesTo(chain, 1, target), AUDIT_FLAG, full) == full
  {
    assert WritesTo(chain, 1, target) == [];
  }

  /** What one more payload adds to both results of the check pass. */
  lemma {:induction false} CheckStep(chain: seq<Backup>, i: nat, target: Lsn, source: Profile, full: Option<Value>)
    requires 0 < i < |chain| && chain[i].wal.Some?
    ensures var now, next := WritesTo(chain, i, target), WritesTo(chain, i + 1, target);
            var writes := WritesOf(UpTo(chain[i].wal.value, target));
            && LastWrite(next, AUDIT_FLAG, full) == LastWrite(writes, AUDIT_FLAG, LastWrite(now, AUDIT_FLAG, full))
            && (ProfileWritesOk(source, now) && ProfileWritesOk(source, writes) ==> ProfileWritesOk(source, next))
            && (!ProfileWritesOk(source, writes) ==> !ProfileWritesOk(source, WritesTo(chain, |chain|, target)))
  {
    hide WritesTo, WritesOf, UpTo, LastWrite, ProfileWriteOk;
    var now, next := WritesTo(chain, i, target), WritesTo(chain, i + 1, target);
    var writes := WritesOf(UpTo(chain[i].wal.value, target));
    WritesStep(chain, i, target);
    LastWriteJoin(now, writes, AUDIT_FLAG, full);
    WritesPrefix(chain, i + 1, target);
    if !ProfileWritesOk(source, writes) {
      var k :| 0 <= k < |writes| && !ProfileWriteOk(source, writes[k]);
      assert WritesTo(chain, |chain|, target)[|now| + k] == next[|now| + k] == writes[k];
    }
  }

  /** `check_incremental_payloads`: every log is read and checked, and the audit flag the
  restored database will hold is computed without building any state. */
  method CheckIncrementalPayloads(
    chain: seq<Backup>, payload: seq<DataRecord>, target: Lsn, hash: Hash)
    returns (r: Result<Option<Value>>)
    requires chain != []
    ensures r.Ok? <==> GoodLogs(chain, hash)
                       && ProfileWritesOk(chain[0].manifest.profile, WritesTo(chain, |chain|, target))
    ensures r.Ok? ==> r.value == LastWrite(WritesTo(chain, |chain|, target), AUDIT_FLAG,
                                           Find(payload, AUDIT_FLAG))
  {
    hide WritesTo, LastWrite, ProfileWritesOk, LogChecks, Find;
    var source := chain[0].manifest.profile;
    var full := Find(payload, AUDIT_FLAG);
    var flag := full;
    var last := chain[0].manifest.endLsn;
    NoWritesYet(chain, target, source, full);
    for i := 1 to |chain|
      invariant forall j :: 0 < j < i ==> GoodLog(chain, j, hash)
      invariant last == chain[i - 1].manifest.endLsn
      invariant ProfileWritesOk(source, WritesTo(chain, i, target))
      invariant flag == LastWrite(WritesTo(chain, i, target), AUDIT_FLAG, full)
    {
      if chain[i].wal.None? {
        assert !GoodLog(chain, i, hash);
        return Err(Unreadable);
      }
      var checked := CheckCommitLog(chain[i].manifest, chain[i].wal.value, last, hash);
      if checked.Err? {
        assert !GoodLog(chain, i, hash);
        return Err(checked.error);
      }
      last := checked.value;
      CheckStep(chain, i, target, source, full);
      var next := CheckWrites(WritesOf(UpTo(chain[i].wal.value, target)), source, flag);
      if next.Err? {
        return Err(next.error);
      }
      flag := next.value;
    }
    return Ok(flag);
  }
}
