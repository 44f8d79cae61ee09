/** When policy lets a produced chain be restored, in terms of the rows the source stored and the
commits it made: the profile, replication, manifest and floor gates of `src/backup.rs`. */
module RestorePolicy {
  import opened Bytes
  import opened Store
  import opened Chain
  import opened CommitLog
  import opened RestoreChecks
  import opened Restore
  import opened Producers
  import opened SourceHistory
  import opened EndToEnd

  // ---- The conditions, over stored rows ----

  /** No Tensor profile is involved, or target, backups and stored profile all have the same one. */
  ghost predicate ProfilesFit(stored: Option<Value>, taken: Profile, target: Profile) {
    && (stored.Some? ==> stored.value.ProfileValue?)
    && ((!target.Tensor? && !taken.Tensor? && stored != Some(ProfileValue(Tensor)))
        || (taken == target && stored == Some(ProfileValue(target))))
  }

  /** An AP database is restored from a single full backup, and not to a later time. */
  ghost predicate ReplicationFits(stored: Option<Value>, backups: nat, taken: Time, target: Target) {
    stored.Some? ==>
      && stored.value.ReplicationValue?
      && (stored.value.ap ==> backups <= 1 && (target.AtTime? ==> target.time <= taken))
  }

  /** A profile write keeps the profile, or stays clear of Tensor with it. */
  ghost predicate ProfileWriteFits(w: CommitWrite, taken: Profile) {
    Cell(w.table, w.key) == PROFILE ==>
      if w.value.None? then !taken.Tensor?
      else w.value.value.ProfileValue?
           && (w.value.value.profile == taken || (!taken.Tensor? && !w.value.value.profile.Tensor?))
  }

  ghost predicate ProfileWritesFit(log: seq<CommitRecord>, taken: Profile) {
    forall r, w :: r in log && w in r.writes ==> ProfileWriteFits(w, taken)
  }

  /** A stored profile manifest is valid and of the target's profile, and its floors are met or the
  operator waived them. */
  ghost predicate FloorsFit(stored: Option<Value>, flag: Option<Value>, target: Profile, options: Options) {
    stored.Some? ==>
      && stored.value.ManifestValue? && stored.value.manifest.valid
      && stored.value.manifest.storageProfile == target
      && var floors := stored.value.manifest.floors;
      && (floors.audit && flag.Some? ==> flag.value.FlagValue?)
      && (options.allowUnmetFloors
          || ((floors.audit ==> flag != Some(FlagValue(false)))
              && (floors.encryptionAtRest ==> options.targetEncrypted)))
  }

  /** The source's rows at the full backup and its commits since then, up to the target. */
  ghost predicate SourcePermits(
    db: State, log: seq<CommitRecord>, taken: Profile, backups: nat, at: Time, config: Config, target: Target,
    options: Options)
  {
    && ProfilesFit(Lookup(db, PROFILE), taken, config.profile)
    && ReplicationFits(Lookup(db, REPLICATION), backups, at, target)
    && ProfileWritesFit(log, taken)
    && FloorsFit(Lookup(db, MANIFEST), LastWrite(WritesOf(log), AUDIT_FLAG, Lookup(db, AUDIT_FLAG)),
                 config.profile, options)
  }

  // ---- The gates ----

  lemma {:induction false} CountsOnce(payload: seq<DataRecord>, c: Cell)
    requires NoDuplicates(payload)
    ensures Count(payload, c) == if Find(payload, c).Some? then 1 else 0
  {
    if payload != [] {
      var rest := payload[1..];
      assert forall i :: 0 <= i < |rest| ==> rest[i] == payload[i + 1];
      CountsOnce(rest, c);
      if payload[0].cell == c {
        assert forall i :: 0 <= i < |rest| ==> rest[i].cell != c;
      }
    }
  }

  lemma {:induction false} TensorGatePasses(chain: seq<Backup>, target: Profile, payload: seq<DataRecord>, taken: Profile)
    requires chain != [] && NoDuplicates(payload)
    requires forall i :: 0 <= i < |chain| ==> chain[i].manifest.profile == taken
    ensures TensorGate(chain, target, payload).Ok? <==> ProfilesFit(Find(payload, PROFILE), taken, target)
  {
    hide Find, Count, FirstOther;
    CountsOnce(payload, PROFILE);
    assert chain[0].manifest.profile == taken;
  }

  lemma ReplicationGatePasses(chain: seq<Backup>, payload: seq<DataRecord>, target: Target)
    requires chain != []
    ensures ReplicationGate(chain, payload, target).Ok?
            <==> ReplicationFits(Find(payload, REPLICATION), |chain|, chain[0].manifest.takenAt, target)
  {
    hide Find;
  }

  lemma FloorGatesPass(target: Profile, payload: seq<DataRecord>, flag: Option<Value>, options: Options)
    ensures var manifest := TargetManifest(target, payload);
            (manifest.Ok? && (manifest.value.Some? ==> FloorsGate(manifest.value.value, flag, options).Ok?))
            <==> FloorsFit(Find(payload, MANIFEST), flag, target, options)
  {
    hide Find;
  }

  lemma {:induction false} WritesAreOfRecords(log: seq<CommitRecord>, w: CommitWrite)
    ensures w in WritesOf(log) <==> exists r :: r in log && w in r.writes
  {
    if log != [] {
      var before, last := log[..|log| - 1], log[|log| - 1];
      assert log == before + [last];
      WritesAreOfRecords(before, w);
    }
  }

  lemma {:induction false} ProfileWritesPass(log: seq<CommitRecord>, taken: Profile)
    ensures ProfileWritesOk(taken, WritesOf(log)) <==> ProfileWritesFit(log, taken)
  {
    hide WritesOf;
    var writes := WritesOf(log);
    forall w ensures ProfileWriteOk(taken, w) <==> ProfileWriteFits(w, taken) {
    }
    forall w ensures w in writes <==> exists r :: r in log && w in r.writes {
      WritesAreOfRecords(log, w);
    }
    hide ProfileWriteOk, ProfileWriteFits;
    assert ProfileWritesOk(taken, writes) <==> forall w :: w in writes ==> ProfileWriteOk(taken, w);
  }

  // ---- The theorem ----

  /** The payload holds the source's own metadata rows. */
  lemma {:induction false} MetadataRowBackedUp(
    states: seq<State>, steps: seq<Step>, at: seq<nat>, backups: seq<Backup>, objects: Objects, hash: Hash, c: Cell)
    requires Run(states, steps) && Produced(states, at, backups, objects, hash)
    requires c.table != SEGMENTS && c.table != TXN_MVCC
    ensures NoDuplicates(backups[0].full.value)
    ensures Find(backups[0].full.value, c) == Lookup(states[at[0]], c)
  {
    var db, payload := states[at[0]], backups[0].full.value;
    RunsAreSound(states, steps, at[0]);
    assert IsPayload(db, objects, payload) && Covered(db);
    hide Run, Produced, Sound, IsPayload, Covered, NoDuplicates, HoldsCurrentPointer, Resolve;
    PayloadFind(db, objects, payload, c);
    NotHistory(db, c);
  }

  lemma {:induction false} PolicyReadsTheSource(
    states: seq<State>, steps: seq<Step>, at: seq<nat>, backups: seq<Backup>, objects: Objects, hash: Hash)
    requires Run(states, steps) && Produced(states, at, backups, objects, hash)
    ensures var db, payload := states[at[0]], backups[0].full.value;
            && NoDuplicates(payload)
            && Find(payload, PROFILE) == Lookup(db, PROFILE)
            && Find(payload, REPLICATION) == Lookup(db, REPLICATION)
            && Find(payload, MANIFEST) == Lookup(db, MANIFEST)
            && Find(payload, AUDIT_FLAG) == Lookup(db, AUDIT_FLAG)
  {
    hide Run, Find, Lookup, NoDuplicates, IncrementalOf, IsPayload, Resolvable, CommitHashAt, CurrentLsn;
    MetadataRowBackedUp(states, steps, at, backups, objects, hash, PROFILE);
    MetadataRowBackedUp(states, steps, at, backups, objects, hash, REPLICATION);
    MetadataRowBackedUp(states, steps, at, backups, objects, hash, MANIFEST);
    MetadataRowBackedUp(states, steps, at, backups, objects, hash, AUDIT_FLAG);
  }

  /** The writes policy looks at are those of the source's commits since the full backup, up to
  the target. */
  lemma {:induction false} PolicyReadsTheCommits(
    states: seq<State>, steps: seq<Step>, at: seq<nat>, backups: seq<Backup>, objects: Objects, hash: Hash,
    target: Target)
    requires Run(states, steps) && BelowLimit(steps) && Produced(states, at, backups, objects, hash)
    requires TargetLsn(backups, target).Ok?
    ensures var first, lsn := |Commits(steps[..at[0]])|, TargetLsn(backups, target).value;
            && first <= lsn <= |Commits(steps)|
            && WritesTo(backups, |backups|, lsn) == WritesOf(Commits(steps)[first..lsn])
  {
    hide Run, Produced, Commits, LogOf, GoodLogs, TargetLsn, UpTo, WritesOf;
    Indices(states, steps, at, backups, objects, hash);
    ProducedLogs(states, steps, at, backups, objects, hash);
    ReplayedLog(backups, target, hash);
    ProducedLog(states, steps, at, backups, objects, hash, |backups|);
    FullLsn(states, steps, at, backups, objects, hash);
    assert backups[..|backups|] == backups;
    var first, lsn, last := backups[0].manifest.endLsn, TargetLsn(backups, target).value,
      backups[|backups| - 1].manifest.endLsn;
    assert Commits(steps)[first..last][..lsn - first] == Commits(steps)[first..lsn];
  }

  /** Policy, over what the source stored and committed. */
  lemma {:induction false} PolicyIsOfTheSource(
    states: seq<State>, steps: seq<Step>, at: seq<nat>, backups: seq<Backup>, objects: Objects, hash: Hash,
    config: Config, target: Target, options: Options, taken: Profile)
    requires Run(states, steps) && BelowLimit(steps) && Produced(states, at, backups, objects, hash)
    requires TargetLsn(backups, target).Ok?
    requires forall k :: 0 <= k < |backups| ==> backups[k].manifest.profile == taken
    ensures var first, lsn := |Commits(steps[..at[0]])|, TargetLsn(backups, target).value;
            && first <= lsn <= |Commits(steps)|
            && (PolicyAllows(backups, config, target, options)
                <==> SourcePermits(states[at[0]], Commits(steps)[first..lsn], taken, |at|,
                                   backups[0].manifest.takenAt, config, target, options))
  {
    hide Run, Produced, Commits, LogOf, TargetLsn, UpTo, WritesOf, WritesTo, LastWrite, Find, Lookup, NoDuplicates,
      TensorGate, ReplicationGate, ProfileWritesOk, TargetManifest, FloorsGate, ProfilesFit, ReplicationFits,
      ProfileWritesFit, FloorsFit;
    Indices(states, steps, at, backups, objects, hash);
    PolicyReadsTheSource(states, steps, at, backups, objects, hash);
    PolicyReadsTheCommits(states, steps, at, backups, objects, hash, target);
    var payload, first, lsn := backups[0].full.value, |Commits(steps[..at[0]])|, TargetLsn(backups, target).value;
    TensorGatePasses(backups, config.profile, payload, taken);
    ReplicationGatePasses(backups, payload, target);
    ProfileWritesPass(Commits(steps)[first..lsn], taken);
    FloorGatesPass(config.profile, payload, FlagAt(backups, lsn), options);
  }
}
