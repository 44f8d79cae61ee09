# Verified model of multidb's recovery, cursor, limiter, policy and publication logic

This project models the parts of the multidb database engine whose promises span many
operations or a whole run, and proves those promises for every input, every run or every
interleaving.

* **Backup and point-in-time restore** (`Bytes`, `Integers`, `Store`, `Chain`, `CommitLog`,
  `RestoreChecks`, `Restore`, `Producers`, `LogScan`, `SourceHistory`, `EndToEnd`,
  `RestorePolicy`, `BackupRoundTrip`, `RowHistory`). A
  database is a map from (table, key) to a value; a commit is applied with its version history, table versions,
  keyspace registry, log row and clock. Full and incremental backups are taken at any points
  of any run of commits and maintenance. The chain loader, the validators, the time and LSN
  targets and the replay are modelled as the loops they are. The main result is
  `BackupRoundTrip.BackUpAndRestore`, over code that takes backups at any moments of any run,
  publishes them and restores them to any target: the backups are taken exactly when the log
  still reaches from each moment back to the one before; the restore succeeds exactly when the
  target is in reach and what the source stored and committed permits it; and it then rebuilds
  the source, row by row, at the LSN the target asks for.
* **Continuous-query cursors** (`Cursors`, `CursorSafety`, `CursorAnswers`). The operations are given as code
  over a mutable store, as one atomic step, and as the interleaved steps of any number of
  clients among arbitrary other writers. Every interleaved run refines an atomic one, and
  every atomic run is some interleaving. When an operation is accepted, with which error it is
  refused and what it leaves is stated over the stored rows.
* **Admin login limiter** (`LoginLimiter`, `LimiterSafety`, `LimiterRate`,
  `LimiterReference`, `LimiterAudit`, `LimiterCeiling`, `LimiterLockout`, `LimiterClock`). A
  class updated in place, its invariants over all runs, a bound on the grants in any stretch of
  time, a reference limiter that never prunes, what the ceiling and the lockout do by counting
  grants and successes, and how often audit events are written.
* **Atomic file publication** (`AtomicFile`, `AtomicFileSafety`). The system calls of any
  number of writers interleave, fail and are cut off by crashes.
* **Masking and data pages** (`Masking`, `Paging`, `Visibility`, `PageMasks`), **numeric collation**
  (`Collation`) and the **call parser** (`CallParser`, `CallRoundTrip`), with the character
  helpers they share in `Text`.

Some promises turned out to hold under a condition only. For these there is a lemma with the
failing case and an exact condition:

* The acknowledgement check compares LSNs within one timeline, so it does not compose: a
  cursor can leave a timeline and come back to it lower. `CursorSafety.CursorCanMoveBack`
  and `CursorSafety.ClientsMoveCursorBack` build the runs; `CursorSafety.CursorsOnlyAdvance`
  proves that cursors only advance, over all interleavings from every store, if and only if
  the tokens in use under no name include two LSNs of one timeline together with a token of
  another.
* An empty masking path means every column to the page code and the whole value to
  `mask_value`. `PageMasks.EmptyPathDisagrees` shows the difference;
  `PageMasks.ColumnsAgreeWithObject` gives the condition under which the two forms agree.
* The length field of a digit run saturates at 32 bits.
  `Collation.SaturatedLengthMisorders` gives two strings that sort the wrong way;
  `Collation.OrderHoldsUpToLengthField` proves that order is kept up to exactly that length.
* The commit-log reader saturates one addition and checks the other at the largest LSN.
  `LogScan.LastRecordCanBeMissing` gives a log without its last record that is returned as
  the whole range; `LogScan.AcceptedLogs` says exactly which stored logs are accepted, and
  `LogScan.WholeLogIsAccepted` that a complete one is if and only if it ends below that LSN.
* A call whose text contains ` from ` is left to the SQL engine;
  `CallRoundTrip.WrittenCallParses` states all outcomes.
* Clock value 0 doubles as "no window", and the clock ends at its largest value.
  `LimiterRate.FailureCanStay` shows a failure that is never forgotten at either end;
  `LimiterRate.FirstFailureIsForgotten` proves that a first failure is forgotten if and only
  if it locks the key out, or the clock was past 0 and the window ends before the clock does.
* At the last moment of the clock a lockout is already over. `LimiterClock.LastMomentHasNoLimit`
  grants one key any number of reservations there; `LimiterClock.RateHoldsExactly` proves that
  the rate bound holds up to a time, for every history, interval and key, if and only if that
  time is before the last moment.

`dafny verify dfyconfig.toml` checks everything.

## Model

| member | source | states |
|---|---|---|
| Store.WriteTransaction.ApplyWrite | src/txn/mod.rs:467-533 | one write of a commit: the current row, its version, its history row |
| Store.WriteTransaction.MergeClock | src/txn/mod.rs:467-533 | the hybrid clock never goes back; a row that is not a clock is corruption |
| Store.WriteTransaction.ApplyCommitRecord | src/txn/mod.rs:467-533 | the whole new state of a commit is `ApplyRecord` of the old one, or an error |
| Store.ReplayAppend | src/backup.rs:1577-1599 | replaying two logs in turn is replaying their concatenation |
| Store.ReplayPrefix | src/backup.rs:1577-1599 | a log that replays replays on every prefix |
| RowHistory.VersionNamesLastCommit | src/txn/mod.rs:467-533 | after a replay the version row of a key names the last commit that wrote it, and is untouched if none did |
| RowHistory.HistoryIsKept | src/txn/mod.rs:467-533 | every replayed commit leaves its own history row, the last value it gave the key, and no later commit changes it |
| RowHistory.TableVersionNamesLastCommit | src/txn/mod.rs:467-533 | after a replay the version row of a table that is not reserved names the last commit that wrote to it |
| RowHistory.ClockNeverGoesBack | src/txn/mod.rs:467-533 | after a replay the clock is the largest of what it was and the clocks of the commits; without any it is untouched |
| Store.Range | src/backup.rs:1060-1068 | an ordered scan visits exactly the keys in bounds, ascending |
| Chain.LoadChain | src/backup.rs:1481-1529 | terminates on every root, cyclic ones too; returns a chain if and only if one ends in the selected backup, and it is the only one |
| Chain.ChainTiles | src/backup.rs:1531-1570 | every LSN between the ends of the first and the last backup belongs to exactly one incremental, no other LSN to any |
| Chain.ChainShape | src/backup.rs:1467-1570 | one format, one timeline, incrementals after the head, distinct ids, only letters, digits, `-` and `_` in the id of a parent |
| CommitLog.CheckCommitLog | src/backup.rs:1604-1636 | accepts exactly contiguous logs with the manifest's bounds and end hash |
| CommitLog.LogsJoin | src/backup.rs:1604-1636 | the logs of a checked chain join into one contiguous log from the full backup's end to the chain's end |
| CommitLog.EndHashesHold | src/backup.rs:1531-1642 | in a checked chain an incremental with commits notes the hash of the commit at its end LSN, and an empty one the hash its parent noted |
| CommitLog.HasDuplicates | src/backup.rs:592-599 | finds a repeated (table, key) if and only if there is one |
| CommitLog.PayloadLookup | src/backup.rs:2058-2066 | without duplicates, the first record of a cell is what applying the payload leaves there |
| CommitLog.ReplayRow | src/backup.rs:1577-1599 | after a replay an ordinary row holds what the last write of it in the log says |
| RestoreChecks.ScanPayload | src/backup.rs:1777-1811 | one payload's share of the time scan: the last commit by the time, and whether a later one stopped it |
| RestoreChecks.TargetLsnForTime | src/backup.rs:1777-1811 | the end of the longest readable log prefix committed by the time; refused before the full backup, or when a payload is unreadable before a commit stops the scan |
| RestoreChecks.ResolveTargetLsn | src/backup.rs:1646-1679 | the LSN of a latest, LSN or time target, with the out-of-range errors; only a time target reads payloads; `EndToEnd.TargetIsOfTheRun` says which LSN that is |
| RestoreChecks.TimeTargetIsLongestPrefix | src/backup.rs:1777-1811 | every commit up to the chosen LSN was made by the time, the next one was not, and the LSN lies in the chain, even when clocks ran backwards |
| RestoreChecks.TimeTargetIsGreatest | src/backup.rs:1777-1811 | every longer prefix holds a later commit |
| RestoreChecks.TimeTargetMonotone | src/backup.rs:1777-1811 | a later requested time never recovers less |
| RestoreChecks.TargetInRange | src/backup.rs:1646-1679 | an accepted target lies between the ends of the first and the last backup |
| RestoreChecks.CheckWrites | src/backup.rs:1974-1999 | the audit flag one payload leaves, or a refused profile write |
| RestoreChecks.CheckIncrementalPayloads | src/backup.rs:1952-2002 | accepts exactly chains with good logs and allowed profile writes; returns the last audit flag up to the target without building a state |
| Restore.ApplyFullPayload | src/backup.rs:2058-2066 | puts every record |
| Restore.ReplayIncrementals | src/backup.rs:1577-1599 | succeeds exactly when the logs are good and the commits up to the target replay; the state and the count are those of that replay |
| Restore.WriteRestoreMetadata | src/backup.rs:2068-2090 | sets the restore rows |
| Restore.CheckBackup | src/backup.rs:564-619 | the check pass accepts exactly `Checked` chains and returns the target |
| Restore.ApplyBackup | src/backup.rs:620-666 | the apply pass succeeds exactly when `Applied`, with the outcome the chain stands for |
| Restore.RestoreBackup | src/backup.rs:564-666 | succeeds exactly when a chain ends in the selected backup and is accepted; the result is that chain's outcome |
| Restore.RestoreIsExact | src/backup.rs:564-666 | commits full.end+1..target are applied once each in order on the full payload, nothing else but the restore rows; the count is target - full.end |
| Restore.ReplayedLog | src/backup.rs:1577-1636 | the replayed commits are the contiguous prefix of the log that ends at the target |
| Restore.CutsDoNotMatter | src/backup.rs:1577-1599 | chains with the same full backup and commits restore the same rows however the log was cut |
| Restore.RestoredRow | src/backup.rs:564-666 | an ordinary row of the result is the last write up to the target, else the payload's record |
| Restore.AcceptedIsChecked | src/backup.rs:564-666 | an accepted restore has found nothing at the target path, a durable profile, a full backup first, no row twice, and the LSN and the last commit the full manifest says |
| Restore.AuditFloorHolds | src/backup.rs:2011-2032 | the one-pass audit flag is the one in the restored state, and a restore that did not opt out never ends with audit or encryption off below a floor |
| Restore.ProfileKept | src/backup.rs:1983-1998 | profile writes that pass the check keep a Tensor profile and never introduce one |
| Restore.TensorBoundaryHolds | src/backup.rs:1684-1734 | the restored profile requires a GPU exactly when the target's does, and then they are equal |
| Producers.ReadFullPayload | src/backup.rs:989-1045 | succeeds exactly when every segment pointer can be followed; the payload holds every row of the keyspaces once, by table and key, with pointers inlined |
| Producers.InliningKeepsMeaning | src/backup.rs:989-1045 | resolving a payload value gives what resolving the source value gives; no row outside segments and history changes |
| Producers.HistoryInlining | src/backup.rs:1022-1038 | a history version is rewritten exactly when it holds the pointer its segment holds now |
| Producers.SegmentsAreInlined | src/backup.rs:989-1045 | a segment row with a pointer is backed up as the bytes it points to, and so is the history version holding that pointer; no backed-up segment row is a pointer |
| Producers.RegisteredRowsAreRead | src/backup.rs:931-979 | a full backup holds every row of the built-in and the registered tables |
| Producers.SegmentHistoryKey | src/backup.rs:1022-1038 | the segment key is read back from a segment's history key |
| Producers.OtherHistoryKey | src/backup.rs:1022-1038 | no other table's history key reads as a segment's |
| Producers.FullBackup | src/backup.rs:325-379 | succeeds exactly when the LSN, the segments and the end hash can be read; the manifest and payload describe the snapshot |
| Producers.ReadCommitLogs | src/backup.rs:1047-1080 | succeeds exactly when the scan finds consecutive records and as many as it expects, and returns them in order |
| LogScan.AcceptedLogs | src/backup.rs:1047-1080 | exactly which stored logs the reader accepts: every record of the range, but at the largest LSN every record except the last |
| LogScan.WholeLogIsAccepted | src/backup.rs:1047-1080 | a complete log of a range is accepted if and only if the range ends below the largest LSN |
| LogScan.LastRecordCanBeMissing | src/backup.rs:1060-1078 | at the largest LSN a log without its last record is returned as the whole range |
| LogScan.AcceptedWal | src/backup.rs:1047-1080 | what the reader returns are the stored records of the range in order, up to the last it counts on |
| Producers.IncrementalBackup | src/backup.rs:399-487 | succeeds exactly when replication has a log and the snapshot descends from the parent with its commits retained; the manifest links to the parent |
| SourceHistory.RunsAreSound | src/txn/mod.rs:467-533 | on every run the LSN counts the commits, the log holds only true commits under their own LSNs, and a full backup misses no table |
| SourceHistory.HashIsSound | src/backup.rs:798-805 | the hash under an LSN is the true commit's |
| SourceHistory.WalIsHistory | src/backup.rs:1047-1080 | a log scan of a run's state returns the true commits of its range |
| SourceHistory.FollowedExactly | src/backup.rs:399-487 | a backup with a true end hash can be followed at a later state if and only if the timeline is the same and the log, with its floor, reaches back to the backup's last commit |
| SourceHistory.FollowedOnItsBranch | src/backup.rs:438-446 | for hashes that tell commits apart, a source can follow a backup only if it holds the backup's last commit at that LSN; with that, the condition is exact |
| SourceHistory.ProducedIsChain | src/backup.rs:1481-1570 | a full backup and any sequence of incrementals of a run form a chain the loader accepts |
| SourceHistory.ProducedLogs | src/backup.rs:1604-1636 | every produced log passes the log check |
| SourceHistory.ProducedLog | src/backup.rs:399-487 | the log of a produced chain is the piece of the history between its ends |
| EndToEnd.BaseMatches | src/backup.rs:2058-2066 | the full payload applied to a new target gives the backed-up rows |
| EndToEnd.ProducedReplays | src/backup.rs:1577-1599 | every prefix of a produced log replays |
| EndToEnd.TargetIsOfTheRun | src/backup.rs:1646-1810 | on a produced chain `Latest` is the LSN of the last moment, an LSN target itself, a time target the end of the longest stretch of history committed by then; refused exactly when outside the chain or before the full backup, with the error of each |
| EndToEnd.ProducedIsAccepted | src/backup.rs:564-666 | a produced chain is accepted for a target exactly when profile, encryption and floor policy allow it |
| RestorePolicy.TensorGatePasses | src/backup.rs:1684-1733 | passes exactly when no Tensor profile is involved, or target, backups and stored profile agree |
| RestorePolicy.ReplicationGatePasses | src/backup.rs:1743-1775 | passes exactly when no replication is stored, or it is not AP, or a single full backup is restored to no later time |
| RestorePolicy.ProfileWritesPass | src/backup.rs:1952-2002 | passes exactly when every replayed profile write keeps the profile or stays clear of Tensor |
| RestorePolicy.FloorGatesPass | src/backup.rs:1913-2032 | passes exactly when a stored manifest is valid and of the target's profile and its floors are met or waived |
| RestorePolicy.PolicyIsOfTheSource | src/backup.rs:564-666 | the restore policy of a produced chain, over the rows the source stored at the full backup and the commits it made up to the target |
| EndToEnd.RestoreRebuildsSource | src/backup.rs:564-666 | an accepted restore has the rows of every state of the source at the target LSN, in segments and row history up to following pointers, apart from restore metadata and rows maintenance touched since |
| BackupRoundTrip.PointIsExact | src/backup.rs:399-487 | the condition for an incremental at a moment of a run, in terms of the stored rows, is exact |
| BackupRoundTrip.CommitsCanBeBackedUp | src/backup.rs:399-487 | without maintenance, any run of commits over a database with a stored timeline can be backed up at any moments |
| BackupRoundTrip.TakeChain | src/backup.rs:325-487 | a full backup and an incremental at each further moment of any run, truncated logs included: it succeeds exactly when each can be taken |
| BackupRoundTrip.BackUpAndRestore | src/backup.rs:325-666 | backing up any run at any moments and restoring to any target: the chain is taken exactly when the log reaches back; the restore succeeds exactly when the target is in reach and the source's rows and commits permit it; it applies target - full.end commits and yields the source's LSN, timeline and rows at the LSN the target asks for, with that LSN recorded |
| Cursors.MetadataStore.CommitConditional | src/repl/mod.rs:786-830 | commits all writes when every condition holds and nothing otherwise |
| Cursors.MetadataStore.CreateContinuousQueryAs | src/continuous.rs:214-283 | new store and answer are those of the atomic operation |
| Cursors.MetadataStore.AckContinuousQuery | src/continuous.rs:298-328 | new store and answer are those of the atomic operation |
| Cursors.MetadataStore.AckQueryAndSubscription | src/continuous.rs:354-398 | new store and answer are those of the atomic operation |
| Cursors.ConditionsPinTheRows | src/continuous.rs:258-281 | the conditions of a batch hold only if every row the decision used is unchanged |
| Cursors.StepRefinesAtomic | src/continuous.rs:214-398 | an interleaved step leaves the store alone or has the effect and answer of the whole operation at that instant |
| Cursors.RunsRefineAtomic | src/continuous.rs:214-398 | every interleaving of any number of clients among any other writers reaches the store of the committed operations run atomically in commit order |
| Cursors.SoloIsAtomic | src/continuous.rs:214-398 | a client nobody interrupts has exactly the effect and the answer of the atomic operation |
| Cursors.EveryAtomicRunHappens | src/continuous.rs:214-398 | every sequence of atomic operations is some interleaving of clients |
| CursorSafety.AcceptedLeaves | src/continuous.rs:214-398 | what an accepted operation leaves: the new spec, owner and configuration of a create, the token in the acknowledged cursors, everything else as it was |
| CursorAnswers.CreateAnswer | src/continuous.rs:214-281 | creating is accepted exactly when there is a log, the filter may be read, the name is well formed, the SQL is not blank and no row of that name is someone else's; each other case has its own error |
| CursorAnswers.AckAnswer | src/continuous.rs:297-329 | a single acknowledgement is accepted exactly when there is a log and a query row and the token is not below its cursor on its timeline; each other case has its own error |
| CursorAnswers.JointAckAnswer | src/continuous.rs:332-398 | a joint acknowledgement is accepted exactly when there is a log, both rows are there, a named caller has the owner's name and may read the filter, and the token is below neither cursor on its timeline; each other case has its own error |
| CursorAnswers.OperationLeaves | src/continuous.rs:214-398 | an accepted operation leaves exactly the rows it should and answers with the query row it left; a refused one leaves everything as it was |
| CursorAnswers.CommitsArePermitted | src/continuous.rs:214-398 | in every interleaved run a client commits only what the rows at that instant permit, and leaves exactly what its operation leaves on them |
| CursorSafety.AtomicIsSafe | src/continuous.rs:228-282 | an operation keeps rows, owners and creation times, moves no cursor back on its timeline, and keeps the two rows paired |
| CursorSafety.RunsAreSafe | src/continuous.rs:228-396 | over every run rows stay with their owner and creation time, come in pairs, and have equal cursors without the single-row acknowledgement |
| CursorSafety.InterleavedRunsAreSafe | src/continuous.rs:214-398 | the same for every interleaving |
| CursorSafety.CommitsAreAuthorized | src/continuous.rs:339-352 | a commit is authorized against the rows in the store at the instant it commits |
| CursorSafety.CursorCanMoveBack | src/cdc.rs:813-823 | a run in which a cursor goes down on its timeline by way of another one |
| CursorSafety.RunsAreForward | src/continuous.rs:304-396 | over every interleaving, from every store, no cursor is ever lower than it was on its timeline when the tokens of no name cross |
| CursorSafety.ClientsMoveCursorBack | src/cdc.rs:813-823 | over crossing tokens of any name two clients move a cursor back |
| CursorSafety.CursorsOnlyAdvance | src/cdc.rs:813-823 | cursors only advance over all interleavings from every store if and only if the tokens of no name cross timelines |
| CursorSafety.BothAtOnce | src/continuous.rs:360-370 | two cursors seen at a token at different times were both there at one time in between |
| CursorSafety.AcceptedWithoutWriting | src/continuous.rs:360-370 | a joint acknowledgement accepted without a write: both cursors stood at the token at one moment between its reads |
| CursorSafety.RefusedAtOneMoment | src/continuous.rs:228-366 | a refusal decided from two reads: at one of the two moments the atomic operation refuses too |
| CursorSafety.SingleAckIsAtomic | src/continuous.rs:303-309 | a single-row acknowledgement that does not write answers as the atomic operation at the moment of its read |
| LoginLimiter.NewConfig | src/admin.rs:140-149 | settings are kept, or raised from zero to one; the ceiling is twenty times the limit, or what 32 bits hold |
| LoginLimiter.AdminLoginRateLimiter.constructor | src/admin.rs:855-864 | starts empty |
| LoginLimiter.AdminLoginRateLimiter.PruneKeys | src/admin.rs:1013-1020 | keeps exactly the keys whose normalised bucket is not empty, normalised |
| LoginLimiter.AdminLoginRateLimiter.PruneWhenDue | src/admin.rs:1005-1011 | prunes once per window |
| LoginLimiter.AdminLoginRateLimiter.EvictKey | src/admin.rs:1025-1041 | removes the first least entry |
| LoginLimiter.AdminLoginRateLimiter.Refuse | src/admin.rs:982-1003 | the new state and the refusal with its audit mark |
| LoginLimiter.AdminLoginRateLimiter.Check | src/admin.rs:901-913 | the decision without counting |
| LoginLimiter.AdminLoginRateLimiter.Reserve | src/admin.rs:917-949 | the decision, the charged bucket and the ceiling |
| LoginLimiter.AdminLoginRateLimiter.RecordSuccess | src/admin.rs:951-959 | the key is forgotten and one failure taken back from the ceiling |
| LoginLimiter.AdminLoginRateLimiter.RecordUnknownUser | src/admin.rs:963-978 | only the audit counter of unknown users changes |
| LimiterSafety.StepKeepsGood | src/admin.rs:901-1020 | tracked keys within the bound, failures between one and the limit, locked exactly at the limit, whatever the clock does |
| LimiterSafety.RunsStayGood | src/admin.rs:901-1020 | the same over every run |
| LimiterSafety.VictimIsLeast | src/admin.rs:1025-1041 | the evicted entry is least by (locked, window start), the first key among equals |
| LimiterSafety.EvictedIsLeast | src/admin.rs:1025-1041 | an eviction drops a key that is not locked out, if there is one, among those alike the one with the oldest window, then the first |
| LimiterSafety.PruningHappens | src/admin.rs:1005-1022 | a login call more than a window after the last pruning leaves no other key whose lockout or window is over |
| LimiterSafety.LockoutsSurvive | src/admin.rs:917-1041 | an unexpired lockout is lost only to a success of its key, or to an eviction when every tracked key is locked |
| LimiterSafety.NormalizeTwice | src/admin.rs:1044-1056 | normalising now and later is normalising later |
| LimiterSafety.KeyEffect | src/admin.rs:901-1020 | the whole effect of any call on one key: a grant charges it, anything else at most normalises it |
| LimiterSafety.AuditedOncePerLimit | src/admin.rs:980-1003 | between two audited refusals of a key a reservation of it was granted |
| LimiterRate.RunsStayTimely | src/admin.rs:1058-1063 | no window begins in the future |
| LimiterRate.GrantPays | src/admin.rs:917-949 | a grant uses up at least one unit of what the interval can still grant |
| LimiterRate.RateIsBounded | src/admin.rs:917-949 | after any history, at most limit * (T / min(window, lockout) + 2) reservations of a key are granted in an interval of length T that ends before the last moment of the clock, clock zero and lockouts past the end of the clock included |
| LimiterClock.LastMomentHasNoLimit | src/admin.rs:936-939 | at the last moment of the clock one key is granted any number of reservations, under every configuration |
| LimiterClock.RateHoldsExactly | src/admin.rs:917-949 | the rate bound holds up to a time, for every history, interval and key, if and only if that time is before the last moment of the clock |
| LimiterRate.FirstFailureIsForgotten | src/admin.rs:1044-1063 | a first failure is forgotten within the clock if and only if it locks out, or the clock was past zero and the window ends before the clock does |
| LimiterRate.FailureCanStay | src/admin.rs:1050-1061 | at either end of the clock a failure below the limit is never forgotten |
| LimiterReference.StepsAlike | src/admin.rs:901-1020 | one call: the reference limiter gives the same answer and stays alike |
| LimiterReference.AnswersAgree | src/admin.rs:901-1020 | without eviction and with a clock that does not go back, every call of every run gets the answer of a limiter that never prunes |
| LimiterReference.FewKeysNeverEvict | src/admin.rs:926-931 | no more distinct keys than the table holds: nothing is ever evicted |
| LimiterAudit.CeilingReportedOnce | src/admin.rs:940-948 | between two reports of a crossed ceiling the server-wide window ran out |
| LimiterAudit.UnknownUsersAreCapped | src/admin.rs:963-978 | in every run, other calls in between and whatever the clock shows: in one window unknown logins up to the cap get an event each, the next a summary, the rest nothing |
| LimiterAudit.EveryLoginHasAWindow | src/admin.rs:963-978 | every unknown login of a run belongs to a window that some login opened |
| LimiterCeiling.WindowIsTallied | src/admin.rs:940-961 | within a server-wide window the global bucket counts grants less successes and remembers whether the ceiling was reported |
| LimiterCeiling.CeilingHolds | src/admin.rs:982-1003 | in every run: once grants less successes of the window reach the ceiling a call is refused exactly when its key has a live failure, below it exactly when its key is locked out; a grant reports the ceiling exactly when it is the window's first to reach it |
| LimiterCeiling.EveryCallHasAWindow | src/admin.rs:982-990 | every call that looks at the server-wide window belongs to one that some call opened |
| LimiterLockout.BucketCountsGrants | src/admin.rs:933-935 | while a key's window lasts its bucket counts the grants of the key, from the time of the first |
| LimiterLockout.LimitLocksOut | src/admin.rs:933-939 | the grant that brings the count to the limit locks the key out: every later call is refused until the lockout's end, and none from then on, whatever the ceiling says |
| AtomicFile.Machine.WriteAll | src/fileio.rs:84-84 | writes all bytes in any number of calls, exactly when no call it makes fails |
| AtomicFile.Machine.PublishAndSync | src/fileio.rs:88-90 | succeeds exactly when nothing fails and a no-clobber writer finds the destination absent |
| AtomicFile.Machine.WriteFileWith | src/fileio.rs:68-91 | one schedule of the step machine; it succeeds exactly when no call it makes fails and a no-clobber writer finds the destination absent; success leaves exactly the bytes, durably; in every case old contents or all new bytes, and no temporary name |
| AtomicFileSafety.StepKeepsSafe | src/fileio.rs:36-91 | every system call, failure and crash keeps the invariant that only whole files can stand at the destination |
| AtomicFileSafety.NeverPartial | src/fileio.rs:54-91 | with any writers, failures and crashes the destination holds its previous contents or all bytes of one writer that published them, and never disappears |
| AtomicFileSafety.SuccessIsDurable | src/fileio.rs:88-90 | after a success nothing, crashes included, takes the destination back before that publication |
| AtomicFileSafety.AtMostOneCreates | src/backup.rs:1855-1875 | whatever replacing writers do beside them, at most one no-clobber writer succeeds, and over an existing file none does |
| AtomicFileSafety.CreatorNeverReplaces | src/fileio.rs:54-61 | no system call of a no-clobber writer changes a file at the destination |
| AtomicFileSafety.ExistingFileStays | src/backup.rs:1855-1875 | among no-clobber writers an existing file never changes |
| Masking.ReplacePaths | src/extension.rs:357-359 | the replacements of one policy in order |
| Masking.MaskValue | src/extension.rs:350-362 | all replacements for the resource in policy order |
| Masking.ReplaceErases | src/extension.rs:1220-1238 | a replacement removes the differences at its path and makes no new ones |
| Masking.MaskingHides | src/extension.rs:350-362 | values that differ only inside subtrees at paths masked for the resource have equal masked results, overlapping paths included |
| Masking.MaskingTwice | src/extension.rs:350-362 | masking is idempotent |
| Masking.UnmaskedIsKept | src/extension.rs:1220-1238 | what is apart from every masked path is unchanged |
| Masking.MaskedIsReplaced | src/extension.rs:1220-1238 | a present path apart from all later ones shows its replacement |
| Masking.NotMaskedIsKept | src/extension.rs:350-362 | what is apart from every path that a mask of the resource names is unchanged |
| Masking.LastMaskShows | src/extension.rs:350-362 | a present path that no other masked path overlaps shows the replacement of the last mask of the resource naming it |
| Masking.ExtractFollowsPath | src/model/mod.rs:1129-1140 | extracting a path finds exactly what the path leads to, field by field |
| Paging.DataPage | src/admin.rs:4251-4259 | no offset is offset 0, no limit is 100; a limit is kept within 1..1000 and otherwise clamped and marked |
| Paging.FindReplacement | src/admin.rs:4288-4303 | the replacement of the last mask that covers the column |
| Paging.OverwriteCells | src/admin.rs:4339-4345 | exactly the covered cells are overwritten |
| Paging.FirstPage | src/admin.rs:4251-4259 | a request without offset and limit gets the first hundred items |
| Paging.PolicyTablePage | src/admin.rs:4264-4347 | the requested slice, with one row of lookahead, of the visible masked rows, or a refusal; `Visibility` and `PageMasks` say which rows and when |
| Visibility.VisibleExactly | src/extension.rs:364-379 | a value is visible exactly when no row policy is for the resource, or one that is finds its value or the principal's name at its path |
| Visibility.RowFieldsAre | src/admin.rs:4318-4332 | a row's object has a field for every column with a cell, holding the last such cell |
| Visibility.ReplacementExactly | src/admin.rs:4288-4303 | a column is replaced exactly when a mask of the resource names it or everything, by what the last such mask puts in |
| Visibility.RefusedExactly | src/admin.rs:4264-4316 | a table is refused exactly when a policy is for it and its columns are unknown or a mask would put a structure into one of them |
| Paging.DocumentPage | src/admin.rs:2490-2513 | the requested slice, with lookahead, of the visible masked documents |
| Paging.ListTableRows | src/admin.rs:2380-2399 | the page, has_more and next_offset of what the principal may see |
| Paging.ListDocuments | src/admin.rs:2490-2530 | the page, has_more and next_offset of what the principal may see |
| Paging.ListingIsASlice | src/admin.rs:2383-2398 | a page is a slice, and has_more holds exactly when an item follows it |
| Paging.WalkIsExact | src/admin.rs:2383-2398 | following next_offset ends and yields every item once and in order, whatever limits are asked for |
| PageMasks.ReplacementIsLastMatch | src/admin.rs:4288-4303 | choosing mask by mask from the last is taking the last matching replacement |
| PageMasks.ColumnsAgreeWithObject | src/admin.rs:4288-4345 | column-wise masking equals masking the row as an object if and only if no path is empty, or the last empty path puts in an object with the row's columns |
| PageMasks.EmptyPathDisagrees | src/admin.rs:4296-4300 | an empty path with a scalar replacement makes the two forms differ on every row |
| PageMasks.ShownRowsAreMasked | src/admin.rs:4264-4347 | every row a page shows is the masked object of the visible row it stands for |
| PageMasks.VisibleAt | src/admin.rs:4318-4335 | the filtered rows are the rows at exactly the visible positions, in order |
| PageMasks.TableWalkIsExact | src/admin.rs:4251-4347 | following next_offset from 0 shows each row the policies admit once and in order and no other, with exactly the covered cells masked; a row of scalars is its masked object exactly under the agreement condition |
| PageMasks.UnrestrictedWalkIsExact | src/admin.rs:4278-4280 | without policies the walk shows the table as it is |
| PageMasks.DocumentWalkIsExact | src/admin.rs:2490-2530 | following next_offset over a collection shows each document the policies admit once and in order, masked, and no other |
| PageMasks.HiddenRowsLeaveNoTrace | src/admin.rs:4264-4347 | tables that differ only in rows no policy admits show the principal the same rows, whatever the hidden rows hold, how many they are and where they stand |
| PageMasks.HiddenDocumentsLeaveNoTrace | src/admin.rs:2490-2530 | the same for collections of documents |
| Collation.NumericSortKey | src/extension.rs:1191-1218 | the key is the encoding of the string's tokens; `Collation.KeysPreserveOrder` says what it means for the string |
| Collation.EncodedOrder | src/extension.rs:1207-1213 | encodings of different tokens differ before either ends, in token order |
| Collation.KeysPreserveOrder | src/extension.rs:1191-1218 | byte order of keys is string order: where the strings first part, folded characters by code, a character before a run, runs by amount; keys are equal exactly when the strings agree after folding case and dropping leading zeros |
| Collation.TokenOrderIsStringOrder | src/extension.rs:1191-1218 | token order is the order of the strings themselves, character by character and run by run |
| Collation.SameTokensExactly | src/extension.rs:1191-1218 | two strings have the same tokens exactly when they agree after folding case and dropping the leading zeros of digit runs |
| Collation.CaseDoesNotCount | src/extension.rs:1212-1213 | strings that differ only in the case of ASCII letters have the same key |
| Collation.SaturatedLengthMisorders | src/extension.rs:1208-1209 | two runs past the length field sort the wrong way |
| Collation.OrderHoldsUpToLengthField | src/extension.rs:1191-1218 | for every bound on digit runs, the keys of all strings within it keep string order and equality if and only if the bound fits 32 bits |
| CallParser.FindClosingParen | src/extension.rs:914-931 | the parenthesis that closes, strings left aside |
| CallParser.SplitArgs | src/extension.rs:1115-1147 | the trimmed arguments between commas outside strings, or an unterminated string |
| CallParser.ParseSelectUdfCall | src/extension.rs:880-910 | the call, no call, or a syntax error |
| CallRoundTrip.JoinIsNeutral | src/extension.rs:914-931 | argument text never closes the call, whatever its strings hold |
| CallRoundTrip.JoinSplits | src/extension.rs:1115-1147 | joined arguments split back into themselves, whatever their strings hold |
| CallRoundTrip.LiteralExactly | src/extension.rs:1160-1189 | for every text and value: the text is read as the value exactly when it is null or a boolean in any case, a 64-bit integer, a fraction, or a string in quotes with inner quotes doubled, of that value |
| CallRoundTrip.WrittenParses | src/extension.rs:1149-1158 | an argument is read as its text is, in parentheses or not |
| CallRoundTrip.WrittenCallParses | src/extension.rs:880-911 | however a call is written (case of SELECT, quoted name, space, semicolons) it is read as its name and the values its arguments spell, refused when one spells none, and left alone when the text has " from " |
| CallRoundTrip.EveryValueHasAText | src/extension.rs:1160-1189 | every null, boolean, 64-bit integer and string can be written as an argument |
| CallRoundTrip.OnlySelectsAreCalls | src/extension.rs:880-885 | text that does not begin with SELECT, in any case, and a space is no call |
| CallRoundTrip.LongerExpressionIsNoCall | src/extension.rs:887-896 | an expression that only begins with a call is left to the SQL engine |
| CallRoundTrip.CallsAreNamed | src/extension.rs:897-900 | what is recognised as a call has a well-formed name |

## Left out

- Stored bytes: values are kept decoded, so JSON and binary codecs, compression, checksums and
  encryption of backup files are the identity, and every failure to read or decode a payload
  is one error. A byte is written as the character with that code.
- The commit hash is an uninterpreted function of the record.
- Restore reads each payload twice; both reads see the same payload, and the final sort of a
  full payload is the identity because rows already come out in order.
- Error texts, and the order in which two failing checks of a restore would be reported.
- Symlink and path-containment checks, directory creation and staging directories of backups.
- Source runs: commits do not write the engine's own tables and LSNs stay below the largest
  one. Maintenance (history garbage collection, storing the timeline id) keeps the current LSN
  and the clock, only deletes from the commit log, and registers the tables it fills. A new
  restore target holds metadata rows only.
- Producers.HistoryInlining and the results of `RowHistory`: table names shorter than 2^64 bytes;
  in `RowHistory` commits write ordinary tables only.
- The blind `create_continuous_query`, subscription-only acknowledgements and adoption are not
  operations of the cursor model; in the refinement they are among the arbitrary other writers.
- Cursor rows are compared as decoded values; a row stored in a second encoding of the same
  value would be reported as a conflict.
- Login keys are byte strings with the order of the map they live in; locking of the limiter
  and its poisoned-lock answers.
- Atomic files: names of temporary files are distinct, a failed rename or link has no effect,
  and a directory sync persists every entry of the directory. Off Unix the engine does not sync
  directories, so AtomicFileSafety.SuccessIsDurable is about Unix builds. Restore staging publishes one
  already written file with the same sync, link and directory-sync steps.
- Masking works on values, not on a map updated in place. Float cells are real numbers, so
  not-a-number is not a value.
- PageMasks.ColumnsAgreeWithObject: cells are scalars; the page code does not look inside
  a cell.
- Paging offsets and lengths are unbounded; the saturating additions never saturate on
  collections that fit in memory.
- Collation and the call parser fold ASCII letters only. The keywords the parser looks for are
  ASCII, and no other character lower-cases to one of their letters.
- CallParser.ParseSelectUdfCall: reading a decimal fraction is a parameter.
- HTTP handlers, sessions, password hashing, storage engines, query execution, replication
  transports, WASM execution and autoscaling.
