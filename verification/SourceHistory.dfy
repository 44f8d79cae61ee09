/** The database a chain of backups is taken from, as a run of steps, and the end-to-end
guarantee: restoring any such chain to any LSN in it rebuilds the source at that LSN.

A commit goes through `apply_commit_record_in_txn`. Maintenance (storing the timeline id,
history garbage collection) changes rows outside the commit log. */
module SourceHistory {
  import opened Bytes
  import opened Integers
  import opened Store
  import opened Chain
  import opened CommitLog
  import opened Producers
  import opened LogScan

  datatype Step = Commit(record: CommitRecord) | Maintain(delta: Delta)

  /** The tables only the commit routine itself writes. */
  predicate EngineTable(table: Bytes) {
    table in {TXN_META, COMMIT_LOG, KEYSPACES, HLC_TABLE}
  }

  /** Every table that holds rows is one a backup reads. */
  ghost predicate Covered(s: State) {
    forall c :: c in s ==> c.table in Keyspaces(s)
  }

  /** The next commit takes the next LSN and leaves the engine's tables alone. Maintenance keeps
  the LSN and the clock, only deletes from the commit log, and registers the tables it fills. */
  ghost predicate Legal(s: State, step: Step) {
    match step
    case Commit(r) =>
      && CurrentLsn(s).Ok? && r.txnId == CurrentLsn(s).value + 1
      && forall w :: w in r.writes ==> !EngineTable(w.table)
    case Maintain(d) =>
      && CURRENT !in d && HLC !in d
      && (forall c :: c in d && c.table == COMMIT_LOG ==> d[c] == None)
      && (forall c :: c in d && c.table == KEYSPACES ==> d[c].Some?)
      && (forall c :: c in d && d[c].Some? ==> c.table in Keyspaces(Patch(s, d)))
  }

  function After(s: State, step: Step): Result<State> {
    match step
    case Commit(r) => ApplyRecord(s, r)
    case Maintain(d) => Ok(Patch(s, d))
  }

  /** A new database: nothing committed yet. */
  ghost predicate Genesis(s: State) {
    CURRENT !in s && HLC !in s && (forall c :: c in s ==> c.table != COMMIT_LOG) && Covered(s)
  }

  ghost predicate Run(states: seq<State>, steps: seq<Step>) {
    && |states| == |steps| + 1
    && Genesis(states[0])
    && forall i :: 0 <= i < |steps| ==>
                     Legal(states[i], steps[i]) && After(states[i], steps[i]) == Ok(states[i + 1])
  }

  function Commits(steps: seq<Step>): seq<CommitRecord> {
    if steps == [] then []
    else
      var before := Commits(steps[..|steps| - 1]);
      match steps[|steps| - 1]
      case Commit(r) => before + [r]
      case Maintain(_) => before
  }

  // ---- What every state of a run keeps ----

  /** The commit log holds commits of the history only, each under its own LSN. */
  ghost predicate LogSound(s: State, history: seq<CommitRecord>) {
    forall c :: c in s && c.table == COMMIT_LOG ==> IsLogRow(s, history, c)
  }

  ghost predicate IsLogRow(s: State, history: seq<CommitRecord>, c: Cell)
    requires c in s
  {
    exists n: Lsn :: 1 <= n <= |history| && c == LogCell(n) && s[c] == RecordValue(history[n - 1])
  }

  ghost predicate Sound(s: State, history: seq<CommitRecord>) {
    && CurrentLsn(s) == Ok(|history|)
    && Contiguous(history, 0)
    && LogSound(s, history)
    && Covered(s)
  }

  /** The rows of the engine's tables that a commit touches. */
  lemma {:induction false} WritesStayOut(writes: seq<CommitWrite>, id: Lsn, c: Cell)
    requires forall w :: w in writes ==> !EngineTable(w.table)
    requires EngineTable(c.table)
    ensures c !in WritesDelta(writes, id)
  {
    if writes != [] {
      var w := writes[|writes| - 1];
      assert w in writes;
      WritesStayOut(writes[..|writes| - 1], id, c);
    }
  }

  lemma {:induction false} EngineRows(r: CommitRecord, c: Cell)
    requires forall w :: w in r.writes ==> !EngineTable(w.table)
    requires EngineTable(c.table)
    ensures var d := RecordDelta(r);
            && (c == CURRENT ==> c in d && d[c] == Some(LsnValue(r.txnId)))
            && (c.table == COMMIT_LOG ==>
                  (c in d <==> c == LogCell(r.txnId)) && (c in d ==> d[c] == Some(RecordValue(r))))
            && (c.table == KEYSPACES ==>
                  (c in d <==> c.key in RecordKeyspaces(r)) && (c in d ==> d[c] == Some(PRESENT)))
            && (c.table == HLC_TABLE ==> c !in d)
  {
    hide RecordKeyspaces, PublicTables;
    WritesStayOut(r.writes, r.txnId, c);
  }

  lemma {:induction false} WritesTables(writes: seq<CommitWrite>, id: Lsn, c: Cell)
    requires c in WritesDelta(writes, id)
    ensures c.table in {TXN_MVCC, TXN_VERSIONS} || exists w :: w in writes && w.table == c.table
  {
    var w := writes[|writes| - 1];
    assert w in writes;
    if c in WritesDelta(writes[..|writes| - 1], id) {
      WritesTables(writes[..|writes| - 1], id, c);
    }
  }

  /** A commit registers every table it writes to. */
  lemma {:induction false} RegistersTables(r: CommitRecord, c: Cell)
    requires c in RecordDelta(r)
    ensures c.table in RecordKeyspaces(r)
  {
    if c in WritesDelta(r.writes, r.txnId) {
      WritesTables(r.writes, r.txnId, c);
    }
  }

  /** A commit changes a row other than the clock exactly as its record says. */
  lemma {:induction false} CommitRow(s: State, r: CommitRecord, after: State, c: Cell)
    requires ApplyRecord(s, r) == Ok(after) && c != HLC
    ensures Lookup(after, c) == if c in RecordDelta(r) then RecordDelta(r)[c] else Lookup(s, c)
  {
    hide RecordDelta;
    assert Lookup(Patch(s, RecordDelta(r)), c) == Lookup(after, c);
  }

  lemma {:induction false} CommitKeepsCovered(s: State, r: CommitRecord, after: State)
    requires Covered(s) && forall w :: w in r.writes ==> !EngineTable(w.table)
    requires ApplyRecord(s, r) == Ok(after)
    ensures Covered(after)
  {
    hide ApplyRecord, RecordDelta, RecordKeyspaces, DefaultKeyspaces;
    forall t | t in Keyspaces(s) || t in RecordKeyspaces(r) ensures t in Keyspaces(after) {
      EngineRows(r, Cell(KEYSPACES, t));
      CommitRow(s, r, after, Cell(KEYSPACES, t));
    }
    HlcRegistered(r);
    forall c | c in after ensures c.table in Keyspaces(after) {
      if c != HLC {
        CommitRow(s, r, after, c);
        if c in RecordDelta(r) {
          RegistersTables(r, c);
        }
      }
    }
  }

  lemma HlcRegistered(r: CommitRecord)
    ensures HLC.table in RecordKeyspaces(r)
  {
  }

  lemma {:induction false} CommitKeepsLog(s: State, history: seq<CommitRecord>, r: CommitRecord, after: State)
    requires LogSound(s, history) && CurrentLsn(s) == Ok(|history|)
    requires Legal(s, Commit(r)) && ApplyRecord(s, r) == Ok(after)
    ensures LogSound(after, history + [r]) && CurrentLsn(after) == Ok(|history| + 1)
  {
    hide ApplyRecord, RecordDelta, LsnBytes;
    EngineRows(r, CURRENT);
    CommitRow(s, r, after, CURRENT);
    forall c | c in after && c.table == COMMIT_LOG ensures IsLogRow(after, history + [r], c) {
      EngineRows(r, c);
      CommitRow(s, r, after, c);
      if c == LogCell(r.txnId) {
        assert (history + [r])[r.txnId - 1] == r;
      } else {
        assert IsLogRow(s, history, c);
        var n: Lsn :| 1 <= n <= |history| && c == LogCell(n) && s[c] == RecordValue(history[n - 1]);
        assert (history + [r])[n - 1] == history[n - 1];
      }
    }
  }

  lemma {:induction false} MaintenanceKeepsSound(s: State, history: seq<CommitRecord>, d: Delta)
    requires Sound(s, history) && Legal(s, Maintain(d))
    ensures Sound(Patch(s, d), history)
  {
    hide DefaultKeyspaces, LsnBytes, Contiguous;
    var after := Patch(s, d);
    assert Lookup(after, CURRENT) == Lookup(s, CURRENT);
    forall c | c in after && c.table == COMMIT_LOG ensures IsLogRow(after, history, c) {
      assert Lookup(after, c).Some?;
      assert c in s && IsLogRow(s, history, c);
    }
    forall t | t in Keyspaces(s) ensures t in Keyspaces(after) {
      assert Lookup(after, Cell(KEYSPACES, t)) == if Cell(KEYSPACES, t) in d then d[Cell(KEYSPACES, t)] else Lookup(s, Cell(KEYSPACES, t));
    }
    forall c | c in after ensures c.table in Keyspaces(after) {
      assert Lookup(after, c) == if c in d then d[c] else Lookup(s, c);
    }
  }

  lemma GenesisIsSound(s: State)
    requires Genesis(s)
    ensures LogSound(s, []) && Covered(s)
  {
  }

  /** On every run, every state's LSN counts its commits, its log holds only true commits, and a
  full backup would miss none of its rows. */
  lemma {:induction false} RunsAreSound(states: seq<State>, steps: seq<Step>, i: nat)
    requires Run(states, steps) && i < |states|
    ensures Sound(states[i], Commits(steps[..i]))
  {
    hide ApplyRecord, LogSound, Covered, Patch;
    if i == 0 {
      assert LogSound(states[0], []) && Covered(states[0]) by { GenesisIsSound(states[0]); }
    } else {
      RunsAreSound(states, steps, i - 1);
      var s, step, history := states[i - 1], steps[i - 1], Commits(steps[..i - 1]);
      assert Legal(s, step) && After(s, step) == Ok(states[i]);
      assert steps[..i][..i - 1] == steps[..i - 1];
      match step {
        case Commit(r) =>
          CommitKeepsLog(s, history, r, states[i]);
          CommitKeepsCovered(s, r, states[i]);
        case Maintain(d) =>
          MaintenanceKeepsSound(s, history, d);
      }
    }
  }

  // ---- Chains taken from a run ----

  /** Backups taken from the run: a full one at state `at[0]`, then an incremental after each
  backup at a later state, all completed. */
  ghost predicate Produced(
    states: seq<State>, at: seq<nat>, backups: seq<Backup>, objects: Objects, hash: Hash)
  {
    && |at| == |backups| > 0
    && (forall k :: 0 <= k < |at| ==> at[k] < |states|)
    && (forall j, k :: 0 <= j <= k < |at| ==> at[j] <= at[k])
    && FullOf(states[at[0]], objects, hash, backups[0])
    && (forall k :: 0 < k < |backups| ==>
          IncrementalOf(states[at[k]], backups[k - 1].manifest, hash, backups[k]))
  }

  /** Each backup was published under its own fresh id. */
  ghost predicate Published(root: Root, backups: seq<Backup>) {
    && DistinctIds(backups)
    && forall k :: 0 <= k < |backups| ==>
                     var id := backups[k].manifest.id;
                     PlainId(id) && id in root && root[id] == backups[k]
  }

  /** The hash under an LSN in a sound state is that of the true commit. */
  lemma {:induction false} HashIsSound(s: State, history: seq<CommitRecord>, lsn: Lsn, hash: Hash)
    requires LogSound(s, history)
    ensures CommitHashAt(s, lsn, hash).Ok?
    ensures CommitHashAt(s, lsn, hash).value.Some? ==>
              1 <= lsn <= |history| && CommitHashAt(s, lsn, hash).value == Some(hash(history[lsn - 1]))
  {
    if LogCell(lsn) in s {
      assert IsLogRow(s, history, LogCell(lsn));
      var n: Lsn :| 1 <= n <= |history| && LogCell(lsn) == LogCell(n) && s[LogCell(lsn)] == RecordValue(history[n - 1]);
      LsnBytesInjective(lsn, n);
    }
  }

  /** A log scan of a sound state that succeeds returns the true commits of its range. */
  lemma {:induction false} WalIsHistory(
    s: State, history: seq<CommitRecord>, start: Lsn, end: Lsn, wal: seq<CommitRecord>)
    requires LogSound(s, history) && Contiguous(history, 0)
    requires start < end < U64_MAX && end <= |history|
    requires LogPresent(s, start, end) && WalOf(s, start, end, wal)
    ensures wal == history[start..end]
  {
    hide LogKeys, LogSound, Contiguous;
    var keys := LogKeys(s, start, end);
    forall i | 0 <= i < |wal| ensures wal[i] == history[start + i] {
      assert HoldsRecord(s, keys[i], start + 1 + i);
      LogRowIs(s, history, keys[i], wal[i], start + 1 + i);
    }
  }

  /** A log row of a sound state holds the true commit of its record's LSN. */
  lemma LogRowIs(s: State, history: seq<CommitRecord>, k: Bytes, record: CommitRecord, lsn: nat)
    requires LogSound(s, history) && Contiguous(history, 0)
    requires Lookup(s, Cell(COMMIT_LOG, k)) == Some(RecordValue(record)) && record.txnId == lsn
    ensures 1 <= lsn <= |history| && record == history[lsn - 1]
  {
    hide LsnBytes;
    var c := Cell(COMMIT_LOG, k);
    assert IsLogRow(s, history, c);
    var n: Lsn :| 1 <= n <= |history| && c == LogCell(n) && s[c] == RecordValue(history[n - 1]);
  }

  lemma SoundLogIsTrue(s: State, history: seq<CommitRecord>)
    requires LogSound(s, history) && Contiguous(history, 0)
    ensures TrueLog(s)
  {
    hide LsnBytes;
    forall c | c in s && c.table == COMMIT_LOG ensures IsTrueRow(s, c) {
      assert IsLogRow(s, history, c);
    }
  }

  /** What a source must still hold for a backup at `lsn` to follow one that ended at `parent`:
  the parent's last commit and every one since, and no log floor above them. */
  ghost predicate ReachesBack(s: State, parent: nat, lsn: Lsn) {
    && Retained(s, if parent == 0 then 0 else parent - 1, lsn)
    && (LOG_FLOOR in s ==> s[LOG_FLOOR].LsnValue? && (parent < lsn ==> s[LOG_FLOOR].lsn <= parent + 1))
  }

  /** A backup with the true hash of its last commit can be followed at a later state of the run
  if and only if that state has the backup's timeline and its log reaches back to the backup. */
  lemma {:induction false} FollowedExactly(
    states: seq<State>, steps: seq<Step>, j: nat, parent: Manifest, hash: Hash)
    requires Run(states, steps) && j < |states| && |Commits(steps[..j])| < U64_MAX
    requires parent.endLsn <= |Commits(steps[..j])|
    requires parent.endLsn > 0 ==> parent.endHash == Some(hash(Commits(steps[..j])[parent.endLsn - 1]))
    ensures CanFollow(states[j], parent, hash) <==>
            && Lookup(states[j], TIMELINE) == Some(Raw(parent.timeline))
            && ReachesBack(states[j], parent.endLsn, |Commits(steps[..j])|)
  {
    hide Legal, After, Genesis, Commits, Covered, LogKeys, LsnBytes, LogPresent, TrueLog;
    var s, history := states[j], Commits(steps[..j]);
    RunsAreSound(states, steps, j);
    SoundLogIsTrue(s, history);
    HashIsSound(s, history, |history|, hash);
    HashIsSound(s, history, parent.endLsn, hash);
    if parent.endLsn < |history| {
      AcceptedLogs(s, parent.endLsn, |history|);
    }
    RetainedFrom(s, parent.endLsn, |history|);
  }

  ghost predicate Injective(hash: Hash) {
    forall a, b :: hash(a) == hash(b) ==> a == b
  }

  /** A source on a diverged branch is refused: when hashes tell commits apart, a backup whose
  last commit is `record` can be followed by a run if and only if the run got that far, has that
  very commit at that LSN, and has the backup's timeline and a log that reaches back. */
  lemma {:induction false} FollowedOnItsBranch(
    states: seq<State>, steps: seq<Step>, j: nat, parent: Manifest, record: CommitRecord, hash: Hash)
    requires Run(states, steps) && j < |states| && |Commits(steps[..j])| < U64_MAX && Injective(hash)
    requires parent.endLsn > 0 ==> parent.endHash == Some(hash(record))
    ensures CanFollow(states[j], parent, hash) <==>
            && parent.endLsn <= |Commits(steps[..j])|
            && (parent.endLsn > 0 ==> Commits(steps[..j])[parent.endLsn - 1] == record)
            && Lookup(states[j], TIMELINE) == Some(Raw(parent.timeline))
            && ReachesBack(states[j], parent.endLsn, |Commits(steps[..j])|)
  {
    hide Legal, After, Genesis, Commits, Covered, LogPresent, ReachesBack, LogSound, Contiguous;
    var s, history := states[j], Commits(steps[..j]);
    RunsAreSound(states, steps, j);
    HashIsSound(s, history, parent.endLsn, hash);
    if parent.endLsn <= |history| && (parent.endLsn > 0 ==> history[parent.endLsn - 1] == record) {
      FollowedExactly(states, steps, j, parent, hash);
    }
  }

  lemma RetainedFrom(s: State, parent: nat, lsn: Lsn)
    requires parent <= lsn
    ensures Retained(s, if parent == 0 then 0 else parent - 1, lsn) <==>
            Retained(s, parent, lsn) && (parent > 0 ==> LogCell(parent) in s)
  {
    hide LogCell;
  }

  /** Every link of a produced chain passes the loader's checks. */
  lemma {:induction false} ProducedLinks(
    states: seq<State>, steps: seq<Step>, at: seq<nat>, backups: seq<Backup>, objects: Objects, hash: Hash,
    root: Root, k: nat)
    requires Run(states, steps) && Produced(states, at, backups, objects, hash) && Published(root, backups)
    requires 0 < k < |backups|
    ensures Linked(root, backups[k - 1], backups[k])
  {
    hide Genesis, Legal, After, Resolvable, IsPayload, LogPresent, WalOf, CommitHashAt, LogSound, Covered;
    var db, p, m := states[at[k]], backups[k - 1].manifest, backups[k].manifest;
    assert IncrementalOf(db, p, hash, backups[k]);
    RunsAreSound(states, steps, at[k]);
    HashIsSound(db, Commits(steps[..at[k]]), m.endLsn, hash);
    FormatIsCurrent(states, at, backups, objects, hash, k - 1);
  }

  lemma {:induction false} FormatIsCurrent(
    states: seq<State>, at: seq<nat>, backups: seq<Backup>, objects: Objects, hash: Hash, k: nat)
    requires Produced(states, at, backups, objects, hash) && k < |backups|
    ensures backups[k].manifest.formatVersion == FORMAT_VERSION
  {
    hide Resolvable, IsPayload, LogPresent, WalOf, CommitHashAt;
    if k > 0 {
      assert IncrementalOf(states[at[k]], backups[k - 1].manifest, hash, backups[k]);
    }
  }

  /** What the producers write, the loader accepts: the chain of any produced backup is that
  backup and its ancestors. */
  lemma {:induction false} ProducedIsChain(
    states: seq<State>, steps: seq<Step>, at: seq<nat>, backups: seq<Backup>, objects: Objects, hash: Hash,
    root: Root)
    requires Run(states, steps) && Produced(states, at, backups, objects, hash) && Published(root, backups)
    ensures IsChain(root, backups[|backups| - 1].manifest.id, backups)
  {
    hide Run, Linked, Resolvable, IsPayload, LogPresent, WalOf, CommitHashAt;
    forall k | 0 < k < |backups| ensures Linked(root, backups[k - 1], backups[k]) {
      ProducedLinks(states, steps, at, backups, objects, hash, root, k);
    }
    FormatIsCurrent(states, at, backups, objects, hash, |backups| - 1);
  }

  /** The LSN of the run has not reached the largest one. */
  ghost predicate BelowLimit(steps: seq<Step>) {
    |Commits(steps)| < U64_MAX
  }

  lemma {:induction false} CommitsPrefix(steps: seq<Step>, i: nat, j: nat)
    requires i <= j <= |steps|
    ensures Commits(steps[..i]) <= Commits(steps[..j])
    decreases j - i
  {
    if i < j {
      CommitsPrefix(steps, i, j - 1);
      assert steps[..j][..j - 1] == steps[..j - 1];
    }
  }

  /** The incremental `k` of a produced chain holds the true commits between its LSNs. */
  lemma {:induction false} ProducedWal(
    states: seq<State>, steps: seq<Step>, at: seq<nat>, backups: seq<Backup>, objects: Objects, hash: Hash,
    k: nat)
    requires Run(states, steps) && Produced(states, at, backups, objects, hash) && BelowLimit(steps)
    requires 0 < k < |backups|
    ensures var m := backups[k].manifest;
            && m.startLsn == backups[k - 1].manifest.endLsn <= m.endLsn == |Commits(steps[..at[k]])|
            && backups[k].wal == Some(Commits(steps[..at[k]])[m.startLsn..m.endLsn])
            && LogChecks(m, backups[k].wal.value, m.startLsn, hash)
  {
    hide Genesis, Legal, After, Resolvable, IsPayload, LogPresent, WalOf, CommitHashAt, LogSound, Covered;
    var db, p, m, history := states[at[k]], backups[k - 1].manifest, backups[k].manifest, Commits(steps[..at[k]]);
    assert IncrementalOf(db, p, hash, backups[k]);
    RunsAreSound(states, steps, at[k]);
    CommitsPrefix(steps, at[k], |steps|);
    assert steps[..|steps|] == steps;
    HashIsSound(db, history, m.endLsn, hash);
    if p.endLsn < m.endLsn {
      WalIsHistory(db, history, p.endLsn, m.endLsn, backups[k].wal.value);
    }
  }

  lemma {:induction false} ProducedLogs(
    states: seq<State>, steps: seq<Step>, at: seq<nat>, backups: seq<Backup>, objects: Objects, hash: Hash)
    requires Run(states, steps) && Produced(states, at, backups, objects, hash) && BelowLimit(steps)
    ensures GoodLogs(backups, hash)
  {
    hide Run, Produced, Commits, LogChecks;
    forall k | 0 < k < |backups| ensures GoodLog(backups, k, hash) {
      ProducedWal(states, steps, at, backups, objects, hash, k);
    }
  }

  lemma Pieces<T>(all: seq<T>, first: nat, mid: nat, last: nat)
    requires first <= mid <= last <= |all|
    ensures all[..last][mid..last] == all[mid..last]
    ensures all[first..last] == all[first..mid] + all[mid..last]
  {
  }

  /** The log of a produced chain is the piece of the source's history between its ends. */
  lemma {:induction false} ProducedLog(
    states: seq<State>, steps: seq<Step>, at: seq<nat>, backups: seq<Backup>, objects: Objects, hash: Hash,
    n: nat)
    requires Run(states, steps) && Produced(states, at, backups, objects, hash) && BelowLimit(steps)
    requires 0 < n <= |backups|
    ensures var first, last := backups[0].manifest.endLsn, backups[n - 1].manifest.endLsn;
            && first <= last == |Commits(steps[..at[n - 1]])| <= |Commits(steps)|
            && LogOf(backups[..n]) == Commits(steps)[first..last]
  {
    hide Genesis, Legal, After, FullOf, IncrementalOf, Commits, LogChecks, Sound;
    assert steps[..|steps|] == steps;
    CommitsPrefix(steps, at[n - 1], |steps|);
    if n == 1 {
      FullLsn(states, steps, at, backups, objects, hash);
    } else {
      ProducedLog(states, steps, at, backups, objects, hash, n - 1);
      ProducedWal(states, steps, at, backups, objects, hash, n - 1);
      LogOfPrefix(backups, n - 1);
      var all, first, mid, last := Commits(steps), backups[0].manifest.endLsn,
        backups[n - 2].manifest.endLsn, backups[n - 1].manifest.endLsn;
      assert Commits(steps[..at[n - 1]]) == all[..last];
      Pieces(all, first, mid, last);
    }
  }

  lemma {:induction false} FullLsn(
    states: seq<State>, steps: seq<Step>, at: seq<nat>, backups: seq<Backup>, objects: Objects, hash: Hash)
    requires Run(states, steps) && Produced(states, at, backups, objects, hash)
    ensures backups[0].manifest.endLsn == |Commits(steps[..at[0]])|
  {
    hide Genesis, Legal, After, Resolvable, IsPayload, CommitHashAt, IncrementalOf, LogSound, Covered;
    RunsAreSound(states, steps, at[0]);
  }
}
