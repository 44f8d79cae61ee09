/** The commit log of a backup chain and the full payload, as a restore reads them: the log
check, the commits up to a target, and what replaying them leaves in a row (`src/backup.rs`).

`Hash` stands for the commit hash, any function of a record. */
module CommitLog {
  import opened Bytes
  import opened Integers
  import opened Store
  import opened Chain

  type Hash = CommitRecord -> Bytes

  // ---- The commit log of a chain ----

  function Wal(b: Backup): seq<CommitRecord> {
    if b.wal.Some? then b.wal.value else []
  }

  /** The commit records of all incrementals, in chain order. */
  function LogOf(chain: seq<Backup>): seq<CommitRecord> {
    if |chain| <= 1 then [] else LogOf(chain[..|chain| - 1]) + Wal(chain[|chain| - 1])
  }

  ghost predicate Contiguous(log: seq<CommitRecord>, start: Lsn) {
    forall i :: 0 <= i < |log| ==> log[i].txnId == start + 1 + i
  }

  /** `commit_hash_at`: the hash of the commit stored under an LSN, if one is. */
  function CommitHashAt(s: State, lsn: Lsn, hash: Hash): Result<Option<Bytes>> {
    if LogCell(lsn) !in s then Ok(None)
    else if s[LogCell(lsn)].RecordValue? then Ok(Some(hash(s[LogCell(lsn)].record)))
    else Err(Corruption)
  }

  /** What `check_commit_log` accepts. */
  ghost predicate LogChecks(m: Manifest, log: seq<CommitRecord>, start: Lsn, hash: Hash) {
    && Contiguous(log, start)
    && start + |log| == m.endLsn
    && (log != [] && m.endHash.Some? ==> hash(log[|log| - 1]) == m.endHash.value)
  }

  /** Every incremental can be read and follows on from the one before it. */
  ghost predicate GoodLogs(chain: seq<Backup>, hash: Hash) {
    forall i :: 0 < i < |chain| ==> GoodLog(chain, i, hash)
  }

  ghost predicate GoodLog(chain: seq<Backup>, i: nat, hash: Hash)
    requires 0 < i < |chain|
  {
    && chain[i].wal.Some?
    && LogChecks(chain[i].manifest, chain[i].wal.value, chain[i - 1].manifest.endLsn, hash)
  }

  lemma {:induction false} LogOfPrefix(chain: seq<Backup>, n: nat)
    requires 0 < n < |chain|
    ensures LogOf(chain[..n + 1]) == LogOf(chain[..n]) + Wal(chain[n])
  {
    assert chain[..n + 1][..n] == chain[..n];
  }

  /** The logs of a good chain join into one contiguous log from the full backup's end to the
  end of the chain. */
  lemma {:induction false} LogsJoin(chain: seq<Backup>, n: nat, hash: Hash)
    requires 0 < n <= |chain| && GoodLogs(chain, hash)
    ensures Contiguous(LogOf(chain[..n]), chain[0].manifest.endLsn)
    ensures chain[0].manifest.endLsn + |LogOf(chain[..n])| == chain[n - 1].manifest.endLsn
  {
    if n > 1 {
      LogsJoin(chain, n - 1, hash);
      LogOfPrefix(chain, n - 1);
      assert GoodLog(chain, n - 1, hash);
    }
  }

  lemma {:induction false} LogJoins(chain: seq<Backup>, hash: Hash)
    requires chain != [] && GoodLogs(chain, hash)
    ensures Contiguous(LogOf(chain), chain[0].manifest.endLsn)
    ensures chain[0].manifest.endLsn + |LogOf(chain)| == chain[|chain| - 1].manifest.endLsn
  {
    LogsJoin(chain, |chain|, hash);
    assert chain[..|chain|] == chain;
  }

  lemma {:induction false} LogPrefix(chain: seq<Backup>, n: nat)
    requires 0 < n <= |chain|
    ensures LogOf(chain[..n]) <= LogOf(chain)
    decreases |chain| - n
  {
    if n < |chain| {
      LogOfPrefix(chain, n);
      LogPrefix(chain, n + 1);
    } else {
      assert chain[..n] == chain;
    }
  }

  /** The end hashes of a checked chain are true: an incremental that holds commits notes the hash
  of the commit its end LSN names, and an empty one the hash its parent noted. */
  lemma {:induction false} EndHashesHold(root: Root, selected: Bytes, chain: seq<Backup>, hash: Hash, k: nat)
    requires IsChain(root, selected, chain) && GoodLogs(chain, hash)
    requires 0 < k < |chain| && chain[k].manifest.endHash.Some?
    ensures var first, previous, end := chain[0].manifest.endLsn, chain[k - 1].manifest, chain[k].manifest;
            && first <= previous.endLsn <= end.endLsn <= first + |LogOf(chain)|
            && (previous.endLsn < end.endLsn ==>
                  var last := LogOf(chain)[end.endLsn - first - 1];
                  last.txnId == end.endLsn && hash(last) == end.endHash.value)
            && (previous.endLsn == end.endLsn && previous.endHash.Some? ==> previous.endHash == end.endHash)
  {
    hide LogOf;
    assert Linked(root, chain[k - 1], chain[k]) && GoodLog(chain, k, hash);
    LogsJoin(chain, k, hash);
    LogsJoin(chain, k + 1, hash);
    LogOfPrefix(chain, k);
    LogPrefix(chain, k + 1);
    assert Wal(chain[k]) == chain[k].wal.value;
  }

  /** `check_commit_log`. */
  method CheckCommitLog(m: Manifest, log: seq<CommitRecord>, start: Lsn, hash: Hash)
    returns (r: Result<Lsn>)
    ensures r.Ok? <==> LogChecks(m, log, start, hash)
    ensures r == Ok(m.endLsn) || r == Err(Corruption)
  {
    var last := start;
    for i := 0 to |log|
      invariant last == start + i
      invariant forall j :: 0 <= j < i ==> log[j].txnId == start + 1 + j
    {
      if last == U64_MAX || log[i].txnId != last + 1 {
        assert log[i].txnId != start + 1 + i;
        return Err(Corruption);
      }
      last := log[i].txnId;
    }
    if last != m.endLsn {
      return Err(Corruption);
    }
    if log != [] && m.endHash.Some? && hash(log[|log| - 1]) != m.endHash.value {
      return Err(Corruption);
    }
    return Ok(last);
  }

  // ---- Commits up to a target ----

  /** The records `filter(|record| record.txn_id <= target)` keeps. */
  function UpTo(log: seq<CommitRecord>, target: Lsn): seq<CommitRecord> {
    if log == [] then []
    else
      var kept := UpTo(log[..|log| - 1], target);
      if log[|log| - 1].txnId <= target then kept + [log[|log| - 1]] else kept
  }

  lemma {:induction false} UpToJoin(a: seq<CommitRecord>, b: seq<CommitRecord>, target: Lsn)
    ensures UpTo(a + b, target) == UpTo(a, target) + UpTo(b, target)
  {
    if b == [] {
      assert a + b == a;
    } else {
      assert (a + b)[..|a + b| - 1] == a + b[..|b| - 1];
      UpToJoin(a, b[..|b| - 1], target);
    }
  }

  /** On a contiguous log the filter keeps a prefix: the commits after `start` up to `target`,
  once each and in order. */
  lemma {:induction false} UpToIsPrefix(log: seq<CommitRecord>, start: Lsn, target: Lsn)
    requires Contiguous(log, start) && start <= target
    ensures UpTo(log, target) == if target - start < |log| then log[..target - start] else log
  {
    if log != [] {
      UpToIsPrefix(log[..|log| - 1], start, target);
      if target - start < |log| {
        assert log[..|log| - 1][..target - start] == log[..target - start];
      } else {
        assert log == log[..|log| - 1] + [log[|log| - 1]];
      }
    }
  }

  function WritesOf(log: seq<CommitRecord>): seq<CommitWrite> {
    if log == [] then [] else WritesOf(log[..|log| - 1]) + log[|log| - 1].writes
  }

  lemma {:induction false} WritesJoin(a: seq<CommitRecord>, b: seq<CommitRecord>)
    ensures WritesOf(a + b) == WritesOf(a) + WritesOf(b)
  {
    if b == [] {
      assert a + b == a;
    } else {
      assert (a + b)[..|a + b| - 1] == a + b[..|b| - 1];
      WritesJoin(a, b[..|b| - 1]);
    }
  }

  // ---- The full payload ----

  function ApplyPayload(s: State, payload: seq<DataRecord>): State {
    if payload == [] then s
    else ApplyPayload(s, payload[..|payload| - 1])
         [payload[|payload| - 1].cell := payload[|payload| - 1].value]
  }

  ghost predicate NoDuplicates(payload: seq<DataRecord>) {
    forall i, j :: 0 <= i < j < |payload| ==> payload[i].cell != payload[j].cell
  }

  /** `records.iter().find(..)`: the first record of a cell. */
  function Find(payload: seq<DataRecord>, c: Cell): (r: Option<Value>)
    ensures r.None? <==> forall i :: 0 <= i < |payload| ==> payload[i].cell != c
  {
    if payload == [] then None
    else if payload[0].cell == c then Some(payload[0].value)
    else Find(payload[1..], c)
  }

  lemma {:induction false} FindIndex(payload: seq<DataRecord>, i: nat)
    requires i < |payload| && NoDuplicates(payload)
    ensures Find(payload, payload[i].cell) == Some(payload[i].value)
  {
    if i > 0 {
      assert payload[1..][i - 1] == payload[i];
      FindIndex(payload[1..], i - 1);
    }
  }

  /** Without duplicates the first record of a cell is also the last put, so reading the payload
  and reading the state it builds agree. */
  lemma {:induction false} PayloadLookup(s: State, payload: seq<DataRecord>, c: Cell)
    requires NoDuplicates(payload)
    ensures Lookup(ApplyPayload(s, payload), c)
         == if Find(payload, c).Some? then Find(payload, c) else Lookup(s, c)
  {
    if payload != [] {
      var n := |payload| - 1;
      var init := payload[..n];
      PayloadLookup(s, init, c);
      if payload[n].cell == c {
        FindIndex(payload, n);
      } else if Find(init, c).Some? {
        var i :| 0 <= i < |init| && init[i].cell == c;
        FindIndex(init, i);
        FindIndex(payload, i);
      }
    }
  }

  method HasDuplicates(payload: seq<DataRecord>) returns (found: bool)
    ensures found <==> !NoDuplicates(payload)
  {
    var seen: set<Cell> := {};
    for i := 0 to |payload|
      invariant forall c :: c in seen <==> exists j :: 0 <= j < i && payload[j].cell == c
      invariant NoDuplicates(payload[..i])
    {
      if payload[i].cell in seen {
        return true;
      }
      seen := seen + {payload[i].cell};
    }
    assert payload[..|payload|] == payload;
    return false;
  }

  // ---- The last write of a cell ----

  /** What a series of writes leaves in a cell that held `before`. */
  function LastWrite(writes: seq<CommitWrite>, c: Cell, before: Option<Value>): Option<Value> {
    if writes == [] then before
    else
      var w := writes[|writes| - 1];
      if Cell(w.table, w.key) == c then w.value
      else LastWrite(writes[..|writes| - 1], c, before)
  }

  lemma {:induction false} LastWriteJoin(
    a: seq<CommitWrite>, b: seq<CommitWrite>, c: Cell, before: Option<Value>)
    ensures LastWrite(a + b, c, before) == LastWrite(b, c, LastWrite(a, c, before))
  {
    if b == [] {
      assert a + b == a;
    } else {
      assert (a + b)[..|a + b| - 1] == a + b[..|b| - 1];
      LastWriteJoin(a, b[..|b| - 1], c, before);
    }
  }

  /** Tables that a commit writes besides the tables of its own writes. */
  predicate Bookkeeping(table: Bytes) {
    table in {TXN_META, TXN_VERSIONS, TXN_MVCC, COMMIT_LOG, KEYSPACES, TABLE_VERSIONS, HLC_TABLE}
  }

  lemma {:induction false} WritesDeltaRow(writes: seq<CommitWrite>, id: Lsn, c: Cell, before: Option<Value>)
    requires !Bookkeeping(c.table)
    ensures LastWrite(writes, c, before)
         == if c in WritesDelta(writes, id) then WritesDelta(writes, id)[c] else before
  {
    if writes != [] {
      WritesDeltaRow(writes[..|writes| - 1], id, c, before);
    }
  }

  /** Outside the bookkeeping tables a record has only its writes. */
  lemma {:induction false} RecordDeltaRow(r: CommitRecord, c: Cell)
    requires !Bookkeeping(c.table)
    ensures c in RecordDelta(r) <==> c in WritesDelta(r.writes, r.txnId)
    ensures c in RecordDelta(r) ==> RecordDelta(r)[c] == WritesDelta(r.writes, r.txnId)[c]
  {
    hide RecordKeyspaces, PublicTables, WritesDelta, LsnBytes;
  }

  lemma {:induction false} RecordRow(s: State, r: CommitRecord, c: Cell)
    requires !Bookkeeping(c.table) && ApplyRecord(s, r).Ok?
    ensures Lookup(ApplyRecord(s, r).value, c) == LastWrite(r.writes, c, Lookup(s, c))
  {
    hide RecordDelta, WritesDelta, LastWrite;
    RecordDeltaRow(r, c);
    WritesDeltaRow(r.writes, r.txnId, c, Lookup(s, c));
    assert Lookup(Patch(s, RecordDelta(r)), c) == LastWrite(r.writes, c, Lookup(s, c));
    assert c != HLC;
  }

  /** A row outside the bookkeeping tables holds what the last replayed write of it says. */
  lemma {:induction false} ReplayRow(s: State, log: seq<CommitRecord>, c: Cell)
    requires !Bookkeeping(c.table) && Replay(s, log).Ok?
    ensures Lookup(Replay(s, log).value, c) == LastWrite(WritesOf(log), c, Lookup(s, c))
  {
    if log != [] {
      var init := log[..|log| - 1];
      ReplayRow(s, init, c);
      RecordRow(Replay(s, init).value, log[|log| - 1], c);
      LastWriteJoin(WritesOf(init), log[|log| - 1].writes, c, Lookup(s, c));
    }
  }
}
