/** The storage state a backup reads and a restore rebuilds: rows addressed by table and key,
and the routine that writes one commit-log record into them (`src/txn/mod.rs`).

Keys are bytes. Stored values are kept decoded: `Value` has one constructor for each kind of
record the backup code decodes, and `Raw` for all other bytes, so an encoder is a constructor
and decoding a value of another kind is the decoder's error. */
module Store {
  import opened Bytes
  import opened Integers

  type Lsn = n: nat | n <= U64_MAX
  type Time = int

  datatype Profile =
    | InMemory | Transactional | Analytical | Document | Vector | TimeSeries
    | HighDurability | Balanced | Tensor
  {
    predicate RequiresGpu() { Tensor? }
  }

  datatype Floors = Floors(audit: bool, encryptionAtRest: bool)

  /** The persisted profile manifest; `valid` is the outcome of `validate_manifest`. */
  datatype ProfileManifest = ProfileManifest(storageProfile: Profile, floors: Floors, valid: bool)

  datatype Value =
    | Raw(bytes: Bytes)
    | LsnValue(lsn: Lsn)
    | RecordValue(record: CommitRecord)
    | VersionValue(version: Option<Value>)
    | HlcValue(hlc: nat)
    | PointerValue(name: Bytes)
    | BrokenPointer
    | ProfileValue(profile: Profile)
    | FlagValue(on: bool)
    | ReplicationValue(ap: bool)
    | ManifestValue(manifest: ProfileManifest)

  datatype CommitWrite = CommitWrite(table: Bytes, key: Bytes, value: Option<Value>)

  datatype CommitRecord = CommitRecord(
    txnId: Lsn, committedAt: Time, hlc: Option<nat>, writes: seq<CommitWrite>)

  datatype Cell = Cell(table: Bytes, key: Bytes)

  type State = map<Cell, Value>

  datatype Error =
    | Corruption
    | Unsupported
    | Unreadable
    | MissingLogRange(start: Lsn, end: Lsn)
    | CommitLogTruncated(parentEnd: Lsn, floor: Lsn)
    | MissingParent(id: Bytes)
    | ProfileMismatch(expected: Profile, found: Profile)
    | FloorsNotMet(unmet: seq<Bytes>)

  datatype Result<+T> = Ok(value: T) | Err(error: Error) {
    predicate IsFailure() { Err? }
    function PropagateFailure<U>(): Result<U> requires Err? { Err(error) }
    function Extract(): T requires Ok? { value }
  }

  // ---- Table names and keys ----

  const META: Bytes := "__meta"
  const AUTHZ: Bytes := "__authz_policy"
  const TXN_META: Bytes := "__txn_meta"
  const TXN_VERSIONS: Bytes := "__txn_versions"
  const TXN_MVCC: Bytes := "__txn_mvcc"
  const COMMIT_LOG: Bytes := "__commit_log"
  const KEYSPACES: Bytes := "__keyspaces"
  const TABLE_VERSIONS: Bytes := "__txn_table_data_versions"
  const HLC_TABLE: Bytes := "__hlc_clock"
  const BACKUP_META: Bytes := "__backup_meta"
  const SEGMENTS: Bytes := "rel_columnar_segments"

  const CURRENT: Cell := Cell(TXN_META, "current_txn_id")
  const LOG_FLOOR: Cell := Cell(TXN_META, "commit_log_floor")
  const HLC: Cell := Cell(HLC_TABLE, "local")
  const AUDIT_FLAG: Cell := Cell(AUTHZ, "audit_enabled")
  const PROFILE: Cell := Cell(META, "profile")
  const REPLICATION: Cell := Cell(META, "replication")
  const MANIFEST: Cell := Cell(META, "profile_manifest")
  const TIMELINE: Cell := Cell(BACKUP_META, "timeline_id")
  const RECOVERY_LSN: Cell := Cell(BACKUP_META, "recovery_lsn")
  const PRESENT: Value := Raw("1")

  lemma Pow256Of8()
    ensures Pow256(8) == U64_MAX + 1
  {
    assert Pow256(2) == 0x1_0000;
    assert Pow256(4) == 0x1_0000_0000;
    assert Pow256(6) == 0x1_0000_0000_0000;
  }

  /** `encode_txn_id` and `commit_log_key`. */
  function LsnBytes(n: Lsn): (r: Bytes)
    ensures |r| == 8
  {
    Pow256Of8();
    BigEndian(n, 8)
  }

  lemma LsnBytesOrder(a: Lsn, b: Lsn)
    requires a < b
    ensures Below(LsnBytes(a), LsnBytes(b))
  {
    Pow256Of8();
    BigEndianOrder(a, b, 8);
  }

  lemma LsnBytesInjective(a: Lsn, b: Lsn)
    requires LsnBytes(a) == LsnBytes(b)
    ensures a == b
  {
    Pow256Of8();
    BigEndianInjective(a, b, 8);
  }

  /** The length, the table name, the key. A name held in memory is shorter than 2^64 bytes, so
  the remainder never takes effect. */
  function VersionKey(table: Bytes, key: Bytes): (r: Bytes)
    ensures |r| == 8 + |table| + |key|
  {
    LsnBytes(|table| % (U64_MAX + 1)) + table + key
  }

  function MvccKey(table: Bytes, key: Bytes, id: Lsn): (r: Bytes)
    ensures |r| == 16 + |table| + |key|
  {
    VersionKey(table, key) + LsnBytes(id)
  }

  function LogCell(id: Lsn): Cell {
    Cell(COMMIT_LOG, LsnBytes(id))
  }

  predicate Reserved(table: Bytes) {
    "__" <= table
  }

  // ---- Reading rows ----

  function Lookup(s: State, c: Cell): Option<Value> {
    if c in s then Some(s[c]) else None
  }

  function KeysOf(s: State, table: Bytes, from: Bytes, until: Bytes): set<Bytes> {
    set c | c in s && c.table == table && AtMost(from, c.key) && (until == [] || Below(c.key, until))
      :: c.key
  }

  /** `range(table, from, until)`: the keys an ordered scan visits; an empty `until` is no bound. */
  function Range(s: State, table: Bytes, from: Bytes, until: Bytes): (r: seq<Bytes>)
    ensures StrictlyAscending(r)
    ensures forall k :: k in r ==> Cell(table, k) in s
    ensures forall k :: k in r <==>
                        Cell(table, k) in s && AtMost(from, k) && (until == [] || Below(k, until))
  {
    var keys := KeysOf(s, table, from, until);
    assert forall k :: Cell(table, k) in s && AtMost(from, k) && (until == [] || Below(k, until))
                       ==> Cell(table, k).key in keys;
    Ordered(keys)
  }

  function CurrentLsn(s: State): Result<Lsn> {
    if CURRENT !in s then Ok(0)
    else if s[CURRENT].LsnValue? then Ok(s[CURRENT].lsn)
    else Err(Corruption)
  }

  // ---- Net effect of writes ----

  /** The last effect of a series of writes on each cell it touches; `None` is a delete. */
  type Delta = map<Cell, Option<Value>>

  function Patch(s: State, d: Delta): (r: State)
    ensures forall c :: Lookup(r, c) == if c in d then d[c] else Lookup(s, c)
  {
    map c | c in s.Keys + d.Keys && (if c in d then d[c].Some? else true)
      :: if c in d then d[c].value else s[c]
  }

  lemma SameLookups(a: State, b: State)
    requires forall c :: Lookup(a, c) == Lookup(b, c)
    ensures a == b
  {
    forall c ensures c in a <==> c in b {
      assert Lookup(a, c) == Lookup(b, c);
    }
    assert a.Keys == b.Keys;
    forall c | c in a ensures a[c] == b[c] {
      assert Lookup(a, c) == Lookup(b, c);
    }
  }

  function WriteDelta(w: CommitWrite, id: Lsn): Delta {
    map[Cell(TXN_MVCC, MvccKey(w.table, w.key, id)) := Some(VersionValue(w.value))]
      [Cell(w.table, w.key) := w.value]
      [Cell(TXN_VERSIONS, VersionKey(w.table, w.key)) := Some(LsnValue(id))]
  }

  function WritesDelta(writes: seq<CommitWrite>, id: Lsn): Delta {
    if writes == [] then map[]
    else WritesDelta(writes[..|writes| - 1], id) + WriteDelta(writes[|writes| - 1], id)
  }

  function PublicTables(r: CommitRecord): set<Bytes> {
    set w | w in r.writes && !Reserved(w.table) :: w.table
  }

  function RecordKeyspaces(r: CommitRecord): set<Bytes> {
    {TXN_META, TXN_VERSIONS, TXN_MVCC, COMMIT_LOG, KEYSPACES, HLC_TABLE}
    + (if PublicTables(r) != {} then {TABLE_VERSIONS} else {})
    + (set w | w in r.writes :: w.table)
  }

  function Stamp(table: Bytes, keys: set<Bytes>, v: Value): (d: Delta)
    ensures forall c :: c in d <==> c.table == table && c.key in keys
    ensures forall c :: c in d ==> d[c] == Some(v)
  {
    var d: Delta := map k | k in keys :: Cell(table, k) := Some(v);
    assert forall c: Cell :: c.table == table && c.key in keys ==> Cell(table, c.key) == c;
    d
  }

  lemma StampMore(d: Delta, table: Bytes, keys: set<Bytes>, k: Bytes, v: Value)
    ensures (d + Stamp(table, keys, v))[Cell(table, k) := Some(v)] == d + Stamp(table, keys + {k}, v)
  {
  }

  /** Everything a commit record writes except the clock. */
  function RecordDelta(r: CommitRecord): Delta {
    map[CURRENT := Some(LsnValue(r.txnId))]
    + WritesDelta(r.writes, r.txnId)
    + Stamp(TABLE_VERSIONS, PublicTables(r), LsnValue(r.txnId))
    + Stamp(KEYSPACES, RecordKeyspaces(r), PRESENT)
    + map[LogCell(r.txnId) := Some(RecordValue(r))]
  }

  lemma RecordDeltaIs(r: CommitRecord, d: Delta)
    requires d == map[CURRENT := Some(LsnValue(r.txnId))] + WritesDelta(r.writes, r.txnId)
                  + Stamp(TABLE_VERSIONS, PublicTables(r), LsnValue(r.txnId))
                  + Stamp(KEYSPACES, RecordKeyspaces(r), PRESENT)
    ensures d[LogCell(r.txnId) := Some(RecordValue(r))] == RecordDelta(r)
  {
    hide WritesDelta, Stamp, PublicTables, RecordKeyspaces, LogCell;
    SetIsMerge(d, LogCell(r.txnId), Some(RecordValue(r)));
  }

  lemma SetIsMerge(d: Delta, c: Cell, v: Option<Value>)
    ensures d[c := v] == d + map[c := v]
  {
  }

  lemma WritesDeltaStep(base: Delta, writes: seq<CommitWrite>, i: nat, id: Lsn)
    requires i < |writes|
    ensures base + WritesDelta(writes[..i], id) + WriteDelta(writes[i], id)
         == base + WritesDelta(writes[..i + 1], id)
  {
    assert writes[..i + 1][..i] == writes[..i];
  }

  function MergeHlc(s: State, hlc: Option<nat>): Result<State> {
    if hlc.None? then Ok(s)
    else if HLC !in s then Ok(s[HLC := HlcValue(hlc.value)])
    else if s[HLC].HlcValue? then Ok(s[HLC := HlcValue(Max(s[HLC].hlc, hlc.value))])
    else Err(Corruption)
  }

  /** The state after `apply_commit_record_in_txn`, or its error. */
  function ApplyRecord(s: State, r: CommitRecord): Result<State> {
    MergeHlc(Patch(s, RecordDelta(r)), r.hlc)
  }

  /** Commit records applied one after another. */
  function Replay(s: State, log: seq<CommitRecord>): Result<State> {
    if log == [] then Ok(s)
    else
      var before :- Replay(s, log[..|log| - 1]);
      ApplyRecord(before, log[|log| - 1])
  }

  lemma {:induction false} ReplayAppend(s: State, a: seq<CommitRecord>, b: seq<CommitRecord>)
    requires Replay(s, a).Ok?
    ensures Replay(s, a + b) == Replay(Replay(s, a).value, b)
  {
    if b == [] {
      assert a + b == a;
    } else {
      ReplayAppend(s, a, b[..|b| - 1]);
      assert (a + b)[..|a + b| - 1] == a + b[..|b| - 1];
    }
  }

  lemma {:induction false} ReplayStuck(s: State, a: seq<CommitRecord>, b: seq<CommitRecord>)
    requires Replay(s, a).Err?
    ensures Replay(s, a + b).Err?
  {
    if b == [] {
      assert a + b == a;
    } else {
      ReplayStuck(s, a, b[..|b| - 1]);
      assert (a + b)[..|a + b| - 1] == a + b[..|b| - 1];
    }
  }

  lemma ReplayPrefix(s: State, log: seq<CommitRecord>, n: nat)
    requires n <= |log| && Replay(s, log).Ok?
    ensures Replay(s, log[..n]).Ok?
  {
    assert log == log[..n] + log[n..];
    if Replay(s, log[..n]).Err? {
      ReplayStuck(s, log[..n], log[n..]);
    }
  }

  // ---- The write transaction ----

  class WriteTransaction {
    var rows: State

    constructor (initial: State)
      ensures rows == initial
    {
      rows := initial;
    }

    method Put(c: Cell, v: Value)
      modifies this
      ensures rows == old(rows)[c := v]
    {
      rows := rows[c := v];
    }

    method Delete(c: Cell)
      modifies this
      ensures rows == old(rows) - {c}
    {
      rows := rows - {c};
    }

    /** Puts or deletes one cell, tracking the net effect since `start`. */
    method Write(c: Cell, v: Option<Value>, ghost start: State, ghost d: Delta)
      requires rows == Patch(start, d)
      modifies this
      ensures rows == Patch(start, d[c := v])
    {
      match v {
        case Some(value) => Put(c, value);
        case None => Delete(c);
      }
      SameLookups(rows, Patch(start, d[c := v]));
    }

    /** Writes one value under every key of a set. */
    method WriteAll(table: Bytes, keys: set<Bytes>, v: Value, ghost start: State, ghost d: Delta)
      requires rows == Patch(start, d)
      modifies this
      ensures rows == Patch(start, d + Stamp(table, keys, v))
    {
      var left := keys;
      ghost var done: set<Bytes> := {};
      assert d + Stamp(table, {}, v) == d;
      while left != {}
        invariant done + left == keys
        invariant rows == Patch(start, d + Stamp(table, done, v))
        decreases |left|
      {
        var k :| k in left;
        Write(Cell(table, k), Some(v), start, d + Stamp(table, done, v));
        StampMore(d, table, done, k, v);
        left := left - {k};
        done := done + {k};
      }
    }

    /** The history version, the row and the key version of one write. */
    method ApplyWrite(w: CommitWrite, id: Lsn, ghost start: State, ghost d: Delta)
      requires rows == Patch(start, d)
      modifies this
      ensures rows == Patch(start, d + WriteDelta(w, id))
    {
      var mvcc := Cell(TXN_MVCC, MvccKey(w.table, w.key, id));
      var version := Cell(TXN_VERSIONS, VersionKey(w.table, w.key));
      Write(mvcc, Some(VersionValue(w.value)), start, d);
      ghost var d1 := d[mvcc := Some(VersionValue(w.value))];
      Write(Cell(w.table, w.key), w.value, start, d1);
      ghost var d2 := d1[Cell(w.table, w.key) := w.value];
      Write(version, Some(LsnValue(id)), start, d2);
      assert d2[version := Some(LsnValue(id))] == d + WriteDelta(w, id);
    }

    method ApplyWrites(writes: seq<CommitWrite>, id: Lsn, ghost start: State, ghost base: Delta)
      requires rows == Patch(start, base)
      modifies this
      ensures rows == Patch(start, base + WritesDelta(writes, id))
    {
      assert base + WritesDelta(writes[..0], id) == base;
      for i := 0 to |writes|
        invariant rows == Patch(start, base + WritesDelta(writes[..i], id))
      {
        ApplyWrite(writes[i], id, start, base + WritesDelta(writes[..i], id));
        WritesDeltaStep(base, writes, i, id);
      }
      assert writes[..|writes|] == writes;
    }

    /** The stored clock moves to the later of itself and the record's, if it has one. */
    method MergeClock(hlc: Option<nat>) returns (outcome: Result<()>)
      modifies this
      ensures outcome.Ok? <==> MergeHlc(old(rows), hlc).Ok?
      ensures outcome.Ok? ==> MergeHlc(old(rows), hlc) == Ok(rows)
      ensures outcome.Err? ==> outcome == Err(Corruption)
    {
      if hlc.Some? {
        if HLC !in rows {
          Put(HLC, HlcValue(hlc.value));
        } else if rows[HLC].HlcValue? {
          Put(HLC, HlcValue(Max(rows[HLC].hlc, hlc.value)));
        } else {
          return Err(Corruption);
        }
      }
      return Ok(());
    }

    /** `apply_commit_record_in_txn`. */
    method ApplyCommitRecord(r: CommitRecord) returns (outcome: Result<()>)
      modifies this
      ensures outcome.Ok? <==> ApplyRecord(old(rows), r).Ok?
      ensures outcome.Ok? ==> ApplyRecord(old(rows), r) == Ok(rows)
      ensures outcome.Err? ==> outcome == Err(Corruption)
    {
      ghost var start := rows;
      ghost var d0: Delta := map[];
      assert rows == Patch(start, d0) by { SameLookups(rows, Patch(start, d0)); }
      Write(CURRENT, Some(LsnValue(r.txnId)), start, d0);
      ghost var d1 := d0[CURRENT := Some(LsnValue(r.txnId))];
      ApplyWrites(r.writes, r.txnId, start, d1);
      ghost var d2 := d1 + WritesDelta(r.writes, r.txnId);
      WriteAll(TABLE_VERSIONS, PublicTables(r), LsnValue(r.txnId), start, d2);
      ghost var d3 := d2 + Stamp(TABLE_VERSIONS, PublicTables(r), LsnValue(r.txnId));
      WriteAll(KEYSPACES, RecordKeyspaces(r), PRESENT, start, d3);
      ghost var d4 := d3 + Stamp(KEYSPACES, RecordKeyspaces(r), PRESENT);
      Write(LogCell(r.txnId), Some(RecordValue(r)), start, d4);
      RecordDeltaIs(r, d4);
      outcome := MergeClock(r.hlc);
    }
  }
}
