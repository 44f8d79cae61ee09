/** The backup producers (`full_backup`, `read_full_payload`, `incremental_backup` and
`read_commit_logs_from` in `src/backup.rs`).

`objects` is the object store of tiered segments: the bytes of every object that can be fetched
and passes its checksum. */
module Producers {
  import opened Bytes
  import opened Integers
  import opened Store
  import opened Chain
  import opened CommitLog

  type Objects = map<Bytes, Bytes>

  function DefaultKeyspaces(): set<Bytes> {
    {META, "__catalog__", AUTHZ, "__audit_log", "__schema__", "rel_rows", "rel_indexes", SEGMENTS,
      "documents", "document_indexes", "vectors", "__stats", "__planner_feedback", "__planner_meta",
      TXN_META, TXN_VERSIONS, TABLE_VERSIONS, COMMIT_LOG, KEYSPACES, "__raft_log", "__raft_vote",
      "__raft_state", "__raft_snapshot", "__ap_versions", "__ap_hints", "__ap_merkle",
      "__healing_state", "__healing_events", "__shard_migrations", BACKUP_META,
      "__cloud_segments", "__cloud_hibernation"}
  }

  /** `read_keyspaces_from`: the built-in tables and the registered ones. */
  function Keyspaces(db: State): set<Bytes> {
    DefaultKeyspaces() + set c | c in db && c.table == KEYSPACES :: c.key
  }

  // ---- Tiered segments ----

  /** What a stored value stands for once its pointer is followed. */
  function Resolve(v: Value, objects: Objects): Value {
    match v
    case PointerValue(o) => if o in objects then Raw(objects[o]) else v
    case VersionValue(Some(w)) => VersionValue(Some(Resolve(w, objects)))
    case _ => v
  }

  predicate IsPointer(db: State, c: Cell) {
    c.table == SEGMENTS && c in db && db[c].PointerValue?
  }

  /** The bytes before the key in every history key of a segment. */
  const SEGMENT_PREFIX: Bytes := VersionKey(SEGMENTS, [])

  /** The segment key inside a history key, if it is the history key of a segment. */
  function SegmentKey(key: Bytes): Option<Bytes> {
    if |key| < |SEGMENT_PREFIX| + 8 || !(SEGMENT_PREFIX <= key) then None
    else Some(key[|SEGMENT_PREFIX|..|key| - 8])
  }

  /** The value of a current row in the payload: pointers to segments are followed. */
  function CurrentValue(db: State, objects: Objects, c: Cell): Value
    requires c in db
  {
    if IsPointer(db, c) then Resolve(db[c], objects) else db[c]
  }

  /** A history version that holds the pointer its segment holds now. */
  predicate HoldsCurrentPointer(db: State, c: Cell)
    requires c in db
  {
    && c.table == TXN_MVCC
    && SegmentKey(c.key).Some?
    && var segment := Cell(SEGMENTS, SegmentKey(c.key).value);
    && IsPointer(db, segment)
    && db[c] == VersionValue(Some(db[segment]))
  }

  function PayloadValue(db: State, objects: Objects, c: Cell): Value
    requires c in db
  {
    if IsPointer(db, c) || HoldsCurrentPointer(db, c) then Resolve(db[c], objects) else db[c]
  }

  /** Every segment row decodes, and every segment pointer can be followed. */
  ghost predicate Resolvable(db: State, objects: Objects) {
    forall c :: c in db && c.table == SEGMENTS ==> Followed(db, objects, c)
  }

  predicate CellBelow(a: Cell, b: Cell) {
    Below(a.table, b.table) || (a.table == b.table && Below(a.key, b.key))
  }

  ghost predicate HasCell(records: seq<DataRecord>, c: Cell) {
    exists i :: 0 <= i < |records| && records[i].cell == c
  }

  /** The records list exactly the rows of some tables, by table and key. */
  ghost predicate CellsOf(db: State, tables: set<Bytes>, records: seq<DataRecord>) {
    && (forall i, j :: 0 <= i < j < |records| ==> CellBelow(records[i].cell, records[j].cell))
    && (forall i :: 0 <= i < |records| ==> records[i].cell in db && records[i].cell.table in tables)
    && (forall c :: c in db && c.table in tables ==> HasCell(records, c))
  }

  /** The payload of a full backup: the rows of all its keyspaces, by table and key. */
  ghost predicate IsPayload(db: State, objects: Objects, payload: seq<DataRecord>) {
    && CellsOf(db, Keyspaces(db), payload)
    && (forall i :: 0 <= i < |payload| ==> payload[i].value == PayloadValue(db, objects, payload[i].cell))
  }

  /** A full backup misses no row of a built-in table, nor of a table in the registry. */
  lemma RegisteredRowsAreRead(db: State, objects: Objects, payload: seq<DataRecord>, c: Cell)
    requires IsPayload(db, objects, payload) && c in db
    requires || Cell(KEYSPACES, c.table) in db
             || c.table in {"__meta", "__authz_policy", "__audit_log", "__catalog__", "__schema__", "__stats"}
             || c.table in {"rel_rows", "rel_indexes", "rel_columnar_segments", "documents", "document_indexes", "vectors"}
             || c.table in {"__txn_meta", "__txn_versions", "__txn_table_data_versions", "__commit_log", "__keyspaces"}
             || c.table in {"__planner_feedback", "__planner_meta", "__backup_meta", "__shard_migrations"}
             || c.table in {"__raft_log", "__raft_vote", "__raft_state", "__raft_snapshot"}
             || c.table in {"__ap_versions", "__ap_hints", "__ap_merkle", "__healing_state", "__healing_events"}
             || c.table in {"__cloud_segments", "__cloud_hibernation"}
    ensures exists i :: 0 <= i < |payload| && payload[i].cell == c
  {
    if Cell(KEYSPACES, c.table) in db {
      assert Cell(KEYSPACES, c.table).key in Keyspaces(db);
    }
    assert HasCell(payload, c);
  }

  /** The payload records of the keys of one table. */
  ghost predicate RecordsOf(db: State, objects: Objects, table: Bytes, keys: seq<Bytes>, records: seq<DataRecord>)
    requires forall k :: k in keys ==> Cell(table, k) in db
  {
    && |records| == |keys|
    && forall i :: 0 <= i < |keys| ==> RecordOf(db, objects, Cell(table, keys[i]), records[i])
  }

  ghost predicate RecordOf(db: State, objects: Objects, c: Cell, record: DataRecord)
    requires c in db
  {
    record == DataRecord(c, CurrentValue(db, objects, c))
  }

  /** For the pointers among some segment keys: the history version that holds the pointer, and
  the one that takes its place. */
  ghost predicate InlinedBy(db: State, objects: Objects, keys: seq<Bytes>, inlined: map<Bytes, (Value, Value)>) {
    && (forall k :: k in inlined <==> k in keys && IsPointer(db, Cell(SEGMENTS, k)))
    && (forall k :: k in inlined ==>
          var pointer := db[Cell(SEGMENTS, k)];
          inlined[k] == (VersionValue(Some(pointer)), VersionValue(Some(Resolve(pointer, objects)))))
  }

  ghost predicate Followed(db: State, objects: Objects, c: Cell) {
    c in db ==> db[c] != BrokenPointer && (db[c].PointerValue? ==> db[c].name in objects)
  }

  lemma {:induction false} RecordsStep(
    db: State, objects: Objects, table: Bytes, keys: seq<Bytes>, i: nat, records: seq<DataRecord>)
    requires i < |keys| && forall k :: k in keys ==> Cell(table, k) in db
    requires RecordsOf(db, objects, table, keys[..i], records)
    ensures var c := Cell(table, keys[i]);
            RecordsOf(db, objects, table, keys[..i + 1], records + [DataRecord(c, CurrentValue(db, objects, c))])
  {
  }

  lemma {:induction false} InlinedStep(
    db: State, objects: Objects, keys: seq<Bytes>, i: nat, inlined: map<Bytes, (Value, Value)>)
    requires i < |keys| && InlinedBy(db, objects, keys[..i], inlined)
    ensures var c := Cell(SEGMENTS, keys[i]);
            InlinedBy(db, objects, keys[..i + 1],
              if IsPointer(db, c) then
                inlined[keys[i] := (VersionValue(Some(db[c])), VersionValue(Some(Resolve(db[c], objects))))]
              else inlined)
  {
    assert keys[..i + 1] == keys[..i] + [keys[i]];
  }

  /** The rows of one table; pointers to segments are followed and noted in `inlined`. */
  method ReadTable(db: State, objects: Objects, table: Bytes)
    returns (r: Result<(seq<DataRecord>, map<Bytes, (Value, Value)>)>)
    ensures r.Err? ==> table == SEGMENTS && !Resolvable(db, objects)
    ensures r.Ok? ==> RecordsOf(db, objects, table, Range(db, table, [], []), r.value.0)
    ensures r.Ok? && table == SEGMENTS ==>
              Resolvable(db, objects) && InlinedBy(db, objects, Range(db, table, [], []), r.value.1)
    ensures r.Ok? && table != SEGMENTS ==> r.value.1 == map[]
  {
    var keys := Range(db, table, [], []);
    var records := [];
    var inlined := map[];
    for i := 0 to |keys|
      invariant RecordsOf(db, objects, table, keys[..i], records)
      invariant table == SEGMENTS ==> InlinedBy(db, objects, keys[..i], inlined)
      invariant table != SEGMENTS ==> inlined == map[]
      invariant table == SEGMENTS ==> forall j :: 0 <= j < i ==> Followed(db, objects, Cell(table, keys[j]))
    {
      var c := Cell(table, keys[i]);
      assert keys[i] in keys;
      var value := db[c];
      if table == SEGMENTS && (value == BrokenPointer || (value.PointerValue? && value.name !in objects)) {
        return Err(Corruption);
      }
      if table == SEGMENTS {
        InlinedStep(db, objects, keys, i, inlined);
      }
      RecordsStep(db, objects, table, keys, i, records);
      if table == SEGMENTS && value.PointerValue? {
        var resolved := Raw(objects[value.name]);
        inlined := inlined[keys[i] := (VersionValue(Some(value)), VersionValue(Some(resolved)))];
        value := resolved;
      }
      records := records + [DataRecord(c, value)];
    }
    assert keys[..|keys|] == keys;
    if table == SEGMENTS {
      forall c | c in db && c.table == SEGMENTS ensures Followed(db, objects, c) {
        AllKeys(db, table, c);
      }
    }
    return Ok((records, inlined));
  }

  /** An unbounded scan visits every row of the table. */
  lemma AllKeys(db: State, table: Bytes, c: Cell)
    requires c in db && c.table == table
    ensures exists i :: 0 <= i < |Range(db, table, [], [])| && Range(db, table, [], [])[i] == c.key
  {
    assert AtMost([], c.key);
    assert Cell(table, c.key) == c;
    assert c.key in Range(db, table, [], []);
  }

  /** The rows of one more table, after those of smaller tables. */
  lemma {:induction false} CellsStep(
    db: State, objects: Objects, tables: set<Bytes>, table: Bytes, before: seq<DataRecord>, rows: seq<DataRecord>)
    requires CellsOf(db, tables, before)
    requires forall t :: t in tables ==> Below(t, table)
    requires RecordsOf(db, objects, table, Range(db, table, [], []), rows)
    ensures CellsOf(db, tables + {table}, before + rows)
  {
    var keys, all := Range(db, table, [], []), before + rows;
    assert forall i :: 0 <= i < |rows| ==> RecordOf(db, objects, Cell(table, keys[i]), rows[i]);
    forall c | c in db && c.table in tables + {table} ensures HasCell(all, c) {
      if c.table == table {
        AllKeys(db, table, c);
        var i :| 0 <= i < |keys| && keys[i] == c.key;
        assert all[|before| + i].cell == c;
      } else {
        assert HasCell(before, c);
        var i :| 0 <= i < |before| && before[i].cell == c;
        assert all[i].cell == c;
      }
    }
    forall i | 0 <= i < |all| ensures all[i].cell in db && all[i].cell.table in tables + {table} {
      if i >= |before| {
        assert keys[i - |before|] in keys;
      }
    }
  }

  ghost predicate CurrentValues(db: State, objects: Objects, records: seq<DataRecord>) {
    forall i :: 0 <= i < |records| ==>
                  records[i].cell in db && records[i].value == CurrentValue(db, objects, records[i].cell)
  }

  lemma {:induction false} CurrentStep(db: State, objects: Objects, table: Bytes, before: seq<DataRecord>, rows: seq<DataRecord>)
    requires CurrentValues(db, objects, before)
    requires RecordsOf(db, objects, table, Range(db, table, [], []), rows)
    ensures CurrentValues(db, objects, before + rows)
  {
    var keys, all := Range(db, table, [], []), before + rows;
    forall i | 0 <= i < |all|
      ensures all[i].cell in db && all[i].value == CurrentValue(db, objects, all[i].cell)
    {
      if i >= |before| {
        assert keys[i - |before|] in keys;
        assert RecordOf(db, objects, Cell(table, keys[i - |before|]), rows[i - |before|]);
      }
    }
  }

  /** The first loop of `read_full_payload`: all rows, with segment pointers followed. */
  method ReadTables(db: State, objects: Objects)
    returns (r: Result<(seq<DataRecord>, map<Bytes, (Value, Value)>)>)
    ensures r.Ok? <==> Resolvable(db, objects)
    ensures r.Ok? ==> CellsOf(db, Keyspaces(db), r.value.0) && CurrentValues(db, objects, r.value.0)
    ensures r.Ok? ==> InlinedBy(db, objects, Range(db, SEGMENTS, [], []), r.value.1)
  {
    hide Keyspaces, DefaultKeyspaces, CellsOf, CurrentValues, InlinedBy, RecordsOf, Resolvable, Range;
    SegmentsAreDefault(db);
    NoTables(db, objects);
    var tables := Ordered(Keyspaces(db));
    var records: seq<DataRecord> := [];
    var inlined := map[];
    ghost var done: set<Bytes> := {};
    for i := 0 to |tables|
      invariant forall t :: t in done <==> t in tables[..i]
      invariant CellsOf(db, done, records)
      invariant CurrentValues(db, objects, records)
      invariant SEGMENTS in done ==>
                  Resolvable(db, objects) && InlinedBy(db, objects, Range(db, SEGMENTS, [], []), inlined)
    {
      var table := ReadTable(db, objects, tables[i]);
      if table.Err? {
        return Err(table.error);
      }
      CellsStep(db, objects, done, tables[i], records, table.value.0);
      CurrentStep(db, objects, tables[i], records, table.value.0);
      done := done + {tables[i]};
      records := records + table.value.0;
      if tables[i] == SEGMENTS {
        inlined := table.value.1;
      }
    }
    assert done == Keyspaces(db);
    return Ok((records, inlined));
  }

  lemma NoTables(db: State, objects: Objects)
    ensures CellsOf(db, {}, []) && CurrentValues(db, objects, [])
  {
  }

  lemma SegmentsAreDefault(db: State)
    ensures SEGMENTS in Keyspaces(db)
  {
  }

  /** The second loop replaces a history version exactly when it holds its segment's pointer. */
  lemma InlineVersion(db: State, objects: Objects, inlined: map<Bytes, (Value, Value)>, c: Cell)
    requires c in db && c.table == TXN_MVCC
    requires InlinedBy(db, objects, Range(db, SEGMENTS, [], []), inlined)
    ensures var k := SegmentKey(c.key);
            && (k.Some? && k.value in inlined && db[c] == inlined[k.value].0 <==> HoldsCurrentPointer(db, c))
            && (HoldsCurrentPointer(db, c) ==> inlined[k.value].1 == Resolve(db[c], objects))
  {
    var k := SegmentKey(c.key);
    if k.Some? && IsPointer(db, Cell(SEGMENTS, k.value)) {
      AllKeys(db, SEGMENTS, Cell(SEGMENTS, k.value));
    }
  }

  /** What the two loops leave under a cell. */
  lemma InlinedValue(db: State, objects: Objects, inlined: map<Bytes, (Value, Value)>, c: Cell)
    requires c in db && InlinedBy(db, objects, Range(db, SEGMENTS, [], []), inlined)
    ensures var k := SegmentKey(c.key);
            PayloadValue(db, objects, c) ==
            if c.table == TXN_MVCC && k.Some? && k.value in inlined && CurrentValue(db, objects, c) == inlined[k.value].0
            then inlined[k.value].1 else CurrentValue(db, objects, c)
  {
    hide InlinedBy, Range, SegmentKey;
    if c.table == TXN_MVCC {
      InlineVersion(db, objects, inlined, c);
    }
  }

  /** `read_full_payload`. The rows come out by table and key, so the sort at its end changes
  nothing. */
  method ReadFullPayload(db: State, objects: Objects) returns (r: Result<seq<DataRecord>>)
    ensures r.Ok? <==> Resolvable(db, objects)
    ensures r.Ok? ==> IsPayload(db, objects, r.value)
    ensures r.Err? ==> r == Err(Corruption)
  {
    hide Resolvable, InlinedBy, Keyspaces, CellsOf, PayloadValue, SegmentKey, HoldsCurrentPointer, Range;
    var read := ReadTables(db, objects);
    if read.Err? {
      return Err(Corruption);
    }
    var records, inlined := read.value.0, read.value.1;
    for i := 0 to |records|
      invariant |records| == |read.value.0|
      invariant forall j :: 0 <= j < |records| ==> records[j].cell == read.value.0[j].cell
      invariant forall j :: i <= j < |records| ==> records[j].value == read.value.0[j].value
      invariant forall j :: 0 <= j < i ==> records[j].value == PayloadValue(db, objects, records[j].cell)
    {
      var c := records[i].cell;
      InlinedValue(db, objects, inlined, c);
      if c.table == TXN_MVCC {
        var k := SegmentKey(c.key);
        if k.Some? && k.value in inlined && records[i].value == inlined[k.value].0 {
          records := records[i := DataRecord(c, inlined[k.value].1)];
        }
      }
    }
    SameCells(db, Keyspaces(db), read.value.0, records);
    return Ok(records);
  }

  lemma {:induction false} SameCells(db: State, tables: set<Bytes>, a: seq<DataRecord>, b: seq<DataRecord>)
    requires CellsOf(db, tables, a) && |a| == |b|
    requires forall j :: 0 <= j < |b| ==> b[j].cell == a[j].cell
    ensures CellsOf(db, tables, b)
  {
    forall c | c in db && c.table in tables ensures HasCell(b, c) {
      assert HasCell(a, c);
      var i :| 0 <= i < |a| && a[i].cell == c;
      assert b[i].cell == c;
    }
  }

  // ---- Inlining preserves meaning ----

  lemma {:induction false} ResolveTwice(v: Value, objects: Objects)
    ensures Resolve(Resolve(v, objects), objects) == Resolve(v, objects)
  {
    match v {
      case VersionValue(Some(w)) => ResolveTwice(w, objects);
      case _ =>
    }
  }

  lemma SegmentHistoryKey(k: Bytes, id: Lsn)
    ensures SegmentKey(MvccKey(SEGMENTS, k, id)) == Some(k)
  {
    var key := MvccKey(SEGMENTS, k, id);
    assert VersionKey(SEGMENTS, k) == SEGMENT_PREFIX + k;
    assert key[..|SEGMENT_PREFIX|] == SEGMENT_PREFIX;
    assert key[|SEGMENT_PREFIX|..|key| - 8] == k;
  }

  /** The name's length and the name itself come first in a history key, so a history key starts
  the way another table's do only if it is that table's. */
  lemma PrefixNamesTable(table: Bytes, k: Bytes, id: Lsn, other: Bytes)
    requires |table| <= U64_MAX && |other| <= U64_MAX
    requires VersionKey(other, []) <= MvccKey(table, k, id)
    ensures table == other
  {
    var key := MvccKey(table, k, id);
    hide LsnBytes;
    assert VersionKey(other, []) == LsnBytes(|other|) + other;
    assert key == LsnBytes(|table|) + (table + k + LsnBytes(id));
    assert key[..8] == LsnBytes(|table|) == LsnBytes(|other|);
    LsnBytesInjective(|table|, |other|);
    assert key[8..] == table + k + LsnBytes(id);
    assert key[8..8 + |table|] == table == other;
  }

  lemma OtherHistoryKey(table: Bytes, k: Bytes, id: Lsn)
    requires table != SEGMENTS && |table| <= U64_MAX
    ensures SegmentKey(MvccKey(table, k, id)) == None
  {
    if SEGMENT_PREFIX <= MvccKey(table, k, id) {
      PrefixNamesTable(table, k, id, SEGMENTS);
    }
  }

  /** A full backup changes no row's meaning, needs the object store for no current segment, and
  rewrites the history of segments only: exactly the versions that still hold the pointer their
  segment holds now. */
  lemma InliningKeepsMeaning(db: State, objects: Objects, c: Cell)
    requires c in db && Resolvable(db, objects)
    ensures Resolve(PayloadValue(db, objects, c), objects) == Resolve(db[c], objects)
    ensures c.table == SEGMENTS ==> !PayloadValue(db, objects, c).PointerValue?
    ensures c.table != SEGMENTS && c.table != TXN_MVCC ==> PayloadValue(db, objects, c) == db[c]
  {
    ResolveTwice(db[c], objects);
    assert c.table == SEGMENTS ==> Followed(db, objects, c);
  }

  /** A full backup needs no object store: a segment row with a pointer is backed up as the bytes
  it points to, so is the history version that holds that pointer, and no segment row of the backup
  is a pointer. */
  lemma SegmentsAreInlined(db: State, objects: Objects, payload: seq<DataRecord>, i: nat, k: Bytes, id: Lsn)
    requires IsPayload(db, objects, payload) && Resolvable(db, objects) && i < |payload|
    ensures var c, v := payload[i].cell, payload[i].value;
            && c in db
            && (c.table == "rel_columnar_segments" ==> !v.PointerValue? && !v.BrokenPointer?)
            && (c == Cell("rel_columnar_segments", k) && db[c].PointerValue? ==>
                  db[c].name in objects && v == Raw(objects[db[c].name]))
            && (c == Cell(TXN_MVCC, MvccKey(SEGMENTS, k, id)) && Cell(SEGMENTS, k) in db
                && db[Cell(SEGMENTS, k)].PointerValue? && db[c] == VersionValue(Some(db[Cell(SEGMENTS, k)])) ==>
                  v == VersionValue(Some(Raw(objects[db[Cell(SEGMENTS, k)].name]))))
  {
    hide CellsOf, Keyspaces, MvccKey, SegmentKey;
    assert payload[i].cell in db by { PayloadCells(db, objects, payload, i); }
    assert Followed(db, objects, Cell(SEGMENTS, k));
    assert payload[i].cell.table == SEGMENTS ==> Followed(db, objects, payload[i].cell);
    if Cell(TXN_MVCC, MvccKey(SEGMENTS, k, id)) in db {
      HistoryInlining(db, objects, SEGMENTS, k, id);
    }
  }

  lemma PayloadCells(db: State, objects: Objects, payload: seq<DataRecord>, i: nat)
    requires IsPayload(db, objects, payload) && i < |payload|
    ensures payload[i].cell in db
  {
  }

  lemma HistoryInlining(db: State, objects: Objects, table: Bytes, k: Bytes, id: Lsn)
    requires Cell(TXN_MVCC, MvccKey(table, k, id)) in db && |table| <= U64_MAX
    ensures var c := Cell(TXN_MVCC, MvccKey(table, k, id));
            var current := table == SEGMENTS && IsPointer(db, Cell(table, k))
                           && db[c] == VersionValue(Some(db[Cell(table, k)]));
            PayloadValue(db, objects, c) == if current then Resolve(db[c], objects) else db[c]
  {
    if table == SEGMENTS {
      SegmentHistoryKey(k, id);
    } else {
      OtherHistoryKey(table, k, id);
    }
  }

  // ---- Full backups ----

  /** `b` is what a full backup of the snapshot `db` holds. */
  ghost predicate FullOf(db: State, objects: Objects, hash: Hash, b: Backup) {
    var m := b.manifest;
    && CurrentLsn(db) == Ok(m.endLsn)
    && CommitHashAt(db, m.endLsn, hash) == Ok(m.endHash)
    && m.formatVersion == FORMAT_VERSION && m.kind == Full && m.parent == None && m.startLsn == 0
    && Lookup(db, TIMELINE) == Some(Raw(m.timeline))
    && Resolvable(db, objects)
    && b.full.Some? && IsPayload(db, objects, b.full.value)
  }

  /** `full_backup`, after `current_or_new_timeline` stored the timeline id. */
  method FullBackup(
    db: State, objects: Objects, id: Bytes, timeline: Bytes, profile: Profile, now: Time, hash: Hash)
    returns (r: Result<Backup>)
    requires Lookup(db, TIMELINE) == Some(Raw(timeline))
    ensures r.Ok? <==> CurrentLsn(db).Ok? && Resolvable(db, objects)
                       && CommitHashAt(db, CurrentLsn(db).value, hash).Ok?
    ensures r.Ok? ==> FullOf(db, objects, hash, r.value)
    ensures r.Ok? ==> var m := r.value.manifest;
                      m.id == id && m.timeline == timeline && m.profile == profile && m.takenAt == now
  {
    var end := CurrentLsn(db);
    if end.Err? {
      return Err(end.error);
    }
    var payload := ReadFullPayload(db, objects);
    if payload.Err? {
      return Err(payload.error);
    }
    var endHash := CommitHashAt(db, end.value, hash);
    if endHash.Err? {
      return Err(endHash.error);
    }
    var m := Manifest(FORMAT_VERSION, id, Full, None, timeline, profile, 0, end.value, now, endHash.value);
    return Ok(Backup(m, Some(payload.value), None));
  }

  // ---- Incremental backups ----

  /** The log rows a scan from `start + 1` through `end` visits. */
  function LogKeys(db: State, start: Lsn, end: Lsn): seq<Bytes>
    requires start < end
  {
    Range(db, COMMIT_LOG, LsnBytes(start + 1), if end < U64_MAX then LsnBytes(end + 1) else [])
  }

  /** The row under log key `k` holds the record with LSN `lsn`. */
  ghost predicate HoldsRecord(db: State, k: Bytes, lsn: nat) {
    var c := Cell(COMMIT_LOG, k);
    c in db && db[c].RecordValue? && db[c].record.txnId == lsn
  }

  /** The scan finds consecutive records and as many as it expects. Below the largest LSN that
  is the whole range. */
  ghost predicate LogPresent(db: State, start: Lsn, end: Lsn)
    requires start < end
  {
    var keys := LogKeys(db, start, end);
    && (forall i :: 0 <= i < |keys| ==> HoldsRecord(db, keys[i], start + 1 + i))
    && |keys| == if end < U64_MAX then end - start else end - start - 1
  }

  ghost predicate WalOf(db: State, start: Lsn, end: Lsn, wal: seq<CommitRecord>)
    requires start < end
  {
    var keys := LogKeys(db, start, end);
    && |wal| == |keys|
    && forall i :: 0 <= i < |keys| ==> Lookup(db, Cell(COMMIT_LOG, keys[i])) == Some(RecordValue(wal[i]))
  }

  /** `read_commit_logs_from`. A range that ends below the largest LSN comes back whole; at the
  largest LSN itself the two additions differ (one saturates, one checks), so a log that lacks
  its last record passes and a complete one is refused. */
  method ReadCommitLogs(db: State, start: Lsn, end: Lsn) returns (r: Result<seq<CommitRecord>>)
    ensures end <= start ==> r == Ok([])
    ensures start < end ==> (r.Ok? <==> LogPresent(db, start, end))
    ensures start < end && r.Ok? ==> WalOf(db, start, end, r.value)
    ensures r.Err? ==> r.error in {Corruption, MissingLogRange(start, end)}
  {
    if end <= start {
      return Ok([]);
    }
    var keys := LogKeys(db, start, end);
    var expected := start + 1;
    var records := [];
    for i := 0 to |keys|
      invariant expected == start + 1 + i <= U64_MAX
      invariant |records| == i
      invariant forall j :: 0 <= j < i ==> HoldsRecord(db, keys[j], start + 1 + j)
      invariant forall j :: 0 <= j < i ==> Lookup(db, Cell(COMMIT_LOG, keys[j])) == Some(RecordValue(records[j]))
    {
      var c := Cell(COMMIT_LOG, keys[i]);
      assert keys[i] in keys;
      if !db[c].RecordValue? {
        assert !HoldsRecord(db, keys[i], start + 1 + i);
        return Err(Corruption);
      }
      if db[c].record.txnId != expected {
        assert !HoldsRecord(db, keys[i], start + 1 + i);
        return Err(MissingLogRange(start, end));
      }
      if expected == U64_MAX {
        return Err(Corruption);
      }
      expected := expected + 1;
      records := records + [db[c].record];
    }
    if expected != (if end < U64_MAX then end + 1 else U64_MAX) {
      return Err(MissingLogRange(start, end));
    }
    return Ok(records);
  }

  /** `b` is what an incremental backup of the snapshot `db` after `parent` holds. */
  ghost predicate IncrementalOf(db: State, parent: Manifest, hash: Hash, b: Backup) {
    var m := b.manifest;
    && CurrentLsn(db) == Ok(m.endLsn) && parent.endLsn <= m.endLsn
    && CommitHashAt(db, m.endLsn, hash) == Ok(m.endHash)
    && (parent.endLsn > 0 ==> parent.endHash.Some? && CommitHashAt(db, parent.endLsn, hash) == Ok(parent.endHash))
    && Lookup(db, TIMELINE) == Some(Raw(parent.timeline))
    && m.formatVersion == FORMAT_VERSION && m.kind == Incremental
    && m.parent == Some(parent.id) && m.timeline == parent.timeline && m.startLsn == parent.endLsn
    && b.wal.Some?
    && (parent.endLsn == m.endLsn ==> b.wal.value == [])
    && (parent.endLsn < m.endLsn ==>
          LogPresent(db, parent.endLsn, m.endLsn) && WalOf(db, parent.endLsn, m.endLsn, b.wal.value))
  }

  /** The snapshot is a descendant of the parent's and still has the commits since. */
  ghost predicate CanFollow(db: State, parent: Manifest, hash: Hash) {
    && Lookup(db, TIMELINE) == Some(Raw(parent.timeline))
    && CurrentLsn(db).Ok? && parent.endLsn <= CurrentLsn(db).value
    && (LOG_FLOOR in db ==> db[LOG_FLOOR].LsnValue?)
    && (LOG_FLOOR in db && parent.endLsn < CurrentLsn(db).value ==> db[LOG_FLOOR].lsn <= parent.endLsn + 1)
    && (parent.endLsn > 0 ==> parent.endHash.Some? && CommitHashAt(db, parent.endLsn, hash) == Ok(parent.endHash))
    && (parent.endLsn < CurrentLsn(db).value ==> LogPresent(db, parent.endLsn, CurrentLsn(db).value))
    && CommitHashAt(db, CurrentLsn(db).value, hash).Ok?
  }

  /** `incremental_backup` on the snapshot `db`; `parent` is the manifest read from the parent's
  directory and `ap` whether the database uses AP replication. */
  method IncrementalBackup(
    db: State, parent: Manifest, id: Bytes, profile: Profile, now: Time, ap: bool, hash: Hash)
    returns (r: Result<Backup>)
    ensures r.Ok? ==> IncrementalOf(db, parent, hash, r.value)
    ensures r.Ok? ==> r.value.manifest.id == id && r.value.manifest.profile == profile && r.value.manifest.takenAt == now
    ensures r.Ok? <==> !ap && CanFollow(db, parent, hash)
    ensures ap ==> r == Err(Unsupported)
    ensures r.Err? && r.error.CommitLogTruncated? ==>
              Lookup(db, LOG_FLOOR) == Some(LsnValue(r.error.floor)) && parent.endLsn + 1 < r.error.floor
  {
    hide LogPresent, WalOf, CommitHashAt, CurrentLsn;
    if ap {
      return Err(Unsupported);
    }
    if Lookup(db, TIMELINE) != Some(Raw(parent.timeline)) {
      return Err(Unsupported);
    }
    var end := CurrentLsn(db);
    if end.Err? {
      return Err(Corruption);
    }
    if end.value < parent.endLsn {
      return Err(Corruption);
    }
    if LOG_FLOOR in db {
      if !db[LOG_FLOOR].LsnValue? {
        return Err(Corruption);
      }
      var floor := db[LOG_FLOOR].lsn;
      if parent.endLsn < end.value && (if parent.endLsn < U64_MAX then parent.endLsn + 1 else U64_MAX) < floor {
        return Err(CommitLogTruncated(parent.endLsn, floor));
      }
    }
    if parent.endLsn > 0 && (parent.endHash.None? || CommitHashAt(db, parent.endLsn, hash) != Ok(parent.endHash)) {
      return Err(Unsupported);
    }
    var records := ReadCommitLogs(db, parent.endLsn, end.value);
    if records.Err? {
      return Err(records.error);
    }
    var endHash := CommitHashAt(db, end.value, hash);
    if endHash.Err? {
      return Err(Corruption);
    }
    var m := Manifest(FORMAT_VERSION, id, Incremental, Some(parent.id), parent.timeline, profile,
      parent.endLsn, end.value, now, endHash.value);
    return Ok(Backup(m, None, Some(records.value)));
  }
}
