/** What a replayed commit log leaves in the engine's own tables (`apply_commit_record_in_txn` in
`src/txn/mod.rs`): the version of every key, the history of every key, the version of every table
and the clock. */
module RowHistory {
  import opened Bytes
  import opened Integers
  import opened Store
  import opened CommitLog

  /** Commits of ordinary rows. A table name held in memory is shorter than 2^64 bytes. */
  ghost predicate Ordinary(log: seq<CommitRecord>) {
    forall r, w :: r in log && w in r.writes ==> !Bookkeeping(w.table) && |w.table| <= U64_MAX
  }

  ghost predicate Writes(r: CommitRecord, c: Cell) {
    exists w :: w in r.writes && Cell(w.table, w.key) == c
  }

  ghost predicate WritesTable(r: CommitRecord, table: Bytes) {
    exists w :: w in r.writes && w.table == table
  }

  function VersionCell(c: Cell): Cell {
    Cell(TXN_VERSIONS, VersionKey(c.table, c.key))
  }

  function HistoryCell(c: Cell, id: Lsn): Cell {
    Cell(TXN_MVCC, MvccKey(c.table, c.key, id))
  }

  // ---- The keys tell rows and versions apart ----

  lemma VersionCellsDiffer(a: Cell, b: Cell)
    requires |a.table| <= U64_MAX && |b.table| <= U64_MAX && VersionKey(a.table, a.key) == VersionKey(b.table, b.key)
    ensures a == b
  {
    hide LsnBytes;
    var x, y := LsnBytes(|a.table|), LsnBytes(|b.table|);
    assert VersionKey(a.table, a.key) == x + a.table + a.key;
    assert VersionKey(b.table, b.key) == y + b.table + b.key;
    assert x == VersionKey(a.table, a.key)[..8] == y;
    LsnBytesInjective(|a.table|, |b.table|);
    assert a.table == VersionKey(a.table, a.key)[8..8 + |a.table|] == b.table;
    assert a.key == VersionKey(a.table, a.key)[8 + |a.table|..] == b.key;
  }

  lemma HistoryCellsDiffer(a: Cell, i: Lsn, b: Cell, j: Lsn)
    requires |a.table| <= U64_MAX && |b.table| <= U64_MAX && HistoryCell(a, i) == HistoryCell(b, j)
    ensures a == b && i == j
  {
    hide LsnBytes, VersionKey;
    var key := MvccKey(a.table, a.key, i);
    assert LsnBytes(i) == key[|key| - 8..] == LsnBytes(j);
    assert VersionKey(a.table, a.key) == key[..|key| - 8] == VersionKey(b.table, b.key);
    LsnBytesInjective(i, j);
    VersionCellsDiffer(a, b);
  }

  // ---- One commit ----

  lemma {:induction false} WritesLeave(writes: seq<CommitWrite>, id: Lsn, c: Cell, at: Lsn)
    requires forall w :: w in writes ==> !Bookkeeping(w.table) && |w.table| <= U64_MAX
    requires |c.table| <= U64_MAX
    ensures var d, written := WritesDelta(writes, id), exists w :: w in writes && Cell(w.table, w.key) == c;
            && (VersionCell(c) in d <==> written)
            && (written ==> d[VersionCell(c)] == Some(LsnValue(id)))
            && (HistoryCell(c, at) in d <==> written && at == id)
            && (written && at == id ==> d[HistoryCell(c, at)] == Some(VersionValue(LastWrite(writes, c, None))))
  {
    hide VersionKey, MvccKey, LsnBytes;
    if writes != [] {
      var before, last := writes[..|writes| - 1], writes[|writes| - 1];
      assert writes == before + [last];
      WritesLeave(before, id, c, at);
      WriteLeaves(last, id, c, at);
    }
  }

  lemma WriteLeaves(w: CommitWrite, id: Lsn, c: Cell, at: Lsn)
    requires !Bookkeeping(w.table) && |w.table| <= U64_MAX && |c.table| <= U64_MAX
    ensures var d, written := WriteDelta(w, id), Cell(w.table, w.key) == c;
            && (VersionCell(c) in d <==> written)
            && (written ==> d[VersionCell(c)] == Some(LsnValue(id)))
            && (HistoryCell(c, at) in d <==> written && at == id)
            && (written && at == id ==> d[HistoryCell(c, at)] == Some(VersionValue(w.value)))
  {
    hide VersionKey, MvccKey;
    var row := Cell(w.table, w.key);
    if VersionKey(w.table, w.key) == VersionKey(c.table, c.key) {
      VersionCellsDiffer(row, c);
    }
    if HistoryCell(row, id) == HistoryCell(c, at) {
      HistoryCellsDiffer(row, id, c, at);
    }
  }

  /** In these tables a commit touches only what its writes do. */
  lemma OnlyItsWrites(r: CommitRecord, c: Cell)
    requires c.table in {TXN_VERSIONS, TXN_MVCC}
    ensures var d, writes := RecordDelta(r), WritesDelta(r.writes, r.txnId);
            (c in d <==> c in writes) && (c in d ==> d[c] == writes[c])
  {
    hide WritesDelta, PublicTables, RecordKeyspaces, LsnBytes;
  }

  lemma {:induction false} CommitLeaves(s: State, r: CommitRecord, after: State, c: Cell, at: Lsn)
    requires Ordinary([r]) && |c.table| <= U64_MAX && ApplyRecord(s, r) == Ok(after)
    ensures Lookup(after, VersionCell(c)) == if Writes(r, c) then Some(LsnValue(r.txnId)) else Lookup(s, VersionCell(c))
    ensures Lookup(after, HistoryCell(c, at))
         == if Writes(r, c) && at == r.txnId then Some(VersionValue(LastWrite(r.writes, c, None)))
            else Lookup(s, HistoryCell(c, at))
  {
    hide VersionKey, MvccKey, WritesDelta, RecordDelta, LastWrite;
    assert r in [r];
    WritesLeave(r.writes, r.txnId, c, at);
    OnlyItsWrites(r, VersionCell(c));
    OnlyItsWrites(r, HistoryCell(c, at));
    var patched := Patch(s, RecordDelta(r));
    assert Lookup(patched, VersionCell(c)) == Lookup(after, VersionCell(c));
    assert Lookup(patched, HistoryCell(c, at)) == Lookup(after, HistoryCell(c, at));
  }

  lemma {:induction false} WritesMissTable(writes: seq<CommitWrite>, id: Lsn, c: Cell)
    requires c.table == TABLE_VERSIONS && forall w :: w in writes ==> !Bookkeeping(w.table)
    ensures c !in WritesDelta(writes, id)
  {
    if writes != [] {
      var before, last := writes[..|writes| - 1], writes[|writes| - 1];
      assert writes == before + [last];
      WritesMissTable(before, id, c);
    }
  }

  lemma {:induction false} StampOf(r: CommitRecord, table: Bytes)
    requires forall w :: w in r.writes ==> !Bookkeeping(w.table)
    ensures var d, row := RecordDelta(r), Cell(TABLE_VERSIONS, table);
            && (row in d <==> table in PublicTables(r))
            && (row in d ==> d[row] == Some(LsnValue(r.txnId)))
  {
    hide WritesDelta, RecordKeyspaces, PublicTables, LsnBytes;
    WritesMissTable(r.writes, r.txnId, Cell(TABLE_VERSIONS, table));
  }

  lemma {:induction false} CommitStampsTable(s: State, r: CommitRecord, after: State, table: Bytes)
    requires Ordinary([r]) && ApplyRecord(s, r) == Ok(after)
    ensures var row := Cell(TABLE_VERSIONS, table);
            Lookup(after, row)
            == if WritesTable(r, table) && !("__" <= table) then Some(LsnValue(r.txnId)) else Lookup(s, row)
  {
    hide RecordDelta;
    assert r in [r];
    var row := Cell(TABLE_VERSIONS, table);
    StampOf(r, table);
    assert Lookup(Patch(s, RecordDelta(r)), row) == Lookup(after, row);
  }

  // ---- A replay ----

  lemma {:induction false} OrdinaryParts(log: seq<CommitRecord>)
    requires Ordinary(log) && log != []
    ensures Ordinary(log[..|log| - 1]) && Ordinary([log[|log| - 1]])
  {
    assert log == log[..|log| - 1] + [log[|log| - 1]];
  }

  /** After a replay the version row of a key names the last commit that wrote the key; the rows of
  other keys are as they were. */
  lemma {:induction false} VersionNamesLastCommit(s: State, log: seq<CommitRecord>, c: Cell, n: nat)
    requires Replay(s, log).Ok? && Ordinary(log) && |c.table| <= U64_MAX && n <= |log|
    requires n > 0 ==> Writes(log[n - 1], c)
    requires forall j :: n <= j < |log| ==> !Writes(log[j], c)
    ensures Lookup(Replay(s, log).value, VersionCell(c))
         == if n > 0 then Some(LsnValue(log[n - 1].txnId)) else Lookup(s, VersionCell(c))
  {
    hide ApplyRecord, Writes, VersionCell, HistoryCell;
    if log != [] {
      var before, last := log[..|log| - 1], log[|log| - 1];
      OrdinaryParts(log);
      CommitLeaves(Replay(s, before).value, last, Replay(s, log).value, c, 0);
      if n < |log| {
        VersionNamesLastCommit(s, before, c, n);
      }
    }
  }

  /** Every commit of a replay leaves its own version of each key it wrote, the last value it gave
  the key, and no later commit changes it. */
  lemma {:induction false} HistoryIsKept(s: State, log: seq<CommitRecord>, start: Lsn, c: Cell, i: nat)
    requires Replay(s, log).Ok? && Ordinary(log) && Contiguous(log, start) && |c.table| <= U64_MAX
    requires i < |log| && Writes(log[i], c)
    ensures Lookup(Replay(s, log).value, HistoryCell(c, log[i].txnId))
         == Some(VersionValue(LastWrite(log[i].writes, c, None)))
  {
    hide ApplyRecord, Writes, VersionCell, HistoryCell, LastWrite;
    var before, last := log[..|log| - 1], log[|log| - 1];
    OrdinaryParts(log);
    CommitLeaves(Replay(s, before).value, last, Replay(s, log).value, c, log[i].txnId);
    if i < |log| - 1 {
      HistoryIsKept(s, before, start, c, i);
    }
  }

  /** After a replay the version row of a table names the last commit that wrote to the table, for
  every table that is not reserved. */
  lemma {:induction false} TableVersionNamesLastCommit(s: State, log: seq<CommitRecord>, table: Bytes, n: nat)
    requires Replay(s, log).Ok? && Ordinary(log) && n <= |log| && !("__" <= table)
    requires n > 0 ==> WritesTable(log[n - 1], table)
    requires forall j :: n <= j < |log| ==> !WritesTable(log[j], table)
    ensures var row := Cell(TABLE_VERSIONS, table);
            Lookup(Replay(s, log).value, row) == if n > 0 then Some(LsnValue(log[n - 1].txnId)) else Lookup(s, row)
  {
    hide ApplyRecord, WritesTable;
    if log != [] {
      var before, last := log[..|log| - 1], log[|log| - 1];
      OrdinaryParts(log);
      CommitStampsTable(Replay(s, before).value, last, Replay(s, log).value, table);
      if n < |log| {
        TableVersionNamesLastCommit(s, before, table, n);
      }
    }
  }

  // ---- The clock ----

  lemma {:induction false} CommitMergesClock(s: State, r: CommitRecord, after: State)
    requires Ordinary([r]) && ApplyRecord(s, r) == Ok(after)
    ensures r.hlc.None? ==> Lookup(after, HLC) == Lookup(s, HLC)
    ensures r.hlc.Some? ==>
      && (HLC in s ==> s[HLC].HlcValue?)
      && Lookup(after, HLC)
         == Some(HlcValue(if HLC in s && s[HLC].hlc > r.hlc.value then s[HLC].hlc else r.hlc.value))
  {
    hide RecordDelta;
    assert r in [r];
    ClockUnwritten(r);
    assert Lookup(Patch(s, RecordDelta(r)), HLC) == Lookup(s, HLC);
  }

  lemma {:induction false} ClockUnwritten(r: CommitRecord)
    requires forall w :: w in r.writes ==> !Bookkeeping(w.table)
    ensures HLC !in RecordDelta(r)
  {
    hide WritesDelta, PublicTables, RecordKeyspaces, LsnBytes;
    ClockOutOfWrites(r.writes, r.txnId);
  }

  lemma {:induction false} ClockOutOfWrites(writes: seq<CommitWrite>, id: Lsn)
    requires forall w :: w in writes ==> !Bookkeeping(w.table)
    ensures HLC !in WritesDelta(writes, id)
  {
    if writes != [] {
      var before, last := writes[..|writes| - 1], writes[|writes| - 1];
      assert writes == before + [last];
      ClockOutOfWrites(before, id);
    }
  }

  /** The clock never goes back: after a replay it is at least what it was and at least that of
  every commit, and it is one of these. Commits without a clock leave it alone. */
  lemma {:induction false} ClockNeverGoesBack(s: State, log: seq<CommitRecord>)
    requires Replay(s, log).Ok? && Ordinary(log)
    ensures var after := Replay(s, log).value;
            if forall r :: r in log ==> r.hlc.None? then Lookup(after, HLC) == Lookup(s, HLC)
            else
              && HLC in after && after[HLC].HlcValue?
              && (HLC in s ==> s[HLC].HlcValue? && s[HLC].hlc <= after[HLC].hlc)
              && (forall r :: r in log && r.hlc.Some? ==> r.hlc.value <= after[HLC].hlc)
              && (Lookup(s, HLC) == Some(after[HLC]) || exists r :: r in log && r.hlc == Some(after[HLC].hlc))
  {
    hide ApplyRecord;
    if log != [] {
      var before, last := log[..|log| - 1], log[|log| - 1];
      assert log == before + [last];
      OrdinaryParts(log);
      ClockNeverGoesBack(s, before);
      CommitMergesClock(Replay(s, before).value, last, Replay(s, log).value);
    }
  }
}
