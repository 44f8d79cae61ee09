/** Which stored commit logs the log reader accepts. */
module LogScan {
  import opened Bytes
  import opened Integers
  import opened Store
  import opened Producers

  /** Every log row holds a record, under the key of the record's own LSN. */
  ghost predicate TrueLog(s: State) {
    forall c :: c in s && c.table == COMMIT_LOG ==> IsTrueRow(s, c)
  }

  ghost predicate IsTrueRow(s: State, c: Cell)
    requires c in s
  {
    s[c].RecordValue? && c == LogCell(s[c].record.txnId)
  }

  /** The log holds the commits after `start` up to `end`. */
  ghost predicate Retained(s: State, start: nat, end: Lsn) {
    forall n: Lsn :: start < n <= end ==> LogCell(n) in s
  }

  /** The last record the reader counts on: at the largest LSN, where its two additions differ,
  the one before. */
  function LastExpected(end: Lsn): Lsn {
    if end == U64_MAX then U64_MAX - 1 else end
  }

  /** The keys of a run of LSNs, in order. */
  ghost function LsnKeys(start: Lsn, end: Lsn): seq<Bytes>
    requires start <= end
  {
    seq(end - start, i requires 0 <= i < end - start => LsnBytes(start + 1 + i))
  }

  lemma LsnKeysAscend(start: Lsn, end: Lsn)
    requires start <= end
    ensures StrictlyAscending(LsnKeys(start, end))
  {
    var keys := LsnKeys(start, end);
    forall i, j | 0 <= i < j < |keys| ensures Below(keys[i], keys[j]) {
      LsnBytesOrder(start + 1 + i, start + 1 + j);
    }
  }

  /** Byte order of log keys is order of LSNs. */
  lemma LsnOrder(a: Lsn, b: Lsn)
    ensures Below(LsnBytes(a), LsnBytes(b)) <==> a < b
  {
    hide LsnBytes;
    if a < b {
      LsnBytesOrder(a, b);
    } else if b < a {
      LsnBytesOrder(b, a);
      BelowAsymmetric(LsnBytes(b), LsnBytes(a));
    } else {
      BelowIrreflexive(LsnBytes(a));
    }
  }

  /** The scan visits the row of an LSN exactly when the row is there and the LSN is in range. */
  lemma ScanVisits(s: State, start: Lsn, end: Lsn, n: Lsn)
    requires start < end
    ensures LsnBytes(n) in LogKeys(s, start, end) <==> start < n <= end && LogCell(n) in s
  {
    hide LsnBytes;
    LsnOrder(start + 1, n);
    if LsnBytes(n) == LsnBytes(start + 1) {
      LsnBytesInjective(n, start + 1);
    }
    if end < U64_MAX {
      LsnOrder(n, end + 1);
      LongKey(end + 1);
    }
  }

  lemma LongKey(n: Lsn)
    ensures |LsnBytes(n)| == 8
  {
  }

  /** A key the scan visits is that of its record's LSN. */
  lemma VisitedIsTrue(s: State, start: Lsn, end: Lsn, k: Bytes)
    requires TrueLog(s) && start < end && k in LogKeys(s, start, end)
    ensures var c := Cell(COMMIT_LOG, k);
            && c in s && s[c].RecordValue? && k == LsnBytes(s[c].record.txnId)
            && start < s[c].record.txnId <= end
  {
    hide LsnBytes;
    var c := Cell(COMMIT_LOG, k);
    assert IsTrueRow(s, c);
    ScanVisits(s, start, end, s[c].record.txnId);
  }

  lemma LogKeysAscend(s: State, start: Lsn, end: Lsn)
    requires start < end
    ensures StrictlyAscending(LogKeys(s, start, end))
  {
  }

  /** A log that is retained up to the last record the reader counts on, and goes no further at
  the largest LSN, is visited key by key. */
  lemma RetainedKeys(s: State, start: Lsn, end: Lsn)
    requires TrueLog(s) && start < end && Retained(s, start, LastExpected(end))
    requires end == U64_MAX ==> LogCell(U64_MAX) !in s
    ensures LogKeys(s, start, end) == LsnKeys(start, LastExpected(end))
  {
    hide LsnBytes, LogKeys, TrueLog, StrictlyAscending;
    var last := LastExpected(end);
    var found, keys := LogKeys(s, start, end), LsnKeys(start, last);
    LsnKeysAscend(start, last);
    LogKeysAscend(s, start, end);
    forall k ensures k in found <==> k in keys {
      if k in found {
        VisitedIsTrue(s, start, end, k);
        var n: Lsn := s[Cell(COMMIT_LOG, k)].record.txnId;
        assert n <= last;
        assert keys[n - start - 1] == k;
      }
      if k in keys {
        var i :| 0 <= i < |keys| && keys[i] == k;
        var n: Lsn := start + 1 + i;
        assert LogCell(n) in s;
        ScanVisits(s, start, end, n);
      }
    }
    AscendingIsUnique(found, keys);
  }

  lemma RetainedIsPresent(s: State, start: Lsn, end: Lsn)
    requires TrueLog(s) && start < end && Retained(s, start, LastExpected(end))
    requires end == U64_MAX ==> LogCell(U64_MAX) !in s
    ensures LogPresent(s, start, end)
  {
    hide LsnBytes, LogKeys;
    RetainedKeys(s, start, end);
    forall i | 0 <= i < LastExpected(end) - start
      ensures HoldsRecord(s, LsnKeys(start, LastExpected(end))[i], start + 1 + i)
    {
      var n: Lsn := start + 1 + i;
      assert LogCell(n) in s && IsTrueRow(s, LogCell(n));
      LsnBytesInjective(n, s[LogCell(n)].record.txnId);
    }
  }

  lemma PresentIsRetained(s: State, start: Lsn, end: Lsn)
    requires TrueLog(s) && start < end && LogPresent(s, start, end)
    ensures Retained(s, start, LastExpected(end))
    ensures end == U64_MAX ==> LogCell(U64_MAX) !in s
  {
    hide LsnBytes, LogKeys, TrueLog;
    var keys := LogKeys(s, start, end);
    forall i | 0 <= i < |keys| ensures keys[i] == LsnBytes(start + 1 + i) && LogCell(start + 1 + i) in s {
      assert HoldsRecord(s, keys[i], start + 1 + i);
      VisitedIsTrue(s, start, end, keys[i]);
    }
    forall n: Lsn | start < n <= LastExpected(end) ensures LogCell(n) in s {
      var i := n - start - 1;
      assert keys[i] == LsnBytes(start + 1 + i);
    }
    if end == U64_MAX {
      TopIsNotVisited(s, start, keys);
      ScanVisits(s, start, end, U64_MAX);
    }
  }

  lemma TopIsNotVisited(s: State, start: Lsn, keys: seq<Bytes>)
    requires start + |keys| < U64_MAX && forall i :: 0 <= i < |keys| ==> keys[i] == LsnBytes(start + 1 + i)
    ensures LsnBytes(U64_MAX) !in keys
  {
    hide LsnBytes;
    forall i | 0 <= i < |keys| ensures keys[i] != LsnBytes(U64_MAX) {
      LsnOrder(start + 1 + i, U64_MAX);
      BelowIrreflexive(LsnBytes(U64_MAX));
    }
  }

  /** Exactly which stored logs the reader accepts: those that hold every record of the range,
  but at the largest LSN those that hold every record except the last. */
  lemma AcceptedLogs(s: State, start: Lsn, end: Lsn)
    requires TrueLog(s) && start < end
    ensures LogPresent(s, start, end) <==>
            Retained(s, start, LastExpected(end)) && (end == U64_MAX ==> LogCell(U64_MAX) !in s)
  {
    hide LogPresent, TrueLog, Retained;
    if LogPresent(s, start, end) {
      PresentIsRetained(s, start, end);
    } else if Retained(s, start, LastExpected(end)) && (end == U64_MAX ==> LogCell(U64_MAX) !in s) {
      RetainedIsPresent(s, start, end);
    }
  }

  /** A log that holds every record of a range is accepted if and only if the range ends below
  the largest LSN. */
  lemma WholeLogIsAccepted(s: State, start: Lsn, end: Lsn)
    requires TrueLog(s) && start < end && Retained(s, start, end)
    ensures LogPresent(s, start, end) <==> end < U64_MAX
  {
    hide LogPresent, TrueLog;
    AcceptedLogs(s, start, end);
    assert LogCell(end) in s;
  }

  /** At the largest LSN the reader accepts a log without its last record, and returns it as the
  whole range. */
  lemma LastRecordCanBeMissing() returns (s: State, wal: seq<CommitRecord>)
    ensures TrueLog(s) && LogCell(U64_MAX) !in s
    ensures LogPresent(s, U64_MAX - 1, U64_MAX) && WalOf(s, U64_MAX - 1, U64_MAX, wal) && wal == []
  {
    hide LsnBytes, LogKeys;
    s, wal := map[], [];
    AcceptedLogs(s, U64_MAX - 1, U64_MAX);
  }

  /** What the reader returns are the stored records of the range, in order, up to the last one
  it counts on. */
  lemma AcceptedWal(s: State, start: Lsn, end: Lsn, wal: seq<CommitRecord>)
    requires TrueLog(s) && start < end && LogPresent(s, start, end) && WalOf(s, start, end, wal)
    ensures |wal| == LastExpected(end) - start
    ensures forall i :: 0 <= i < |wal| ==>
      wal[i].txnId == start + 1 + i && Lookup(s, LogCell(start + 1 + i)) == Some(RecordValue(wal[i]))
  {
    hide LsnBytes, LogKeys, TrueLog;
    var keys := LogKeys(s, start, end);
    forall i | 0 <= i < |wal|
      ensures wal[i].txnId == start + 1 + i && Lookup(s, LogCell(start + 1 + i)) == Some(RecordValue(wal[i]))
    {
      assert HoldsRecord(s, keys[i], start + 1 + i);
      assert Lookup(s, Cell(COMMIT_LOG, keys[i])) == Some(RecordValue(wal[i]));
      VisitedIsTrue(s, start, end, keys[i]);
    }
  }
}
