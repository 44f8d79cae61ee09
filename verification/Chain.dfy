/** Backup manifests and the loader that walks a chain of backups from the selected directory
back to its full backup (`load_chain`, `validate_chain_link` in `src/backup.rs`).

A backup root is a finite map from directory names to backups. A payload that its manifest does
not list, or that fails its checksum, decryption or decoding, is `None`. */
module Chain {
  import opened Bytes
  import opened Store

  const FORMAT_VERSION: nat := 1

  datatype Kind = Full | Incremental

  datatype Manifest = Manifest(
    formatVersion: nat,
    id: Bytes,
    kind: Kind,
    parent: Option<Bytes>,
    timeline: Bytes,
    profile: Profile,
    startLsn: Lsn,
    endLsn: Lsn,
    takenAt: Time,
    endHash: Option<Bytes>)

  datatype DataRecord = DataRecord(cell: Cell, value: Value)

  datatype Backup = Backup(
    manifest: Manifest,
    full: Option<seq<DataRecord>>,
    wal: Option<seq<CommitRecord>>)

  type Root = map<Bytes, Backup>

  predicate PlainId(id: Bytes) {
    id != [] && forall i :: 0 <= i < |id| ==> PlainChar(id[i])
  }

  predicate PlainChar(c: char) {
    'a' <= c <= 'z' || 'A' <= c <= 'Z' || '0' <= c <= '9' || c == '-' || c == '_'
  }

  /** `read_manifest`: the directory must hold a manifest of this format. */
  function ReadManifest(root: Root, dir: Bytes): Result<Backup> {
    if dir !in root then Err(Unreadable)
    else if root[dir].manifest.formatVersion != FORMAT_VERSION then Err(Corruption)
    else Ok(root[dir])
  }

  /** `validate_chain_link`. */
  function ValidateLink(child: Manifest, parentId: Bytes, parent: Manifest): Result<()> {
    if parent.id != parentId then Err(Corruption)
    else if parent.timeline != child.timeline then Err(Corruption)
    else if child.startLsn != parent.endLsn then Err(Corruption)
    else if child.endLsn < child.startLsn then Err(Corruption)
    else if child.endLsn == child.startLsn && child.endHash.Some? && parent.endHash.Some?
            && child.endHash != parent.endHash then Err(Corruption)
    else Ok(())
  }

  // ---- What a chain is ----

  /** `child` names `parent` as its parent, and the two fit together. */
  ghost predicate Linked(root: Root, parent: Backup, child: Backup) {
    var p, m := parent.manifest, child.manifest;
    && m.kind == Incremental
    && m.parent == Some(p.id)
    && PlainId(p.id)
    && ReadManifest(root, p.id) == Ok(parent)
    && p.timeline == m.timeline
    && p.endLsn == m.startLsn <= m.endLsn
    && (m.startLsn == m.endLsn && p.endHash.Some? && m.endHash.Some? ==> p.endHash == m.endHash)
  }

  ghost predicate DistinctIds(chain: seq<Backup>) {
    forall i, j :: 0 <= i < j < |chain| ==> chain[i].manifest.id != chain[j].manifest.id
  }

  /** A chain, oldest backup first, ending in the backup of directory `selected`. */
  ghost predicate IsChain(root: Root, selected: Bytes, chain: seq<Backup>) {
    && chain != []
    && ReadManifest(root, selected) == Ok(chain[|chain| - 1])
    && chain[0].manifest.parent == None
    && (forall i :: 0 < i < |chain| ==> Linked(root, chain[i - 1], chain[i]))
    && DistinctIds(chain)
  }

  /** What the loader knows after walking back through `walked`, newest backup last: the links
  hold, and every chain that ends in `selected` ends in `walked`. */
  ghost predicate Walked(root: Root, selected: Bytes, walked: seq<Backup>, seen: set<Bytes>) {
    && walked != []
    && ReadManifest(root, selected) == Ok(walked[|walked| - 1])
    && (forall i :: 0 < i < |walked| ==> Linked(root, walked[i - 1], walked[i]))
    && DistinctIds(walked)
    && (forall i :: 0 <= i < |walked| ==> walked[i].manifest.id in seen)
    && (forall id :: id in seen ==> HasId(walked, id))
    && (forall c :: IsChain(root, selected, c) ==> EndsIn(c, walked))
  }

  ghost predicate HasId(walked: seq<Backup>, id: Bytes) {
    exists i :: 0 <= i < |walked| && walked[i].manifest.id == id
  }

  ghost predicate EndsIn(c: seq<Backup>, walked: seq<Backup>) {
    |walked| <= |c| && c[|c| - |walked|..] == walked
  }

  /** In a chain that goes on past `walked`, what comes before is linked to it and has a new id. */
  lemma {:induction false} BeforeWalked(root: Root, selected: Bytes, walked: seq<Backup>, seen: set<Bytes>, c: seq<Backup>)
    returns (before: Backup)
    requires Walked(root, selected, walked, seen) && walked[0].manifest.parent.Some?
    requires IsChain(root, selected, c)
    ensures Linked(root, before, walked[0]) && before.manifest.id !in seen
    ensures EndsIn(c, [before] + walked)
  {
    assert EndsIn(c, walked);
    var k := |c| - |walked|;
    assert c[k] == c[k..][0] == walked[0];
    before := c[k - 1];
    assert Linked(root, c[k - 1], c[k]);
    assert c[k - 1..] == [before] + c[k..];
    forall i | 0 <= i < |walked| ensures walked[i].manifest.id != before.manifest.id {
      assert c[k + i] == c[k..][i];
    }
  }

  /** No new backup links to what was walked, so no chain ends in `selected`. */
  lemma {:induction false} DeadEnd(root: Root, selected: Bytes, walked: seq<Backup>, seen: set<Bytes>)
    requires Walked(root, selected, walked, seen) && walked[0].manifest.parent.Some?
    requires forall p :: Linked(root, p, walked[0]) ==> p.manifest.id in seen
    ensures forall c :: !IsChain(root, selected, c)
  {
    forall c: seq<Backup> ensures !IsChain(root, selected, c) {
      if IsChain(root, selected, c) {
        var before := BeforeWalked(root, selected, walked, seen, c);
      }
    }
  }

  lemma {:induction false} WalkOn(root: Root, selected: Bytes, walked: seq<Backup>, seen: set<Bytes>, parent: Backup)
    requires Walked(root, selected, walked, seen) && walked[0].manifest.parent.Some?
    requires Linked(root, parent, walked[0]) && parent.manifest.id !in seen
    ensures Walked(root, selected, [parent] + walked, seen + {parent.manifest.id})
  {
    var longer := [parent] + walked;
    forall id | id in seen + {parent.manifest.id} ensures HasId(longer, id) {
      if id in seen {
        var i :| 0 <= i < |walked| && walked[i].manifest.id == id;
        assert longer[i + 1].manifest.id == id;
      } else {
        assert longer[0].manifest.id == id;
      }
    }
    forall i | 0 < i < |longer| ensures Linked(root, longer[i - 1], longer[i]) {
      if i > 1 {
        assert Linked(root, walked[i - 2], walked[i - 1]);
      }
    }
    forall c | IsChain(root, selected, c) ensures EndsIn(c, longer) {
      var before := BeforeWalked(root, selected, walked, seen, c);
      assert before == parent;
    }
  }

  /** The root of the walk is a full backup or an orphan: the walk is the whole chain. */
  lemma {:induction false} WalkDone(root: Root, selected: Bytes, walked: seq<Backup>, seen: set<Bytes>)
    requires Walked(root, selected, walked, seen) && walked[0].manifest.parent.None?
    ensures IsChain(root, selected, walked)
    ensures forall c :: IsChain(root, selected, c) ==> c == walked
  {
    forall c: seq<Backup> | IsChain(root, selected, c) ensures c == walked {
      forall i | 0 < i < |c| ensures c[i].manifest.parent.Some? {
        assert Linked(root, c[i - 1], c[i]);
      }
      assert EndsIn(c, walked);
      assert c[|c| - |walked|] == c[|c| - |walked|..][0];
    }
  }

  /** The checks `load_chain` makes on one parent id. */
  function ParentOf(root: Root, child: Manifest, seen: set<Bytes>): (r: Result<Backup>)
    requires child.parent.Some?
    ensures r.Ok? ==> Linked(root, r.value, Backup(child, None, None)) && r.value.manifest.id !in seen
    ensures r.Err? ==> forall p :: Linked(root, p, Backup(child, None, None)) ==> p.manifest.id in seen
    ensures r.Err? && r.error.MissingParent? ==> r.error.id !in root
  {
    var parentId := child.parent.value;
    if child.kind != Incremental then Err(Corruption)
    else if parentId in seen then Err(Corruption)
    else if !PlainId(parentId) then Err(Corruption)
    else if parentId !in root then Err(MissingParent(parentId))
    else
      var parent :- ReadManifest(root, parentId);
      var _ :- ValidateLink(child, parentId, parent.manifest);
      Ok(parent)
  }

  /** `load_chain`. It succeeds exactly when a chain ends in `selected`, and returns that chain,
  which is unique; it terminates on every root, also when parent ids form a cycle. */
  method LoadChain(root: Root, selected: Bytes) returns (r: Result<seq<Backup>>)
    ensures r.Ok? ==> IsChain(root, selected, r.value)
    ensures forall c :: IsChain(root, selected, c) ==> r == Ok(c)
    ensures r.Err? && r.error.MissingParent? ==> r.error.id !in root
  {
    var first := ReadManifest(root, selected);
    if first.Err? {
      return Err(first.error);
    }
    var chain := [first.value];
    var seen := {first.value.manifest.id};
    StartWalk(root, selected, first.value);
    while chain[0].manifest.parent.Some?
      invariant Walked(root, selected, chain, seen)
      decreases root.Keys - seen
    {
      var parent := ParentOf(root, chain[0].manifest, seen);
      assert forall p :: Linked(root, p, chain[0]) == Linked(root, p, Backup(chain[0].manifest, None, None));
      if parent.Err? {
        DeadEnd(root, selected, chain, seen);
        return Err(parent.error);
      }
      WalkOn(root, selected, chain, seen, parent.value);
      seen := seen + {parent.value.manifest.id};
      chain := [parent.value] + chain;
    }
    WalkDone(root, selected, chain, seen);
    return Ok(chain);
  }

  lemma {:induction false} StartWalk(root: Root, selected: Bytes, first: Backup)
    requires ReadManifest(root, selected) == Ok(first)
    ensures Walked(root, selected, [first], {first.manifest.id})
  {
    assert [first][0].manifest.id == first.manifest.id;
    forall c | IsChain(root, selected, c) ensures EndsIn(c, [first]) {
      assert c[|c| - 1..] == [c[|c| - 1]];
    }
  }

  // ---- What every loaded chain guarantees ----

  /** Ends only grow along a chain. */
  lemma {:induction false} EndsAscend(root: Root, selected: Bytes, chain: seq<Backup>, i: nat, j: nat)
    requires IsChain(root, selected, chain) && i <= j < |chain|
    ensures chain[i].manifest.endLsn <= chain[j].manifest.endLsn
    decreases j - i
  {
    if i < j {
      EndsAscend(root, selected, chain, i, j - 1);
      assert Linked(root, chain[j - 1], chain[j]);
    }
  }

  ghost predicate Covers(b: Backup, lsn: Lsn) {
    b.manifest.startLsn < lsn <= b.manifest.endLsn
  }

  /** The incrementals tile the interval from the end of the first backup to the end of the last:
  every LSN in it belongs to exactly one of them, and no LSN outside it to any. */
  lemma {:induction false} ChainTiles(root: Root, selected: Bytes, chain: seq<Backup>, lsn: Lsn)
    requires IsChain(root, selected, chain)
    ensures chain[0].manifest.endLsn < lsn <= chain[|chain| - 1].manifest.endLsn
            <==> exists i :: 0 < i < |chain| && Covers(chain[i], lsn)
    ensures forall i, j :: 0 < i < j < |chain| ==> !(Covers(chain[i], lsn) && Covers(chain[j], lsn))
  {
    var last := |chain| - 1;
    if chain[0].manifest.endLsn < lsn <= chain[last].manifest.endLsn {
      var i := last;
      while lsn <= chain[i - 1].manifest.endLsn
        invariant 0 < i <= last && lsn <= chain[i].manifest.endLsn
        decreases i
      {
        i := i - 1;
      }
      assert Linked(root, chain[i - 1], chain[i]);
      assert Covers(chain[i], lsn);
    }
    forall i | 0 < i < |chain| && Covers(chain[i], lsn)
      ensures chain[0].manifest.endLsn < lsn <= chain[last].manifest.endLsn
    {
      assert Linked(root, chain[i - 1], chain[i]);
      EndsAscend(root, selected, chain, 0, i - 1);
      EndsAscend(root, selected, chain, i, last);
    }
    forall i, j | 0 < i < j < |chain| && Covers(chain[i], lsn) ensures !Covers(chain[j], lsn) {
      assert Linked(root, chain[j - 1], chain[j]);
      EndsAscend(root, selected, chain, i, j - 1);
    }
  }

  /** One format, one timeline, incrementals after the head, ids all different; only letters,
  digits, `-` and `_` in the id of a parent. */
  lemma {:induction false} ChainShape(root: Root, selected: Bytes, chain: seq<Backup>, i: nat)
    requires IsChain(root, selected, chain) && i < |chain|
    ensures chain[i].manifest.formatVersion == 1
    ensures chain[i].manifest.timeline == chain[0].manifest.timeline
    ensures i + 1 < |chain| ==>
      var id := chain[i].manifest.id;
      && chain[i + 1].manifest.parent == Some(id) && id != []
      && forall c :: c in id ==> 'a' <= c <= 'z' || 'A' <= c <= 'Z' || '0' <= c <= '9' || c in {'-', '_'}
    ensures i > 0 ==> chain[i].manifest.kind == Incremental
    ensures forall j :: 0 <= j < |chain| && chain[j].manifest.id == chain[i].manifest.id ==> i == j
  {
    if i + 1 < |chain| {
      assert Linked(root, chain[i], chain[i + 1]);
    }
    if i > 0 {
      assert Linked(root, chain[i - 1], chain[i]);
      ChainShape(root, selected, chain, i - 1);
    }
  }
}
