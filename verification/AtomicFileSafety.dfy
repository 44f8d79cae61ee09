/** What interleaving, failures and crashes cannot do to a destination that is published atomically. */
module AtomicFileSafety {
  import opened Bytes
  import opened AtomicFile

  predicate Owns(writer: Writer) {
    !writer.phase.Idle? && !writer.phase.Finished?
  }

  predicate Succeeded(writer: Writer) {
    writer.phase == Returned(true) || writer.phase == Finished(true)
  }

  /** Files and writers agree on who made which file, and how far it is. */
  ghost predicate WriterOk(fs: Fs, i: nat, writer: Writer) {
    && (Owns(writer) || Succeeded(writer) ==> writer.inode < |fs.files| && fs.files[writer.inode].origin == Some(i))
    && (Owns(writer) || Succeeded(writer) ==>
          var file := fs.files[writer.inode];
          match writer.phase
          case Writing(written) => written <= |writer.bytes| && file.content == writer.bytes[..written] && file.rank == 0
          case Synced => file.content == writer.bytes && file.synced && file.rank == 0
          case Published => file.content == writer.bytes && file.synced && file.rank > 0
          case _ => true)
  }

  ghost predicate FilesOk(sys: System) {
    && (forall i :: 0 <= i < |sys.writers| ==> WriterOk(sys.fs, i, sys.writers[i]))
    && (forall j :: 0 <= j < |sys.fs.files| ==>
          && sys.fs.files[j].rank <= sys.fs.published
          && (sys.fs.files[j].origin.Some? ==>
                var w := sys.fs.files[j].origin.value;
                w < |sys.writers| && !sys.writers[w].phase.Idle? && sys.writers[w].inode == j))
  }

  /** A file that may stand at the destination: all of the previous bytes, or all of one writer's. */
  ghost predicate Whole(sys: System, previous: Option<Bytes>, inode: nat) {
    && inode < |sys.fs.files|
    && var file := sys.fs.files[inode];
       && file.synced
       && (match file.origin
           case None => previous == Some(file.content)
           case Some(w) => file.rank > 0 && w < |sys.writers| && file.content == sys.writers[w].bytes)
  }

  ghost predicate DestOk(sys: System, previous: Option<Bytes>) {
    && Entry(sys.fs, Dest) in Possible(sys.fs, Dest)
    && forall e :: e in Possible(sys.fs, Dest) ==>
         match e
         case None => previous == None
         case Some(inode) => Whole(sys, previous, inode)
  }

  /** The file of a rank at least this one. */
  ghost predicate AtLeast(fs: Fs, e: Option<nat>, rank: nat) {
    e.Some? && e.value < |fs.files| && fs.files[e.value].rank >= rank
  }

  /** A publication is not undone while its writer runs, nor ever once its writer succeeded. */
  ghost predicate DurableOk(sys: System) {
    forall i :: 0 <= i < |sys.writers| ==>
      var writer := sys.writers[i];
      && (writer.phase.Published? && writer.inode < |sys.fs.files| ==>
            AtLeast(sys.fs, Entry(sys.fs, Dest), sys.fs.files[writer.inode].rank))
      && (Succeeded(writer) && writer.inode < |sys.fs.files| ==>
            && sys.fs.files[writer.inode].rank > 0
            && forall e :: e in Possible(sys.fs, Dest) ==> AtLeast(sys.fs, e, sys.fs.files[writer.inode].rank))
  }

  ghost predicate Safe(sys: System, previous: Option<Bytes>) {
    FilesOk(sys) && DestOk(sys, previous) && DurableOk(sys)
  }

  lemma InitialIsSafe(sys: System, previous: Option<Bytes>)
    requires Initial(sys, previous)
    ensures Safe(sys, previous)
  {
  }

  /** A step of writer i that touches no published file and no file of another writer. */
  ghost predicate OwnFilesOnly(sys: System, fs: Fs, i: nat, writer: Writer) {
    && i < |sys.writers| && writer.bytes == sys.writers[i].bytes && !writer.phase.Idle?
    && (sys.writers[i].phase.Idle? || writer.inode == sys.writers[i].inode)
    && |sys.fs.files| <= |fs.files| && sys.fs.published <= fs.published
    && (forall j :: 0 <= j < |sys.fs.files| ==>
          && fs.files[j].origin == sys.fs.files[j].origin && fs.files[j].rank <= fs.published
          && (sys.fs.files[j].origin != Some(i) || sys.fs.files[j].rank > 0 ==> fs.files[j] == sys.fs.files[j]))
    && (forall j :: |sys.fs.files| <= j < |fs.files| ==>
          fs.files[j].origin == Some(i) && fs.files[j].rank == 0 && writer.inode == j)
    && WriterOk(fs, i, writer)
  }

  lemma KeepsFilesOk(sys: System, fs: Fs, i: nat, writer: Writer)
    requires FilesOk(sys) && OwnFilesOnly(sys, fs, i, writer)
    ensures FilesOk(Moved(sys, fs, i, writer))
  {
    var after := Moved(sys, fs, i, writer);
    forall k | 0 <= k < |after.writers| ensures WriterOk(after.fs, k, after.writers[k]) {
      assert WriterOk(sys.fs, k, sys.writers[k]);
    }
  }

  /** The destination's entries stay, except that the writer's own new publication may join them. */
  ghost predicate DestGrows(sys: System, fs: Fs, writer: Writer) {
    && Entry(fs, Dest) in Possible(fs, Dest)
    && (forall e :: e in Possible(fs, Dest) ==>
          || e in Possible(sys.fs, Dest)
          || (writer.phase.Published? && e == Some(writer.inode)))
  }

  lemma KeepsDestOk(sys: System, fs: Fs, i: nat, writer: Writer, previous: Option<Bytes>)
    requires FilesOk(sys) && DestOk(sys, previous) && OwnFilesOnly(sys, fs, i, writer) && DestGrows(sys, fs, writer)
    ensures DestOk(Moved(sys, fs, i, writer), previous)
  {
    hide FilesOk, Possible, Entry;
    var after := Moved(sys, fs, i, writer);
    forall e | e in Possible(fs, Dest)
      ensures match e case None => previous == None case Some(inode) => Whole(after, previous, inode)
    {
      if e in Possible(sys.fs, Dest) {
        if e.Some? {
          WholeStays(sys, fs, i, writer, previous, e.value);
        }
      } else {
        assert WriterOk(fs, i, writer);
        assert Whole(after, previous, writer.inode);
      }
    }
  }

  lemma WholeStays(sys: System, fs: Fs, i: nat, writer: Writer, previous: Option<Bytes>, inode: nat)
    requires OwnFilesOnly(sys, fs, i, writer) && Whole(sys, previous, inode)
    ensures Whole(Moved(sys, fs, i, writer), previous, inode)
  {
    hide WriterOk;
    assert fs.files[inode] == sys.fs.files[inode];
  }

  /** The destination's entries keep their ranks, and a new publication has the highest. */
  ghost predicate RanksGrow(sys: System, fs: Fs, writer: Writer) {
    && (forall e :: e in Possible(fs, Dest) ==>
          || e in Possible(sys.fs, Dest)
          || (writer.phase.Published? && e == Some(writer.inode) && AtLeast(fs, e, fs.published)))
    && (Entry(fs, Dest) == Entry(sys.fs, Dest) || AtLeast(fs, Entry(fs, Dest), fs.published))
    && (writer.phase.Published? && writer.inode < |fs.files| ==> AtLeast(fs, Entry(fs, Dest), fs.files[writer.inode].rank))
    && (Succeeded(writer) && writer.inode < |fs.files| ==>
          && fs.files[writer.inode].rank > 0
          && forall e :: e in Possible(fs, Dest) ==> AtLeast(fs, e, fs.files[writer.inode].rank))
  }

  lemma KeepsDurableOk(sys: System, fs: Fs, i: nat, writer: Writer, previous: Option<Bytes>)
    requires Safe(sys, previous) && OwnFilesOnly(sys, fs, i, writer) && RanksGrow(sys, fs, writer)
    ensures DurableOk(Moved(sys, fs, i, writer))
  {
    var after := Moved(sys, fs, i, writer);
    forall k | 0 <= k < |sys.writers| && k != i
      ensures var other := sys.writers[k];
              && (other.phase.Published? && other.inode < |fs.files| ==>
                    AtLeast(fs, Entry(fs, Dest), fs.files[other.inode].rank))
              && (Succeeded(other) && other.inode < |fs.files| ==>
                    && fs.files[other.inode].rank > 0
                    && forall e :: e in Possible(fs, Dest) ==> AtLeast(fs, e, fs.files[other.inode].rank))
    {
      OtherStaysDurable(sys, fs, i, writer, previous, k);
    }
    assert forall k :: 0 <= k < |sys.writers| && k != i ==> after.writers[k] == sys.writers[k];
  }

  lemma OtherStaysDurable(sys: System, fs: Fs, i: nat, writer: Writer, previous: Option<Bytes>, k: nat)
    requires Safe(sys, previous) && OwnFilesOnly(sys, fs, i, writer) && RanksGrow(sys, fs, writer)
    requires k < |sys.writers| && k != i
    ensures var other := sys.writers[k];
            && (other.phase.Published? && other.inode < |fs.files| ==>
                  AtLeast(fs, Entry(fs, Dest), fs.files[other.inode].rank))
            && (Succeeded(other) && other.inode < |fs.files| ==>
                  && fs.files[other.inode].rank > 0
                  && forall e :: e in Possible(fs, Dest) ==> AtLeast(fs, e, fs.files[other.inode].rank))
  {
    hide Possible, Entry;
    var other := sys.writers[k];
    if other.phase.Published? || Succeeded(other) {
      assert WriterOk(sys.fs, k, other);
      assert fs.files[other.inode] == sys.fs.files[other.inode];
    }
  }

  lemma MoveKeepsSafe(sys: System, fs: Fs, i: nat, writer: Writer, previous: Option<Bytes>)
    requires Safe(sys, previous) && OwnFilesOnly(sys, fs, i, writer) && DestGrows(sys, fs, writer) && RanksGrow(sys, fs, writer)
    ensures Safe(Moved(sys, fs, i, writer), previous)
  {
    hide FilesOk, DestOk, DurableOk, OwnFilesOnly, DestGrows, RanksGrow;
    KeepsFilesOk(sys, fs, i, writer);
    KeepsDestOk(sys, fs, i, writer, previous);
    KeepsDurableOk(sys, fs, i, writer, previous);
  }

  lemma CreateKeepsSafe(sys: System, i: nat, previous: Option<Bytes>)
    requires Safe(sys, previous) && i < |sys.writers| && sys.writers[i].phase.Idle?
    ensures Safe(DoCreate(sys, i), previous)
  {
    hide DestOk, DurableOk;
    var after := DoCreate(sys, i);
    assert Possible(after.fs, Dest) == Possible(sys.fs, Dest) && Entry(after.fs, Dest) == Entry(sys.fs, Dest);
    EntryIsPossible(sys, previous);
    assert OwnFilesOnly(sys, after.fs, i, after.writers[i]);
    MoveKeepsSafe(sys, after.fs, i, after.writers[i], previous);
  }

  lemma EntryIsPossible(sys: System, previous: Option<Bytes>)
    requires DestOk(sys, previous)
    ensures Entry(sys.fs, Dest) in Possible(sys.fs, Dest)
  {
  }

  lemma WriteKeepsSafe(sys: System, i: nat, count: nat, previous: Option<Bytes>)
    requires Safe(sys, previous) && i < |sys.writers| && sys.writers[i].phase.Writing?
    ensures Safe(DoWrite(sys, i, count), previous)
  {
    hide DestOk, DurableOk;
    EntryIsPossible(sys, previous);
    assert WriterOk(sys.fs, i, sys.writers[i]);
    var after := DoWrite(sys, i, count);
    if after != sys {
      assert OwnFilesOnly(sys, after.fs, i, after.writers[i]);
      MoveKeepsSafe(sys, after.fs, i, after.writers[i], previous);
    }
  }

  lemma SyncKeepsSafe(sys: System, i: nat, previous: Option<Bytes>)
    requires Safe(sys, previous) && i < |sys.writers| && sys.writers[i].phase.Writing?
    ensures Safe(DoSync(sys, i), previous)
  {
    hide DestOk, DurableOk;
    EntryIsPossible(sys, previous);
    assert WriterOk(sys.fs, i, sys.writers[i]);
    var after := DoSync(sys, i);
    if after != sys {
      assert OwnFilesOnly(sys, after.fs, i, after.writers[i]);
      MoveKeepsSafe(sys, after.fs, i, after.writers[i], previous);
    }
  }

  /** A published file is all of its writer's bytes, has the highest rank, and is what the destination names. */
  lemma PublishedFile(sys: System, i: nat)
    requires FilesOk(sys) && i < |sys.writers| && sys.writers[i].phase.Synced? && sys.writers[i].inode < |sys.fs.files|
    ensures var fs := PublishEntry(sys.fs, i, sys.writers[i]);
            && Possible(fs, Dest) == Possible(sys.fs, Dest) + {Some(sys.writers[i].inode)}
            && Entry(fs, Dest) == Some(sys.writers[i].inode)
            && OwnFilesOnly(sys, fs, i, sys.writers[i].(phase := Published))
            && AtLeast(fs, Entry(fs, Dest), fs.published)
  {
    assert WriterOk(sys.fs, i, sys.writers[i]);
  }

  lemma PublishKeepsSafe(sys: System, i: nat, previous: Option<Bytes>)
    requires Safe(sys, previous) && i < |sys.writers| && sys.writers[i].phase.Synced?
    ensures Safe(DoPublish(sys, i), previous)
  {
    hide DestOk, DurableOk, PublishEntry, Possible, Entry;
    EntryIsPossible(sys, previous);
    var writer := sys.writers[i];
    assert WriterOk(sys.fs, i, writer);
    if writer.noClobber && Dest in sys.fs.entries {
      MoveKeepsSafe(sys, sys.fs, i, writer.(phase := Returned(false)), previous);
    } else {
      PublishedFile(sys, i);
      MoveKeepsSafe(sys, PublishEntry(sys.fs, i, writer), i, writer.(phase := Published), previous);
    }
  }

  /** Ending a phase: files stay, and the destination keeps its entry and gains no possible one. */
  lemma EndEffect(sys: System, i: nat, action: Action)
    requires FilesOk(sys) && i < |sys.writers| && (action.SyncDirectory? || action.Fail? || action.Cleanup?)
    requires Do(sys, i, action) != sys
    ensures var after := Do(sys, i, action);
            && |after.writers| == |sys.writers| && after == Moved(sys, after.fs, i, after.writers[i])
            && OwnFilesOnly(sys, after.fs, i, after.writers[i]) && after.fs.files == sys.fs.files
            && after.fs.published == sys.fs.published && Entry(after.fs, Dest) == Entry(sys.fs, Dest)
            && (Possible(after.fs, Dest) == Possible(sys.fs, Dest) || Possible(after.fs, Dest) == {Entry(sys.fs, Dest)})
            && (Succeeded(after.writers[i]) && !Succeeded(sys.writers[i]) ==>
                  sys.writers[i].phase.Published? && Possible(after.fs, Dest) == {Entry(sys.fs, Dest)})
            && !after.writers[i].phase.Published? && after.writers[i].inode == sys.writers[i].inode
  {
    assert WriterOk(sys.fs, i, sys.writers[i]);
  }

  lemma EndKeepsSafe(sys: System, i: nat, action: Action, previous: Option<Bytes>)
    requires Safe(sys, previous) && i < |sys.writers| && (action.SyncDirectory? || action.Fail? || action.Cleanup?)
    ensures Safe(Do(sys, i, action), previous)
  {
    hide DestOk, Do, Possible, Entry, FilesOk;
    EntryIsPossible(sys, previous);
    var after := Do(sys, i, action);
    if after != sys {
      EndEffect(sys, i, action);
      OwnWriterOk(sys, i);
      MoveKeepsSafe(sys, after.fs, i, after.writers[i], previous);
    }
  }

  lemma OwnWriterOk(sys: System, i: nat)
    requires FilesOk(sys) && i < |sys.writers|
    ensures WriterOk(sys.fs, i, sys.writers[i])
  {
  }

  lemma CrashKeepsFilesOk(sys: System, entries: map<Name, nat>, contents: seq<Bytes>)
    requires FilesOk(sys) && CrashAllowed(sys.fs, entries, contents)
    ensures FilesOk(Crashed(sys, entries, contents))
  {
    var after := Crashed(sys, entries, contents);
    forall k | 0 <= k < |after.writers| ensures WriterOk(after.fs, k, after.writers[k]) {
      assert WriterOk(sys.fs, k, sys.writers[k]);
    }
  }

  /** After a crash the destination is one of the entries it might have had. */
  lemma CrashedDest(sys: System, entries: map<Name, nat>, contents: seq<Bytes>)
    requires CrashAllowed(sys.fs, entries, contents)
    ensures var after := Crashed(sys, entries, contents);
            Possible(after.fs, Dest) == {Entry(after.fs, Dest)} && Entry(after.fs, Dest) in Possible(sys.fs, Dest)
  {
  }

  lemma CrashKeepsDestOk(sys: System, entries: map<Name, nat>, contents: seq<Bytes>, previous: Option<Bytes>)
    requires DestOk(sys, previous) && CrashAllowed(sys.fs, entries, contents)
    ensures DestOk(Crashed(sys, entries, contents), previous)
  {
    CrashedDest(sys, entries, contents);
    var after := Crashed(sys, entries, contents);
    var entry := Entry(after.fs, Dest);
    if entry.Some? {
      assert Whole(sys, previous, entry.value);
      assert Whole(after, previous, entry.value);
    }
  }

  lemma CrashKeepsDurableOk(sys: System, entries: map<Name, nat>, contents: seq<Bytes>)
    requires DurableOk(sys) && CrashAllowed(sys.fs, entries, contents)
    ensures DurableOk(Crashed(sys, entries, contents))
  {
    CrashedDest(sys, entries, contents);
    hide CrashAllowed, Possible, Entry;
  }

  lemma CrashKeepsSafe(sys: System, entries: map<Name, nat>, contents: seq<Bytes>, previous: Option<Bytes>)
    requires Safe(sys, previous) && CrashAllowed(sys.fs, entries, contents)
    ensures Safe(Crashed(sys, entries, contents), previous)
  {
    hide FilesOk, DestOk, DurableOk, CrashAllowed, Crashed;
    CrashKeepsFilesOk(sys, entries, contents);
    CrashKeepsDestOk(sys, entries, contents, previous);
    CrashKeepsDurableOk(sys, entries, contents);
  }

  lemma ActKeepsSafe(sys: System, i: nat, action: Action, previous: Option<Bytes>)
    requires Safe(sys, previous)
    ensures Safe(Do(sys, i, action), previous)
  {
    hide Safe, DoCreate, DoWrite, DoSync, DoPublish;
    if i < |sys.writers| {
      var phase := sys.writers[i].phase;
      if action.CreateTemp? && phase.Idle? {
        CreateKeepsSafe(sys, i, previous);
      } else if action.WriteSome? && phase.Writing? {
        WriteKeepsSafe(sys, i, action.count, previous);
      } else if action.SyncFile? && phase.Writing? {
        SyncKeepsSafe(sys, i, previous);
      } else if action.Publish? && phase.Synced? {
        PublishKeepsSafe(sys, i, previous);
      } else if action.SyncDirectory? || action.Fail? || action.Cleanup? {
        EndKeepsSafe(sys, i, action, previous);
      }
    }
  }

  lemma StepKeepsSafe(sys: System, step: Step, previous: Option<Bytes>)
    requires Safe(sys, previous)
    ensures Safe(Next(sys, step), previous)
  {
    hide Safe, Do, Crashed;
    match step {
      case Act(i, action) => ActKeepsSafe(sys, i, action, previous);
      case Crash(entries, contents) =>
        if CrashAllowed(sys.fs, entries, contents) {
          CrashKeepsSafe(sys, entries, contents, previous);
        }
    }
  }

  lemma {:induction false} RunsAreSafe(sys: System, steps: seq<Step>, previous: Option<Bytes>)
    requires Safe(sys, previous)
    ensures Safe(Run(sys, steps), previous)
  {
    hide Safe, Next;
    if steps != [] {
      RunsAreSafe(sys, steps[..|steps| - 1], previous);
      StepKeepsSafe(Run(sys, steps[..|steps| - 1]), steps[|steps| - 1], previous);
    }
  }

  /** Requests do not change while a run goes on. */
  ghost predicate SameRequests(a: System, b: System) {
    && |a.writers| == |b.writers|
    && forall i :: 0 <= i < |a.writers| ==>
         a.writers[i].bytes == b.writers[i].bytes && a.writers[i].noClobber == b.writers[i].noClobber
  }

  lemma StepKeepsRequests(sys: System, step: Step)
    ensures SameRequests(sys, Next(sys, step))
  {
    hide PublishEntry;
  }

  lemma {:induction false} RunKeepsRequests(sys: System, steps: seq<Step>)
    ensures SameRequests(sys, Run(sys, steps))
  {
    hide Next;
    if steps != [] {
      RunKeepsRequests(sys, steps[..|steps| - 1]);
      StepKeepsRequests(Run(sys, steps[..|steps| - 1]), steps[|steps| - 1]);
    }
  }

  /** The destination names the file that writer w made and published, with all of its bytes. */
  ghost predicate Shows(sys: System, w: nat) {
    && w < |sys.writers| && sys.writers[w].inode < |sys.fs.files|
    && Entry(sys.fs, Dest) == Some(sys.writers[w].inode)
    && var file := sys.fs.files[sys.writers[w].inode];
       file.origin == Some(w) && file.rank > 0 && file.content == sys.writers[w].bytes
  }

  /**
    In every run with any number of writers, failures and crashes, the destination holds its
    previous contents or all the bytes of one writer that published; a file that was there never disappears.
  */
  lemma NeverPartial(sys: System, previous: Option<Bytes>, steps: seq<Step>)
    requires Initial(sys, previous)
    ensures var after := Run(sys, steps);
            || Contents(after.fs, Dest) == previous
            || exists w: nat :: Shows(after, w) && w < |sys.writers| && Contents(after.fs, Dest) == Some(sys.writers[w].bytes)
    ensures previous.Some? ==> Contents(Run(sys, steps).fs, Dest).Some?
  {
    hide Run;
    InitialIsSafe(sys, previous);
    RunsAreSafe(sys, steps, previous);
    RunKeepsRequests(sys, steps);
    var after := Run(sys, steps);
    var entry := Entry(after.fs, Dest);
    if entry.Some? {
      assert Whole(after, previous, entry.value);
      var origin := after.fs.files[entry.value].origin;
      if origin.Some? {
        assert Shows(after, origin.value);
      }
    }
  }

  /** The destination holds all the bytes of a writer published no earlier than writer i. */
  ghost predicate HoldsFrom(sys: System, i: nat) {
    && i < |sys.writers| && sys.writers[i].inode < |sys.fs.files|
    && exists w: nat :: Shows(sys, w) && w < |sys.writers| && sys.writers[w].inode < |sys.fs.files|
         && sys.fs.files[sys.writers[w].inode].rank >= sys.fs.files[sys.writers[i].inode].rank
  }

  lemma SuccessHolds(sys: System, previous: Option<Bytes>, i: nat)
    requires Safe(sys, previous) && PreviousUnranked(sys) && i < |sys.writers| && Succeeded(sys.writers[i])
    ensures HoldsFrom(sys, i)
  {
    assert WriterOk(sys.fs, i, sys.writers[i]);
    var entry := Entry(sys.fs, Dest);
    assert AtLeast(sys.fs, entry, sys.fs.files[sys.writers[i].inode].rank);
    assert Whole(sys, previous, entry.value);
    assert Shows(sys, sys.fs.files[entry.value].origin.value);
  }

  /**
    Success means durable: whatever follows after a writer has returned success, crashes
    included, the destination holds its bytes or those of a writer that published after it.
  */
  lemma SuccessIsDurable(sys: System, previous: Option<Bytes>, steps: seq<Step>, more: seq<Step>, i: nat)
    requires Initial(sys, previous)
    requires i < |Run(sys, steps).writers| && Run(sys, steps).writers[i].phase == Finished(true)
    ensures HoldsFrom(Run(sys, steps + more), i)
  {
    hide Run, Safe, HoldsFrom, PreviousUnranked;
    InitialIsSafe(sys, previous);
    RunsAreSafe(sys, steps + more, previous);
    NoPreviousRank(sys, previous, steps + more);
    FinishedStays(sys, steps, more, i);
    SuccessHolds(Run(sys, steps + more), previous, i);
  }

  lemma StepKeepsFinished(sys: System, step: Step, i: nat)
    requires i < |sys.writers| && sys.writers[i].phase == Finished(true)
    ensures i < |Next(sys, step).writers| && Next(sys, step).writers[i].phase == Finished(true)
  {
    hide PublishEntry;
  }

  lemma {:induction false} FinishedStays(sys: System, steps: seq<Step>, more: seq<Step>, i: nat)
    requires i < |Run(sys, steps).writers| && Run(sys, steps).writers[i].phase == Finished(true)
    ensures i < |Run(sys, steps + more).writers| && Run(sys, steps + more).writers[i].phase == Finished(true)
  {
    hide Next;
    if more == [] {
      assert steps + more == steps;
    } else {
      var n := |more| - 1;
      assert (steps + more)[..|steps + more| - 1] == steps + more[..n];
      FinishedStays(sys, steps, more[..n], i);
      StepKeepsFinished(Run(sys, steps + more[..n]), more[n], i);
    }
  }

  ghost predicate PreviousUnranked(sys: System) {
    forall j :: 0 <= j < |sys.fs.files| && sys.fs.files[j].origin.None? ==> sys.fs.files[j].rank == 0
  }

  lemma StepKeepsUnranked(sys: System, step: Step)
    requires FilesOk(sys) && PreviousUnranked(sys)
    ensures PreviousUnranked(Next(sys, step))
  {
    if step.Act? && step.writer < |sys.writers| {
      assert WriterOk(sys.fs, step.writer, sys.writers[step.writer]);
    }
  }

  lemma {:induction false} NoPreviousRank(sys: System, previous: Option<Bytes>, steps: seq<Step>)
    requires Initial(sys, previous)
    ensures PreviousUnranked(Run(sys, steps))
  {
    hide Next;
    if steps != [] {
      var before := steps[..|steps| - 1];
      NoPreviousRank(sys, previous, before);
      InitialIsSafe(sys, previous);
      RunsAreSafe(sys, before, previous);
      StepKeepsUnranked(Run(sys, before), steps[|steps| - 1]);
    }
  }

  // ---------------------------------------------------------------------------------------
  // No-clobber writers
  // ---------------------------------------------------------------------------------------

  /** A no-clobber writer that has published and has not failed since. */
  predicate Created(writer: Writer) {
    writer.noClobber && (writer.phase.Published? || Succeeded(writer))
  }

  /** At most one no-clobber writer has created the destination, and none has over a file. */
  ghost predicate OneCreator(sys: System, previous: Option<Bytes>) {
    && (forall i, j :: 0 <= i < |sys.writers| && 0 <= j < |sys.writers| ==>
          Created(sys.writers[i]) && Created(sys.writers[j]) ==> i == j)
    && (previous.Some? ==> forall i :: 0 <= i < |sys.writers| ==> !Created(sys.writers[i]))
  }

  /** Once a file was there, or a writer created one, the destination is never absent again. */
  lemma DestIsTaken(sys: System, previous: Option<Bytes>, i: nat)
    requires Safe(sys, previous)
    requires previous.Some? || (i < |sys.writers| && Created(sys.writers[i]))
    ensures Dest in sys.fs.entries
  {
    EntryIsPossible(sys, previous);
    if previous.None? {
      assert WriterOk(sys.fs, i, sys.writers[i]);
    }
  }

  /** Only publishing makes a creator, and a no-clobber writer publishes only where nothing is. */
  lemma NewCreator(sys: System, step: Step, k: nat)
    requires k < |sys.writers| && k < |Next(sys, step).writers|
    requires Created(Next(sys, step).writers[k]) && !Created(sys.writers[k])
    ensures step.Act? && step.writer == k && Dest !in sys.fs.entries
  {
    hide PublishEntry, SetEntry, RemoveEntry, SetFile;
  }

  lemma StepKeepsOneCreator(sys: System, step: Step, previous: Option<Bytes>)
    requires Safe(sys, previous) && OneCreator(sys, previous)
    ensures OneCreator(Next(sys, step), previous)
  {
    hide Next, Safe, Created;
    StepKeepsRequests(sys, step);
    var after := Next(sys, step);
    forall i | 0 <= i < |after.writers| && Created(after.writers[i]) && !Created(sys.writers[i])
      ensures previous.None? && step.Act? && step.writer == i
      ensures forall j :: 0 <= j < |sys.writers| ==> !Created(sys.writers[j])
    {
      NewCreator(sys, step, i);
      if previous.Some? {
        DestIsTaken(sys, previous, i);
      }
      forall j | 0 <= j < |sys.writers| ensures !Created(sys.writers[j]) {
        if Created(sys.writers[j]) {
          DestIsTaken(sys, previous, j);
        }
      }
    }
  }

  lemma {:induction false} RunsHaveOneCreator(sys: System, steps: seq<Step>, previous: Option<Bytes>)
    requires Safe(sys, previous) && OneCreator(sys, previous)
    ensures OneCreator(Run(sys, steps), previous)
  {
    hide Safe, Next, OneCreator;
    if steps != [] {
      RunsHaveOneCreator(sys, steps[..|steps| - 1], previous);
      RunsAreSafe(sys, steps[..|steps| - 1], previous);
      StepKeepsOneCreator(Run(sys, steps[..|steps| - 1]), steps[|steps| - 1], previous);
    }
  }

  /**
    Whatever other writers, replacing ones included, do beside them and whatever crashes: at
    most one no-clobber writer succeeds, and over a path that already holds a file none does.
  */
  lemma AtMostOneCreates(sys: System, previous: Option<Bytes>, steps: seq<Step>)
    requires Initial(sys, previous)
    ensures var after := Run(sys, steps);
            && |after.writers| == |sys.writers|
            && (forall i, j :: 0 <= i < |sys.writers| && 0 <= j < |sys.writers| ==>
                  sys.writers[i].noClobber && sys.writers[j].noClobber ==>
                  Succeeded(after.writers[i]) && Succeeded(after.writers[j]) ==> i == j)
            && (previous.Some? ==>
                  forall i :: 0 <= i < |sys.writers| && sys.writers[i].noClobber ==> !Succeeded(after.writers[i]))
  {
    hide Run;
    InitialIsSafe(sys, previous);
    RunsHaveOneCreator(sys, steps, previous);
    RunKeepsRequests(sys, steps);
  }

  /** A file at the destination is not changed by a system call of a no-clobber writer. */
  lemma CreatorNeverReplaces(sys: System, previous: Option<Bytes>, i: nat, action: Action)
    requires Safe(sys, previous) && i < |sys.writers| && sys.writers[i].noClobber && Dest in sys.fs.entries
    ensures var after := Do(sys, i, action).fs;
            Entry(after, Dest) == Entry(sys.fs, Dest) && Contents(after, Dest) == Contents(sys.fs, Dest)
  {
    hide DurableOk, PublishEntry;
    EntryIsPossible(sys, previous);
    assert WriterOk(sys.fs, i, sys.writers[i]);
    assert Whole(sys, previous, sys.fs.entries[Dest]);
  }

  /** The previous file is durably at the destination. */
  ghost predicate Undisturbed(sys: System, previous: Bytes) {
    && (forall i :: 0 <= i < |sys.writers| ==> sys.writers[i].noClobber)
    && Entry(sys.fs, Dest) == Some(0) && Possible(sys.fs, Dest) == {Some(0)}
    && |sys.fs.files| > 0 && sys.fs.files[0] == File(previous, true, 0, None)
  }

  lemma ActKeepsUndisturbed(sys: System, i: nat, action: Action, previous: Bytes)
    requires Safe(sys, Some(previous)) && Undisturbed(sys, previous)
    ensures Undisturbed(Do(sys, i, action), previous)
  {
    hide DestOk, DurableOk, PublishEntry;
    if i < |sys.writers| {
      assert WriterOk(sys.fs, i, sys.writers[i]);
    }
  }

  lemma StepKeepsUndisturbed(sys: System, step: Step, previous: Bytes)
    requires Safe(sys, Some(previous)) && Undisturbed(sys, previous)
    ensures Undisturbed(Next(sys, step), previous)
  {
    match step {
      case Act(i, action) =>
        hide Do, Undisturbed;
        ActKeepsUndisturbed(sys, i, action, previous);
      case Crash(entries, contents) =>
        hide Safe, Do;
        if CrashAllowed(sys.fs, entries, contents) {
          CrashedDest(sys, entries, contents);
        }
    }
  }

  lemma {:induction false} RunsStayUndisturbed(sys: System, steps: seq<Step>, previous: Bytes)
    requires Safe(sys, Some(previous)) && Undisturbed(sys, previous)
    ensures Undisturbed(Run(sys, steps), previous)
  {
    hide Safe, Next, Undisturbed;
    if steps != [] {
      RunsStayUndisturbed(sys, steps[..|steps| - 1], previous);
      RunsAreSafe(sys, steps[..|steps| - 1], Some(previous));
      StepKeepsUndisturbed(Run(sys, steps[..|steps| - 1]), steps[|steps| - 1], previous);
    }
  }

  /** When all writers are no-clobber, an existing file never changes, whatever crashes. */
  lemma ExistingFileStays(sys: System, previous: Bytes, steps: seq<Step>)
    requires Initial(sys, Some(previous)) && forall i :: 0 <= i < |sys.writers| ==> sys.writers[i].noClobber
    ensures Contents(Run(sys, steps).fs, Dest) == Some(previous)
  {
    hide Run;
    InitialIsSafe(sys, Some(previous));
    RunsStayUndisturbed(sys, steps, previous);
  }
}
