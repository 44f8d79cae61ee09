/**
  Atomic publication of a file: write a private temporary file, sync it, rename or hard-link
  it onto the destination, sync the directory.  Any number of writers interleave their
  system calls, any call may fail, and the machine may crash between any two of them.
*/
module AtomicFile {
  import opened Bytes
  import Integers

  /** The destination, and one temporary name per writer (each draws a fresh identifier). */
  datatype Name = Dest | Temp(writer: nat)

  /**
    A file: what reads return, whether all of it is known to be on disk, its place in the
    order of publications (0: not published by a writer), and the writer that made it.
  */
  datatype File = File(content: Bytes, synced: bool, rank: nat, origin: Option<nat>)

  /**
    A directory.  `pending` holds, for each name changed since the last directory sync, every
    entry the name has had since then: after a crash it may be any of those.
  */
  datatype Fs = Fs(files: seq<File>, entries: map<Name, nat>, pending: map<Name, set<Option<nat>>>, published: nat)

  datatype Phase =
    | Idle | Writing(written: nat) | Synced | Published | Returned(ok: bool) | Finished(ok: bool) | Lost

  datatype Writer = Writer(bytes: Bytes, noClobber: bool, phase: Phase, inode: nat)

  datatype System = System(fs: Fs, writers: seq<Writer>)

  datatype Action = CreateTemp | WriteSome(count: nat) | SyncFile | Publish | SyncDirectory | Fail | Cleanup

  function Entry(fs: Fs, name: Name): Option<nat> {
    if name in fs.entries then Some(fs.entries[name]) else None
  }

  /** The entries a crash may leave under a name. */
  function Possible(fs: Fs, name: Name): set<Option<nat>> {
    if name in fs.pending then fs.pending[name] else {Entry(fs, name)}
  }

  function SetEntry(fs: Fs, name: Name, inode: nat): Fs {
    fs.(entries := fs.entries[name := inode], pending := fs.pending[name := Possible(fs, name) + {Some(inode)}])
  }

  function RemoveEntry(fs: Fs, name: Name): Fs {
    fs.(entries := fs.entries - {name}, pending := fs.pending[name := Possible(fs, name) + {None}])
  }

  function SetFile(fs: Fs, inode: nat, file: File): Fs
    requires inode < |fs.files|
  {
    fs.(files := fs.files[inode := file])
  }

  function Contents(fs: Fs, name: Name): Option<Bytes> {
    if name in fs.entries && fs.entries[name] < |fs.files| then Some(fs.files[fs.entries[name]].content) else None
  }

  /** Rename replaces the destination; hard linking fails when the destination exists. */
  function PublishEntry(fs: Fs, i: nat, writer: Writer): Fs
    requires writer.inode < |fs.files|
  {
    var ranked := SetFile(fs, writer.inode, fs.files[writer.inode].(rank := fs.published + 1)).(published := fs.published + 1);
    var placed := SetEntry(ranked, Dest, writer.inode);
    if writer.noClobber then placed else RemoveEntry(placed, Temp(i))
  }

  function Moved(sys: System, fs: Fs, i: nat, writer: Writer): System
    requires i < |sys.writers|
  {
    System(fs, sys.writers[i := writer])
  }

  function DoCreate(sys: System, i: nat): System
    requires i < |sys.writers| && sys.writers[i].phase.Idle?
  {
    var fs, writer := sys.fs, sys.writers[i];
    if Temp(i) in fs.entries then Moved(sys, fs, i, writer.(phase := Finished(false))) else
    var made := fs.(files := fs.files + [File([], false, 0, Some(i))]);
    Moved(sys, SetEntry(made, Temp(i), |fs.files|), i, writer.(phase := Writing(0), inode := |fs.files|))
  }

  function DoWrite(sys: System, i: nat, count: nat): System
    requires i < |sys.writers| && sys.writers[i].phase.Writing?
  {
    var fs, writer := sys.fs, sys.writers[i];
    var written := writer.phase.written + count;
    if writer.inode >= |fs.files| || written > |writer.bytes| then sys else
    var file := fs.files[writer.inode].(content := writer.bytes[..written], synced := false);
    Moved(sys, SetFile(fs, writer.inode, file), i, writer.(phase := Writing(written)))
  }

  function DoSync(sys: System, i: nat): System
    requires i < |sys.writers| && sys.writers[i].phase.Writing?
  {
    var fs, writer := sys.fs, sys.writers[i];
    if writer.inode >= |fs.files| || writer.phase.written != |writer.bytes| then sys else
    Moved(sys, SetFile(fs, writer.inode, fs.files[writer.inode].(synced := true)), i, writer.(phase := Synced))
  }

  function DoPublish(sys: System, i: nat): System
    requires i < |sys.writers| && sys.writers[i].phase.Synced?
  {
    var fs, writer := sys.fs, sys.writers[i];
    if writer.inode >= |fs.files| then sys
    else if writer.noClobber && Dest in fs.entries then Moved(sys, fs, i, writer.(phase := Returned(false)))
    else Moved(sys, PublishEntry(fs, i, writer), i, writer.(phase := Published))
  }

  /** One system call of writer i; a call that is not next for the writer does nothing. */
  function Do(sys: System, i: nat, action: Action): System {
    if i >= |sys.writers| then sys else
    var fs, writer := sys.fs, sys.writers[i];
    match action
    case CreateTemp => if writer.phase.Idle? then DoCreate(sys, i) else sys
    case WriteSome(count) => if writer.phase.Writing? then DoWrite(sys, i, count) else sys
    case SyncFile => if writer.phase.Writing? then DoSync(sys, i) else sys
    case Publish => if writer.phase.Synced? then DoPublish(sys, i) else sys
    case SyncDirectory =>
      if writer.phase.Published? then Moved(sys, fs.(pending := map[]), i, writer.(phase := Returned(true))) else sys
    case Fail =>
      if writer.phase.Idle? then Moved(sys, fs, i, writer.(phase := Finished(false)))
      else if writer.phase.Writing? || writer.phase.Synced? || writer.phase.Published?
      then Moved(sys, fs, i, writer.(phase := Returned(false)))
      else sys
    case Cleanup =>
      if writer.phase.Returned?
      then Moved(sys, RemoveEntry(fs, Temp(i)), i, writer.(phase := Finished(writer.phase.ok)))
      else sys
  }

  /** A crash keeps some possible entry of each name, and any bytes of a file not synced. */
  ghost predicate CrashAllowed(fs: Fs, entries: map<Name, nat>, contents: seq<Bytes>) {
    && (forall name :: (if name in entries then Some(entries[name]) else None) in Possible(fs, name))
    && |contents| == |fs.files|
    && forall j :: 0 <= j < |fs.files| && fs.files[j].synced ==> contents[j] == fs.files[j].content
  }

  function Killed(writer: Writer): Writer {
    if writer.phase.Idle? || writer.phase.Finished? then writer else writer.(phase := Lost)
  }

  function Crashed(sys: System, entries: map<Name, nat>, contents: seq<Bytes>): System
    requires |contents| == |sys.fs.files|
  {
    var files := seq(|contents|, j requires 0 <= j < |contents| => sys.fs.files[j].(content := contents[j], synced := true));
    var writers := seq(|sys.writers|, i requires 0 <= i < |sys.writers| => Killed(sys.writers[i]));
    System(Fs(files, entries, map[], sys.fs.published), writers)
  }

  datatype Step = Act(writer: nat, action: Action) | Crash(entries: map<Name, nat>, contents: seq<Bytes>)

  ghost function Next(sys: System, step: Step): System {
    match step
    case Act(i, action) => Do(sys, i, action)
    case Crash(entries, contents) =>
      if CrashAllowed(sys.fs, entries, contents) then Crashed(sys, entries, contents) else sys
  }

  ghost function Run(sys: System, steps: seq<Step>): System {
    if steps == [] then sys else Next(Run(sys, steps[..|steps| - 1]), steps[|steps| - 1])
  }

  /** Writers about to start, over a destination that is absent or durably holds a file. */
  ghost predicate Initial(sys: System, previous: Option<Bytes>) {
    && (forall i :: 0 <= i < |sys.writers| ==> sys.writers[i].phase.Idle?)
    && sys.fs.pending == map[] && sys.fs.published == 0
    && (match previous
        case None => sys.fs.files == [] && sys.fs.entries == map[]
        case Some(bytes) => sys.fs.files == [File(bytes, true, 0, None)] && sys.fs.entries == map[Dest := 0])
  }

  // ---------------------------------------------------------------------------------------
  // The writer as code
  // ---------------------------------------------------------------------------------------

  /** Which calls fail, and how many bytes each write call takes (0: it fails). */
  datatype Faults = Faults(create: bool, accepts: nat -> nat, sync: bool, publish: bool, syncDirectory: bool)

  /** Whether writing this many bytes goes through, from this write call on. */
  predicate Finishes(accepts: nat -> nat, left: nat, call: nat)
    decreases left
  {
    || left == 0
    || (accepts(call) > 0 && Finishes(accepts, left - Integers.Min(accepts(call), left), call + 1))
  }

  lemma FinishesStep(accepts: nat -> nat, left: nat, call: nat)
    ensures Finishes(accepts, left, call) <==>
            || left == 0
            || (accepts(call) > 0 && Finishes(accepts, left - Integers.Min(accepts(call), left), call + 1))
  {
  }

  /** No system call that the routine makes fails. */
  predicate Faultless(faults: Faults, size: nat) {
    && !faults.create && Finishes(faults.accepts, size, 0)
    && !faults.sync && !faults.publish && !faults.syncDirectory
  }

  /** Every entry points at a file. */
  ghost predicate Sane(fs: Fs) {
    forall name :: name in fs.entries ==> fs.entries[name] < |fs.files|
  }

  predicate OwnSteps(steps: seq<Step>, i: nat) {
    forall k :: 0 <= k < |steps| ==> steps[k].Act? && steps[k].writer == i
  }

  /** A no-clobber writer finds the destination taken. */
  predicate Blocked(sys: System, i: nat)
    requires i < |sys.writers|
  {
    sys.writers[i].noClobber && Dest in sys.fs.entries
  }

  /** What a finished writer leaves, from the state in which it last saw the destination unpublished. */
  ghost predicate Outcome(before: System, after: System, i: nat, ok: bool)
    requires i < |before.writers|
  {
    && |after.writers| == |before.writers| && after.writers[i].phase == Finished(ok)
    && (ok ==> Contents(after.fs, Dest) == Some(before.writers[i].bytes))
    && (ok ==> Possible(after.fs, Dest) == {Entry(after.fs, Dest)})
    && (Contents(after.fs, Dest) == Contents(before.fs, Dest) || Contents(after.fs, Dest) == Some(before.writers[i].bytes))
    && (Blocked(before, i) ==> !ok && Entry(after.fs, Dest) == Entry(before.fs, Dest))
    && Temp(i) !in after.fs.entries
  }

  class Machine {
    var sys: System

    /** Carries out one system call of writer i, and notes it in the trace. */
    method Perform(i: nat, action: Action, ghost start: System, ghost before: seq<Step>) returns (ghost steps: seq<Step>)
      requires sys == Run(start, before)
      requires OwnSteps(before, i)
      modifies this
      ensures sys == Do(old(sys), i, action) && sys == Run(start, steps)
      ensures OwnSteps(steps, i)
    {
      hide Do;
      sys := Do(sys, i, action);
      steps := before + [Act(i, action)];
      assert steps[..|steps| - 1] == before;
    }

    /** Gives up: the guard over the temporary file removes it on the way out. */
    method GiveUp(i: nat, ghost start: System, ghost before: seq<Step>) returns (ghost steps: seq<Step>)
      requires sys == Run(start, before) && i < |sys.writers|
      requires sys.writers[i].phase.Writing? || sys.writers[i].phase.Synced? || sys.writers[i].phase.Published?
      requires OwnSteps(before, i)
      modifies this
      ensures sys == Run(start, steps)
      ensures OwnSteps(steps, i)
      ensures sys == System(RemoveEntry(old(sys).fs, Temp(i)),
                            old(sys).writers[i := old(sys).writers[i].(phase := Finished(false))])
    {
      hide Run;
      steps := Perform(i, Fail, start, before);
      steps := Perform(i, Cleanup, start, steps);
    }

    /** Writes all bytes, as many per call as the system takes; false when a call fails. */
    method WriteAll(i: nat, accepts: nat -> nat, ghost start: System, ghost before: seq<Step>)
      returns (ok: bool, ghost steps: seq<Step>)
      requires sys == Run(start, before) && i < |sys.writers| && sys.writers[i].phase == Writing(0)
      requires sys.writers[i].inode < |sys.fs.files| && sys.fs.files[sys.writers[i].inode].content == []
      requires OwnSteps(before, i)
      modifies this
      ensures sys == Run(start, steps)
      ensures OwnSteps(steps, i)
      ensures |sys.writers| == |old(sys).writers| && sys.writers[i].phase.Writing?
      ensures sys.writers[i] == old(sys).writers[i].(phase := sys.writers[i].phase)
      ensures |sys.fs.files| == |old(sys).fs.files|
      ensures ok ==> sys.writers[i].phase == Writing(|sys.writers[i].bytes|)
      ensures ok ==> sys.fs.files[sys.writers[i].inode].content == sys.writers[i].bytes
      ensures forall j :: 0 <= j < |sys.fs.files| && j != sys.writers[i].inode ==> sys.fs.files[j] == old(sys).fs.files[j]
      ensures sys.fs.entries == old(sys).fs.entries && sys.fs.pending == old(sys).fs.pending
      ensures ok <==> Finishes(accepts, |sys.writers[i].bytes|, 0)
    {
      hide Run, Finishes;
      var bytes, inode := sys.writers[i].bytes, sys.writers[i].inode;
      var written, calls := 0, 0;
      steps := before;
      while written < |bytes|
        invariant 0 <= written <= |bytes|
        invariant sys == Run(start, steps)
        invariant OwnSteps(steps, i)
        invariant |sys.writers| == |old(sys).writers|
        invariant sys.writers[i] == old(sys).writers[i].(phase := Writing(written))
        invariant |sys.fs.files| == |old(sys).fs.files| && sys.fs.files[inode].content == bytes[..written]
        invariant forall j :: 0 <= j < |sys.fs.files| && j != inode ==> sys.fs.files[j] == old(sys).fs.files[j]
        invariant sys.fs.entries == old(sys).fs.entries && sys.fs.pending == old(sys).fs.pending
        invariant Finishes(accepts, |bytes|, 0) <==> Finishes(accepts, |bytes| - written, calls)
      {
        var count := accepts(calls);
        FinishesStep(accepts, |bytes| - written, calls);
        if count == 0 {
          return false, steps;
        }
        if count > |bytes| - written {
          count := |bytes| - written;
        }
        steps := Perform(i, WriteSome(count), start, steps);
        written := written + count;
        calls := calls + 1;
      }
      assert bytes[..written] == bytes;
      FinishesStep(accepts, 0, calls);
      return true, steps;
    }

    /** Makes a publication durable and lets the guard remove the temporary name. */
    method SyncAndFinish(i: nat, ghost start: System, ghost before: seq<Step>) returns (ghost steps: seq<Step>)
      requires sys == Run(start, before) && OwnSteps(before, i) && i < |sys.writers| && sys.writers[i].phase.Published?
      modifies this
      ensures sys == Run(start, steps) && OwnSteps(steps, i)
      ensures sys == System(RemoveEntry(old(sys).fs.(pending := map[]), Temp(i)),
                            old(sys).writers[i := old(sys).writers[i].(phase := Finished(true))])
    {
      hide Run, OwnSteps;
      steps := Perform(i, SyncDirectory, start, before);
      steps := Perform(i, Cleanup, start, steps);
    }

    /** Publishes a synced temporary file and syncs the directory. */
    method PublishAndSync(i: nat, faults: Faults, ghost start: System, ghost before: seq<Step>)
      returns (ok: bool, ghost steps: seq<Step>)
      requires sys == Run(start, before) && OwnSteps(before, i)
      requires i < |sys.writers| && sys.writers[i].phase.Synced? && sys.writers[i].inode < |sys.fs.files|
      requires sys.fs.files[sys.writers[i].inode].content == sys.writers[i].bytes && Sane(sys.fs)
      modifies this
      ensures sys == Run(start, steps) && OwnSteps(steps, i)
      ensures Outcome(old(sys), sys, i, ok)
      ensures ok <==> !Blocked(old(sys), i) && !faults.publish && !faults.syncDirectory
    {
      hide Run, PublishEntry, OwnSteps;
      ok := false;
      PublishShows(sys.fs, i, sys.writers[i]);
      if faults.publish {
        steps := GiveUp(i, start, before);
        return;
      }
      steps := Perform(i, Publish, start, before);
      if sys.writers[i].phase.Returned? {
        steps := Perform(i, Cleanup, start, steps);
        return;
      }
      if faults.syncDirectory {
        steps := GiveUp(i, start, steps);
        return;
      }
      steps := SyncAndFinish(i, start, steps);
      ok := true;
    }

    /** Creates the temporary file, writes it and syncs it. */
    method Prepare(i: nat, faults: Faults, ghost start: System) returns (ok: bool, ghost steps: seq<Step>)
      requires sys == start && i < |sys.writers| && sys.writers[i].phase.Idle? && Temp(i) !in sys.fs.entries && Sane(sys.fs)
      modifies this
      ensures sys == Run(start, steps) && OwnSteps(steps, i)
      ensures |sys.writers| == |start.writers| && Contents(sys.fs, Dest) == Contents(start.fs, Dest)
      ensures Entry(sys.fs, Dest) == Entry(start.fs, Dest) && Sane(sys.fs)
      ensures !ok ==> sys.writers[i].phase == Finished(false) && Temp(i) !in sys.fs.entries
      ensures ok ==> sys.writers[i] == start.writers[i].(phase := Synced, inode := |start.fs.files|)
      ensures ok ==> |sys.fs.files| == |start.fs.files| + 1
      ensures ok ==> sys.fs.files[|start.fs.files|].content == start.writers[i].bytes
      ensures ok <==> !faults.create && Finishes(faults.accepts, |start.writers[i].bytes|, 0) && !faults.sync
    {
      hide Run, OwnSteps, PublishEntry;
      RunNothing(sys, i);
      if faults.create {
        steps := Perform(i, Fail, start, []);
        return false, steps;
      }
      steps := Perform(i, CreateTemp, start, []);
      ok, steps := WriteAll(i, faults.accepts, start, steps);
      if !ok || faults.sync {
        steps := GiveUp(i, start, steps);
        return false, steps;
      }
      steps := Perform(i, SyncFile, start, steps);
    }

    /**
      The writing routine, alone on the machine, as one schedule of its steps: it succeeds
      exactly when no call it makes fails and, for a no-clobber writer, the destination is absent.
      Then the destination durably holds the bytes.  In every case the destination holds its
      old contents or all of the new bytes, and the temporary name is gone.
    */
    method WriteFileWith(i: nat, faults: Faults) returns (ok: bool, ghost steps: seq<Step>)
      requires i < |sys.writers| && sys.writers[i].phase.Idle? && Temp(i) !in sys.fs.entries && Sane(sys.fs)
      modifies this
      ensures sys == Run(old(sys), steps) && OwnSteps(steps, i)
      ensures Outcome(old(sys), sys, i, ok)
      ensures ok <==> !Blocked(old(sys), i) && Faultless(faults, |old(sys).writers[i].bytes|)
    {
      hide Run, OwnSteps, PublishEntry, Possible;
      ok, steps := Prepare(i, faults, sys);
      if ok {
        ok, steps := PublishAndSync(i, faults, old(sys), steps);
      }
    }
  }

  lemma RunNothing(sys: System, i: nat)
    ensures Run(sys, []) == sys && OwnSteps([], i)
  {
  }

  lemma PublishShows(fs: Fs, i: nat, writer: Writer)
    requires writer.inode < |fs.files|
    ensures var after := PublishEntry(fs, i, writer);
            && Contents(after, Dest) == Some(fs.files[writer.inode].content)
            && |after.files| == |fs.files|
            && after.entries.Keys <= fs.entries.Keys + {Dest}
  {
  }
}
