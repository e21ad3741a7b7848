/**
 Safety over whole runs: every reachable state is sound, which of the disks a run can leave
 behind open, and that opening gives back what was visible until the log is truncated.
 */
module Recovery {
  import opened Bytes
  import opened Dtypes
  import opened Format
  import opened FileImage
  import opened LogFile
  import opened IndexFile
  import opened Replay
  import opened RecordMaps
  import opened Engine
  import opened EngineSteps
  import Header

  // ---------------------------------------------------------------------------
  // What the files stand for, step by step

  /** A drained operation changes what a reader of `.db` sees at its own key only. */
  lemma DrainElsewhere(lib: Lib, rs: seq<Rec>, mem: Memory, job: Job, k: Key, other: Key)
    requires WfLog(lib, mem.log) && Sound(rs, mem.index) && JobOk(rs, mem, job) && k in job.net
    requires other != k
    ensures Lookup(DbMap(DrainRecs(rs, job, k)), other) == Lookup(DbMap(rs), other)
  {
    hide FieldBytes, TotalSize, DbMap, WfEntry, Net, WfLog, DeletePlan;
    NetOp(lib, mem.log, k);
    match job.net[k]
    case Set(key, field) => DbMapAppend(rs, key, field);
    case Delete(key) =>
      var i := Target(rs, job.plan, key);
      if i >= 0 {
        PlanNames(rs, mem, job, key);
        DeadElsewhere(rs, i, other);
      }
  }

  /** The delete plan is the index, on the net deletions it knows. */
  lemma PlanNames(rs: seq<Rec>, mem: Memory, job: Job, k: Key)
    requires Sound(rs, mem.index) && JobOk(rs, mem, job) && k in job.plan
    ensures k in mem.index && job.plan[k] == mem.index[k] && Names(rs, k, job.plan[k])
    ensures Target(rs, job.plan, k) == Target(rs, mem.index, k)
    ensures k in job.net && job.net[k].Delete?
  {
    hide Names, Net, Position;
  }

  lemma DrainDurable(lib: Lib, s: State, k: Key)
    requires Inv(lib, s) && Enabled(lib, s, Drain(k))
    ensures Durable(lib, Next(lib, s, Drain(k)).disk) == Durable(lib, s.disk)
  {
    hide Records, DbMap, WfLog, Sound, JobOk, DrainRecs, ReplayLog, IdxOk, ValidDb, LogBytes, LogOf, DrainOne,
      Lookup, Net;
    var rs, job := Records(lib, s.disk.db), s.phase.job;
    DrainInv(lib, s, k);
    assert job.net == Net(s.mem.log) by { JobNet(rs, s.mem, job); }
    forall other | other !in Net(s.mem.log)
      ensures Lookup(DbMap(DrainRecs(rs, job, k)), other) == Lookup(DbMap(rs), other)
    {
      DrainElsewhere(lib, rs, s.mem, job, k, other);
    }
    ReplayForgets(s.mem.log, DbMap(DrainRecs(rs, job, k)), DbMap(rs));
  }

  lemma JobNet(rs: seq<Rec>, mem: Memory, job: Job)
    requires JobOk(rs, mem, job)
    ensures job.net == Net(mem.log)
    ensures job.plan == DeletePlan(job.net, mem.index)
  {
    hide Sound, Net, DeletePlan;
  }

  /** Only logging an operation and truncating the log change what the files stand for. */
  lemma StepDurable(lib: Lib, s: State, a: Action)
    requires Inv(lib, s) && Enabled(lib, s, a)
    ensures Durable(lib, Next(lib, s, a).disk) ==
            match a
            case Log(e) => ApplyEntry(e, Durable(lib, s.disk))
            case Checkpoint => DbMap(Records(lib, s.disk.db))
            case _ => Durable(lib, s.disk)
  {
    hide DiskOk, MemOk, OpenDb, WfEntry, DrainOne, DbMap, Records, LogOf, ReplayLog, ApplyEntry;
    match a
    case Log(e) => LogInv(lib, s, e);
    case Drain(k) => DrainDurable(lib, s, k);
    case PatchCount => PatchInv(lib, s);
    case Checkpoint => CheckpointInv(lib, s);
    case Reopen(name) => ReopenInv(lib, s, name);
    case _ =>
  }

  // ---------------------------------------------------------------------------
  // Memory and files stay in step

  /** Deleting the planned keys from `fields` removes nothing that was visible. */
  lemma CommitSynced(lib: Lib, s: State)
    requires Inv(lib, s) && Enabled(lib, s, Commit) && Synced(lib, s)
    ensures Synced(lib, Next(lib, s, Commit))
    ensures Next(lib, s, Commit).mem.fields == s.mem.fields
  {
    hide DiskOk, Records, LogOf, DbMap, ReplayLog, Sound, Net;
    var job := s.phase.job;
    forall k | k in job.plan
      ensures k !in s.mem.fields
    {
      ReplayAt(s.mem.log, DbMap(Records(lib, s.disk.db)), k);
      assert Lookup(s.mem.fields, k) == None;
    }
    assert s.mem.fields - job.plan.Keys == s.mem.fields;
  }

  /** Invariant I is kept by every step except, possibly, the truncation of the log. */
  lemma StepSynced(lib: Lib, s: State, a: Action)
    requires Inv(lib, s) && Enabled(lib, s, a) && Synced(lib, s) && !a.Checkpoint?
    ensures Synced(lib, Next(lib, s, a))
  {
    hide DiskOk, MemOk, OpenDb, WfEntry, DrainOne, Durable, ApplyEntry;
    StepDurable(lib, s, a);
    match a
    case Commit => CommitSynced(lib, s);
    case Reopen(name) => ReopenInv(lib, s, name);
    case _ =>
  }

  /** The truncation keeps it exactly when the data file alone already shows `fields`. */
  lemma CheckpointSynced(lib: Lib, s: State)
    requires Inv(lib, s) && Enabled(lib, s, Checkpoint)
    ensures Synced(lib, Next(lib, s, Checkpoint)) <==> s.mem.fields == DbMap(Records(lib, s.disk.db))
  {
    hide DiskOk, MemOk, OpenDb, DbMap, Records, Durable;
    StepDurable(lib, s, Checkpoint);
  }

  // ---------------------------------------------------------------------------
  // Runs

  lemma NoActs(lib: Lib, s: State)
    ensures Exec(lib, s, []) == s && Legal(lib, s, [])
  {
  }

  lemma LegalPrefix(lib: Lib, s: State, acts: seq<Action>, a: Action)
    ensures Exec(lib, s, acts + [a]) == Next(lib, Exec(lib, s, acts), a)
    ensures Legal(lib, s, acts + [a]) <==> Legal(lib, s, acts) && Enabled(lib, Exec(lib, s, acts), a)
  {
    hide Next, Enabled;
    assert (acts + [a])[..|acts|] == acts;
  }

  lemma {:induction false} RunsCompose(lib: Lib, s: State, a: seq<Action>, b: seq<Action>)
    ensures Exec(lib, s, a + b) == Exec(lib, Exec(lib, s, a), b)
    ensures Legal(lib, s, a) && Legal(lib, Exec(lib, s, a), b) ==> Legal(lib, s, a + b)
    decreases |b|
  {
    hide Next, Enabled;
    if b == [] {
      assert a + b == a;
    } else {
      var init, last := b[..|b| - 1], b[|b| - 1];
      assert a + b == (a + init) + [last];
      RunsCompose(lib, s, a, init);
      LegalPrefix(lib, s, a + init, last);
    }
  }

  /** The first state of every run that gets anywhere. */
  lemma FreshState(lib: Lib, name: Bytes)
    requires |name| <= NAME_LEN
    ensures Enabled(lib, START, Reopen(name))
    ensures Next(lib, START, Reopen(name)) == State(NO_MEMORY, Disk(HeaderBytes(name, 0), [], []), Idle)
    ensures Inv(lib, Next(lib, START, Reopen(name)))
    ensures Records(lib, HeaderBytes(name, 0)) == [] && |HeaderBytes(name, 0)| == HEADER_SIZE
  {
    hide HeaderBytes, OpenDb, Inv, Records;
    OpenFresh(lib, name);
    StartInv(lib);
    StepInv(lib, START, Reopen(name));
    Header.HeaderReads(name, 0);
  }

  lemma StartInv(lib: Lib)
    ensures Inv(lib, START)
  {
    hide DiskOk, MemOk;
  }

  /**
   What can happen next: a crash at every moment, then an opening under any name; while idle,
   any well-formed operation or a flush; in between, always the step that is due.
   */
  lemma WhatCanHappen(lib: Lib, s: State, acts: seq<Action>)
    requires Legal(lib, s, acts)
    ensures Legal(lib, s, acts + [Crash])
    ensures
      var t := Exec(lib, s, acts);
      match t.phase
      case Down => forall name :: Legal(lib, s, acts + [Reopen(name)])
      case Idle => Legal(lib, s, acts + [BeginFlush]) && forall e :: WfEntry(lib, e) ==> Legal(lib, s, acts + [Log(e)])
      case Applying(_) => Legal(lib, s, acts + [Apply])
      case Draining(job) => job.todo == {} ==> Legal(lib, s, acts + [Commit])
      case Counting => Legal(lib, s, acts + [PatchCount])
      case Truncating => Legal(lib, s, acts + [TruncateIndex])
      case Indexing => forall items :: Iterates(items, t.mem.index) ==> Legal(lib, s, acts + [WriteIndex(items)])
      case Checkpointing => Legal(lib, s, acts + [Checkpoint])
  {
    hide Exec, Legal, WfEntry, Iterates;
    forall a
      ensures Legal(lib, s, acts + [a]) <==> Enabled(lib, Exec(lib, s, acts), a)
    {
      LegalPrefix(lib, s, acts, a);
    }
    CanHappen(lib, Exec(lib, s, acts));
  }

  lemma CanHappen(lib: Lib, t: State)
    ensures Enabled(lib, t, Crash)
    ensures match t.phase
            case Down => forall name :: Enabled(lib, t, Reopen(name))
            case Idle => Enabled(lib, t, BeginFlush) && forall e :: WfEntry(lib, e) ==> Enabled(lib, t, Log(e))
            case Applying(_) => Enabled(lib, t, Apply)
            case Draining(job) => job.todo == {} ==> Enabled(lib, t, Commit)
            case Counting => Enabled(lib, t, PatchCount)
            case Truncating => Enabled(lib, t, TruncateIndex)
            case Indexing => forall items :: Iterates(items, t.mem.index) ==> Enabled(lib, t, WriteIndex(items))
            case Checkpointing => Enabled(lib, t, Checkpoint)
  {
    hide WfEntry, Iterates;
  }

  /** A set or a delete: logged, then applied. */
  lemma OneOperation(lib: Lib, s: State, e: WalEntry)
    requires s.phase.Idle?
    ensures Exec(lib, s, [Log(e), Apply]) ==
            State(Memory(ApplyEntry(e, s.mem.fields), s.mem.index, s.mem.log + [e]),
                  s.disk.(wal := s.disk.wal + EntryBytes(e)), Idle)
    ensures WfEntry(lib, e) ==> Legal(lib, s, [Log(e), Apply])
  {
    hide EntryBytes, WfEntry;
    assert [] + [Log(e)] == [Log(e)] && [Log(e)] + [Apply] == [Log(e), Apply];
    LegalPrefix(lib, s, [], Log(e));
    LegalPrefix(lib, s, [Log(e)], Apply);
  }

  /** Every state of every run is sound, whatever the operations and wherever it crashed. */
  lemma {:induction false} RunInv(lib: Lib, s: State, acts: seq<Action>)
    requires Inv(lib, s) && Legal(lib, s, acts)
    ensures Inv(lib, Exec(lib, s, acts))
    decreases |acts|
  {
    hide Inv, Next, Enabled;
    if acts != [] {
      var init := acts[..|acts| - 1];
      RunInv(lib, s, init);
      StepInv(lib, Exec(lib, s, init), acts[|acts| - 1]);
    }
  }

  /**
   Invariant S over whole runs, in terms of the files, for every run from fresh files with
   any operations and any crashes. Once a database was created, the data file is always a
   header and whole records, and the index in memory is sound for it. The files open if and
   only if there is an index file to read or no live record has an empty key, and then to
   what they stand for and a sound index; opening them otherwise, or under a name of more
   than 64 bytes, is one definite error.
   */
  lemma AlwaysRecoverable(lib: Lib, acts: seq<Action>, name: Bytes)
    requires Legal(lib, START, acts)
    ensures
      var s := Exec(lib, START, acts);
      var r := OpenDb(lib, name, s.disk);
      && (r.Ok? <==> |name| <= 64 && (s == START || s.disk.idx != [] || NoEmptyKey(Records(lib, s.disk.db))))
      && (r.Ok? <==> |name| <= 64 && Opens(lib, s.disk))
      && (!r.Ok? ==> r == Err(if |name| > 64 then DbNameTooLong else InvalidIndexEntry))
      && (r.Ok? ==> r.value.0.fields == Durable(lib, s.disk))
      && (s != START ==>
            && ValidDb(lib, s.disk.db)
            && (!s.phase.Down? ==> Sound(Records(lib, s.disk.db), s.mem.index))
            && (r.Ok? ==> Sound(Records(lib, s.disk.db), r.value.0.index)))
  {
    hide OpenDb, DiskOk, Sound, NoEmptyKey, Records, Exec, Durable, HeaderBytes, Legal, MemOk;
    RunInv(lib, START, acts);
    var s := Exec(lib, START, acts);
    if s == START {
      OpenFresh(lib, name);
      FreshDurable(lib, name);
    } else {
      OpenRecovers(lib, name, s.disk);
      NonEmptyDb(lib, s.disk);
      SoundFiles(lib, s);
    }
  }

  lemma SoundFiles(lib: Lib, s: State)
    requires Inv(lib, s) && s != START
    ensures ValidDb(lib, s.disk.db)
    ensures !s.phase.Down? ==> Sound(Records(lib, s.disk.db), s.mem.index)
  {
    hide ValidDb, Sound, WalOk, IdxOk, Records, JobOk, LogOf;
  }

  /**
   In every run, a tombstone overwrites exactly one whole record: one that is live under the
   deleted key, or a tombstone already. No other record of the file changes.
   */
  lemma TombstoneHitsItsOwn(lib: Lib, acts: seq<Action>, k: Key)
    requires Legal(lib, START, acts + [Drain(k)])
    requires
      var s := Exec(lib, START, acts);
      s.phase.Draining? && k in s.phase.job.net && s.phase.job.net[k].Delete? && k in s.phase.job.plan
    ensures
      var s, s' := Exec(lib, START, acts), Exec(lib, START, acts + [Drain(k)]);
      var rs, rs' := Records(lib, s.disk.db), Records(lib, s'.disk.db);
      var i := Position(rs, s.phase.job.plan[k].offset);
      && 0 <= i < |rs| == |rs'|
      && (rs[i].Holds(k) || rs[i].Tomb?)
      && rs'[i] == Tomb(rs[i].KeyLen(), rs[i].FieldLen())
      && (forall j :: 0 <= j < |rs| && j != i ==> rs'[j] == rs[j])
      && |s'.disk.db| == |s.disk.db| && ValidDb(lib, s'.disk.db)
  {
    hide Exec, Legal, Records, Net, FieldBytes, TotalSize, DrainOne, Image, Next, WfLog, LogOf, Sound, RecsBytes;
    var s := Exec(lib, START, acts);
    var rs, job := Records(lib, s.disk.db), s.phase.job;
    LegalPrefix(lib, START, acts, Drain(k));
    RunInv(lib, START, acts);
    DrainInv(lib, s, k);
    RunningJob(lib, s);
    NetOp(lib, s.mem.log, k);
    PlanNames(rs, s.mem, job, k);
    var s' := Next(lib, s, Drain(k));
    assert s' != START by { StepNotStart(lib, s, Drain(k)); }
    AfterDrain(lib, s, k);
    SameTotal(rs, Position(rs, job.plan[k].offset));
    ImageAt(lib, s.disk.db, rs);
    ImageAt(lib, s'.disk.db, Records(lib, s'.disk.db));
  }

  lemma SameTotal(rs: seq<Rec>, i: nat)
    requires i < |rs|
    ensures TotalSize(rs[i := rs[i].Dead()]) == TotalSize(rs)
  {
    hide FieldBytes, TotalSize;
    SizeUpdate(rs, i, rs[i].Dead(), |rs|);
    assert rs[i := rs[i].Dead()][..|rs|] == rs[i := rs[i].Dead()] && rs[..|rs|] == rs;
  }

  lemma RunningJob(lib: Lib, s: State)
    requires Inv(lib, s) && s.phase.Draining?
    ensures JobOk(Records(lib, s.disk.db), s.mem, s.phase.job) && WfLog(lib, s.mem.log) && s != START
    ensures Sound(Records(lib, s.disk.db), s.mem.index) && ValidDb(lib, s.disk.db)
  {
    hide Records, JobOk, Sound, WfLog, IdxOk, ValidDb, LogOf, LogBytes;
  }

  lemma AfterDrain(lib: Lib, s: State, k: Key)
    requires Inv(lib, s) && Enabled(lib, s, Drain(k))
    ensures ValidDb(lib, Next(lib, s, Drain(k)).disk.db)
  {
    hide Inv, Enabled, DrainOne, ValidDb, JobOk, Sound, Records;
    StepInv(lib, s, Drain(k));
    RunningJobNext(lib, s, k);
    RunningJob(lib, Next(lib, s, Drain(k)));
  }

  lemma RunningJobNext(lib: Lib, s: State, k: Key)
    requires Enabled(lib, s, Drain(k))
    ensures Next(lib, s, Drain(k)).phase.Draining?
  {
    hide DrainOne;
  }

  /** The plain map machine: apply the logged operations in order; nothing else matters. */
  function Logged(m: Fields, acts: seq<Action>): Fields {
    if acts == [] then m
    else
      var done := Logged(m, acts[..|acts| - 1]);
      match acts[|acts| - 1]
      case Log(e) => ApplyEntry(e, done)
      case _ => done
  }

  lemma LoggedOperation(m: Fields, acts: seq<Action>, e: WalEntry)
    ensures Logged(m, acts + [Log(e), Apply]) == ApplyEntry(e, Logged(m, acts))
  {
    hide ApplyEntry;
    assert (acts + [Log(e), Apply])[..|acts| + 1] == acts + [Log(e)];
    assert (acts + [Log(e)])[..|acts|] == acts;
  }

  /**
   Sets and deletes alone, cut off anywhere: only the log file has changed, it stands for
   exactly the operations logged so far, and memory shows them.
   */
  lemma {:induction false} LoggingRun(lib: Lib, s: State, acts: seq<Action>)
    requires Inv(lib, s) && Synced(lib, s) && s.phase.Idle? && Legal(lib, s, acts)
    requires forall i :: 0 <= i < |acts| ==> acts[i].Log? || acts[i].Apply?
    ensures
      var t := Exec(lib, s, acts);
      && Inv(lib, t) && Synced(lib, t) && !t.phase.Down? && t != START
      && t.disk.db == s.disk.db && t.disk.idx == s.disk.idx
      && Durable(lib, t.disk) == Logged(Durable(lib, s.disk), acts)
    decreases |acts|
  {
    hide Inv, Next, Enabled, Synced, Durable, ApplyEntry;
    if acts != [] {
      var init, a := acts[..|acts| - 1], acts[|acts| - 1];
      LoggingRun(lib, s, init);
      var t := Exec(lib, s, init);
      assert a.Log? || a.Apply?;
      StepInv(lib, t, a);
      StepSynced(lib, t, a);
      StepDurable(lib, t, a);
      StepNotStart(lib, t, a);
      LoggingStep(lib, t, a);
    }
  }

  lemma LoggingStep(lib: Lib, t: State, a: Action)
    requires (a.Log? || a.Apply?) && Enabled(lib, t, a)
    ensures
      var t' := Next(lib, t, a);
      !t'.phase.Down? && t'.disk.db == t.disk.db && t'.disk.idx == t.disk.idx
  {
    hide EntryBytes, WfEntry;
  }

  /** The steps of flush before the log truncation, and any crashes and reopenings between them. */
  predicate Recoverable(a: Action) {
    !a.Log? && !a.Checkpoint? && !a.Apply?
  }

  lemma {:induction false} FlushKeepsDurable(lib: Lib, s: State, acts: seq<Action>)
    requires Inv(lib, s) && Legal(lib, s, acts)
    requires forall i :: 0 <= i < |acts| ==> Recoverable(acts[i])
    ensures Durable(lib, Exec(lib, s, acts).disk) == Durable(lib, s.disk)
    ensures Synced(lib, s) ==> Synced(lib, Exec(lib, s, acts))
    decreases |acts|
  {
    hide Inv, Next, Enabled, Durable, Synced;
    if acts != [] {
      var init := acts[..|acts| - 1];
      FlushKeepsDurable(lib, s, init);
      RunInv(lib, s, init);
      assert Recoverable(acts[|acts| - 1]);
      StepDurable(lib, Exec(lib, s, init), acts[|acts| - 1]);
      if Synced(lib, s) { StepSynced(lib, Exec(lib, s, init), acts[|acts| - 1]); }
    }
  }

  /**
   Crash recovery. Start from any running state in which memory agrees with the files and
   run flush up to, but not including, the log truncation: any number of its file commands,
   in any order the hash map yields, with any crashes, reopenings and further attempts in
   between. If the process dies there, the files open if and only if an index file is there
   to read or no live record has an empty key, and then they give back exactly the fields
   that were visible at the start. Older live copies of a key do not matter.
   */
  lemma CrashRecovery(lib: Lib, s: State, acts: seq<Action>, name: Bytes)
    requires Inv(lib, s) && Synced(lib, s) && !s.phase.Down? && Legal(lib, s, acts)
    requires forall i :: 0 <= i < |acts| ==> Recoverable(acts[i])
    ensures
      var left := Exec(lib, s, acts).disk;
      var r := OpenDb(lib, name, left);
      && (r.Ok? <==> |name| <= 64 && Opens(lib, left))
      && (r.Ok? ==> r.value.0.fields == Visible(s))
      && (!r.Ok? ==> r == Err(if |name| > 64 then DbNameTooLong else InvalidIndexEntry))
  {
    hide OpenDb, Exec, Durable, DiskOk, MemOk, Visible, Legal, Opens;
    var s' := Exec(lib, s, acts);
    RunInv(lib, s, acts);
    FlushKeepsDurable(lib, s, acts);
    StaysOpen(lib, s, acts);
    OpenRecovers(lib, name, s'.disk);
  }

  lemma {:induction false} StaysOpen(lib: Lib, s: State, acts: seq<Action>)
    requires Inv(lib, s) && Legal(lib, s, acts) && s != START
    ensures Exec(lib, s, acts) != START
    decreases |acts|
  {
    hide Next, Enabled, DiskOk, MemOk;
    if acts != [] {
      var init := acts[..|acts| - 1];
      StaysOpen(lib, s, init);
      RunInv(lib, s, init);
      StepInv(lib, Exec(lib, s, init), acts[|acts| - 1]);
      StepNotStart(lib, Exec(lib, s, init), acts[|acts| - 1]);
    }
  }

  lemma NonEmptyDb(lib: Lib, d: Disk)
    requires DiskOk(lib, d)
    ensures d.db != []
  {
    hide WalOk, IdxOk, Records, RecsBytes, WfRecs;
  }

  /** A file that holds a database never becomes empty again. */
  lemma StepNotStart(lib: Lib, s: State, a: Action)
    requires Inv(lib, s) && s != START && Enabled(lib, s, a)
    ensures Next(lib, s, a) != START
  {
    hide DiskOk, MemOk, WfEntry, HeaderBytes;
    NonEmptyDb(lib, s.disk);
    match a
    case Crash =>
    case Reopen(name) => ReopenInv(lib, s, name);
    case _ =>
  }

  /**
   Which disks open at all. With a whole data file, a readable log and an index file that
   is empty or readable, opening fails in one case only: the index file is empty, so the
   index must be scanned, and a live record has an empty key.
   */
  lemma OpensExactly(lib: Lib, name: Bytes, d: Disk)
    requires ValidDb(lib, d.db) && DecodeLog(lib, d.wal).Ok?
    requires d.idx == [] || DecodeIndex(d.idx).Ok?
    ensures OpenDb(lib, name, d).Ok? <==> |name| <= 64 && (d.idx != [] || NoEmptyKey(Records(lib, d.db)))
    ensures !OpenDb(lib, name, d).Ok? ==>
              OpenDb(lib, name, d) == Err(if |name| > 64 then DbNameTooLong else InvalidIndexEntry)
  {
    hide DecodeDb, DecodeIndex, DecodeIndexFromDb, DecodeLog, Records, DbMap, IndexOf, ReplayLog, NoEmptyKey,
      DecodeHeader, RecsBytes, WfRecs;
    ImageDecodes(lib, d.db, Records(lib, d.db));
    ImageIndexes(lib, d.db, Records(lib, d.db));
  }
}
