/**
 Whole runs of the engine refine a plain map, exactly as long as no flush that reaches its
 log truncation was asked to delete a key with a live record its index entry does not name.
 */
module Refinement {
  import opened Bytes
  import opened Dtypes
  import opened Format
  import opened FileImage
  import opened LogFile
  import opened Replay
  import opened RecordMaps
  import opened Engine
  import opened EngineSteps
  import opened Recovery
  import opened FlushLaw

  /** The plain map that starts empty and takes every logged operation of the run. */
  function Plain(acts: seq<Action>): Fields {
    Logged(map[], acts)
  }

  /** The last flush that the run began found its deletions clean. */
  ghost predicate BeganClean(lib: Lib, s: State, acts: seq<Action>) {
    && acts != []
    && var init := acts[..|acts| - 1];
       if acts[|acts| - 1].BeginFlush? then
         var t := Exec(lib, s, init);
         Clean(Records(lib, t.disk.db), t.mem.index, Net(t.mem.log))
       else BeganClean(lib, s, init)
  }

  /** Every flush of the run that got as far as truncating the log began with clean deletions. */
  ghost predicate CleanCompleted(lib: Lib, s: State, acts: seq<Action>) {
    acts != [] ==>
      var init := acts[..|acts| - 1];
      CleanCompleted(lib, s, init) && (acts[|acts| - 1].Checkpoint? ==> BeganClean(lib, s, init))
  }

  /** The data file shows, for each given key, what its net operation leaves. */
  predicate Shows(rs: seq<Rec>, net: map<Key, WalEntry>, keys: set<Key>) {
    forall k :: k in keys && k in net ==> Lookup(DbMap(rs), k) == Effect(net[k])
  }

  predicate NoLeftovers(rs: seq<Rec>, index: Index, net: map<Key, WalEntry>) {
    forall k :: k in net && net[k].Delete? ==> Leftover(rs, index, k) == None
  }

  /** A running flush has settled the keys it has visited, and will settle the others. */
  ghost predicate Settled(lib: Lib, s: State) {
    var rs := Records(lib, s.disk.db);
    match s.phase
    case Draining(job) =>
      && Shows(rs, job.net, job.net.Keys - job.todo)
      && NoLeftovers(rs, s.mem.index, job.net)
    case Down => true
    case Idle => true
    case Applying(_) => true
    case _ => Shows(rs, Net(s.mem.log), Net(s.mem.log).Keys)
  }

  lemma CleanStart(rs: seq<Rec>, index: Index, net: map<Key, WalEntry>)
    requires Clean(rs, index, net)
    ensures NoLeftovers(rs, index, net)
  {
    hide OnlyIndexed, Leftover;
    forall k | k in net && net[k].Delete?
      ensures Leftover(rs, index, k) == None
    {
      LeftoverNone(rs, index, k);
    }
  }

  lemma SettledDrain(lib: Lib, rs: seq<Rec>, mem: Memory, job: Job, k: Key)
    requires WfLog(lib, mem.log) && Sound(rs, mem.index) && JobOk(rs, mem, job) && k in job.net
    requires Shows(rs, job.net, job.net.Keys - job.todo) && NoLeftovers(rs, mem.index, job.net)
    ensures
      var rs' := DrainRecs(rs, job, k);
      Shows(rs', job.net, job.net.Keys - (job.todo - {k})) && NoLeftovers(rs', mem.index, job.net)
  {
    hide DbMap, Leftover, DrainRecs, JobOk, WfLog, Sound, Lookup;
    var rs' := DrainRecs(rs, job, k);
    forall other | other in job.net && other !in job.todo - {k}
      ensures Lookup(DbMap(rs'), other) == Effect(job.net[other])
    {
      if other == k {
        DrainHere(lib, rs, mem, job, k);
      } else {
        DrainElsewhere(lib, rs, mem, job, k, other);
      }
    }
    forall other | other in job.net && job.net[other].Delete?
      ensures Leftover(rs', mem.index, other) == None
    {
      DrainLeftover(lib, rs, mem, job, k, other);
    }
  }

  lemma SettledDrainStep(lib: Lib, s: State, k: Key)
    requires Inv(lib, s) && Enabled(lib, s, Drain(k)) && Settled(lib, s)
    ensures Settled(lib, Next(lib, s, Drain(k)))
  {
    hide DrainOne, Records, DrainRecs, JobOk, Sound, WfLog, IdxOk, ValidDb, LogOf, LogBytes, Shows, NoLeftovers;
    DrainInv(lib, s, k);
    DrainJobNext(lib, s.disk.db, s.phase.job, k);
    SettledDrain(lib, Records(lib, s.disk.db), s.mem, s.phase.job, k);
  }

  lemma SettledCommit(lib: Lib, s: State)
    requires Inv(lib, s) && Enabled(lib, s, Commit) && Settled(lib, s)
    ensures Settled(lib, Next(lib, s, Commit))
  {
    hide DiskOk, Records, LogOf, Sound, DbMap, Net, DeletePlan, NoLeftovers;
  }

  lemma SettledPatch(lib: Lib, s: State)
    requires Inv(lib, s) && Enabled(lib, s, PatchCount) && Settled(lib, s)
    ensures Settled(lib, Next(lib, s, PatchCount))
  {
    hide Inv, Records, Shows;
    PatchInv(lib, s);
  }

  lemma StepSettled(lib: Lib, s: State, a: Action)
    requires Inv(lib, s) && Enabled(lib, s, a) && Settled(lib, s)
    requires a.BeginFlush? ==> Clean(Records(lib, s.disk.db), s.mem.index, Net(s.mem.log))
    ensures Settled(lib, Next(lib, s, a))
  {
    hide DiskOk, MemOk, OpenDb, WfEntry, DrainOne, Records, Net, DeletePlan, DbMap, Leftover, Clean, NoLeftovers;
    match a
    case BeginFlush => CleanStart(Records(lib, s.disk.db), s.mem.index, Net(s.mem.log));
    case Drain(k) => SettledDrainStep(lib, s, k);
    case Commit => SettledCommit(lib, s);
    case PatchCount => SettledPatch(lib, s);
    case Reopen(name) => ReopenInv(lib, s, name);
    case _ =>
  }

  /** Truncating the log loses nothing once the data file shows every net operation. */
  lemma SettledDurable(lib: Lib, s: State)
    requires Inv(lib, s) && Enabled(lib, s, Checkpoint) && Settled(lib, s)
    ensures DbMap(Records(lib, s.disk.db)) == Durable(lib, s.disk)
  {
    hide DiskOk, Records, LogOf, Sound, DbMap, Net, ReplayLog;
    var m := DbMap(Records(lib, s.disk.db));
    forall k
      ensures Lookup(m, k) == Lookup(ReplayLog(s.mem.log, m), k)
    {
      ReplayAt(s.mem.log, m, k);
    }
    MapsEqual(m, ReplayLog(s.mem.log, m));
  }

  lemma StepRefines(lib: Lib, s: State, a: Action)
    requires Inv(lib, s) && Enabled(lib, s, a) && Synced(lib, s) && (a.Checkpoint? ==> Settled(lib, s))
    ensures Synced(lib, Next(lib, s, a))
    ensures Durable(lib, Next(lib, s, a).disk) ==
            if a.Log? then ApplyEntry(a.e, Durable(lib, s.disk)) else Durable(lib, s.disk)
  {
    hide Inv, Settled, Next, Durable, DbMap, Records, ApplyEntry;
    StepDurable(lib, s, a);
    if a.Checkpoint? {
      SettledDurable(lib, s);
      CheckpointSynced(lib, s);
      assert Visible(s) == s.mem.fields;
    } else {
      StepSynced(lib, s, a);
    }
  }

  /** Whatever else happened, a flush that began clean is settled as far as it got. */
  lemma {:induction false} RunSettles(lib: Lib, acts: seq<Action>)
    requires Legal(lib, START, acts) && BeganClean(lib, START, acts)
    ensures Settled(lib, Exec(lib, START, acts))
    decreases |acts|
  {
    hide Inv, Settled, Next, Enabled, Clean, Records, Net;
    var init, a := acts[..|acts| - 1], acts[|acts| - 1];
    var t := Exec(lib, START, init);
    StartInv(lib);
    RunInv(lib, START, init);
    if a.BeginFlush? {
      IdleSettled(lib, t);
    } else {
      RunSettles(lib, init);
    }
    StepSettled(lib, t, a);
  }

  lemma IdleSettled(lib: Lib, s: State)
    requires Enabled(lib, s, BeginFlush)
    ensures Settled(lib, s)
  {
  }

  /**
   Flush refinement over runs. Take any legal run from fresh files: sets and deletes cut
   in two by a crash or not, flushes abandoned anywhere or completed, reopenings. If every
   flush that truncated the log began with clean deletions, then the files stand for the
   plain map obtained by applying all logged operations in order, and so does memory.
   */
  lemma {:induction false} RunRefines(lib: Lib, acts: seq<Action>)
    requires Legal(lib, START, acts) && CleanCompleted(lib, START, acts)
    ensures
      var s := Exec(lib, START, acts);
      && Inv(lib, s) && Synced(lib, s)
      && (BeganClean(lib, START, acts) ==> Settled(lib, s))
      && Durable(lib, s.disk) == Plain(acts)
    decreases |acts|
  {
    hide Inv, Settled, Next, Enabled, Durable, BeganClean, ApplyEntry, Synced;
    if acts == [] {
      StartSettled(lib);
    } else {
      var init, a := acts[..|acts| - 1], acts[|acts| - 1];
      RunRefines(lib, init);
      var t := Exec(lib, START, init);
      StepInv(lib, t, a);
      StepRefines(lib, t, a);
    }
    if BeganClean(lib, START, acts) { RunSettles(lib, acts); }
  }

  lemma StartSettled(lib: Lib)
    ensures Inv(lib, START) && Settled(lib, START) && Synced(lib, START) && Durable(lib, START.disk) == map[]
  {
    WalEmpty(lib);
    assert Records(lib, []) == [];
  }

  /** Reopening after any such run, if the files open at all, returns the plain map. */
  lemma ReopenGivesPlainMap(lib: Lib, acts: seq<Action>, name: Bytes)
    requires Legal(lib, START, acts) && CleanCompleted(lib, START, acts)
    ensures
      var s := Exec(lib, START, acts);
      && (OpenDb(lib, name, s.disk).Ok? <==> |name| <= 64 && Opens(lib, s.disk))
      && (OpenDb(lib, name, s.disk).Ok? ==> OpenDb(lib, name, s.disk).value.0.fields == Plain(acts))
      && (!s.phase.Down? ==> Visible(s) == Plain(acts))
  {
    hide Inv, Settled, Durable, OpenDb, Exec, Legal, CleanCompleted, BeganClean, Opens, Records, ValidDb, Sound,
      NoEmptyKey;
    RunRefines(lib, acts);
    AlwaysRecoverable(lib, acts, name);
  }

  // ---------------------------------------------------------------------------
  // No weaker condition will do

  predicate Flushing(phase: Phase) {
    phase.Draining? || phase.Counting? || phase.Truncating? || phase.Indexing? || phase.Checkpointing?
  }

  /** A deleted key that will show again: its leftover is waiting, or already in plain sight. */
  predicate Reviving(rs: seq<Rec>, index: Index, job: Job, k: Key) {
    && k in job.net && job.net[k].Delete?
    && Leftover(rs, index, k) != None
    && (k !in job.todo ==> Lookup(DbMap(rs), k) != None)
  }

  /** A running flush deletes `k`, and will leave it in the data file. */
  ghost predicate Spoiled(lib: Lib, s: State, k: Key) {
    var rs := Records(lib, s.disk.db);
    match s.phase
    case Draining(job) => Reviving(rs, s.mem.index, job, k)
    case _ => k in Net(s.mem.log) && Net(s.mem.log)[k].Delete? && Lookup(DbMap(rs), k) != None
  }

  lemma UncleanStart(rs: seq<Rec>, index: Index, net: map<Key, WalEntry>) returns (k: Key)
    requires !Clean(rs, index, net)
    ensures k in net && net[k].Delete? && Leftover(rs, index, k) != None
  {
    hide OnlyIndexed, Leftover;
    k :| k in net && net[k].Delete? && !OnlyIndexed(rs, index, k);
    LeftoverNone(rs, index, k);
  }

  lemma RevivingDrain(lib: Lib, rs: seq<Rec>, mem: Memory, job: Job, drained: Key, k: Key)
    requires WfLog(lib, mem.log) && Sound(rs, mem.index) && JobOk(rs, mem, job)
    requires drained in job.net && drained in job.todo
    requires Reviving(rs, mem.index, job, k)
    ensures
      var rs' := DrainRecs(rs, job, drained);
      && Leftover(rs', mem.index, k) != None
      && (k !in job.todo - {drained} ==> Lookup(DbMap(rs'), k) != None)
  {
    hide DbMap, Leftover, DrainRecs, JobOk, WfLog, Sound, Lookup;
    DrainLeftover(lib, rs, mem, job, drained, k);
    if drained == k {
      DrainHere(lib, rs, mem, job, k);
    } else {
      DrainElsewhere(lib, rs, mem, job, drained, k);
    }
  }

  lemma SpoiledDrain(lib: Lib, s: State, drained: Key, k: Key)
    requires Inv(lib, s) && Enabled(lib, s, Drain(drained)) && Spoiled(lib, s, k)
    ensures Spoiled(lib, Next(lib, s, Drain(drained)), k)
  {
    hide DrainOne, Records, DrainRecs, JobOk, Sound, WfLog, IdxOk, ValidDb, LogOf, LogBytes, Leftover, DbMap, Inv;
    DrainInv(lib, s, drained);
    RunningJob(lib, s);
    DrainJobNext(lib, s.disk.db, s.phase.job, drained);
    RevivingDrain(lib, Records(lib, s.disk.db), s.mem, s.phase.job, drained, k);
  }

  lemma SpoiledCommit(lib: Lib, s: State, k: Key)
    requires Inv(lib, s) && Enabled(lib, s, Commit) && Spoiled(lib, s, k)
    ensures Spoiled(lib, Next(lib, s, Commit), k)
  {
    hide Inv, JobOk, Records, Sound, DbMap, Net, DeletePlan, Leftover;
    RunningJob(lib, s);
    JobNet(Records(lib, s.disk.db), s.mem, s.phase.job);
  }

  lemma SpoiledPatch(lib: Lib, s: State, k: Key)
    requires Inv(lib, s) && Enabled(lib, s, PatchCount) && Spoiled(lib, s, k)
    ensures Spoiled(lib, Next(lib, s, PatchCount), k)
  {
    hide Inv, Records, DbMap, Net;
    PatchInv(lib, s);
  }

  lemma StepSpoils(lib: Lib, s: State, a: Action, k: Key)
    requires Inv(lib, s) && Enabled(lib, s, a) && Flushing(s.phase) && Spoiled(lib, s, k)
    requires Flushing(Next(lib, s, a).phase) && !a.BeginFlush?
    ensures Spoiled(lib, Next(lib, s, a), k)
  {
    hide DiskOk, MemOk, OpenDb, WfEntry, DrainOne, Records, Net, DbMap, Leftover;
    match a
    case Drain(drained) => SpoiledDrain(lib, s, drained, k);
    case Commit => SpoiledCommit(lib, s, k);
    case PatchCount => SpoiledPatch(lib, s, k);
    case _ =>
  }

  lemma BeginSpoils(lib: Lib, s: State) returns (k: Key)
    requires Enabled(lib, s, BeginFlush) && !Clean(Records(lib, s.disk.db), s.mem.index, Net(s.mem.log))
    ensures Spoiled(lib, Next(lib, s, BeginFlush), k)
  {
    hide Records, Net, DbMap, Leftover, Clean, DeletePlan;
    k := UncleanStart(Records(lib, s.disk.db), s.mem.index, Net(s.mem.log));
  }

  /** Only these steps lead into or along a flush. */
  lemma FlushingStep(lib: Lib, s: State, a: Action)
    requires Enabled(lib, s, a) && Flushing(Next(lib, s, a).phase)
    ensures a.BeginFlush? || Flushing(s.phase)
  {
    hide OpenDb, DrainOne, WfEntry;
  }

  lemma {:induction false} RunSpoils(lib: Lib, acts: seq<Action>) returns (k: Key)
    requires Legal(lib, START, acts) && !BeganClean(lib, START, acts)
    requires Flushing(Exec(lib, START, acts).phase)
    ensures Spoiled(lib, Exec(lib, START, acts), k)
    decreases |acts|
  {
    hide Inv, Spoiled, Next, Enabled, Clean, Records, Net, Flushing;
    if acts == [] {
      k := [];
      assert false by { NotFlushing(); }
    } else {
      var init, a := acts[..|acts| - 1], acts[|acts| - 1];
      var t := Exec(lib, START, init);
      StartInv(lib);
      RunInv(lib, START, init);
      FlushingStep(lib, t, a);
      if a.BeginFlush? {
        k := BeginSpoils(lib, t);
      } else {
        k := RunSpoils(lib, init);
        StepSpoils(lib, t, a, k);
      }
    }
  }

  lemma NotFlushing()
    ensures !Flushing(START.phase)
  {
  }

  /** Truncating the log then changes what the files stand for. */
  lemma SpoiledCheckpoint(lib: Lib, s: State, k: Key)
    requires Inv(lib, s) && Enabled(lib, s, Checkpoint) && Spoiled(lib, s, k)
    ensures Durable(lib, Next(lib, s, Checkpoint).disk) != Durable(lib, s.disk)
  {
    hide DiskOk, Records, LogOf, Sound, DbMap, Net, ReplayLog, Next;
    StepDurable(lib, s, Checkpoint);
    var m := DbMap(Records(lib, s.disk.db));
    ReplayAt(s.mem.log, m, k);
    assert Lookup(Durable(lib, s.disk), k) != Lookup(m, k);
  }

  /**
   The exact condition over runs: the files stand for the plain map at every moment of a
   legal run if and only if each flush that truncated the log had begun with clean
   deletions. It can be checked when the flush begins.
   */
  lemma {:induction false} RefinesExactly(lib: Lib, acts: seq<Action>)
    requires Legal(lib, START, acts)
    ensures (forall n :: 0 <= n <= |acts| ==> Durable(lib, Exec(lib, START, acts[..n]).disk) == Plain(acts[..n]))
            <==> CleanCompleted(lib, START, acts)
    decreases |acts|
  {
    hide Inv, Next, Enabled, Durable, BeganClean, ApplyEntry, Synced, Settled, Plain;
    assert acts[..|acts|] == acts;
    if acts == [] {
      RunRefines(lib, acts);
    } else {
      var init, a := acts[..|acts| - 1], acts[|acts| - 1];
      RefinesExactly(lib, init);
      forall n | 0 <= n <= |init|
        ensures acts[..n] == init[..n]
      {
      }
      if CleanCompleted(lib, START, acts) { RunRefines(lib, acts); }
      if a.Checkpoint? && !BeganClean(lib, START, init) {
        UncleanTruncation(lib, init);
        assert Plain(acts) == Plain(init) by { PlainTruncation(acts); }
        assert init[..|init|] == init;
        assert acts[..|init|] == init;
      }
    }
  }

  lemma PlainTruncation(acts: seq<Action>)
    requires acts != [] && acts[|acts| - 1].Checkpoint?
    ensures Plain(acts) == Plain(acts[..|acts| - 1])
  {
  }

  lemma UncleanTruncation(lib: Lib, init: seq<Action>)
    requires Legal(lib, START, init) && !BeganClean(lib, START, init)
    requires Enabled(lib, Exec(lib, START, init), Checkpoint)
    ensures
      var t := Exec(lib, START, init);
      Durable(lib, Next(lib, t, Checkpoint).disk) != Durable(lib, t.disk)
  {
    hide Inv, Next, Durable, BeganClean, Exec, Legal, Spoiled;
    StartInv(lib);
    RunInv(lib, START, init);
    var k := RunSpoils(lib, init);
    SpoiledCheckpoint(lib, Exec(lib, START, init), k);
  }

  /**
   Why the flushes must be clean: after a key was set and flushed twice, the data file
   holds both values, the index names the later one, and deleting through the index brings
   the earlier value back.
   */
  lemma DeleteRevivesOlderCopy(k: Key, a: Field, b: Field)
    ensures
      var rs := [Live(k, a), Live(k, b)];
      var net := map[k := Delete(k)];
      && Lookup(DbMap(rs), k) == Some(b)
      && k in IndexOf(rs) && IndexOf(rs)[k].offset == Offset(rs, 1)
      && !Clean(rs, IndexOf(rs), net)
      && Law(rs, IndexOf(rs), net, k) == Some(a)
  {
    hide FieldBytes;
    var rs := [Live(k, a), Live(k, b)];
    assert rs[..1] == [Live(k, a)];
    IndexOfAt(rs, k);
    DbMapAt(rs, k);
    PositionFound(rs, 1);
    LastLiveIs(rs, k, 1, 0);
    assert Leftover(rs, IndexOf(rs), k) == Some(a);
    LeftoverNone(rs, IndexOf(rs), k);
  }
}
