/**
 Crashes between the file commands of a method. What a method writes, command by command, is
 what its run of the machine writes, so every disk it leaves on the way is one of that run.
 */
module Journals {
  import opened Bytes
  import opened Dtypes
  import opened Format
  import opened Files
  import opened Engine
  import opened EngineSteps
  import opened Recovery
  import opened FlushLaw
  import opened FileImage
  import opened LogFile
  import opened Replay

  lemma TracesAppend(lib: Lib, s: State, acts: seq<Action>, a: Action)
    ensures RunTraces(lib, s, acts + [a]) == RunTraces(lib, s, acts) + Traces(lib, Exec(lib, s, acts), a)
  {
    hide Traces;
    assert (acts + [a])[..|acts|] == acts;
  }

  lemma {:induction false} TracesCompose(lib: Lib, s: State, a: seq<Action>, b: seq<Action>)
    ensures RunTraces(lib, s, a + b) == RunTraces(lib, s, a) + RunTraces(lib, Exec(lib, s, a), b)
    decreases |b|
  {
    hide Traces, Next;
    if b == [] {
      assert a + b == a;
    } else {
      var init, last := b[..|b| - 1], b[|b| - 1];
      assert a + b == (a + init) + [last];
      TracesCompose(lib, s, a, init);
      TracesAppend(lib, s, a + init, last);
      RunsCompose(lib, s, a, init);
    }
  }

  lemma NoTraces(lib: Lib, s: State)
    ensures RunTraces(lib, s, []) == [] && RunTraces(lib, s, Drains([])) == []
  {
  }

  lemma TracesTwo(lib: Lib, s: State, a: Action, b: Action)
    ensures RunTraces(lib, s, [a, b]) == Traces(lib, s, a) + Traces(lib, Next(lib, s, a), b)
  {
    hide Traces, Next;
    assert [a, b] == ([] + [a]) + [b];
    TracesAppend(lib, s, [], a);
    TracesAppend(lib, s, [] + [a], b);
    LegalPrefix(lib, s, [], a);
    assert RunTraces(lib, s, []) + Traces(lib, s, a) == Traces(lib, s, a);
  }

  /** A set or a delete: first the log file grows, then the change shows. */
  lemma OperationTraces(lib: Lib, s: State, e: WalEntry)
    requires s.phase.Idle?
    ensures RunTraces(lib, s, [Log(e), Apply])
            == [Wrote(WalFile, s.disk.wal + EntryBytes(e)), Shown(ApplyEntry(e, s.mem.fields))]
  {
    hide EntryBytes;
    TracesTwo(lib, s, Log(e), Apply);
  }

  lemma TracesFive(lib: Lib, s: State, a: Action, b: Action, c: Action, d: Action, e: Action)
    ensures
      var s1 := Next(lib, s, a);
      var s2 := Next(lib, s1, b);
      var s3 := Next(lib, s2, c);
      var s4 := Next(lib, s3, d);
      RunTraces(lib, s, [a, b, c, d, e])
      == Traces(lib, s, a) + Traces(lib, s1, b) + Traces(lib, s2, c) + Traces(lib, s3, d) + Traces(lib, s4, e)
  {
    hide Traces, Next;
    var s2 := Next(lib, Next(lib, s, a), b);
    assert [a, b, c, d, e] == [a, b] + [c, d] + [e];
    TracesTwo(lib, s, a, b);
    TwoSteps(lib, s, a, b);
    TracesCompose(lib, s, [a, b], [c, d]);
    TracesTwo(lib, s2, c, d);
    TwoSteps(lib, s2, c, d);
    RunsCompose(lib, s, [a, b], [c, d]);
    TracesAppend(lib, s, [a, b] + [c, d], e);
  }

  /** The five steps that end a flush, seen from outside. */
  lemma FinishTraces(lib: Lib, d: State, items: seq<(Key, IndexEntry)>, s': State)
    requires d.phase.Draining?
    requires s' == Exec(lib, d, [Commit, PatchCount, TruncateIndex, WriteIndex(items), Checkpoint])
    ensures RunTraces(lib, d, [Commit, PatchCount, TruncateIndex, WriteIndex(items), Checkpoint])
            == [Shown(s'.mem.fields), Wrote(DbFile, s'.disk.db), Wrote(IdxFile, SetLength(d.disk.idx, 0)),
                Wrote(IdxFile, s'.disk.idx), Wrote(WalFile, s'.disk.wal)]
  {
    hide SetLength, Exec, RunTraces, Next;
    var s1 := Next(lib, d, Commit);
    var s2 := Next(lib, s1, PatchCount);
    var s3 := Next(lib, s2, TruncateIndex);
    var s4 := Next(lib, s3, WriteIndex(items));
    FiveSteps(lib, d, Commit, PatchCount, TruncateIndex, WriteIndex(items), Checkpoint);
    TracesFive(lib, d, Commit, PatchCount, TruncateIndex, WriteIndex(items), Checkpoint);
    CommitLeaves(lib, d);
    StepLeaves(lib, s1, PatchCount);
    StepLeaves(lib, s2, TruncateIndex);
    StepLeaves(lib, s3, WriteIndex(items));
    StepLeaves(lib, s4, Checkpoint);
  }

  lemma CommitLeaves(lib: Lib, s: State)
    ensures Next(lib, s, Commit).disk == s.disk
  {
  }

  lemma StepLeaves(lib: Lib, s: State, a: Action)
    requires a.PatchCount? || a.TruncateIndex? || a.WriteIndex? || a.Checkpoint?
    ensures
      var t := Next(lib, s, a);
      && t.mem.fields == s.mem.fields
      && (a.PatchCount? || t.disk.db == s.disk.db)
      && (a.TruncateIndex? ==> t.disk.idx == SetLength(s.disk.idx, 0))
      && (a.TruncateIndex? || a.WriteIndex? || t.disk.idx == s.disk.idx)
  {
    hide WriteAt, SetLength, LE, IndexFileBytes;
  }

  /** A whole flush, seen from outside: the drained operations, then the five steps that end it. */
  lemma FlushTraces(lib: Lib, s: State, order: seq<Key>, items: seq<(Key, IndexEntry)>, s1: State, idx: Bytes)
    requires s1 == Next(lib, s, BeginFlush)
    requires
      var d := Exec(lib, s1, Drains(order));
      d.phase.Draining? && d.disk.idx == idx
    ensures
      var s' := Exec(lib, s, FlushActs(order, items));
      RunTraces(lib, s, FlushActs(order, items))
      == RunTraces(lib, s1, Drains(order)) +
         [Shown(s'.mem.fields), Wrote(DbFile, s'.disk.db), Wrote(IdxFile, SetLength(idx, 0)),
          Wrote(IdxFile, s'.disk.idx), Wrote(WalFile, s'.disk.wal)]
  {
    hide Next, Exec, RunTraces, SetLength, Drains;
    var tail := [Commit, PatchCount, TruncateIndex, WriteIndex(items), Checkpoint];
    var s' := Exec(lib, s, FlushActs(order, items));
    assert [] + [BeginFlush] == [BeginFlush];
    LegalPrefix(lib, s, [], BeginFlush);
    NoActs(lib, s);
    RunsCompose(lib, s, [BeginFlush], Drains(order));
    RunsCompose(lib, s, [BeginFlush] + Drains(order), tail);
    TracesCompose(lib, s, [BeginFlush] + Drains(order), tail);
    TracesCompose(lib, s, [BeginFlush], Drains(order));
    BeginTraces(lib, s);
    FinishTraces(lib, Exec(lib, s1, Drains(order)), items, s');
  }

  lemma BeginTraces(lib: Lib, s: State)
    ensures RunTraces(lib, s, [BeginFlush]) == []
  {
    assert [] + [BeginFlush] == [BeginFlush];
    TracesAppend(lib, s, [], BeginFlush);
  }

  lemma TwoSteps(lib: Lib, s: State, a: Action, b: Action)
    ensures Exec(lib, s, [a, b]) == Next(lib, Next(lib, s, a), b)
  {
    hide Next;
    assert [a, b] == ([] + [a]) + [b];
    LegalPrefix(lib, s, [], a);
    LegalPrefix(lib, s, [] + [a], b);
  }

  // ---------------------------------------------------------------------------
  // What readers see on the way

  /** The map readers see after these events. */
  function LastShown(m: map<Key, Field>, traces: seq<Trace>): map<Key, Field> {
    if traces == [] then m
    else
      match traces[|traces| - 1]
      case Shown(fields) => fields
      case Wrote(_, _) => LastShown(m, traces[..|traces| - 1])
  }

  lemma ShownStep(lib: Lib, s: State, a: Action, m: map<Key, Field>, traces: seq<Trace>)
    requires !a.Reopen? && !a.Crash? && LastShown(m, traces) == s.mem.fields
    ensures LastShown(m, traces + Traces(lib, s, a)) == Next(lib, s, a).mem.fields
  {
    hide Traces, Next;
    var more := Traces(lib, s, a);
    StepShows(lib, s, a);
    if more == [] {
      assert traces + more == traces;
    } else {
      assert (traces + more)[..|traces|] == traces;
    }
  }

  /** A step shows at most one thing, and changes `fields` only by showing them. */
  lemma StepShows(lib: Lib, s: State, a: Action)
    requires !a.Reopen? && !a.Crash?
    ensures
      var more, fields := Traces(lib, s, a), Next(lib, s, a).mem.fields;
      && |more| <= 1
      && (more == [] || more[0].Wrote? ==> fields == s.mem.fields)
      && (more != [] && more[0].Shown? ==> more[0].fields == fields)
  {
    hide DrainOne, ApplyEntry, Net, DeletePlan, OpenDb, WriteAt, SetLength, LE, IndexFileBytes, EntryBytes;
  }

  /** While the process runs, `fields` is what was shown last. */
  lemma {:induction false} ShownRun(lib: Lib, s: State, acts: seq<Action>)
    requires forall i :: 0 <= i < |acts| ==> !acts[i].Reopen? && !acts[i].Crash?
    ensures LastShown(s.mem.fields, RunTraces(lib, s, acts)) == Exec(lib, s, acts).mem.fields
    decreases |acts|
  {
    hide Next, Traces;
    if acts != [] {
      var init := acts[..|acts| - 1];
      ShownRun(lib, s, init);
      ShownStep(lib, Exec(lib, s, init), acts[|acts| - 1], s.mem.fields, RunTraces(lib, s, init));
    }
  }

  /**
   Logged before shown, for any row of sets and deletes cut off anywhere between two events:
   the files open to the map last shown, or to that with just the one operation applied that
   was logged and not shown yet.
   */
  lemma LoggedBeforeShown(lib: Lib, s: State, acts: seq<Action>, m: nat, name: Bytes)
    requires Inv(lib, s) && Synced(lib, s) && s.phase.Idle? && Legal(lib, s, acts)
    requires forall i :: 0 <= i < |acts| ==> acts[i].Log? || acts[i].Apply?
    requires m <= |RunTraces(lib, s, acts)| && Opens(lib, s.disk) && |name| <= NAME_LEN
    ensures
      var seen := RunTraces(lib, s, acts)[..m];
      var r, shown := OpenDb(lib, name, DiskAfter(s.disk, seen)), LastShown(s.mem.fields, seen);
      r.Ok? && (r.value.0.fields == shown || exists e :: Log(e) in acts && r.value.0.fields == ApplyEntry(e, shown))
  {
    hide Inv, Exec, Legal, Synced, OpenDb, Opens, RunTraces, DiskAfter, LastShown, ApplyEntry, Durable;
    var n := DiskOnTheWay(lib, s, acts, m);
    LegalTake(lib, s, acts, n);
    assert forall i :: 0 <= i < n ==> acts[..n][i] == acts[i];
    LoggingRun(lib, s, acts[..n]);
    ShownRun(lib, s, acts[..n]);
    var t := Exec(lib, s, acts[..n]);
    OpensAs(lib, s, t, name);
    LastLogged(lib, s, acts[..n]);
    if t.phase.Applying? {
      assert Log(t.phase.e) in acts;
    }
  }

  lemma OpensAs(lib: Lib, s: State, t: State, name: Bytes)
    requires Inv(lib, t) && t != START && Opens(lib, s.disk) && |name| <= NAME_LEN && Synced(lib, t) && !t.phase.Down?
    requires t.disk.db == s.disk.db && t.disk.idx == s.disk.idx
    ensures OpenDb(lib, name, t.disk).Ok? && OpenDb(lib, name, t.disk).value.0.fields == Visible(t)
  {
    hide DiskOk, MemOk, OpenDb, Durable, NoEmptyKey, Records;
    OpenRecovers(lib, name, t.disk);
  }

  lemma {:induction false} LastLogged(lib: Lib, s: State, acts: seq<Action>)
    requires s.phase.Idle? && Legal(lib, s, acts)
    requires forall i :: 0 <= i < |acts| ==> acts[i].Log? || acts[i].Apply?
    ensures
      var t := Exec(lib, s, acts);
      t.phase.Idle? || (t.phase.Applying? && Log(t.phase.e) in acts)
  {
    hide EntryBytes, WfEntry;
    if acts != [] {
      var last := acts[|acts| - 1];
      assert last.Log? || last.Apply?;
    }
  }

  // ---------------------------------------------------------------------------
  // The disks on the way

  /** The three files after these events. */
  function DiskAfter(d: Disk, traces: seq<Trace>): Disk {
    if traces == [] then d
    else
      var left := DiskAfter(d, traces[..|traces| - 1]);
      match traces[|traces| - 1]
      case Wrote(DbFile, bytes) => left.(db := bytes)
      case Wrote(IdxFile, bytes) => left.(idx := bytes)
      case Wrote(WalFile, bytes) => left.(wal := bytes)
      case Shown(_) => left
  }

  lemma DiskStep(lib: Lib, s: State, a: Action, d: Disk, traces: seq<Trace>)
    requires !a.Reopen? && DiskAfter(d, traces) == s.disk
    ensures |Traces(lib, s, a)| <= 1
    ensures DiskAfter(d, traces + Traces(lib, s, a)) == Next(lib, s, a).disk
  {
    hide Traces, Next;
    var more := Traces(lib, s, a);
    StepWrites(lib, s, a);
    if more == [] {
      assert traces + more == traces;
    } else {
      assert (traces + more)[..|traces|] == traces;
    }
  }

  /** A step writes at most one file, and what it wrote is recorded. */
  lemma StepWrites(lib: Lib, s: State, a: Action)
    requires !a.Reopen?
    ensures
      var more, disk := Traces(lib, s, a), Next(lib, s, a).disk;
      && |more| <= 1
      && (more == [] || more[0].Shown? ==> disk == s.disk)
      && (more != [] && more[0].Wrote? ==>
            match more[0].file
            case DbFile => disk == s.disk.(db := more[0].contents)
            case IdxFile => disk == s.disk.(idx := more[0].contents)
            case WalFile => disk == s.disk.(wal := more[0].contents))
  {
    hide DrainOne, ApplyEntry, Net, DeletePlan, OpenDb, WriteAt, SetLength, LE, IndexFileBytes, EntryBytes;
    if a.Drain? && s.phase.Draining? && a.k in s.phase.job.net { DrainQuiet(lib, s.disk.db, s.phase.job, a.k); }
  }

  /** A deletion that the plan does not locate leaves the data file alone. */
  lemma DrainQuiet(lib: Lib, db: Bytes, job: Job, k: Key)
    requires k in job.net
    ensures job.net[k].Delete? && job.net[k].key !in job.plan ==> DrainOne(lib, db, job, k).0 == db
  {
    hide RecordBytes, TombstoneBytes, FieldBytes, WriteAt;
  }

  lemma {:induction false} DiskRun(lib: Lib, s: State, acts: seq<Action>)
    requires forall i :: 0 <= i < |acts| ==> !acts[i].Reopen?
    ensures DiskAfter(s.disk, RunTraces(lib, s, acts)) == Exec(lib, s, acts).disk
    decreases |acts|
  {
    hide Next, Traces;
    if acts != [] {
      var init := acts[..|acts| - 1];
      DiskRun(lib, s, init);
      DiskStep(lib, Exec(lib, s, init), acts[|acts| - 1], s.disk, RunTraces(lib, s, init));
    }
  }

  /** Wherever the writing stops, the disk is that of a beginning of the run. */
  lemma {:induction false} DiskOnTheWay(lib: Lib, s: State, acts: seq<Action>, m: nat) returns (n: nat)
    requires forall i :: 0 <= i < |acts| ==> !acts[i].Reopen?
    requires m <= |RunTraces(lib, s, acts)|
    ensures n <= |acts| && RunTraces(lib, s, acts)[..m] == RunTraces(lib, s, acts[..n])
    ensures DiskAfter(s.disk, RunTraces(lib, s, acts)[..m]) == Exec(lib, s, acts[..n]).disk
    ensures m < |RunTraces(lib, s, acts)| ==> n < |acts|
    decreases |acts|
  {
    hide Next, Traces;
    if m == |RunTraces(lib, s, acts)| {
      n := |acts|;
      assert acts[..n] == acts && RunTraces(lib, s, acts)[..m] == RunTraces(lib, s, acts);
      DiskRun(lib, s, acts);
    } else {
      var init := acts[..|acts| - 1];
      DiskRun(lib, s, init);
      DiskStep(lib, Exec(lib, s, init), acts[|acts| - 1], s.disk, RunTraces(lib, s, init));
      n := DiskOnTheWay(lib, s, init, m);
      assert init[..n] == acts[..n];
      assert RunTraces(lib, s, acts)[..m] == RunTraces(lib, s, init)[..m];
    }
  }

  /**
   Crash recovery for the method itself: of a flush from a sound idle state in which memory and
   files agree, cut off before its last file command, the files left open unless a live key is
   empty without an index file, and then to the fields it started from.
   */
  lemma CrashInsideFlush(lib: Lib, s: State, order: seq<Key>, items: seq<(Key, IndexEntry)>, m: nat, name: Bytes)
    requires Inv(lib, s) && s.phase.Idle? && Synced(lib, s) && Legal(lib, s, FlushActs(order, items))
    requires m < |RunTraces(lib, s, FlushActs(order, items))|
    ensures
      var left := DiskAfter(s.disk, RunTraces(lib, s, FlushActs(order, items))[..m]);
      var r := OpenDb(lib, name, left);
      && (r.Ok? <==> |name| <= 64 && Opens(lib, left))
      && (r.Ok? ==> r.value.0.fields == s.mem.fields)
  {
    hide Inv, Exec, Legal, Synced, OpenDb, Opens, RunTraces, DiskAfter;
    var n := DiskOnTheWay(lib, s, FlushActs(order, items), m);
    EveryCrashPointRecovers(lib, s, order, items, n, name);
  }
}
