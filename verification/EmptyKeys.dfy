/**
 The empty key: it can be set and flushed, but the scanner that stands in for an empty
 index file rejects it. When that costs a database its recovery, exactly, and that runs
 without it never lose theirs.
 */
module EmptyKeys {
  import opened Bytes
  import opened Dtypes
  import opened Format
  import opened FileImage
  import opened LogFile
  import opened Replay
  import opened RecordMaps
  import opened Engine
  import opened EngineSteps
  import opened Recovery
  import opened FlushLaw
  import opened Files
  import opened IndexFile
  import Header

  // ---------------------------------------------------------------------------
  // A run that ends in files that do not open

  /** Create a database, set the empty key, begin a flush, write its record, crash. */
  function FatalRun(name: Bytes, f: Field): seq<Action> {
    [Reopen(name), Log(Set([], f)), Apply, BeginFlush, Drain([]), Crash]
  }

  lemma SixSteps(lib: Lib, s: State, a: Action, b: Action, c: Action, d: Action, e: Action, f: Action)
    ensures Exec(lib, s, [a, b, c, d, e, f]) == Next(lib, Exec(lib, s, [a, b, c, d, e]), f)
    ensures Legal(lib, s, [a, b, c, d, e, f]) <==>
              Legal(lib, s, [a, b, c, d, e]) && Enabled(lib, Exec(lib, s, [a, b, c, d, e]), f)
  {
    hide Next, Enabled;
    assert [a, b, c, d, e, f] == [a, b, c, d, e] + [f];
    LegalPrefix(lib, s, [a, b, c, d, e], f);
  }

  /** The state in which the empty key's record is about to be written. */
  function Doomed(name: Bytes, f: Field): State {
    var e := Set([], f);
    State(Memory(map[[] := f], map[], [e]), Disk(HeaderBytes(name, 0), [], EntryBytes(e)),
          Draining(Job(map[[] := e], map[], {[]}, map[])))
  }

  lemma DoomedReached(lib: Lib, name: Bytes, f: Field)
    requires |name| <= NAME_LEN && WfEntry(lib, Set([], f))
    ensures
      var s1 := Next(lib, START, Reopen(name));
      var s2 := Next(lib, s1, Log(Set([], f)));
      var s3 := Next(lib, s2, Apply);
      && Enabled(lib, s1, Log(Set([], f))) && Enabled(lib, s2, Apply) && Enabled(lib, s3, BeginFlush)
      && Next(lib, s3, BeginFlush) == Doomed(name, f)
  {
    hide HeaderBytes, EntryBytes, WfEntry, OpenDb;
    FreshState(lib, name);
    var e := Set([], f);
    ReplayAppend([], e, map[]);
    assert [] + [e] == [e];
    assert [] + EntryBytes(e) == EntryBytes(e);
    assert DeletePlan(map[[] := e], map[]) == map[];
    var net: map<Key, WalEntry> := map[[] := e];
    assert Net([e]) == net && net.Keys == {[]};
    var s1 := Next(lib, START, Reopen(name));
    var s2 := Next(lib, s1, Log(e));
    assert s2 == State(Memory(map[], map[], [e]), Disk(HeaderBytes(name, 0), [], EntryBytes(e)), Applying(e));
    assert Next(lib, s2, Apply).mem.fields == map[[] := f];
  }

  lemma DoomedDrain(lib: Lib, name: Bytes, f: Field)
    requires |name| <= NAME_LEN && WfEntry(lib, Set([], f))
    ensures Enabled(lib, Doomed(name, f), Drain([]))
    ensures Next(lib, Doomed(name, f), Drain([])).disk ==
            Disk(HeaderBytes(name, 0) + RecordBytes(lib, [], f), [], EntryBytes(Set([], f)))
  {
    hide HeaderBytes, EntryBytes, RecordBytes, FieldBytes, WfField;
    FreshState(lib, name);
    assert |RecordBytes(lib, [], f)| == Live([], f).Size() by { RecordSize(lib, f); }
  }

  lemma RecordSize(lib: Lib, f: Field)
    ensures RecBytes(lib, Live([], f)) == RecordBytes(lib, [], f)
    ensures |RecordBytes(lib, [], f)| == Live([], f).Size()
  {
    hide RecordBytes, FieldBytes;
    assert RecBytes(lib, Live([], f)) == RecordBytes(lib, [], f);
  }

  /** The files of that run: whole data file, no index, live empty key. */
  lemma DoomedDisk(lib: Lib, name: Bytes, f: Field)
    requires |name| <= NAME_LEN && WfEntry(lib, Set([], f))
    ensures
      var d := Disk(HeaderBytes(name, 0) + RecordBytes(lib, [], f), [], EntryBytes(Set([], f)));
      Records(lib, d.db) == [Live([], f)] && !Opens(lib, d)
  {
    hide HeaderBytes, EntryBytes, RecordBytes, FieldBytes, WfField, Image, Records;
    var db := HeaderBytes(name, 0);
    FreshState(lib, name);
    Header.NewFileImage(lib, name, 0);
    RecordSize(lib, f);
    AppendImage(lib, db, [], Live([], f));
    assert [] + [Live([], f)] == [Live([], f)];
    ImageRecords(lib, db + RecordBytes(lib, [], f), [Live([], f)]);
    assert [Live([], f)][0].Holds([]);
    assert db + RecordBytes(lib, [], f) != [];
  }

  /**
   Recovery fails for the empty key: this legal run from fresh files leaves files that no
   opening accepts, although nothing was lost from them.
   */
  lemma EmptyKeyBlocksReopening(lib: Lib, name: Bytes, f: Field)
    requires |name| <= NAME_LEN && WfEntry(lib, Set([], f))
    ensures Legal(lib, START, FatalRun(name, f))
    ensures
      var left := Exec(lib, START, FatalRun(name, f)).disk;
      && OpenDb(lib, name, left) == Err(InvalidIndexEntry)
      && Durable(lib, left) == map[[] := f]
  {
    hide Exec, Legal, Next, Enabled, OpenDb, Records, Doomed, HeaderBytes, EntryBytes, RecordBytes, WfEntry, Durable,
      Opens, NoEmptyKey;
    var a, b, c, d, e := Reopen(name), Log(Set([], f)), Apply, BeginFlush, Drain([]);
    FiveSteps(lib, START, a, b, c, d, e);
    SixSteps(lib, START, a, b, c, d, e, Crash);
    FreshState(lib, name);
    DoomedReached(lib, name, f);
    DoomedDrain(lib, name, f);
    DoomedDisk(lib, name, f);
    var before := Exec(lib, START, [a, b, c, d, e]);
    CrashStep(lib, before);
    AlwaysRecoverable(lib, FatalRun(name, f), name);
    DoomedDurable(lib, before.disk, f);
  }

  lemma CrashStep(lib: Lib, s: State)
    ensures Enabled(lib, s, Crash) && Next(lib, s, Crash).disk == s.disk
  {
  }

  lemma DoomedDurable(lib: Lib, d: Disk, f: Field)
    requires WfEntry(lib, Set([], f)) && d.wal == EntryBytes(Set([], f)) && Records(lib, d.db) == [Live([], f)]
    ensures Durable(lib, d) == map[[] := f]
  {
    hide EntryBytes, Records, WfEntry, LogOf;
    LogAppend([], Set([], f));
    assert [] + [Set([], f)] == [Set([], f)];
    assert [] + EntryBytes(Set([], f)) == EntryBytes(Set([], f));
    LogOfBytes(lib, [Set([], f)]);
    ReplayAppend([], Set([], f), DbMap([Live([], f)]));
    DbMapAppend([], [], f);
    assert [] + [Live([], f)] == [Live([], f)];
  }

  // ---------------------------------------------------------------------------
  // Which flushes can be crashed anywhere

  /** What a reader finds at the empty key while the net operations are being visited. */
  lemma EmptyKeyWhileDraining(rs0: seq<Rec>, rs: seq<Rec>, index: Index, job: Job)
    requires Progress(rs0, rs, index, job)
    requires Law(rs0, index, job.net, []) == None && NoEmptyKey(rs0)
    ensures NoEmptyKey(rs)
  {
    hide DbMap, Leftover, Law, NoEmptyKey;
    EmptyKeyShows(rs0);
    EmptyKeyShows(rs);
    assert Lookup(DbMap(rs), []) == None;
  }

  lemma OnDisk(lib: Lib, s: State)
    requires Inv(lib, s) && s != START
    ensures s.disk.db != []
  {
    hide DiskOk, MemOk;
    NonEmptyDb(lib, s.disk);
  }

  /** Crash points up to the last visited operation. */
  lemma DrainPoint(lib: Lib, s: State, order: seq<Key>, m: nat)
    requires Inv(lib, s) && s.phase.Idle? && Opens(lib, s.disk) && m <= |order|
    requires Legal(lib, s, [BeginFlush] + Drains(order[..m]))
    requires Law(Records(lib, s.disk.db), s.mem.index, Net(s.mem.log), []) == None
    ensures Opens(lib, Exec(lib, s, [BeginFlush] + Drains(order[..m])).disk)
  {
    hide Inv, Records, Net, Law, Exec, Legal, Progress, NoEmptyKey, DeletePlan, Drains;
    var s1 := Exec(lib, s, [BeginFlush]);
    FlushStarts(lib, s);
    LegalSplit(lib, s, [BeginFlush], Drains(order[..m]));
    RunsCompose(lib, s, [BeginFlush], Drains(order[..m]));
    DrainRun(lib, s1, order[..m]);
    var d := Exec(lib, s1, Drains(order[..m]));
    OnDisk(lib, s);
    if s.disk.idx == [] {
      EmptyKeyWhileDraining(Records(lib, s.disk.db), Records(lib, d.disk.db), s.mem.index, d.phase.job);
    }
  }

  /** The commands of flush after the net operations, up to its log truncation. */
  function Tail(items: seq<(Key, IndexEntry)>): seq<Action> {
    [Commit, PatchCount, TruncateIndex, WriteIndex(items)]
  }

  /** They leave the records alone; the index file stays, is emptied, is rewritten. */
  lemma {:induction false} TailPoint(lib: Lib, d: State, items: seq<(Key, IndexEntry)>, m: nat)
    requires Inv(lib, d) && d.phase.Draining? && d != START && m <= 4
    requires Legal(lib, d, Tail(items)[..m])
    ensures
      var t := Exec(lib, d, Tail(items)[..m]);
      && Inv(lib, t) && t != START
      && Records(lib, t.disk.db) == Records(lib, d.disk.db)
      && (m <= 2 ==> t.disk.idx == d.disk.idx)
      && (m == 3 ==> t.disk.idx == [])
    decreases m
  {
    hide Inv, Records, Next, Enabled, Exec, Legal;
    if m == 0 {
      assert Tail(items)[..0] == [];
      NoActs(lib, d);
    } else {
      var init, a := Tail(items)[..m - 1], Tail(items)[m - 1];
      assert Tail(items)[..m] == init + [a];
      LegalPrefix(lib, d, init, a);
      TailPoint(lib, d, items, m - 1);
      TailStep(lib, Exec(lib, d, init), a, m);
    }
  }

  lemma TailStep(lib: Lib, t: State, a: Action, m: nat)
    requires Inv(lib, t) && t != START && Enabled(lib, t, a)
    requires 1 <= m <= 4 && (if m == 1 then a == Commit else if m == 2 then a == PatchCount
                             else if m == 3 then a == TruncateIndex else a.WriteIndex?)
    ensures
      var t' := Next(lib, t, a);
      && Inv(lib, t') && t' != START
      && Records(lib, t'.disk.db) == Records(lib, t.disk.db)
      && (m <= 2 ==> t'.disk.idx == t.disk.idx)
      && (m == 3 ==> t'.disk.idx == [])
  {
    hide Inv, Records, WriteAt, LE, IndexFileBytes, Iterates;
    StepInv(lib, t, a);
    StepNotStart(lib, t, a);
    if m == 2 { PatchInv(lib, t); }
  }

  /** Crash points after the last visited operation. */
  lemma LatePoint(lib: Lib, s: State, order: seq<Key>, items: seq<(Key, IndexEntry)>, m: nat)
    requires Inv(lib, s) && s.phase.Idle? && 1 <= m <= 4 && Legal(lib, s, FlushActs(order, items))
    ensures
      var t := Exec(lib, s, [BeginFlush] + Drains(order) + Tail(items)[..m]);
      && Lookup(DbMap(Records(lib, t.disk.db)), [])
         == Law(Records(lib, s.disk.db), s.mem.index, Net(s.mem.log), [])
      && t.disk.db != []
      && (m == 3 ==> t.disk.idx == [])
  {
    hide Inv, Records, Net, Law, Exec, Legal, Progress, DeletePlan, Drains, DbMap, Lookup;
    var tail := [Commit, PatchCount, TruncateIndex, WriteIndex(items), Checkpoint];
    var d := FlushRun(lib, s, order, items);
    LawAtEnd(Records(lib, s.disk.db), Records(lib, d.disk.db), s.mem.index, d.phase.job);
    LegalSplit(lib, s, [BeginFlush] + Drains(order), tail);
    RunsCompose(lib, s, [BeginFlush], Drains(order));
    LegalTake(lib, d, tail, m);
    assert tail[..m] == Tail(items)[..m];
    RunsCompose(lib, s, [BeginFlush] + Drains(order), Tail(items)[..m]);
    TailPoint(lib, d, items, m);
    OnDisk(lib, Exec(lib, d, Tail(items)[..m]));
  }

  lemma DrainsTake(order: seq<Key>, m: nat)
    requires m <= |order|
    ensures Drains(order)[..m] == Drains(order[..m])
  {
  }

  lemma FlushLength(order: seq<Key>, items: seq<(Key, IndexEntry)>)
    ensures |FlushActs(order, items)| == |order| + 6
  {
  }

  /** The three shapes of a flush cut short. */
  lemma FlushCut(order: seq<Key>, items: seq<(Key, IndexEntry)>, n: nat)
    requires n < |FlushActs(order, items)|
    ensures n == 0 ==> FlushActs(order, items)[..n] == []
    ensures 1 <= n <= |order| + 1 ==> FlushActs(order, items)[..n] == [BeginFlush] + Drains(order[..n - 1])
    ensures n > |order| + 1 ==>
              FlushActs(order, items)[..n] == [BeginFlush] + Drains(order) + Tail(items)[..n - |order| - 1]
  {
    if 1 <= n <= |order| + 1 {
      DrainsTake(order, n - 1);
      assert FlushActs(order, items)[..n] == [BeginFlush] + Drains(order)[..n - 1];
    }
  }

  lemma PointOpens(lib: Lib, s: State, order: seq<Key>, items: seq<(Key, IndexEntry)>, n: nat)
    requires Inv(lib, s) && s.phase.Idle? && Opens(lib, s.disk) && Legal(lib, s, FlushActs(order, items))
    requires n < |FlushActs(order, items)|
    requires Law(Records(lib, s.disk.db), s.mem.index, Net(s.mem.log), []) == None
    ensures Opens(lib, Exec(lib, s, FlushActs(order, items)[..n]).disk)
  {
    hide Inv, Records, Net, Law, Exec, Legal, DbMap, NoEmptyKey, FlushActs, Drains, Tail;
    FlushCut(order, items, n);
    if n == 0 {
      NoActs(lib, s);
    } else if n <= |order| + 1 {
      LegalTake(lib, s, FlushActs(order, items), n);
      DrainPoint(lib, s, order, n - 1);
    } else {
      FlushLength(order, items);
      LatePoint(lib, s, order, items, n - |order| - 1);
      EmptyKeyShows(Records(lib, Exec(lib, s, FlushActs(order, items)[..n]).disk.db));
    }
  }

  /**
   A flush can be crashed at every one of its commands and reopened if and only if it will
   leave no live record with an empty key: the empty key is not set by it, and if it is
   deleted or untouched no live copy of it stays behind. That can be read off data file,
   index and log before the flush.
   */
  lemma EmptyKeyDecidesCrashes(lib: Lib, s: State, order: seq<Key>, items: seq<(Key, IndexEntry)>, name: Bytes)
    requires Inv(lib, s) && s.phase.Idle? && Opens(lib, s.disk)
    requires Legal(lib, s, FlushActs(order, items)) && |name| <= NAME_LEN
    ensures (forall n: nat :: n < |FlushActs(order, items)| ==>
               OpenDb(lib, name, Exec(lib, s, FlushActs(order, items)[..n]).disk).Ok?)
            <==> Law(Records(lib, s.disk.db), s.mem.index, Net(s.mem.log), []) == None
  {
    hide Inv, Records, Net, Law, Exec, Legal, DbMap, NoEmptyKey, FlushActs, Drains, Tail, OpenDb, Opens;
    forall n: nat | n < |FlushActs(order, items)|
      ensures OpenDb(lib, name, Exec(lib, s, FlushActs(order, items)[..n]).disk).Ok?
              <==> Opens(lib, Exec(lib, s, FlushActs(order, items)[..n]).disk)
    {
      LegalTake(lib, s, FlushActs(order, items), n);
      CutOpens(lib, s, FlushActs(order, items)[..n], name);
    }
    if Law(Records(lib, s.disk.db), s.mem.index, Net(s.mem.log), []) == None {
      forall n: nat | n < |FlushActs(order, items)|
        ensures Opens(lib, Exec(lib, s, FlushActs(order, items)[..n]).disk)
      {
        PointOpens(lib, s, order, items, n);
      }
    } else {
      FlushLength(order, items);
      var n := |order| + 4;
      FlushCut(order, items, n);
      LatePoint(lib, s, order, items, 3);
      var left := Exec(lib, s, FlushActs(order, items)[..n]).disk;
      EmptyKeyShows(Records(lib, left.db));
      assert !Opens(lib, left) by { EmptyKeyShuts(lib, left); }
    }
  }

  lemma EmptyKeyShuts(lib: Lib, d: Disk)
    requires d.db != [] && d.idx == [] && !NoEmptyKey(Records(lib, d.db))
    ensures !Opens(lib, d)
  {
    hide Records, NoEmptyKey;
  }

  /** Wherever a run from a sound idle state is cut, the scanner's guard decides. */
  lemma CutOpens(lib: Lib, s: State, acts: seq<Action>, name: Bytes)
    requires Inv(lib, s) && s.phase.Idle? && Legal(lib, s, acts)
    ensures
      var left := Exec(lib, s, acts).disk;
      && (OpenDb(lib, name, left).Ok? <==> |name| <= 64 && Opens(lib, left))
      && (OpenDb(lib, name, left).Ok? ==> OpenDb(lib, name, left).value.0.fields == Durable(lib, left))
  {
    hide Exec, Legal, OpenDb, Opens, DiskOk, MemOk, Durable;
    RunInv(lib, s, acts);
    StaysOpen(lib, s, acts);
    OpenRecovers(lib, name, Exec(lib, s, acts).disk);
  }

  // ---------------------------------------------------------------------------
  // Without empty keys every opening succeeds

  predicate SetsEmptyKey(e: WalEntry) {
    e.Set? && e.key == []
  }

  /** Neither the records nor the log bring an empty key into the data file. */
  ghost predicate KeysNamed(lib: Lib, d: Disk) {
    NoEmptyKey(Records(lib, d.db)) && forall e :: e in LogOf(lib, d.wal) ==> !SetsEmptyKey(e)
  }

  predicate NoEmptySets(acts: seq<Action>) {
    forall i :: 0 <= i < |acts| && acts[i].Log? ==> !SetsEmptyKey(acts[i].e)
  }

  lemma NamedDrain(lib: Lib, s: State, k: Key)
    requires Inv(lib, s) && Enabled(lib, s, Drain(k)) && KeysNamed(lib, s.disk)
    ensures KeysNamed(lib, Next(lib, s, Drain(k)).disk)
  {
    hide DiskOk, Records, DrainOne, Sound, LogOf, Net, DeletePlan, FieldBytes;
    DrainInv(lib, s, k);
    NetKeys(s.mem.log);
  }

  lemma NamedLog(lib: Lib, s: State, e: WalEntry)
    requires Inv(lib, s) && Enabled(lib, s, Log(e)) && KeysNamed(lib, s.disk) && !SetsEmptyKey(e)
    ensures KeysNamed(lib, Next(lib, s, Log(e)).disk)
  {
    hide ValidDb, WalOk, IdxOk, LogOf, WfEntry, Sound, JobOk, Records, EntryBytes, NoEmptyKey;
    WalAppend(lib, s.disk.wal, e);
  }

  lemma NamedReopen(lib: Lib, s: State, name: Bytes)
    requires Inv(lib, s) && Enabled(lib, s, Reopen(name)) && KeysNamed(lib, s.disk)
    ensures KeysNamed(lib, Next(lib, s, Reopen(name)).disk)
  {
    hide OpenDb, DiskOk, MemOk, LogOf, Records, HeaderBytes, Sound;
    if s == START {
      OpenFresh(lib, name);
      WalEmpty(lib);
    } else {
      OpenRecovers(lib, name, s.disk);
    }
  }

  lemma StepNamed(lib: Lib, s: State, a: Action)
    requires Inv(lib, s) && Enabled(lib, s, a) && KeysNamed(lib, s.disk)
    requires a.Log? ==> !SetsEmptyKey(a.e)
    ensures KeysNamed(lib, Next(lib, s, a).disk)
  {
    hide DiskOk, MemOk, OpenDb, WfEntry, DrainOne, Records, LogOf, NoEmptyKey;
    match a
    case Log(e) => NamedLog(lib, s, e);
    case Drain(k) => NamedDrain(lib, s, k);
    case PatchCount => PatchInv(lib, s);
    case Checkpoint => WalEmpty(lib);
    case Reopen(name) => NamedReopen(lib, s, name);
    case _ =>
  }

  lemma {:induction false} RunNamed(lib: Lib, s: State, acts: seq<Action>)
    requires Inv(lib, s) && Legal(lib, s, acts) && KeysNamed(lib, s.disk) && NoEmptySets(acts)
    ensures KeysNamed(lib, Exec(lib, s, acts).disk)
    decreases |acts|
  {
    hide Inv, Next, Enabled, KeysNamed;
    if acts != [] {
      var init := acts[..|acts| - 1];
      RunNamed(lib, s, init);
      RunInv(lib, s, init);
      StepNamed(lib, Exec(lib, s, init), acts[|acts| - 1]);
    }
  }

  lemma NamedOpens(lib: Lib, d: Disk)
    requires KeysNamed(lib, d)
    ensures Opens(lib, d)
  {
    hide Records, LogOf, NoEmptyKey;
  }

  /**
   Recovery over whole runs, decided by the operations alone: as long as no operation sets
   the empty key, every legal run from fresh files, crashed and retried anywhere, leaves
   files that open, to what they stand for.
   */
  lemma NamedRunsOpen(lib: Lib, acts: seq<Action>, name: Bytes)
    requires Legal(lib, START, acts) && NoEmptySets(acts) && |name| <= NAME_LEN
    ensures
      var s := Exec(lib, START, acts);
      OpenDb(lib, name, s.disk).Ok? && OpenDb(lib, name, s.disk).value.0.fields == Durable(lib, s.disk)
  {
    hide Exec, Legal, OpenDb, Opens, Inv, Durable, Records, NoEmptyKey, ValidDb, Sound, NoEmptySets;
    StartInv(lib);
    WalEmpty(lib);
    assert KeysNamed(lib, START.disk) by { StartRecords(lib); }
    RunNamed(lib, START, acts);
    NamedOpens(lib, Exec(lib, START, acts).disk);
    AlwaysRecoverable(lib, acts, name);
  }

  lemma StartRecords(lib: Lib)
    ensures NoEmptyKey(Records(lib, START.disk.db))
  {
  }

  /**
   Crash recovery, decided before it begins: if neither records nor log set the empty key,
   then whatever commands of flush, crashes and further attempts follow, the files open to
   exactly the fields that were visible at the start.
   */
  lemma NamedCrashRecovery(lib: Lib, s: State, acts: seq<Action>, name: Bytes)
    requires Inv(lib, s) && Synced(lib, s) && !s.phase.Down? && Legal(lib, s, acts) && |name| <= NAME_LEN
    requires forall i :: 0 <= i < |acts| ==> Recoverable(acts[i])
    requires KeysNamed(lib, s.disk)
    ensures
      var left := Exec(lib, s, acts).disk;
      OpenDb(lib, name, left).Ok? && OpenDb(lib, name, left).value.0.fields == Visible(s)
  {
    hide Exec, Legal, OpenDb, Opens, Inv, Synced, Visible, KeysNamed;
    forall i | 0 <= i < |acts|
      ensures !acts[i].Log?
    {
      assert Recoverable(acts[i]);
    }
    RunNamed(lib, s, acts);
    NamedOpens(lib, Exec(lib, s, acts).disk);
    CrashRecovery(lib, s, acts, name);
  }
}
