/**
 Exactly what a completed flush leaves on disk, when that agrees with memory, and where a
 flush can be cut short.
 */
module FlushLaw {
  import opened Bytes
  import opened Dtypes
  import opened Format
  import opened Files
  import opened FileImage
  import opened LogFile
  import opened IndexFile
  import opened Replay
  import opened RecordMaps
  import opened Engine
  import opened EngineSteps
  import opened Recovery
  import Header

  // ---------------------------------------------------------------------------
  // One drained operation

  /** At its own key: a Set shows its value, a Delete shows the leftover. */
  lemma DrainHere(lib: Lib, rs: seq<Rec>, mem: Memory, job: Job, k: Key)
    requires WfLog(lib, mem.log) && Sound(rs, mem.index) && JobOk(rs, mem, job) && k in job.net
    ensures Lookup(DbMap(DrainRecs(rs, job, k)), k) ==
            if job.net[k].Set? then Some(job.net[k].field) else Leftover(rs, mem.index, k)
  {
    hide FieldBytes, TotalSize, DbMap, WfEntry, Net, WfLog, Sound, Leftover;
    NetOp(lib, mem.log, k);
    match job.net[k]
    case Set(key, field) => DbMapAppend(rs, key, field);
    case Delete(key) =>
      if key in job.plan {
        PlanNames(rs, mem, job, key);
        DeadShows(rs, mem.index, key);
      } else {
        NoEntryShows(rs, mem.index, key);
      }
  }

  /** No drained operation changes the leftover of a net-deleted key, its own included. */
  lemma DrainLeftover(lib: Lib, rs: seq<Rec>, mem: Memory, job: Job, k: Key, other: Key)
    requires WfLog(lib, mem.log) && Sound(rs, mem.index) && JobOk(rs, mem, job) && k in job.net
    requires other in job.net && job.net[other].Delete?
    ensures Leftover(DrainRecs(rs, job, k), mem.index, other) == Leftover(rs, mem.index, other)
  {
    hide FieldBytes, TotalSize, DbMap, WfEntry, Net, WfLog, Sound, Leftover;
    NetOp(lib, mem.log, k);
    match job.net[k]
    case Set(key, field) => LeftoverAppend(rs, Live(key, field), mem.index, other);
    case Delete(key) =>
      var i := Target(rs, job.plan, key);
      if i >= 0 {
        PlanNames(rs, mem, job, key);
        LeftoverDead(rs, i, mem.index, other);
      }
  }

  // ---------------------------------------------------------------------------
  // Draining all of them

  /** What a flush of `net` over the records `rs` leaves a reader to find at `k`. */
  function Law(rs: seq<Rec>, index: Index, net: map<Key, WalEntry>, k: Key): Option<Field> {
    if k !in net then Lookup(DbMap(rs), k)
    else if net[k].Set? then Some(net[k].field)
    else Leftover(rs, index, k)
  }

  /** Half-way: drained keys obey the law, the others still show what they did. */
  ghost predicate Progress(rs0: seq<Rec>, rs: seq<Rec>, index: Index, job: Job) {
    && (forall k :: Lookup(DbMap(rs), k) ==
          if k in job.todo || k !in job.net then Lookup(DbMap(rs0), k) else Law(rs0, index, job.net, k))
    && (forall k :: k in job.net && job.net[k].Delete? ==> Leftover(rs, index, k) == Leftover(rs0, index, k))
  }

  lemma ProgressStart(rs: seq<Rec>, index: Index, job: Job)
    requires job.todo == job.net.Keys
    ensures Progress(rs, rs, index, job)
  {
    hide DbMap, Leftover;
  }

  lemma ProgressStep(lib: Lib, rs0: seq<Rec>, rs: seq<Rec>, mem: Memory, job: Job, job': Job, k: Key)
    requires WfLog(lib, mem.log) && Sound(rs, mem.index) && JobOk(rs, mem, job) && k in job.net && k in job.todo
    requires job'.net == job.net && job'.todo == job.todo - {k}
    requires Progress(rs0, rs, mem.index, job)
    ensures Progress(rs0, DrainRecs(rs, job, k), mem.index, job')
  {
    hide DbMap, Leftover, DrainRecs, JobOk, WfLog, Sound, Lookup;
    var rs' := DrainRecs(rs, job, k);
    forall other
      ensures Lookup(DbMap(rs'), other) ==
              if other in job'.todo || other !in job'.net then Lookup(DbMap(rs0), other)
              else Law(rs0, mem.index, job'.net, other)
    {
      if other == k {
        DrainHere(lib, rs, mem, job, k);
      } else {
        DrainElsewhere(lib, rs, mem, job, k, other);
      }
    }
    forall other | other in job'.net && job'.net[other].Delete?
      ensures Leftover(rs', mem.index, other) == Leftover(rs0, mem.index, other)
    {
      DrainLeftover(lib, rs, mem, job, k, other);
    }
  }

  lemma DrainJobNext(lib: Lib, db: Bytes, job: Job, k: Key)
    requires k in job.net
    ensures DrainOne(lib, db, job, k).1.net == job.net && DrainOne(lib, db, job, k).1.todo == job.todo - {k}
    ensures DrainOne(lib, db, job, k).1.plan == job.plan
  {
    hide RecordBytes, TombstoneBytes;
  }

  function Drains(order: seq<Key>): seq<Action> {
    seq(|order|, i requires 0 <= i < |order| => Drain(order[i]))
  }

  lemma NoDrains(lib: Lib, s: State)
    ensures Exec(lib, s, Drains([])) == s && Legal(lib, s, Drains([]))
  {
  }

  lemma DrainsLast(order: seq<Key>)
    requires order != []
    ensures Drains(order) == Drains(order[..|order| - 1]) + [Drain(order[|order| - 1])]
  {
  }

  /** Draining keeps memory and everything but `.db`, and makes progress towards the law. */
  lemma {:induction false} DrainRun(lib: Lib, s0: State, order: seq<Key>)
    requires Inv(lib, s0) && s0.phase.Draining? && s0 != START
    requires s0.phase.job.todo == s0.phase.job.net.Keys
    requires Legal(lib, s0, Drains(order))
    ensures
      var s := Exec(lib, s0, Drains(order));
      && Inv(lib, s) && s.phase.Draining? && s.mem == s0.mem
      && s.disk == s0.disk.(db := s.disk.db)
      && s.phase.job.net == s0.phase.job.net
      && Progress(Records(lib, s0.disk.db), Records(lib, s.disk.db), s.mem.index, s.phase.job)
    decreases |order|
  {
    hide Inv, Enabled, Progress, DrainOne, Records, DrainRecs;
    if order == [] {
      ProgressStart(Records(lib, s0.disk.db), s0.mem.index, s0.phase.job);
    } else {
      var init, k := order[..|order| - 1], order[|order| - 1];
      DrainsLast(order);
      LegalPrefix(lib, s0, Drains(init), Drain(k));
      DrainRun(lib, s0, init);
      DrainRunStep(lib, Records(lib, s0.disk.db), Exec(lib, s0, Drains(init)), k);
    }
  }

  lemma DrainRunStep(lib: Lib, rs0: seq<Rec>, s: State, k: Key)
    requires Inv(lib, s) && s.phase.Draining? && Enabled(lib, s, Drain(k))
    requires Progress(rs0, Records(lib, s.disk.db), s.mem.index, s.phase.job)
    ensures
      var s' := Next(lib, s, Drain(k));
      && Inv(lib, s') && s'.phase.Draining? && s'.mem == s.mem
      && s'.disk == s.disk.(db := s'.disk.db)
      && s'.phase.job.net == s.phase.job.net
      && Progress(rs0, Records(lib, s'.disk.db), s'.mem.index, s'.phase.job)
  {
    hide Progress, DrainOne, Records, DrainRecs, JobOk, Sound, WfLog, IdxOk, ValidDb, LogOf, LogBytes;
    DrainInv(lib, s, k);
    DrainJobNext(lib, s.disk.db, s.phase.job, k);
    ProgressStep(lib, rs0, Records(lib, s.disk.db), s.mem, s.phase.job,
                 DrainOne(lib, s.disk.db, s.phase.job, k).1, k);
  }

  // ---------------------------------------------------------------------------
  // A whole flush

  /** The commands of one undisturbed flush: `order` is how the net operations come out of
      the hash map, `items` how the index does. */
  function FlushActs(order: seq<Key>, items: seq<(Key, IndexEntry)>): seq<Action> {
    [BeginFlush] + Drains(order) + [Commit, PatchCount, TruncateIndex, WriteIndex(items), Checkpoint]
  }

  /** Draining is over, the rest of flush has run. */
  lemma FinishRun(lib: Lib, s: State, items: seq<(Key, IndexEntry)>)
    requires Inv(lib, s) && s.phase.Draining? && s != START
    requires Legal(lib, s, [Commit, PatchCount, TruncateIndex, WriteIndex(items), Checkpoint])
    ensures s.phase.job.todo == {}
    ensures
      var s' := Exec(lib, s, [Commit, PatchCount, TruncateIndex, WriteIndex(items), Checkpoint]);
      && Inv(lib, s') && s'.phase.Idle?
      && Records(lib, s'.disk.db) == Records(lib, s.disk.db)
      && s'.disk.wal == [] && s'.mem.log == []
      && s'.mem.index == (s.mem.index + s.phase.job.added) - s.phase.job.plan.Keys
      && s'.mem.fields == s.mem.fields - s.phase.job.plan.Keys
      && s'.disk.db == WriteAt(s.disk.db, COUNT_OFFSET, LE(8, |s'.mem.fields|))
      && DecodeIndex(s'.disk.idx) == Ok(s'.mem.index)
  {
    hide DiskOk, MemOk, Records, Iterates, DecodeIndex, Durable, IndexFileBytes, WriteAt, LE;
    FiveSteps(lib, s, Commit, PatchCount, TruncateIndex, WriteIndex(items), Checkpoint);
    var s1 := Next(lib, s, Commit);
    CommitInv(lib, s);
    var s2 := Next(lib, s1, PatchCount);
    PatchInv(lib, s1);
    var s3 := Next(lib, s2, TruncateIndex);
    TruncateInv(lib, s2);
    var s4 := Next(lib, s3, WriteIndex(items));
    WriteInv(lib, s3, items);
    CheckpointInv(lib, s4);
  }

  lemma FiveSteps(lib: Lib, s: State, a: Action, b: Action, c: Action, d: Action, e: Action)
    ensures Exec(lib, s, [a, b, c, d, e]) ==
            Next(lib, Next(lib, Next(lib, Next(lib, Next(lib, s, a), b), c), d), e)
    ensures Legal(lib, s, [a, b, c, d, e]) <==>
              && Enabled(lib, s, a)
              && Enabled(lib, Next(lib, s, a), b)
              && Enabled(lib, Next(lib, Next(lib, s, a), b), c)
              && Enabled(lib, Next(lib, Next(lib, Next(lib, s, a), b), c), d)
              && Enabled(lib, Next(lib, Next(lib, Next(lib, Next(lib, s, a), b), c), d), e)
  {
    hide Next, Enabled;
    assert [a, b, c, d, e] == ((([a] + [b]) + [c]) + [d]) + [e];
    LegalPrefix(lib, s, [], a);
    assert [] + [a] == [a];
    LegalPrefix(lib, s, [a], b);
    LegalPrefix(lib, s, [a] + [b], c);
    LegalPrefix(lib, s, ([a] + [b]) + [c], d);
    LegalPrefix(lib, s, (([a] + [b]) + [c]) + [d], e);
  }

  lemma {:induction false} LegalSplit(lib: Lib, s: State, a: seq<Action>, b: seq<Action>)
    requires Legal(lib, s, a + b)
    ensures Legal(lib, s, a) && Legal(lib, Exec(lib, s, a), b)
    decreases |b|
  {
    hide Next, Enabled;
    if b == [] {
      assert a + b == a;
    } else {
      var init, last := b[..|b| - 1], b[|b| - 1];
      assert a + b == (a + init) + [last];
      LegalPrefix(lib, s, a + init, last);
      LegalSplit(lib, s, a, init);
      RunsCompose(lib, s, a, init);
    }
  }

  /** The state in which flush starts visiting the net operations. */
  lemma FlushStarts(lib: Lib, s: State)
    requires Inv(lib, s) && s.phase.Idle?
    ensures
      var s1 := Exec(lib, s, [BeginFlush]);
      var net := Net(s.mem.log);
      && s1 == State(s.mem, s.disk, Draining(Job(net, DeletePlan(net, s.mem.index), net.Keys, map[])))
      && Inv(lib, s1) && s1 != START
  {
    hide Inv, Net, DeletePlan;
    assert [] + [BeginFlush] == [BeginFlush];
    LegalPrefix(lib, s, [], BeginFlush);
    StepInv(lib, s, BeginFlush);
  }

  /** A whole flush, cut into its three parts. */
  lemma FlushRun(lib: Lib, s: State, order: seq<Key>, items: seq<(Key, IndexEntry)>) returns (d: State)
    requires Inv(lib, s) && s.phase.Idle? && Legal(lib, s, FlushActs(order, items))
    ensures d == Exec(lib, Exec(lib, s, [BeginFlush]), Drains(order))
    ensures Legal(lib, Exec(lib, s, [BeginFlush]), Drains(order))
    ensures Inv(lib, d) && d.phase.Draining? && d.mem == s.mem && d != START
    ensures d.phase.job.net == Net(s.mem.log) && d.phase.job.todo == {}
    ensures Progress(Records(lib, s.disk.db), Records(lib, d.disk.db), s.mem.index, d.phase.job)
    ensures
      var s' := Exec(lib, s, FlushActs(order, items));
      && Inv(lib, s') && s'.phase.Idle?
      && Records(lib, s'.disk.db) == Records(lib, d.disk.db)
      && s'.disk.wal == [] && s'.mem.log == []
      && s'.mem.index == (s.mem.index + d.phase.job.added) - d.phase.job.plan.Keys
      && s'.mem.fields == s.mem.fields - d.phase.job.plan.Keys
      && s'.disk.db == WriteAt(d.disk.db, COUNT_OFFSET, LE(8, |s'.mem.fields|))
      && DecodeIndex(s'.disk.idx) == Ok(s'.mem.index)
  {
    hide Inv, Next, Enabled, Records, Progress, DecodeIndex, Net, DeletePlan, Drains, Exec, Legal, WriteAt, LE;
    var tail := [Commit, PatchCount, TruncateIndex, WriteIndex(items), Checkpoint];
    var s1 := Exec(lib, s, [BeginFlush]);
    FlushStarts(lib, s);
    LegalSplit(lib, s, [BeginFlush] + Drains(order), tail);
    LegalSplit(lib, s, [BeginFlush], Drains(order));
    RunsCompose(lib, s, [BeginFlush], Drains(order));
    RunsCompose(lib, s, [BeginFlush] + Drains(order), tail);
    DrainRun(lib, s1, order);
    d := Exec(lib, s1, Drains(order));
    assert d != START;
    FinishRun(lib, d, items);
  }

  /** The last operation on `k` is Delete, and the index knows `k`. */
  predicate Located(net: map<Key, WalEntry>, index: Index, k: Key) {
    k in net && net[k].Delete? && k in index
  }

  lemma FieldsLose(lib: Lib, d: State)
    requires Inv(lib, d) && d.phase.Draining?
    ensures forall k :: Lookup(d.mem.fields - d.phase.job.plan.Keys, k)
                        == if Located(d.phase.job.net, d.mem.index, k) then None else Lookup(d.mem.fields, k)
  {
    hide Inv, Sound, Net, Records;
    RunningJob(lib, d);
  }

  /**
   The exact law of flush, with no hypothesis about duplicates: afterwards the data file
   maps each key whose last operation was Set to its new value, each untouched key to its
   old value, and each key whose last operation was Delete to its last live record other
   than the indexed one, if there is one. The log is empty, the index file holds the index
   in memory, and `fields` loses just the deleted keys that the index knew.
   */
  lemma ExactFlush(lib: Lib, s: State, order: seq<Key>, items: seq<(Key, IndexEntry)>)
    requires Inv(lib, s) && s.phase.Idle? && Legal(lib, s, FlushActs(order, items))
    ensures
      var s' := Exec(lib, s, FlushActs(order, items));
      && Inv(lib, s') && s'.phase.Idle?
      && DecodeDb(lib, s'.disk.db).Ok?
      && DecodeIndex(s'.disk.idx) == Ok(s'.mem.index)
      && LogOf(lib, s'.disk.wal) == [] && s'.mem.log == []
      && (forall k :: Lookup(DecodeDb(lib, s'.disk.db).value.0, k)
                      == Law(Records(lib, s.disk.db), s.mem.index, Net(s.mem.log), k))
      && (forall k :: Lookup(s'.mem.fields, k)
                      == if Located(Net(s.mem.log), s.mem.index, k) then None else Lookup(s.mem.fields, k))
  {
    hide Exec, Legal, Records, DecodeIndex, Net, FlushActs, Law, DbMap, DecodeDb, Inv, Lookup, LogOf, Located;
    var d := FlushRun(lib, s, order, items);
    FieldsLose(lib, d);
    var s' := Exec(lib, s, FlushActs(order, items));
    assert ValidDb(lib, s'.disk.db) by { IdleDisk(lib, s'); }
    ImageDecodes(lib, s'.disk.db, Records(lib, s'.disk.db));
    WalEmpty(lib);
    LawAtEnd(Records(lib, s.disk.db), Records(lib, d.disk.db), s.mem.index, d.phase.job);
  }

  lemma IdleDisk(lib: Lib, s: State)
    requires Inv(lib, s) && s.phase.Idle?
    ensures ValidDb(lib, s.disk.db) && Sound(Records(lib, s.disk.db), s.mem.index)
    ensures s.mem.log == LogOf(lib, s.disk.wal) && WfLog(lib, s.mem.log)
  {
    hide ValidDb, WfLog, LogBytes, IdxOk, LogOf, Sound, Records;
  }

  lemma LawAtEnd(rs0: seq<Rec>, rs: seq<Rec>, index: Index, job: Job)
    requires Progress(rs0, rs, index, job) && job.todo == {}
    ensures forall k :: Lookup(DbMap(rs), k) == Law(rs0, index, job.net, k)
  {
    hide DbMap, Leftover, Lookup;
  }

  // ---------------------------------------------------------------------------
  // When flush keeps memory and files in step

  /** Each net-deleted key has no live record but the one its index entry names. */
  predicate Clean(rs: seq<Rec>, index: Index, net: map<Key, WalEntry>) {
    forall k :: k in net && net[k].Delete? ==> OnlyIndexed(rs, index, k)
  }

  /** The law agrees with replaying the log exactly when every deletion is clean. */
  lemma LawIsReplay(log: seq<WalEntry>, rs: seq<Rec>, index: Index, m: Fields)
    requires forall k :: Lookup(m, k) == Law(rs, index, Net(log), k)
    ensures m == ReplayLog(log, DbMap(rs)) <==> Clean(rs, index, Net(log))
  {
    hide DbMap, ReplayLog, Net, OnlyIndexed, Leftover;
    if Clean(rs, index, Net(log)) {
      forall k
        ensures Lookup(m, k) == Lookup(ReplayLog(log, DbMap(rs)), k)
      {
        ReplayAt(log, DbMap(rs), k);
        LeftoverNone(rs, index, k);
      }
      MapsEqual(m, ReplayLog(log, DbMap(rs)));
    } else {
      var k :| k in Net(log) && Net(log)[k].Delete? && !OnlyIndexed(rs, index, k);
      ReplayAt(log, DbMap(rs), k);
      LeftoverNone(rs, index, k);
      assert Lookup(m, k) == Law(rs, index, Net(log), k);
    }
  }

  lemma PlanNotVisible(lib: Lib, s: State, d: State)
    requires Inv(lib, s) && s.phase.Idle? && Synced(lib, s)
    requires Inv(lib, d) && d.phase.Draining? && d != START && d.mem == s.mem && d.phase.job.net == Net(s.mem.log)
    ensures s.mem.fields - d.phase.job.plan.Keys == s.mem.fields
  {
    hide DiskOk, Records, LogOf, DbMap, ReplayLog, Sound, Net;
    forall k | k in d.phase.job.plan
      ensures k !in s.mem.fields
    {
      ReplayAt(s.mem.log, DbMap(Records(lib, s.disk.db)), k);
      assert Lookup(s.mem.fields, k) == None;
    }
  }

  lemma SyncedIdle(lib: Lib, s: State)
    requires Inv(lib, s) && s.phase.Idle?
    ensures Synced(lib, s) <==> s.mem.fields == ReplayLog(s.mem.log, DbMap(Records(lib, s.disk.db)))
  {
    hide DiskOk, Records, LogOf, DbMap, ReplayLog, Sound;
  }

  /**
   From a state in which memory and files agree, a completed flush leaves `fields` alone,
   and they agree afterwards if and only if every net-deleted key had no live record other
   than the one its index entry names.
   */
  lemma FlushKeepsSync(lib: Lib, s: State, order: seq<Key>, items: seq<(Key, IndexEntry)>)
    requires Inv(lib, s) && s.phase.Idle? && Synced(lib, s) && Legal(lib, s, FlushActs(order, items))
    ensures
      var s' := Exec(lib, s, FlushActs(order, items));
      && s'.mem.fields == s.mem.fields
      && (Synced(lib, s') <==> Clean(Records(lib, s.disk.db), s.mem.index, Net(s.mem.log)))
  {
    hide Exec, Legal, Records, DecodeIndex, Net, FlushActs, Law, DbMap, Inv, Lookup, Synced, Clean, ReplayLog;
    var d := FlushRun(lib, s, order, items);
    var s' := Exec(lib, s, FlushActs(order, items));
    PlanNotVisible(lib, s, d);
    SyncedIdle(lib, s);
    SyncedIdle(lib, s');
    ReplayEmpty(DbMap(Records(lib, s'.disk.db)));
    LawAtEnd(Records(lib, s.disk.db), Records(lib, d.disk.db), s.mem.index, d.phase.job);
    LawIsReplay(s.mem.log, Records(lib, s.disk.db), s.mem.index, DbMap(Records(lib, s'.disk.db)));
  }

  lemma ReplayEmpty(m: Fields)
    ensures ReplayLog([], m) == m
  {
  }

  lemma {:induction false} SameSize<K>(a: set<K>, b: set<K>)
    requires a <= b
    ensures |a| == |b| <==> a == b
  {
    assert b == a + (b - a);
  }

  /** Next to memory, the law keeps every key and adds those of the unclean deletions. */
  lemma LawCounts(log: seq<WalEntry>, rs: seq<Rec>, index: Index, m: Fields, fields: Fields)
    requires forall k :: Lookup(m, k) == Law(rs, index, Net(log), k)
    requires fields == ReplayLog(log, DbMap(rs))
    ensures |m| == |fields| <==> Clean(rs, index, Net(log))
  {
    hide DbMap, ReplayLog, Net, Clean, Leftover;
    LawIsReplay(log, rs, index, m);
    forall k | k in fields
      ensures k in m && m[k] == fields[k]
    {
      ReplayAt(log, DbMap(rs), k);
      assert Lookup(m, k) == Law(rs, index, Net(log), k);
      assert Lookup(fields, k) == Some(fields[k]);
    }
    SameSize(fields.Keys, m.Keys);
    if m.Keys == fields.Keys {
      assert m == fields;
    }
  }

  /**
   From a state in which memory and files agree, the header counts after a flush the keys in
   memory. It counts the keys a reader of the file will find if and only if the deletions
   were clean, and then the reader finds `fields`.
   */
  lemma FlushCounts(lib: Lib, s: State, order: seq<Key>, items: seq<(Key, IndexEntry)>)
    requires Inv(lib, s) && s.phase.Idle? && Synced(lib, s) && Legal(lib, s, FlushActs(order, items))
    requires |s.mem.fields| < U64
    ensures
      var found := DecodeDb(lib, Exec(lib, s, FlushActs(order, items)).disk.db);
      var clean := Clean(Records(lib, s.disk.db), s.mem.index, Net(s.mem.log));
      && found.Ok? && found.value.1.count == |s.mem.fields|
      && (found.value.1.count == |found.value.0| <==> clean)
      && (clean ==> found.value.0 == s.mem.fields)
  {
    hide Exec, Legal, Records, DecodeIndex, Net, FlushActs, Law, DbMap, DecodeDb, Inv, Lookup, LogOf, Clean, WriteAt,
      LE, DecodeHeader, ReplayLog, RecsBytes, WfRecs;
    var d := FlushRun(lib, s, order, items);
    var s' := Exec(lib, s, FlushActs(order, items));
    FlushKeepsSync(lib, s, order, items);
    SyncedIdle(lib, s);
    SyncedIdle(lib, s');
    ReplayEmpty(DbMap(Records(lib, s'.disk.db)));
    LawAtEnd(Records(lib, s.disk.db), Records(lib, d.disk.db), s.mem.index, d.phase.job);
    LawCounts(s.mem.log, Records(lib, s.disk.db), s.mem.index, DbMap(Records(lib, s'.disk.db)), s.mem.fields);
    IdleDisk(lib, s');
    ImageDecodes(lib, s'.disk.db, Records(lib, s'.disk.db));
    DrainingDisk(lib, d);
    Header.CountPatch(lib, d.disk.db, |s.mem.fields|);
  }

  lemma DrainingDisk(lib: Lib, s: State)
    requires Inv(lib, s) && s.phase.Draining? && s != START
    ensures DecodeHeader(lib, s.disk.db).Ok?
  {
    hide DecodeHeader, WalOk, IdxOk, Records, MemOk, RecsBytes, WfRecs;
  }

  // ---------------------------------------------------------------------------
  // Crashing inside this flush

  lemma {:induction false} LegalTake(lib: Lib, s: State, acts: seq<Action>, n: nat)
    requires Legal(lib, s, acts) && n <= |acts|
    ensures Legal(lib, s, acts[..n])
    decreases |acts|
  {
    hide Next, Enabled;
    if n == |acts| {
      assert acts[..n] == acts;
    } else {
      LegalTake(lib, s, acts[..|acts| - 1], n);
      assert acts[..|acts| - 1][..n] == acts[..n];
    }
  }

  /** Whichever of its commands was the last to reach the disk before the log truncation, the
      files a dying flush leaves open unless they hold a live empty key and no index, and then
      to exactly the fields it started from. */
  lemma EveryCrashPointRecovers(lib: Lib, s: State, order: seq<Key>, items: seq<(Key, IndexEntry)>, n: nat, name: Bytes)
    requires Inv(lib, s) && s.phase.Idle? && Synced(lib, s) && Legal(lib, s, FlushActs(order, items))
    requires n < |FlushActs(order, items)|
    ensures
      var left := Exec(lib, s, FlushActs(order, items)[..n]).disk;
      && (OpenDb(lib, name, left).Ok? <==> |name| <= 64 && Opens(lib, left))
      && (OpenDb(lib, name, left).Ok? ==> OpenDb(lib, name, left).value.0.fields == s.mem.fields)
  {
    hide Exec, Legal, Inv, OpenDb, Synced, Opens;
    var acts := FlushActs(order, items);
    LegalTake(lib, s, acts, n);
    forall i | 0 <= i < n
      ensures Recoverable(acts[..n][i])
    {
      assert acts[..n][i] == acts[i];
    }
    CrashRecovery(lib, s, acts[..n], name);
  }
}
