/**
 The index after a flush: it does not depend on the order in which the hash map yields
 the net operations, and memory, index file and scan agree on it exactly on clean flushes.
 */
module FlushIndex {
  import opened Bytes
  import opened Dtypes
  import opened Format
  import opened FileImage
  import opened LogFile
  import opened Replay
  import opened RecordMaps
  import opened Engine
  import opened EngineSteps
  import opened Recovery
  import opened FlushLaw

  /** The record an index names for `k`. */
  function Named(rs: seq<Rec>, index: Index, k: Key): Option<Rec> {
    if k in index && Position(rs, index[k].offset) >= 0 then Some(rs[Position(rs, index[k].offset)]) else None
  }

  // ---------------------------------------------------------------------------
  // Order independence

  /** A drained operation kills no record that a sound entry of another key names. */
  lemma DrainNamed(lib: Lib, rs: seq<Rec>, mem: Memory, job: Job, k: Key, index: Index, other: Key)
    requires WfLog(lib, mem.log) && Sound(rs, mem.index) && JobOk(rs, mem, job) && k in job.net
    requires Sound(rs, index) && other in index && other != k
    ensures Named(DrainRecs(rs, job, k), index, other) == Named(rs, index, other)
  {
    hide FieldBytes, TotalSize, WfEntry, Net, WfLog;
    NetOp(lib, mem.log, k);
    var e := index[other];
    assert Names(rs, other, e);
    match job.net[k]
    case Set(key, field) => NamesAppend(rs, Live(key, field), other, e);
    case Delete(key) =>
      var i := Target(rs, job.plan, key);
      if i >= 0 {
        PlanNames(rs, mem, job, key);
        NamesDead(rs, i, other, e);
      }
  }

  lemma DrainNamesNew(lib: Lib, db: Bytes, rs: seq<Rec>, mem: Memory, job: Job, k: Key)
    requires Image(lib, db, rs) && WfLog(lib, mem.log) && JobOk(rs, mem, job) && k in job.net && job.net[k].Set?
    ensures
      var job' := DrainOne(lib, db, job, k).1;
      && k in job'.added
      && job'.added == job.added[k := job'.added[k]]
      && Named(DrainRecs(rs, job, k), job'.added, k) == Some(Live(k, job.net[k].field))
  {
    hide FieldBytes, TotalSize, Net, WfLog, Image, RecordBytes, WfPair;
    NetOp(lib, mem.log, k);
    var Set(key, field) := job.net[k];
    DrainSetImage(lib, db, rs, key, field);
    OffsetAppend(rs, Live(key, field), |rs|);
    PositionFound(rs + [Live(key, field)], |rs|);
  }

  /** Half-way through a flush: what the old and the new index entries name. */
  ghost predicate NamedProgress(rs0: seq<Rec>, rs: seq<Rec>, index: Index, job: Job) {
    && (forall k :: k in index && (k !in job.net || k in job.todo) ==> Named(rs, index, k) == Named(rs0, index, k))
    && (forall k :: k in job.added && k in job.net && job.net[k].Set? ==>
          Named(rs, job.added, k) == Some(Live(k, job.net[k].field)))
  }

  lemma NamedProgressStep(lib: Lib, db: Bytes, rs0: seq<Rec>, rs: seq<Rec>, mem: Memory, job: Job, k: Key)
    requires Image(lib, db, rs) && WfLog(lib, mem.log) && Sound(rs, mem.index) && JobOk(rs, mem, job) && k in job.net
    requires NamedProgress(rs0, rs, mem.index, job)
    ensures NamedProgress(rs0, DrainRecs(rs, job, k), mem.index, DrainOne(lib, db, job, k).1)
  {
    hide Named, DrainRecs, Sound, Image, WfLog, Net, RecordBytes, TombstoneBytes, FieldBytes, DeletePlan;
    NetOp(lib, mem.log, k);
    var rs', job' := DrainRecs(rs, job, k), DrainOne(lib, db, job, k).1;
    forall other | other in mem.index && (other !in job.net || other in job'.todo)
      ensures Named(rs', mem.index, other) == Named(rs0, mem.index, other)
    {
      DrainNamed(lib, rs, mem, job, k, mem.index, other);
    }
    if job.net[k].Set? { DrainNamesNew(lib, db, rs, mem, job, k); }
    forall other | other in job'.added && other in job.net && job.net[other].Set?
      ensures Named(rs', job'.added, other) == Some(Live(other, job.net[other].field))
    {
      if other != k {
        DrainNamed(lib, rs, mem, job, k, job.added, other);
        NamedSame(rs', job.added, job'.added, other);
      }
    }
  }

  lemma NamedSame(rs: seq<Rec>, a: Index, b: Index, k: Key)
    requires Lookup(a, k) == Lookup(b, k)
    ensures Named(rs, a, k) == Named(rs, b, k)
  {
    hide TotalSize, FieldBytes;
  }

  lemma {:induction false} NamedRun(lib: Lib, s0: State, order: seq<Key>)
    requires Inv(lib, s0) && s0.phase.Draining? && s0 != START
    requires s0.phase.job.todo == s0.phase.job.net.Keys && s0.phase.job.added == map[]
    requires Legal(lib, s0, Drains(order))
    ensures
      var s := Exec(lib, s0, Drains(order));
      && Inv(lib, s) && s.phase.Draining? && s.mem == s0.mem && s.phase.job.net == s0.phase.job.net
      && NamedProgress(Records(lib, s0.disk.db), Records(lib, s.disk.db), s0.mem.index, s.phase.job)
    decreases |order|
  {
    hide Inv, Enabled, DrainOne, Records, DrainRecs, Named, Progress;
    if order == [] {
    } else {
      var init, k := order[..|order| - 1], order[|order| - 1];
      DrainsLast(order);
      LegalPrefix(lib, s0, Drains(init), Drain(k));
      NamedRun(lib, s0, init);
      DrainRun(lib, s0, init);
      NamedRunStep(lib, Records(lib, s0.disk.db), Exec(lib, s0, Drains(init)), k);
    }
  }

  lemma NamedRunStep(lib: Lib, rs0: seq<Rec>, s: State, k: Key)
    requires Inv(lib, s) && s.phase.Draining? && Enabled(lib, s, Drain(k))
    requires NamedProgress(rs0, Records(lib, s.disk.db), s.mem.index, s.phase.job)
    ensures
      var s' := Next(lib, s, Drain(k));
      && Inv(lib, s') && s'.phase.Draining? && s'.mem == s.mem && s'.phase.job.net == s.phase.job.net
      && NamedProgress(rs0, Records(lib, s'.disk.db), s'.mem.index, s'.phase.job)
  {
    hide NamedProgress, DrainOne, Records, DrainRecs, JobOk, Sound, WfLog, IdxOk, LogOf, LogBytes, Image;
    DrainInv(lib, s, k);
    DrainJobNext(lib, s.disk.db, s.phase.job, k);
    NamedProgressStep(lib, s.disk.db, rs0, Records(lib, s.disk.db), s.mem, s.phase.job, k);
  }

  /** What the index after a flush of `net` names for `k`, whatever the order. */
  function NamedLaw(rs0: seq<Rec>, index: Index, net: map<Key, WalEntry>, k: Key): Option<Rec> {
    if k !in net then Named(rs0, index, k)
    else if net[k].Set? then Some(Live(k, net[k].field))
    else None
  }

  lemma IndexAtEnd(rs0: seq<Rec>, rs: seq<Rec>, mem: Memory, job: Job)
    requires NamedProgress(rs0, rs, mem.index, job) && JobOk(rs, mem, job) && job.todo == {}
    ensures
      var index := (mem.index + job.added) - job.plan.Keys;
      forall k :: Named(rs, index, k) == NamedLaw(rs0, mem.index, job.net, k)
  {
    hide Named, Sound, Net;
    var index := (mem.index + job.added) - job.plan.Keys;
    forall k
      ensures Named(rs, index, k) == NamedLaw(rs0, mem.index, job.net, k)
    {
      if k !in job.net {
        NamedSame(rs, index, mem.index, k);
        if k !in mem.index { NamedAbsent(rs, index, k); NamedAbsent(rs0, mem.index, k); }
      } else if job.net[k].Set? {
        NamedSame(rs, index, job.added, k);
      } else {
        NamedAbsent(rs, index, k);
      }
    }
  }

  lemma NamedAbsent(rs: seq<Rec>, index: Index, k: Key)
    requires k !in index
    ensures Named(rs, index, k) == None
  {
    hide TotalSize, FieldBytes;
  }

  /** The index in memory after a flush names, for each key, the record the law gives. */
  lemma FlushNames(lib: Lib, s: State, order: seq<Key>, items: seq<(Key, IndexEntry)>)
    requires Inv(lib, s) && s.phase.Idle? && Legal(lib, s, FlushActs(order, items))
    ensures
      var s' := Exec(lib, s, FlushActs(order, items));
      forall k :: Named(Records(lib, s'.disk.db), s'.mem.index, k)
                  == NamedLaw(Records(lib, s.disk.db), s.mem.index, Net(s.mem.log), k)
  {
    hide Inv, Next, Enabled, Records, Progress, DecodeIndex, Net, DeletePlan, Drains, Exec, Legal, NamedProgress,
      NamedLaw, Named, FlushActs;
    var d := FlushRun(lib, s, order, items);
    FlushStarts(lib, s);
    NamedRun(lib, Exec(lib, s, [BeginFlush]), order);
    RunningJob(lib, d);
    IndexAtEnd(Records(lib, s.disk.db), Records(lib, d.disk.db), s.mem, d.phase.job);
  }

  /**
   The result of flush does not depend on the order in which the net operations are
   visited: any two orders leave data files that decode to the same map and indexes that
   name equal records, although bytes and offsets differ.
   */
  lemma OrderDoesNotMatter(lib: Lib, s: State,
                           order1: seq<Key>, items1: seq<(Key, IndexEntry)>,
                           order2: seq<Key>, items2: seq<(Key, IndexEntry)>)
    requires Inv(lib, s) && s.phase.Idle?
    requires Legal(lib, s, FlushActs(order1, items1)) && Legal(lib, s, FlushActs(order2, items2))
    ensures
      var s1, s2 := Exec(lib, s, FlushActs(order1, items1)), Exec(lib, s, FlushActs(order2, items2));
      && DecodeDb(lib, s1.disk.db).Ok? && DecodeDb(lib, s2.disk.db).Ok?
      && DecodeDb(lib, s1.disk.db).value.0 == DecodeDb(lib, s2.disk.db).value.0
      && s1.mem.index.Keys == s2.mem.index.Keys
      && s1.mem.fields == s2.mem.fields
      && forall k :: Named(Records(lib, s1.disk.db), s1.mem.index, k)
                     == Named(Records(lib, s2.disk.db), s2.mem.index, k)
  {
    hide Inv, Records, DecodeIndex, Net, Exec, Legal, NamedLaw, Named, FlushActs, Law, Lookup, DecodeDb;
    ExactFlush(lib, s, order1, items1);
    ExactFlush(lib, s, order2, items2);
    var s1, s2 := Exec(lib, s, FlushActs(order1, items1)), Exec(lib, s, FlushActs(order2, items2));
    MapsEqual(DecodeDb(lib, s1.disk.db).value.0, DecodeDb(lib, s2.disk.db).value.0);
    FlushNames(lib, s, order1, items1);
    FlushNames(lib, s, order2, items2);
    FlushFields(lib, s, order1, items1);
    FlushFields(lib, s, order2, items2);
    IdleDisk(lib, s1);
    IdleDisk(lib, s2);
    SameKeys(Records(lib, s1.disk.db), s1.mem.index, Records(lib, s2.disk.db), s2.mem.index);
  }

  lemma FlushFields(lib: Lib, s: State, order: seq<Key>, items: seq<(Key, IndexEntry)>)
    requires Inv(lib, s) && s.phase.Idle? && Legal(lib, s, FlushActs(order, items))
    ensures Exec(lib, s, FlushActs(order, items)).mem.fields
            == s.mem.fields - DeletePlan(Net(s.mem.log), s.mem.index).Keys
  {
    hide Inv, Next, Enabled, Records, Progress, DecodeIndex, Net, Drains, Exec, Legal, FlushActs, DeletePlan;
    var d := FlushRun(lib, s, order, items);
    RunningJob(lib, d);
    JobNet(Records(lib, d.disk.db), d.mem, d.phase.job);
  }

  lemma SameKeys(rs1: seq<Rec>, a: Index, rs2: seq<Rec>, b: Index)
    requires Sound(rs1, a) && Sound(rs2, b)
    requires forall k :: Named(rs1, a, k) == Named(rs2, b, k)
    ensures a.Keys == b.Keys
  {
    hide FieldBytes, TotalSize, Position, Sound;
    forall k
      ensures k in a <==> k in b
    {
      assert Named(rs1, a, k) == Named(rs2, b, k);
      if k in a { SoundAt(rs1, a, k); }
      if k in b { SoundAt(rs2, b, k); }
    }
  }

  lemma SoundAt(rs: seq<Rec>, index: Index, k: Key)
    requires Sound(rs, index) && k in index
    ensures Position(rs, index[k].offset) >= 0
  {
    hide TotalSize, FieldBytes;
    assert Names(rs, k, index[k]);
  }

  // ---------------------------------------------------------------------------
  // Three copies of the index

  lemma ScannedAppend(rs: seq<Rec>, r: Rec, k: Key)
    requires !r.Holds(k)
    ensures Lookup(IndexOf(rs + [r]), k) == Lookup(IndexOf(rs), k)
  {
    hide FieldBytes, TotalSize;
    assert (rs + [r])[..|rs|] == rs;
  }

  lemma ScannedDead(rs: seq<Rec>, i: nat, k: Key)
    requires i < |rs| && !rs[i].Holds(k)
    ensures Lookup(IndexOf(rs[i := rs[i].Dead()]), k) == Lookup(IndexOf(rs), k)
  {
    hide FieldBytes, TotalSize, IndexOf;
    var rs' := rs[i := rs[i].Dead()];
    var l := LastLive(rs, k, -1);
    IndexOfAt(rs, k);
    IndexOfAt(rs', k);
    LastLiveIs(rs', k, -1, l);
    if l >= 0 { SizeUpdate(rs, i, rs[i].Dead(), l); }
  }

  /** A drained operation leaves the scanned entry of every other key alone. */
  lemma DrainScanned(lib: Lib, rs: seq<Rec>, mem: Memory, job: Job, k: Key, other: Key)
    requires WfLog(lib, mem.log) && Sound(rs, mem.index) && JobOk(rs, mem, job) && k in job.net && other != k
    ensures Lookup(IndexOf(DrainRecs(rs, job, k)), other) == Lookup(IndexOf(rs), other)
  {
    hide FieldBytes, TotalSize, WfEntry, Net, WfLog, IndexOf, Position, DeletePlan;
    NetOp(lib, mem.log, k);
    match job.net[k]
    case Set(key, field) => ScannedAppend(rs, Live(key, field), other);
    case Delete(key) =>
      var i := Target(rs, job.plan, key);
      if i >= 0 {
        PlanNames(rs, mem, job, key);
        ScannedDead(rs, i, other);
      }
  }

  /** A drained Set is what a scan finds for its key. */
  lemma DrainScannedNew(lib: Lib, db: Bytes, rs: seq<Rec>, mem: Memory, job: Job, k: Key)
    requires Image(lib, db, rs) && WfLog(lib, mem.log) && JobOk(rs, mem, job) && k in job.net && job.net[k].Set?
    ensures
      var job' := DrainOne(lib, db, job, k).1;
      k in job'.added && Lookup(IndexOf(DrainRecs(rs, job, k)), k) == Some(job'.added[k])
  {
    hide FieldBytes, TotalSize, Net, WfLog, Image, RecordBytes, WfPair, IndexOf;
    NetOp(lib, mem.log, k);
    var Set(key, field) := job.net[k];
    DrainSetImage(lib, db, rs, key, field);
    IndexOfAt(rs + [Live(key, field)], key);
    LastLiveIs(rs + [Live(key, field)], key, -1, |rs|);
    OffsetAppend(rs, Live(key, field), |rs|);
  }

  /** A scan finds the keys a reader finds. */
  lemma ScannedShows(rs: seq<Rec>, k: Key)
    ensures k in IndexOf(rs) <==> Lookup(DbMap(rs), k) != None
  {
    hide DbMap, IndexOf, FieldBytes, TotalSize;
    DbMapAt(rs, k);
    IndexOfAt(rs, k);
  }

  /** Half-way: the scan differs from the index only on drained keys, where it shows the new entries. */
  ghost predicate ScanProgress(rs: seq<Rec>, index: Index, job: Job) {
    && (forall k :: k !in job.net || k in job.todo ==> Lookup(IndexOf(rs), k) == Lookup(index, k))
    && (forall k :: k in job.net && k !in job.todo && job.net[k].Set? ==>
          k in job.added && Lookup(IndexOf(rs), k) == Some(job.added[k]))
  }

  lemma ScanProgressStep(lib: Lib, db: Bytes, rs: seq<Rec>, mem: Memory, job: Job, k: Key)
    requires Image(lib, db, rs) && WfLog(lib, mem.log) && Sound(rs, mem.index) && JobOk(rs, mem, job) && k in job.net
    requires ScanProgress(rs, mem.index, job)
    ensures ScanProgress(DrainRecs(rs, job, k), mem.index, DrainOne(lib, db, job, k).1)
  {
    hide DrainRecs, Sound, Image, WfLog, Net, RecordBytes, TombstoneBytes, FieldBytes, DeletePlan, IndexOf, Lookup;
    NetOp(lib, mem.log, k);
    var rs', job' := DrainRecs(rs, job, k), DrainOne(lib, db, job, k).1;
    if job.net[k].Set? { DrainScannedNew(lib, db, rs, mem, job, k); }
    forall other | other != k
      ensures Lookup(IndexOf(rs'), other) == Lookup(IndexOf(rs), other)
    {
      DrainScanned(lib, rs, mem, job, k, other);
    }
  }

  lemma {:induction false} ScanRun(lib: Lib, s0: State, order: seq<Key>)
    requires Inv(lib, s0) && s0.phase.Draining? && s0 != START
    requires s0.phase.job.todo == s0.phase.job.net.Keys
    requires s0.mem.index == IndexOf(Records(lib, s0.disk.db))
    requires Legal(lib, s0, Drains(order))
    ensures
      var s := Exec(lib, s0, Drains(order));
      && Inv(lib, s) && s.phase.Draining? && s.mem == s0.mem
      && ScanProgress(Records(lib, s.disk.db), s0.mem.index, s.phase.job)
    decreases |order|
  {
    hide Inv, Enabled, DrainOne, Records, DrainRecs, Progress, IndexOf;
    if order == [] {
    } else {
      var init, k := order[..|order| - 1], order[|order| - 1];
      DrainsLast(order);
      LegalPrefix(lib, s0, Drains(init), Drain(k));
      ScanRun(lib, s0, init);
      DrainRun(lib, s0, init);
      ScanRunStep(lib, Exec(lib, s0, Drains(init)), k);
    }
  }

  lemma ScanRunStep(lib: Lib, s: State, k: Key)
    requires Inv(lib, s) && s.phase.Draining? && Enabled(lib, s, Drain(k))
    requires ScanProgress(Records(lib, s.disk.db), s.mem.index, s.phase.job)
    ensures
      var s' := Next(lib, s, Drain(k));
      && Inv(lib, s') && s'.phase.Draining? && s'.mem == s.mem
      && ScanProgress(Records(lib, s'.disk.db), s'.mem.index, s'.phase.job)
  {
    hide ScanProgress, DrainOne, Records, DrainRecs, JobOk, Sound, WfLog, IdxOk, LogOf, LogBytes, Image;
    DrainInv(lib, s, k);
    ScanProgressStep(lib, s.disk.db, Records(lib, s.disk.db), s.mem, s.phase.job, k);
  }

  lemma ScanAtEnd(rs0: seq<Rec>, rs: seq<Rec>, mem: Memory, job: Job)
    requires ScanProgress(rs, mem.index, job) && JobOk(rs, mem, job) && job.todo == {}
    requires Progress(rs0, rs, mem.index, job)
    ensures (mem.index + job.added) - job.plan.Keys == IndexOf(rs) <==> Clean(rs0, mem.index, job.net)
  {
    hide Sound, Net, IndexOf, DbMap, OnlyIndexed, Leftover;
    var index := (mem.index + job.added) - job.plan.Keys;
    forall k | k in job.net && job.net[k].Delete?
      ensures k !in index && (k in IndexOf(rs) <==> !OnlyIndexed(rs0, mem.index, k))
    {
      LeftoverNone(rs0, mem.index, k);
      ScannedShows(rs, k);
    }
    if Clean(rs0, mem.index, job.net) {
      forall k
        ensures Lookup(index, k) == Lookup(IndexOf(rs), k)
      {
      }
      MapsEqual(index, IndexOf(rs));
    }
  }

  /**
   Start with the index in memory equal to a scan of the data file. A completed flush always
   leaves memory and index file with one index; a scan of the data file finds that index too
   if and only if the deletions were clean and the flush does not set the empty key. The
   scan is refused if and only if the flush leaves a value at the empty key.
   */
  lemma ThreeIndexesAgree(lib: Lib, s: State, order: seq<Key>, items: seq<(Key, IndexEntry)>)
    requires Inv(lib, s) && s.phase.Idle? && Legal(lib, s, FlushActs(order, items))
    requires DecodeIndexFromDb(s.disk.db) == Ok(s.mem.index)
    ensures
      var s', rs, net := Exec(lib, s, FlushActs(order, items)), Records(lib, s.disk.db), Net(s.mem.log);
      var scan := DecodeIndexFromDb(s'.disk.db);
      && DecodeIndex(s'.disk.idx) == Ok(s'.mem.index)
      && (scan == Ok(s'.mem.index) <==> Clean(rs, s.mem.index, net) && !([] in net && net[[]].Set?))
      && (scan == Err(InvalidIndexEntry) <==> Law(rs, s.mem.index, net, []) != None)
      && (scan.Ok? || scan == Err(InvalidIndexEntry))
  {
    hide Inv, Next, Enabled, Records, Progress, DecodeIndex, DecodeIndexFromDb, Net, DeletePlan, Drains, Exec, Legal,
      ScanProgress, FlushActs, IndexOf, Clean, Image, NoEmptyKey, DbMap, Law;
    var d := FlushRun(lib, s, order, items);
    var s' := Exec(lib, s, FlushActs(order, items));
    FlushStarts(lib, s);
    IdleScan(lib, s);
    ScanRun(lib, Exec(lib, s, [BeginFlush]), order);
    RunningJob(lib, d);
    ScanAtEnd(Records(lib, s.disk.db), Records(lib, d.disk.db), s.mem, d.phase.job);
    IdleScan(lib, s');
    LawAtEnd(Records(lib, s.disk.db), Records(lib, d.disk.db), s.mem.index, d.phase.job);
    assert Lookup(DbMap(Records(lib, d.disk.db)), []) == Law(Records(lib, s.disk.db), s.mem.index, Net(s.mem.log), []);
    EmptyKeyLaw(Records(lib, s.disk.db), s.mem.index, Net(s.mem.log));
    EmptyKeyShows(Records(lib, s'.disk.db));
  }

  /** On a file without live empty keys, a flush that sets the empty key leaves a value there;
      one with clean deletions leaves none otherwise. */
  lemma EmptyKeyLaw(rs: seq<Rec>, index: Index, net: map<Key, WalEntry>)
    requires NoEmptyKey(rs)
    ensures [] in net && net[[]].Set? ==> Law(rs, index, net, []) != None
    ensures Clean(rs, index, net) && !([] in net && net[[]].Set?) ==> Law(rs, index, net, []) == None
  {
    hide NoEmptyKey, DbMap, OnlyIndexed, Leftover;
    EmptyKeyShows(rs);
    LeftoverNone(rs, index, []);
  }

  lemma IdleScan(lib: Lib, s: State)
    requires Inv(lib, s) && s.phase.Idle?
    ensures
      var rs := Records(lib, s.disk.db);
      DecodeIndexFromDb(s.disk.db) == if NoEmptyKey(rs) then Ok(IndexOf(rs)) else Err(InvalidIndexEntry)
  {
    hide NoEmptyKey, WalOk, IdxOk, Records, Image, DecodeIndexFromDb, IndexOf;
    ImageIndexes(lib, s.disk.db, Records(lib, s.disk.db));
  }
}
