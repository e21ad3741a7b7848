/**
 A flush is never stuck: from every sound idle state, every order of the net operations
 is a legal flush, as long as the data file stays below 2^64 bytes.
 */
module FlushRuns {
  import opened Bytes
  import opened Dtypes
  import opened Format
  import opened FileImage
  import opened LogFile
  import opened IndexFile
  import opened Replay
  import opened RecordMaps
  import opened Engine
  import opened EngineSteps
  import opened Recovery
  import opened FlushLaw
  import opened Files
  import Header

  /** How much the data file grows when these operations are drained. */
  function Growth(net: map<Key, WalEntry>, order: seq<Key>): nat {
    if order == [] then 0
    else
      var k := order[|order| - 1];
      Growth(net, order[..|order| - 1]) +
      if k in net && net[k].Set? then Live(net[k].key, net[k].field).Size() else 0
  }

  lemma GrowthGrows(net: map<Key, WalEntry>, order: seq<Key>)
    requires order != []
    ensures Growth(net, order[..|order| - 1]) <= Growth(net, order)
  {
  }

  /** A drained Set grows the file by its record; a drained Delete does not change its size. */
  lemma DrainSize(lib: Lib, s: State, k: Key)
    requires Inv(lib, s) && s.phase.Draining? && s != START && k in s.phase.job.net
    ensures |DrainOne(lib, s.disk.db, s.phase.job, k).0| == |s.disk.db| +
            if s.phase.job.net[k].Set? then Live(s.phase.job.net[k].key, s.phase.job.net[k].field).Size() else 0
  {
    hide Inv, JobOk, Sound, WfLog, ValidDb, Records, TotalSize, FieldBytes, RecordBytes, TombstoneBytes, Image,
      DrainOne, Net, Target;
    RunningJob(lib, s);
    var rs, job := Records(lib, s.disk.db), s.phase.job;
    assert Image(lib, s.disk.db, rs) by { ValidImage(lib, s.disk.db); }
    DrainImage(lib, s.disk.db, rs, s.mem, job, k);
    ImageAt(lib, s.disk.db, rs);
    ImageAt(lib, DrainOne(lib, s.disk.db, job, k).0, DrainRecs(rs, job, k));
    match job.net[k]
    case Set(key, field) =>
      RecsConcat(lib, rs, [Live(key, field)]);
      RecsSingle(lib, Live(key, field));
    case Delete(key) =>
      var i := Target(rs, job.plan, key);
      if i >= 0 { SameTotal(rs, i); }
  }

  lemma ValidImage(lib: Lib, db: Bytes)
    requires ValidDb(lib, db)
    ensures Image(lib, db, Records(lib, db))
  {
    hide Image, Records;
  }

  lemma {:induction false} DrainsLegal(lib: Lib, s0: State, order: seq<Key>)
    requires Inv(lib, s0) && s0.phase.Draining? && s0 != START
    requires s0.phase.job.todo == s0.phase.job.net.Keys
    requires Distinct(order) && forall k :: k in order ==> k in s0.phase.job.net
    requires |s0.disk.db| + Growth(s0.phase.job.net, order) < U64
    ensures Legal(lib, s0, Drains(order))
    ensures
      var s := Exec(lib, s0, Drains(order));
      && Inv(lib, s) && s.phase.Draining? && s != START
      && s.phase.job.net == s0.phase.job.net
      && s.phase.job.todo == s0.phase.job.net.Keys - (set k | k in order)
      && |s.disk.db| == |s0.disk.db| + Growth(s0.phase.job.net, order)
    decreases |order|
  {
    hide Inv, DrainOne, Records, DrainRecs, Progress, Growth, Exec, Legal;
    if order == [] {
      NoDrains(lib, s0);
      NoGrowth(s0.phase.job.net);
    } else {
      var init, k := order[..|order| - 1], order[|order| - 1];
      GrowthGrows(s0.phase.job.net, order);
      DrainsLegal(lib, s0, init);
      var s := Exec(lib, s0, Drains(init));
      assert order == init + [k];
      assert k !in init;
      assert (set x | x in order) == (set x | x in init) + {k};
      DrainSize(lib, s, k);
      GrowthLast(s0.phase.job.net, order);
      DrainsLast(order);
      LegalPrefix(lib, s0, Drains(init), Drain(k));
      StepInv(lib, s, Drain(k));
      DrainJobNext(lib, s.disk.db, s.phase.job, k);
    }
  }

  lemma GrowthLast(net: map<Key, WalEntry>, order: seq<Key>)
    requires order != []
    ensures
      var k := order[|order| - 1];
      Growth(net, order) == Growth(net, order[..|order| - 1]) +
      if k in net && net[k].Set? then Live(net[k].key, net[k].field).Size() else 0
  {
  }

  lemma NoGrowth(net: map<Key, WalEntry>)
    ensures Growth(net, []) == 0
  {
  }

  /** Every map can be iterated. */
  lemma {:induction false} SomeIteration<V>(m: map<Key, V>) returns (items: seq<(Key, V)>)
    ensures Iterates(items, m)
    decreases |m|
  {
    hide Iterated, Iterates;
    items := [];
    var todo := m.Keys;
    IteratedNone(m);
    while todo != {}
      invariant Iterated(items, m, todo)
      decreases todo
    {
      var k :| k in todo;
      IteratedStep(items, m, todo, k);
      items := items + [(k, m[k])];
      todo := todo - {k};
    }
    IteratedAll(items, m);
  }

  /** Any order that lists the net operations once is an order in which flush can run. */
  lemma FlushNeverStuck(lib: Lib, s: State, order: seq<Key>) returns (items: seq<(Key, IndexEntry)>)
    requires Inv(lib, s) && s.phase.Idle?
    requires Distinct(order) && (set k | k in order) == Net(s.mem.log).Keys
    requires |s.disk.db| + Growth(Net(s.mem.log), order) < U64
    ensures Legal(lib, s, FlushActs(order, items))
    ensures |Exec(lib, s, FlushActs(order, items)).disk.db| == |s.disk.db| + Growth(Net(s.mem.log), order)
  {
    hide Inv, Net, DeletePlan, Drains, Growth, Distinct, Iterates, Exec, Legal, Next, Enabled, Progress, DecodeIndex,
      LE, WriteAt, Records;
    var s1 := Exec(lib, s, [BeginFlush]);
    FlushStarts(lib, s);
    assert forall k :: k in order ==> k in (set x | x in order);
    DrainsLegal(lib, s1, order);
    var d := Exec(lib, s1, Drains(order));
    items := SomeIteration((d.mem.index + d.phase.job.added) - d.phase.job.plan.Keys);
    FinishLegal(lib, d, items);
    BeginLegal(lib, s);
    RunsCompose(lib, s, [BeginFlush], Drains(order));
    RunsCompose(lib, s, [BeginFlush] + Drains(order),
                [Commit, PatchCount, TruncateIndex, WriteIndex(items), Checkpoint]);
    var same := FlushRun(lib, s, order, items);
    PatchSize(lib, d, |Exec(lib, s, FlushActs(order, items)).mem.fields|);
  }

  lemma PatchSize(lib: Lib, d: State, count: nat)
    requires Inv(lib, d) && d.phase.Draining? && d != START
    ensures |WriteAt(d.disk.db, COUNT_OFFSET, LE(8, count))| == |d.disk.db|
  {
    hide Inv, JobOk, Sound, WfLog, ValidDb, Records, Image, WriteAt, LE;
    RunningJob(lib, d);
    ValidImage(lib, d.disk.db);
    ImageAt(lib, d.disk.db, Records(lib, d.disk.db));
    Header.PatchReads(d.disk.db, count);
  }

  lemma BeginLegal(lib: Lib, s: State)
    requires s.phase.Idle?
    ensures Legal(lib, s, [BeginFlush])
  {
    hide Net, DeletePlan;
    assert [] + [BeginFlush] == [BeginFlush];
    LegalPrefix(lib, s, [], BeginFlush);
  }

  lemma FinishLegal(lib: Lib, d: State, items: seq<(Key, IndexEntry)>)
    requires d.phase.Draining? && d.phase.job.todo == {}
    requires Iterates(items, (d.mem.index + d.phase.job.added) - d.phase.job.plan.Keys)
    ensures Legal(lib, d, [Commit, PatchCount, TruncateIndex, WriteIndex(items), Checkpoint])
  {
    hide Iterates, LE, IndexFileBytes;
    FiveSteps(lib, d, Commit, PatchCount, TruncateIndex, WriteIndex(items), Checkpoint);
  }
}
