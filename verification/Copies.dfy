/**
 How many live copies of a key the data file holds, and what that does to a key that is
 overwritten and later deleted.
 */
module Copies {
  import opened Bytes
  import opened Dtypes
  import opened Format
  import opened FileImage
  import opened LogFile
  import opened Replay
  import opened RecordMaps
  import opened Engine
  import opened EngineSteps
  import opened Recovery
  import opened FlushLaw
  import opened FlushRuns
  import opened Files

  /** The number of live records of `k`. */
  function Copies(rs: seq<Rec>, k: Key): nat {
    if rs == [] then 0 else Copies(rs[..|rs| - 1], k) + (if rs[|rs| - 1].Holds(k) then 1 else 0)
  }

  lemma {:induction false} CopiesUpdate(rs: seq<Rec>, i: nat, r: Rec, k: Key)
    requires i < |rs| && r.Holds(k) == rs[i].Holds(k)
    ensures Copies(rs[i := r], k) == Copies(rs, k)
    decreases |rs|
  {
    var n := |rs| - 1;
    if i < n {
      CopiesUpdate(rs[..n], i, r, k);
      assert rs[i := r][..n] == rs[..n][i := r];
    } else {
      assert rs[i := r][..n] == rs[..n];
    }
  }

  /** A drained operation adds a copy if it sets `k`, and otherwise leaves the copies of a key
      that is not deleted alone. */
  lemma DrainCopies(lib: Lib, rs: seq<Rec>, mem: Memory, job: Job, drained: Key, k: Key)
    requires WfLog(lib, mem.log) && Sound(rs, mem.index) && JobOk(rs, mem, job) && drained in job.net
    requires k in job.net && job.net[k].Set?
    ensures Copies(DrainRecs(rs, job, drained), k) == Copies(rs, k) + (if drained == k then 1 else 0)
  {
    hide FieldBytes, TotalSize, WfEntry, Net, WfLog, Position;
    NetOp(lib, mem.log, drained);
    match job.net[drained]
    case Set(key, field) => assert (rs + [Live(key, field)])[..|rs|] == rs;
    case Delete(key) =>
      var i := Target(rs, job.plan, key);
      if i >= 0 {
        PlanNames(rs, mem, job, key);
        CopiesUpdate(rs, i, rs[i].Dead(), k);
      }
  }

  lemma {:induction false} CopiesRun(lib: Lib, s0: State, order: seq<Key>, k: Key)
    requires Inv(lib, s0) && s0.phase.Draining? && s0 != START
    requires s0.phase.job.todo == s0.phase.job.net.Keys
    requires Legal(lib, s0, Drains(order))
    requires k in s0.phase.job.net && s0.phase.job.net[k].Set?
    ensures
      var s := Exec(lib, s0, Drains(order));
      && Inv(lib, s) && s.phase.Draining? && s.phase.job.net == s0.phase.job.net
      && Copies(Records(lib, s.disk.db), k)
         == Copies(Records(lib, s0.disk.db), k) + (if k in s.phase.job.todo then 0 else 1)
    decreases |order|
  {
    hide Inv, Enabled, DrainOne, Records, DrainRecs, Progress;
    if order != [] {
      var init, drained := order[..|order| - 1], order[|order| - 1];
      DrainsLast(order);
      LegalPrefix(lib, s0, Drains(init), Drain(drained));
      CopiesRun(lib, s0, init, k);
      CopiesStep(lib, Exec(lib, s0, Drains(init)), drained, k);
    }
  }

  lemma CopiesStep(lib: Lib, s: State, drained: Key, k: Key)
    requires Inv(lib, s) && s.phase.Draining? && Enabled(lib, s, Drain(drained))
    requires k in s.phase.job.net && s.phase.job.net[k].Set?
    ensures
      var s' := Next(lib, s, Drain(drained));
      && Inv(lib, s') && s'.phase.Draining? && s'.phase.job.net == s.phase.job.net
      && s'.phase.job.todo == s.phase.job.todo - {drained} && drained in s.phase.job.todo
      && Copies(Records(lib, s'.disk.db), k)
         == Copies(Records(lib, s.disk.db), k) + (if drained == k then 1 else 0)
  {
    hide Inv, DrainOne, Records, DrainRecs, JobOk, Sound, WfLog, ValidDb;
    DrainInv(lib, s, drained);
    RunningJob(lib, s);
    DrainJobNext(lib, s.disk.db, s.phase.job, drained);
    DrainCopies(lib, Records(lib, s.disk.db), s.mem, s.phase.job, drained, k);
  }

  /** Flushing a Set always adds a live copy; the copies already there stay. */
  lemma FlushAddsCopy(lib: Lib, s: State, order: seq<Key>, items: seq<(Key, IndexEntry)>, k: Key)
    requires Inv(lib, s) && s.phase.Idle? && Legal(lib, s, FlushActs(order, items))
    requires k in Net(s.mem.log) && Net(s.mem.log)[k].Set?
    ensures Copies(Records(lib, Exec(lib, s, FlushActs(order, items)).disk.db), k)
            == Copies(Records(lib, s.disk.db), k) + 1
  {
    hide Inv, Next, Enabled, Records, Progress, DecodeIndex, Net, DeletePlan, Drains, Exec, Legal, FlushActs, Copies;
    var d := FlushRun(lib, s, order, items);
    FlushStarts(lib, s);
    CopiesRun(lib, Exec(lib, s, [BeginFlush]), order, k);
  }

  // ---------------------------------------------------------------------------
  // What deleting an overwritten key would bring back

  /** A new record that the index names hides exactly what a reader found before. */
  lemma LeftoverNew(rs: seq<Rec>, index: Index, k: Key, f: Field)
    requires k in index && index[k].offset == Offset(rs, |rs|)
    ensures Leftover(rs + [Live(k, f)], index, k) == Lookup(DbMap(rs), k)
  {
    hide TotalSize, FieldBytes, DbMap;
    var r := Live(k, f);
    OffsetAppend(rs, r, |rs|);
    PositionFound(rs + [r], |rs|);
    LastLiveIs(rs + [r], k, |rs|, LastLive(rs, k, -1));
    DbMapAt(rs, k);
  }

  /** The leftover of a key depends on its own index entry only. */
  lemma LeftoverSame(rs: seq<Rec>, a: Index, b: Index, k: Key)
    requires Lookup(a, k) == Lookup(b, k)
    ensures Leftover(rs, a, k) == Leftover(rs, b, k)
  {
    assert Target(rs, a, k) == Target(rs, b, k);
  }

  /** Where the older value of `k` is to be found: in plain sight until `k` is visited, then hidden. */
  predicate Older(rs: seq<Rec>, job: Job, k: Key, was: Option<Field>) {
    if k in job.todo then Lookup(DbMap(rs), k) == was else Leftover(rs, job.added, k) == was
  }

  lemma DrainOlder(lib: Lib, db: Bytes, rs: seq<Rec>, mem: Memory, job: Job, drained: Key, k: Key, was: Option<Field>)
    requires Image(lib, db, rs) && WfLog(lib, mem.log) && Sound(rs, mem.index) && JobOk(rs, mem, job)
    requires drained in job.net && drained in job.todo && k in job.net && job.net[k].Set?
    requires Older(rs, job, k, was)
    ensures Older(DrainRecs(rs, job, drained), DrainOne(lib, db, job, drained).1, k, was)
  {
    hide Image, DbMap, Leftover, WfLog, Net, Names, FieldBytes, TotalSize, RecordBytes, TombstoneBytes, WfPair,
      Position, DrainRecs, DeletePlan;
    NetOp(lib, mem.log, drained);
    NetOp(lib, mem.log, k);
    var job' := DrainOne(lib, db, job, drained).1;
    DrainJobNext(lib, db, job, drained);
    if drained == k {
      var f := job.net[k].field;
      DrainSetImage(lib, db, rs, k, f);
      assert job'.added == job.added[k := NewEntry(|db|, k, f)];
      assert DrainRecs(rs, job, k) == rs + [Live(k, f)] by { SetRecs(rs, job, k); }
      LeftoverNew(rs, job'.added, k, f);
    } else if k in job.todo {
      DrainElsewhere(lib, rs, mem, job, drained, k);
    } else {
      AddedElsewhere(lib, db, job, drained, k);
      LeftoverSame(DrainRecs(rs, job, drained), job.added, job'.added, k);
      LeftoverElsewhere(lib, rs, mem, job, drained, k);
    }
  }

  lemma SetRecs(rs: seq<Rec>, job: Job, k: Key)
    requires k in job.net && job.net[k].Set? && job.net[k].key == k
    ensures DrainRecs(rs, job, k) == rs + [Live(k, job.net[k].field)]
  {
  }

  lemma AddedElsewhere(lib: Lib, db: Bytes, job: Job, drained: Key, k: Key)
    requires drained in job.net && job.net[drained].key == drained && drained != k
    ensures Lookup(DrainOne(lib, db, job, drained).1.added, k) == Lookup(job.added, k)
  {
    hide RecordBytes, TombstoneBytes, FieldBytes;
  }

  lemma LeftoverElsewhere(lib: Lib, rs: seq<Rec>, mem: Memory, job: Job, drained: Key, k: Key)
    requires WfLog(lib, mem.log) && Sound(rs, mem.index) && JobOk(rs, mem, job)
    requires drained in job.net && drained != k
    ensures Leftover(DrainRecs(rs, job, drained), job.added, k) == Leftover(rs, job.added, k)
  {
    hide WfLog, Net, FieldBytes, TotalSize, Leftover, DeletePlan, Sound;
    NetOp(lib, mem.log, drained);
    match job.net[drained]
    case Set(key, field) => LeftoverAppend(rs, Live(key, field), job.added, k);
    case Delete(key) =>
      var i := Target(rs, job.plan, key);
      if i >= 0 {
        PlanNames(rs, mem, job, key);
        LeftoverDead(rs, i, job.added, k);
      }
  }

  lemma {:induction false} OlderRun(lib: Lib, s0: State, order: seq<Key>, k: Key, was: Option<Field>)
    requires Inv(lib, s0) && s0.phase.Draining? && s0 != START
    requires s0.phase.job.todo == s0.phase.job.net.Keys
    requires Legal(lib, s0, Drains(order))
    requires k in s0.phase.job.net && s0.phase.job.net[k].Set?
    requires Lookup(DbMap(Records(lib, s0.disk.db)), k) == was
    ensures
      var s := Exec(lib, s0, Drains(order));
      && Inv(lib, s) && s.phase.Draining? && s.phase.job.net == s0.phase.job.net
      && Older(Records(lib, s.disk.db), s.phase.job, k, was)
    decreases |order|
  {
    hide Inv, Enabled, DrainOne, Records, DrainRecs, DbMap, Leftover;
    if order != [] {
      var init, drained := order[..|order| - 1], order[|order| - 1];
      DrainsLast(order);
      LegalPrefix(lib, s0, Drains(init), Drain(drained));
      OlderRun(lib, s0, init, k, was);
      OlderStep(lib, Exec(lib, s0, Drains(init)), drained, k, was);
    }
  }

  lemma OlderStep(lib: Lib, s: State, drained: Key, k: Key, was: Option<Field>)
    requires Inv(lib, s) && s.phase.Draining? && Enabled(lib, s, Drain(drained))
    requires k in s.phase.job.net && s.phase.job.net[k].Set?
    requires Older(Records(lib, s.disk.db), s.phase.job, k, was)
    ensures
      var s' := Next(lib, s, Drain(drained));
      && Inv(lib, s') && s'.phase.Draining? && s'.phase.job.net == s.phase.job.net
      && Older(Records(lib, s'.disk.db), s'.phase.job, k, was)
  {
    hide Inv, DrainOne, Records, DrainRecs, JobOk, Sound, WfLog, ValidDb, Older, Image;
    DrainInv(lib, s, drained);
    RunningJob(lib, s);
    ValidImage(lib, s.disk.db);
    DrainJobNext(lib, s.disk.db, s.phase.job, drained);
    DrainOlder(lib, s.disk.db, Records(lib, s.disk.db), s.mem, s.phase.job, drained, k, was);
  }

  /**
   After a flush that sets `k`, deleting `k` through the index would uncover exactly what the
   data file showed for it before that flush.
   */
  lemma FlushHidesOlder(lib: Lib, s: State, order: seq<Key>, items: seq<(Key, IndexEntry)>, k: Key)
    requires Inv(lib, s) && s.phase.Idle? && Legal(lib, s, FlushActs(order, items))
    requires k in Net(s.mem.log) && Net(s.mem.log)[k].Set?
    ensures
      var s' := Exec(lib, s, FlushActs(order, items));
      Leftover(Records(lib, s'.disk.db), s'.mem.index, k) == Lookup(DbMap(Records(lib, s.disk.db)), k)
  {
    hide Inv, Next, Enabled, Records, Progress, DecodeIndex, Net, DeletePlan, Drains, Exec, Legal, FlushActs,
      Leftover, DbMap, WriteAt, LE;
    var was := Lookup(DbMap(Records(lib, s.disk.db)), k);
    var d := FlushRun(lib, s, order, items);
    FlushStarts(lib, s);
    OlderRun(lib, Exec(lib, s, [BeginFlush]), order, k, was);
    AddedNotPlanned(lib, d, k);
    var job := d.phase.job;
    LeftoverSame(Records(lib, d.disk.db), job.added, (d.mem.index + job.added) - job.plan.Keys, k);
  }

  lemma AddedNotPlanned(lib: Lib, d: State, k: Key)
    requires Inv(lib, d) && d.phase.Draining? && d.phase.job.todo == {}
    requires k in d.phase.job.net && d.phase.job.net[k].Set?
    ensures k in d.phase.job.added && k !in d.phase.job.plan
  {
    hide Inv, Sound, Net, Records;
    RunningJob(lib, d);
  }

  /** A sound idle engine with an empty log opens to what its data file shows. */
  lemma FlushedOpens(lib: Lib, s: State, name: Bytes)
    requires Inv(lib, s) && s.phase.Idle? && s.mem.log == []
    ensures
      var r := OpenDb(lib, name, s.disk);
      && (r.Ok? <==> |name| <= 64 && Opens(lib, s.disk))
      && (r.Ok? ==> r.value.0.fields == DbMap(Records(lib, s.disk.db)))
  {
    hide OpenDb, DiskOk, DbMap, Records, Sound, LogOf, Opens;
    OpenRecovers(lib, name, s.disk);
    ReplayEmpty(DbMap(Records(lib, s.disk.db)));
  }

  /**
   The law about clean deletions fails for a whole family of runs: set a key, flush, delete
   it, flush. However the two flushes order their work, the key is gone from memory, but if
   the files open, they bring back exactly what they showed for it before it was set: for a
   key that was on disk already, its older value.
   */
  lemma OverwrittenThenDeletedComesBack(lib: Lib, s: State, k: Key,
                                        order1: seq<Key>, items1: seq<(Key, IndexEntry)>,
                                        order2: seq<Key>, items2: seq<(Key, IndexEntry)>, name: Bytes)
    requires Inv(lib, s) && s.phase.Idle? && WfEntry(lib, Delete(k))
    requires k in Net(s.mem.log) && Net(s.mem.log)[k].Set?
    requires Legal(lib, s, FlushActs(order1, items1))
    requires
      var t := Exec(lib, Exec(lib, s, FlushActs(order1, items1)), [Log(Delete(k)), Apply]);
      Legal(lib, t, FlushActs(order2, items2))
    ensures
      var t := Exec(lib, Exec(lib, s, FlushActs(order1, items1)), [Log(Delete(k)), Apply]);
      var u := Exec(lib, t, FlushActs(order2, items2));
      var r := OpenDb(lib, name, u.disk);
      && k !in u.mem.fields
      && (r.Ok? <==> |name| <= 64 && Opens(lib, u.disk))
      && (r.Ok? ==> Lookup(r.value.0.fields, k) == Lookup(DbMap(Records(lib, s.disk.db)), k))
  {
    hide Inv, Records, Exec, Legal, FlushActs, DbMap, Net, WfEntry, Leftover, OpenDb, Opens, Law;
    var s' := Exec(lib, s, FlushActs(order1, items1));
    FlushEnds(lib, s, order1, items1);
    FlushHidesOlder(lib, s, order1, items1, k);
    FlushOne(lib, s', Delete(k), order2, items2);
    var u := Exec(lib, Exec(lib, s', [Log(Delete(k)), Apply]), FlushActs(order2, items2));
    FlushedOpens(lib, u, name);
    LawOfDelete(Records(lib, s'.disk.db), s'.mem.index, k);
  }

  /** What a flush leaves, seen at the level of records. */
  lemma FlushEnds(lib: Lib, s: State, order: seq<Key>, items: seq<(Key, IndexEntry)>)
    requires Inv(lib, s) && s.phase.Idle? && Legal(lib, s, FlushActs(order, items))
    ensures
      var s' := Exec(lib, s, FlushActs(order, items));
      && Inv(lib, s') && s'.phase.Idle? && s'.mem.log == []
      && s'.mem.fields == s.mem.fields - DeletePlan(Net(s.mem.log), s.mem.index).Keys
      && forall k :: Lookup(DbMap(Records(lib, s'.disk.db)), k)
                     == Law(Records(lib, s.disk.db), s.mem.index, Net(s.mem.log), k)
  {
    hide Inv, Records, DecodeIndex, Exec, Legal, FlushActs, Net, Progress, Drains, DeletePlan, Law, DbMap;
    var d := FlushRun(lib, s, order, items);
    LawAtEnd(Records(lib, s.disk.db), Records(lib, d.disk.db), s.mem.index, d.phase.job);
    DrainPlan(lib, d);
  }

  lemma DrainPlan(lib: Lib, d: State)
    requires Inv(lib, d) && d.phase.Draining?
    ensures d.phase.job.plan == DeletePlan(d.phase.job.net, d.mem.index)
  {
    hide Inv, Sound, Net, Records, DeletePlan;
    RunningJob(lib, d);
  }

  /** One operation on an engine with an empty log, then a flush. */
  lemma FlushOne(lib: Lib, s: State, e: WalEntry, order: seq<Key>, items: seq<(Key, IndexEntry)>)
    requires Inv(lib, s) && s.phase.Idle? && s.mem.log == [] && WfEntry(lib, e)
    requires Legal(lib, Exec(lib, s, [Log(e), Apply]), FlushActs(order, items))
    ensures
      var s' := Exec(lib, Exec(lib, s, [Log(e), Apply]), FlushActs(order, items));
      && Inv(lib, s') && s'.phase.Idle? && s'.mem.log == []
      && s'.mem.fields == ApplyEntry(e, s.mem.fields)
      && forall k :: Lookup(DbMap(Records(lib, s'.disk.db)), k)
                     == Law(Records(lib, s.disk.db), s.mem.index, map[e.key := e], k)
  {
    hide Inv, Records, Exec, Legal, FlushActs, WfEntry, Law, DbMap, EntryBytes;
    OneOperation(lib, s, e);
    RunInv(lib, s, [Log(e), Apply]);
    OnlyNet(e);
    FlushEnds(lib, Exec(lib, s, [Log(e), Apply]), order, items);
    PlanGone(e, s.mem.index, s.mem.fields);
  }

  lemma LawOfDelete(rs: seq<Rec>, index: Index, k: Key)
    ensures Law(rs, index, map[k := Delete(k)], k) == Leftover(rs, index, k)
  {
    hide Leftover;
  }

  lemma OnlyNet(e: WalEntry)
    ensures Net([] + [e]) == map[e.key := e]
  {
    ReplayAppend([], e, map[]);
  }

  lemma PlanGone(e: WalEntry, index: Index, m: Fields)
    ensures ApplyEntry(e, m) - DeletePlan(map[e.key := e], index).Keys == ApplyEntry(e, m)
  {
  }

  // ---------------------------------------------------------------------------
  // A run in which it happens

  /** One operation, and a flush of it. */
  function Turn(e: WalEntry, items: seq<(Key, IndexEntry)>): seq<Action> {
    [Log(e), Apply] + FlushActs([e.key], items)
  }

  /** Create a database, set a key twice and delete it, with a flush each time. */
  function RevivalRun(name: Bytes, k: Key, a: Field, b: Field, i1: seq<(Key, IndexEntry)>, i2: seq<(Key, IndexEntry)>,
                      i3: seq<(Key, IndexEntry)>): seq<Action> {
    [Reopen(name)] + Turn(Set(k, a), i1) + Turn(Set(k, b), i2) + Turn(Delete(k), i3)
  }

  lemma OneGrowth(lib: Lib, e: WalEntry)
    requires WfEntry(lib, e)
    ensures Growth(map[e.key := e], [e.key]) < 0x2_0000_0000
  {
    hide WfField, FieldBytes;
    assert [e.key][..0] == [];
  }

  /** There is always a legal turn, and it does exactly this. */
  lemma OneTurn(lib: Lib, s: State, e: WalEntry) returns (items: seq<(Key, IndexEntry)>)
    requires Inv(lib, s) && s.phase.Idle? && s.mem.log == [] && WfEntry(lib, e)
    requires |s.disk.db| + 0x2_0000_0000 < U64
    ensures Legal(lib, s, Turn(e, items))
    ensures
      var s' := Exec(lib, s, Turn(e, items));
      && Inv(lib, s') && s'.phase.Idle? && s'.mem.log == []
      && |s'.disk.db| < |s.disk.db| + 0x2_0000_0000
      && s'.mem.fields == ApplyEntry(e, s.mem.fields)
      && (forall k :: Lookup(DbMap(Records(lib, s'.disk.db)), k)
                      == Law(Records(lib, s.disk.db), s.mem.index, map[e.key := e], k))
      && (e.Set? ==>
            Leftover(Records(lib, s'.disk.db), s'.mem.index, e.key) == Lookup(DbMap(Records(lib, s.disk.db)), e.key))
  {
    hide Inv, Records, Exec, Legal, FlushActs, WfEntry, Law, DbMap, EntryBytes, Growth, Net, Leftover, ApplyEntry;
    OneOperation(lib, s, e);
    RunInv(lib, s, [Log(e), Apply]);
    OnlyNet(e);
    OneGrowth(lib, e);
    var t := Exec(lib, s, [Log(e), Apply]);
    assert (set k | k in [e.key]) == {e.key} == map[e.key := e].Keys;
    items := FlushNeverStuck(lib, t, [e.key]);
    FlushOne(lib, s, e, [e.key], items);
    if e.Set? { FlushHidesOlder(lib, t, [e.key], items, e.key); }
    RunsCompose(lib, s, [Log(e), Apply], FlushActs([e.key], items));
  }

  /** A turn that sets a key changes nothing else in the data file. */
  lemma LawOfSet(rs: seq<Rec>, index: Index, k: Key, f: Field, m: Fields)
    requires forall x :: Lookup(m, x) == Law(rs, index, map[k := Set(k, f)], x)
    ensures m == DbMap(rs)[k := f]
  {
    hide DbMap, Leftover;
    forall x
      ensures Lookup(m, x) == Lookup(DbMap(rs)[k := f], x)
    {
    }
    MapsEqual(m, DbMap(rs)[k := f]);
  }

  /** A turn that deletes a key uncovers its leftover. */
  lemma LawUncovers(rs: seq<Rec>, index: Index, k: Key, a: Field, m: Fields)
    requires forall x :: Lookup(m, x) == Law(rs, index, map[k := Delete(k)], x)
    requires Leftover(rs, index, k) == Some(a)
    ensures m == DbMap(rs)[k := a]
  {
    hide DbMap, Leftover;
    forall x
      ensures Lookup(m, x) == Lookup(DbMap(rs)[k := a], x)
    {
    }
    MapsEqual(m, DbMap(rs)[k := a]);
  }

  lemma FourParts(lib: Lib, s: State, a: seq<Action>, b: seq<Action>, c: seq<Action>, d: seq<Action>)
    requires Legal(lib, s, a)
    requires Legal(lib, Exec(lib, s, a), b)
    requires Legal(lib, Exec(lib, Exec(lib, s, a), b), c)
    requires Legal(lib, Exec(lib, Exec(lib, Exec(lib, s, a), b), c), d)
    ensures Legal(lib, s, a + b + c + d)
    ensures Exec(lib, s, a + b + c + d) == Exec(lib, Exec(lib, Exec(lib, Exec(lib, s, a), b), c), d)
  {
    hide Exec, Legal;
    RunsCompose(lib, s, a, b);
    RunsCompose(lib, s, a + b, c);
    RunsCompose(lib, s, a + b + c, d);
  }

  /**
   A legal run from fresh files, for any non-empty key and any two values: at its end the
   key is deleted and flushed and memory is empty, yet reopening finds the key again, with
   the first of its two values.
   */
  lemma DeletedKeyReturns(lib: Lib, name: Bytes, k: Key, a: Field, b: Field)
    returns (i1: seq<(Key, IndexEntry)>, i2: seq<(Key, IndexEntry)>, i3: seq<(Key, IndexEntry)>)
    requires |name| <= NAME_LEN && k != [] && WfPair(lib, k, a) && WfPair(lib, k, b)
    ensures Legal(lib, START, RevivalRun(name, k, a, b, i1, i2, i3))
    ensures
      var s := Exec(lib, START, RevivalRun(name, k, a, b, i1, i2, i3));
      && s.phase.Idle? && s.mem.fields == map[]
      && OpenDb(lib, name, s.disk).Ok?
      && OpenDb(lib, name, s.disk).value.0.fields == map[k := a]
  {
    hide Exec, Legal, Next, Enabled, Inv, Records, DbMap, Law, OpenDb, Turn, WfPair, HeaderBytes, Leftover,
      NoEmptyKey;
    FreshState(lib, name);
    var s0 := Next(lib, START, Reopen(name));
    FirstStep(lib, name);
    ShortKey(lib, k, a);
    ShortKey(lib, k, b);
    i1 := OneTurn(lib, s0, Set(k, a));
    var s1 := Exec(lib, s0, Turn(Set(k, a), i1));
    i2 := OneTurn(lib, s1, Set(k, b));
    var s2 := Exec(lib, s1, Turn(Set(k, b), i2));
    i3 := OneTurn(lib, s2, Delete(k));
    var s3 := Exec(lib, s2, Turn(Delete(k), i3));
    FourParts(lib, START, [Reopen(name)], Turn(Set(k, a), i1), Turn(Set(k, b), i2), Turn(Delete(k), i3));
    LawOfSet(Records(lib, s0.disk.db), s0.mem.index, k, a, DbMap(Records(lib, s1.disk.db)));
    LawOfSet(Records(lib, s1.disk.db), s1.mem.index, k, b, DbMap(Records(lib, s2.disk.db)));
    LawUncovers(Records(lib, s2.disk.db), s2.mem.index, k, a, DbMap(Records(lib, s3.disk.db)));
    assert DbMap([]) == map[] by { NoRecords(); }
    assert DbMap(Records(lib, s3.disk.db)) == map[k := a];
    FlushedOpens(lib, s3, name);
    EmptyKeyShows(Records(lib, s3.disk.db));
  }

  lemma FirstStep(lib: Lib, name: Bytes)
    requires Enabled(lib, START, Reopen(name))
    ensures Legal(lib, START, [Reopen(name)])
    ensures Exec(lib, START, [Reopen(name)]) == Next(lib, START, Reopen(name))
  {
    hide Next, Enabled;
    assert [] + [Reopen(name)] == [Reopen(name)];
    LegalPrefix(lib, START, [], Reopen(name));
  }

  lemma ShortKey(lib: Lib, k: Key, f: Field)
    requires WfPair(lib, k, f)
    ensures WfEntry(lib, Set(k, f)) && WfEntry(lib, Delete(k))
  {
  }

  lemma NoRecords()
    ensures DbMap([]) == map[]
  {
  }
}
