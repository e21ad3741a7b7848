/**
 Each step of the engine keeps index soundness and the shape of the files, and changes
 what the files stand for only when an operation is logged or the log is truncated.
 */
module EngineSteps {
  import opened Bytes
  import opened Dtypes
  import opened Format
  import opened Files
  import opened FileImage
  import opened LogFile
  import opened IndexFile
  import opened Replay
  import opened RecordMaps
  import opened Engine
  import Header

  // ---------------------------------------------------------------------------
  // Parts

  lemma HeldDecodes(lib: Lib, wal: Bytes, log: seq<WalEntry>)
    requires Holds(lib, wal, log)
    ensures DecodeLog(lib, wal) == Ok(log)
  {
    hide WfLog, DecodeLog, LogBytes;
    LogRoundTrip(lib, log);
  }

  /** A file holds one log only, and decoding it finds that log. */
  lemma LogOfBytes(lib: Lib, log: seq<WalEntry>)
    requires WfLog(lib, log)
    ensures LogOf(lib, LogBytes(log)) == log && WalOk(lib, LogBytes(log))
    ensures DecodeLog(lib, LogBytes(log)) == Ok(log)
  {
    hide WfLog, DecodeLog, LogBytes;
    assert Holds(lib, LogBytes(log), log);
    HeldDecodes(lib, LogBytes(log), log);
    HeldDecodes(lib, LogBytes(log), LogOf(lib, LogBytes(log)));
  }

  lemma WalDecodes(lib: Lib, wal: Bytes)
    requires WalOk(lib, wal)
    ensures DecodeLog(lib, wal) == Ok(LogOf(lib, wal))
  {
    hide Holds, DecodeLog, LogOf;
    HeldDecodes(lib, wal, LogOf(lib, wal));
  }

  lemma WfLogAppend(lib: Lib, log: seq<WalEntry>, e: WalEntry)
    requires WfLog(lib, log) && WfEntry(lib, e)
    ensures WfLog(lib, log + [e])
  {
    hide WfEntry;
  }

  lemma WalAppend(lib: Lib, wal: Bytes, e: WalEntry)
    requires WalOk(lib, wal) && WfEntry(lib, e)
    ensures WalOk(lib, wal + EntryBytes(e))
    ensures LogOf(lib, wal + EntryBytes(e)) == LogOf(lib, wal) + [e]
  {
    hide WfLog, LogOf, LogBytes, EntryBytes, WfEntry;
    WfLogAppend(lib, LogOf(lib, wal), e);
    LogAppend(LogOf(lib, wal), e);
    LogOfBytes(lib, LogOf(lib, wal) + [e]);
  }

  lemma WalEmpty(lib: Lib)
    ensures WalOk(lib, []) && LogOf(lib, []) == []
  {
    LogOfBytes(lib, []);
  }

  /** A net operation was logged, so it is well formed. */
  lemma NetOp(lib: Lib, log: seq<WalEntry>, k: Key)
    requires WfLog(lib, log) && k in Net(log)
    ensures WfEntry(lib, Net(log)[k]) && Net(log)[k].key == k
  {
    hide WfEntry;
    NetKeys(log);
  }

  lemma IdxAppend(rs: seq<Rec>, r: Rec, idx: Bytes)
    requires IdxOk(rs, idx)
    ensures IdxOk(rs + [r], idx)
  {
    hide Sound, DecodeIndex;
    if idx != [] { SoundAppend(rs, r, DecodeIndex(idx).value); }
  }

  lemma IdxDead(rs: seq<Rec>, i: nat, idx: Bytes)
    requires i < |rs| && IdxOk(rs, idx)
    ensures IdxOk(rs[i := rs[i].Dead()], idx)
  {
    hide Sound, DecodeIndex;
    if idx != [] { SoundDead(rs, i, DecodeIndex(idx).value); }
  }

  // ---------------------------------------------------------------------------
  // Opening

  /**
   What opening a good disk gives. It is refused exactly when the name is longer than 64
   bytes, or the index must be scanned and a live record has an empty key; otherwise every
   file is readable and recovery is replay.
   */
  lemma OpenRecovers(lib: Lib, name: Bytes, d: Disk)
    requires DiskOk(lib, d)
    ensures OpenDb(lib, name, d).Ok? <==> |name| <= 64 && Opens(lib, d)
    ensures !OpenDb(lib, name, d).Ok? ==>
              OpenDb(lib, name, d) == Err(if |name| > 64 then DbNameTooLong else InvalidIndexEntry)
    ensures OpenDb(lib, name, d).Ok? ==>
              var (mem, d') := OpenDb(lib, name, d).value;
              && d' == d
              && mem.fields == Durable(lib, d)
              && mem.log == LogOf(lib, d.wal)
              && Sound(Records(lib, d.db), mem.index)
              && mem.index == (if d.idx != [] then DecodeIndex(d.idx).value else IndexOf(Records(lib, d.db)))
  {
    hide DecodeDb, DecodeIndex, DecodeIndexFromDb, DecodeLog, LogOf, WfLog, Records, DbMap, IndexOf, Sound,
      ReplayLog, NoEmptyKey, DecodeHeader, RecsBytes, WfRecs, LogBytes;
    var rs := Records(lib, d.db);
    WalDecodes(lib, d.wal);
    ImageDecodes(lib, d.db, rs);
    ImageIndexes(lib, d.db, rs);
    ScanSound(rs);
    assert d.db != [];
  }

  /** The first opening writes a header and starts empty, unless the name is too long. */
  lemma OpenFresh(lib: Lib, name: Bytes)
    ensures OpenDb(lib, name, START.disk)
            == if |name| <= 64 then Ok((NO_MEMORY, Disk(HeaderBytes(name, 0), [], []))) else Err(DbNameTooLong)
    ensures Records(lib, HeaderBytes(name, 0)) == []
    ensures DiskOk(lib, Disk(HeaderBytes(name, 0), [], []))
  {
    hide HeaderBytes, Records, LogOf;
    WalEmpty(lib);
    Header.NewFileImage(lib, name, 0);
    ImageRecords(lib, HeaderBytes(name, 0), []);
    assert |HeaderBytes(name, 0)| == HEADER_SIZE by { Header.HeaderReads(name, 0); }
  }

  // ---------------------------------------------------------------------------
  // Draining one net operation

  /** What one drained operation does to the records. */
  function DrainRecs(rs: seq<Rec>, job: Job, k: Key): seq<Rec>
    requires k in job.net
  {
    match job.net[k]
    case Set(key, field) => rs + [Live(key, field)]
    case Delete(key) =>
      var i := Target(rs, job.plan, key);
      if i >= 0 then rs[i := rs[i].Dead()] else rs
  }

  lemma DrainSetImage(lib: Lib, db: Bytes, rs: seq<Rec>, k: Key, f: Field)
    requires Image(lib, db, rs) && WfPair(lib, k, f)
    ensures Image(lib, db + RecordBytes(lib, k, f), rs + [Live(k, f)])
    ensures NewEntry(|db|, k, f) == Live(k, f).Entry(Offset(rs, |rs|))
  {
    hide Image, RecordBytes, FieldBytes, WfField, TotalSize;
    assert RecBytes(lib, Live(k, f)) == RecordBytes(lib, k, f);
    AppendImage(lib, db, rs, Live(k, f));
    OffsetAppend(rs, Live(k, f), |rs|);
  }

  lemma DrainDeleteImage(lib: Lib, db: Bytes, rs: seq<Rec>, k: Key, e: IndexEntry)
    requires Image(lib, db, rs) && Names(rs, k, e)
    ensures
      var i := Position(rs, e.offset);
      i >= 0 && Image(lib, WriteAt(db, e.offset, TombstoneBytes(e.keyLen, e.fieldLen)), rs[i := rs[i].Dead()])
  {
    hide Image, TombstoneBytes, FieldBytes, TotalSize, WriteAt;
    TombstoneImage(lib, db, rs, Position(rs, e.offset));
  }

  /** On disk, a drained operation is one appended record, one killed record, or nothing. */
  lemma DrainImage(lib: Lib, db: Bytes, rs: seq<Rec>, mem: Memory, job: Job, k: Key)
    requires Image(lib, db, rs) && WfLog(lib, mem.log) && Sound(rs, mem.index)
    requires JobOk(rs, mem, job) && k in job.net
    ensures Image(lib, DrainOne(lib, db, job, k).0, DrainRecs(rs, job, k))
  {
    hide Image, TombstoneBytes, FieldBytes, TotalSize, RecordBytes, WfLog, Net, Names, WfPair, WriteAt;
    NetOp(lib, mem.log, k);
    match job.net[k]
    case Set(key, field) => DrainSetImage(lib, db, rs, key, field);
    case Delete(key) =>
      if key in job.plan { DrainDeleteImage(lib, db, rs, key, job.plan[key]); }
  }

  /** Sound indexes and the index file survive the drain. */
  lemma DrainKeeps(lib: Lib, rs: seq<Rec>, mem: Memory, job: Job, k: Key, idx: Bytes)
    requires WfLog(lib, mem.log) && Sound(rs, mem.index) && JobOk(rs, mem, job) && k in job.net
    requires IdxOk(rs, idx)
    ensures
      var rs' := DrainRecs(rs, job, k);
      IdxOk(rs', idx) && Sound(rs', mem.index) && Sound(rs', job.added)
  {
    hide Names, WfLog, Net, IdxOk, Sound, WfEntry;
    NetOp(lib, mem.log, k);
    match job.net[k]
    case Set(key, field) =>
      var r := Live(key, field);
      IdxAppend(rs, r, idx);
      SoundAppend(rs, r, mem.index);
      SoundAppend(rs, r, job.added);
    case Delete(key) =>
      var i := Target(rs, job.plan, key);
      if i >= 0 {
        IdxDead(rs, i, idx);
        SoundDead(rs, i, mem.index);
        SoundDead(rs, i, job.added);
      }
  }

  lemma SoundInsert(rs: seq<Rec>, index: Index, k: Key, e: IndexEntry)
    requires Sound(rs, index) && Names(rs, k, e)
    ensures Sound(rs, index[k := e])
  {
    hide Names;
  }

  lemma DrainJob(lib: Lib, db: Bytes, rs: seq<Rec>, mem: Memory, job: Job, k: Key)
    requires Image(lib, db, rs) && WfLog(lib, mem.log) && JobOk(rs, mem, job) && k in job.net && k in job.todo
    requires Sound(DrainRecs(rs, job, k), job.added)
    ensures JobOk(DrainRecs(rs, job, k), mem, DrainOne(lib, db, job, k).1)
  {
    hide Image, TombstoneBytes, FieldBytes, TotalSize, RecordBytes, WfLog, Net, Names, WfPair, WriteAt, Sound,
      DeletePlan;
    NetOp(lib, mem.log, k);
    match job.net[k]
    case Set(key, field) =>
      DrainSetImage(lib, db, rs, key, field);
      NamesNew(rs, key, field);
      SoundInsert(rs + [Live(key, field)], job.added, key, NewEntry(|db|, key, field));
    case Delete(key) =>
  }

  // ---------------------------------------------------------------------------
  // Each action keeps the invariant

  lemma LogInv(lib: Lib, s: State, e: WalEntry)
    requires Inv(lib, s) && Enabled(lib, s, Log(e))
    ensures Inv(lib, Next(lib, s, Log(e)))
    ensures Durable(lib, Next(lib, s, Log(e)).disk) == ApplyEntry(e, Durable(lib, s.disk))
  {
    hide ValidDb, WalOk, IdxOk, LogOf, WfEntry, Sound, JobOk, Records, EntryBytes, DbMap, ApplyEntry, ReplayLog;
    WalAppend(lib, s.disk.wal, e);
    ReplayAppend(LogOf(lib, s.disk.wal), e, DbMap(Records(lib, s.disk.db)));
  }

  lemma BeginInv(lib: Lib, s: State)
    requires Inv(lib, s) && Enabled(lib, s, BeginFlush)
    ensures Inv(lib, Next(lib, s, BeginFlush))
  {
    hide DiskOk, LogOf, Records, Net, DeletePlan;
  }

  lemma DrainInv(lib: Lib, s: State, k: Key)
    requires Inv(lib, s) && Enabled(lib, s, Drain(k))
    ensures
      var rs, job := Records(lib, s.disk.db), s.phase.job;
      && Inv(lib, Next(lib, s, Drain(k)))
      && Records(lib, Next(lib, s, Drain(k)).disk.db) == DrainRecs(rs, job, k)
  {
    hide IdxOk, LogOf, WfLog, Sound, JobOk, Records, DrainRecs, DrainOne, Image, LogBytes;
    var rs, job := Records(lib, s.disk.db), s.phase.job;
    DrainImage(lib, s.disk.db, rs, s.mem, job, k);
    DrainKeeps(lib, rs, s.mem, job, k, s.disk.idx);
    DrainJob(lib, s.disk.db, rs, s.mem, job, k);
    ImageRecords(lib, DrainOne(lib, s.disk.db, job, k).0, DrainRecs(rs, job, k));
  }

  lemma SoundCommit(rs: seq<Rec>, index: Index, added: Index, gone: set<Key>)
    requires Sound(rs, index) && Sound(rs, added)
    ensures Sound(rs, (index + added) - gone)
  {
    hide Names;
  }

  lemma CommitInv(lib: Lib, s: State)
    requires Inv(lib, s) && Enabled(lib, s, Commit)
    ensures Inv(lib, Next(lib, s, Commit))
  {
    hide DiskOk, LogOf, Records, Net, DeletePlan, Sound;
    SoundCommit(Records(lib, s.disk.db), s.mem.index, s.phase.job.added, s.phase.job.plan.Keys);
  }

  lemma PatchInv(lib: Lib, s: State)
    requires Inv(lib, s) && Enabled(lib, s, PatchCount)
    ensures Inv(lib, Next(lib, s, PatchCount))
    ensures Records(lib, Next(lib, s, PatchCount).disk.db) == Records(lib, s.disk.db)
  {
    hide LE, IdxOk, LogOf, WalOk, Sound, JobOk, Records, Image, WriteAt;
    var count := |s.mem.fields|;
    var rs := Records(lib, s.disk.db);
    Header.PatchImage(lib, s.disk.db, rs, count);
    ImageRecords(lib, WriteAt(s.disk.db, COUNT_OFFSET, LE(8, count)), rs);
    assert |s.disk.db| >= HEADER_SIZE by { ImageAt(lib, s.disk.db, rs); }
    Header.PatchReads(s.disk.db, count);
  }

  lemma TruncateInv(lib: Lib, s: State)
    requires Inv(lib, s) && Enabled(lib, s, TruncateIndex)
    ensures Inv(lib, Next(lib, s, TruncateIndex))
  {
    hide ValidDb, LogOf, WalOk, Sound, JobOk, Records, DecodeIndex;
  }

  /** A sound index of a file below 2^64 bytes fits its fixed-width slots. */
  lemma SoundFits(lib: Lib, db: Bytes, rs: seq<Rec>, index: Index)
    requires Image(lib, db, rs) && |db| < U64 && Sound(rs, index)
    ensures WfIndex(index)
  {
    hide DecodeHeader, RecsBytes, FieldBytes, TotalSize;
    forall k | k in index
      ensures WfIndexEntry(k, index[k])
    {
      var e := index[k];
      assert Names(rs, k, e);
      var i := Position(rs, e.offset);
      assert WfRec(lib, rs[i]);
      OffsetInside(lib, db, rs, i);
    }
  }

  lemma OffsetInside(lib: Lib, db: Bytes, rs: seq<Rec>, i: nat)
    requires Image(lib, db, rs) && i < |rs|
    ensures Offset(rs, i) + rs[i].Size() <= |db|
  {
    hide Image, FieldBytes;
    ImageAt(lib, db, rs);
    SizePrefix(rs, i, |rs|);
    assert rs[..|rs|] == rs;
  }

  lemma WriteInv(lib: Lib, s: State, items: seq<(Key, IndexEntry)>)
    requires Inv(lib, s) && Enabled(lib, s, WriteIndex(items))
    ensures Inv(lib, Next(lib, s, WriteIndex(items)))
    ensures Next(lib, s, WriteIndex(items)).disk == s.disk.(idx := IndexFileBytes(items))
    ensures DecodeIndex(IndexFileBytes(items)) == Ok(s.mem.index)
  {
    hide DiskOk, MemOk, Sound, Records, DecodeIndex, IndexFileBytes, Iterates;
    MemWritten(lib, s, IndexFileBytes(items));
    IndexWritten(lib, s.disk, s.mem.index, items);
    assert WriteAt([], 0, IndexFileBytes(items)) == IndexFileBytes(items);
  }

  lemma MemWritten(lib: Lib, s: State, bytes: Bytes)
    requires MemOk(lib, s) && s.phase.Indexing?
    ensures s.disk.idx == [] && Sound(Records(lib, s.disk.db), s.mem.index)
    ensures MemOk(lib, State(s.mem, s.disk.(idx := bytes), Checkpointing))
  {
    hide LogOf, Sound, JobOk, Records;
  }

  lemma IndexWritten(lib: Lib, d: Disk, index: Index, items: seq<(Key, IndexEntry)>)
    requires DiskOk(lib, d) && Sound(Records(lib, d.db), index)
    requires Iterates(items, index)
    ensures DiskOk(lib, d.(idx := IndexFileBytes(items)))
    ensures DecodeIndex(IndexFileBytes(items)) == Ok(index)
  {
    hide WalOk, Sound, Records, DecodeIndex, IndexFileBytes, Image, WfIndex, Iterates;
    SoundFits(lib, d.db, Records(lib, d.db), index);
    IndexRoundTrip(items, index);
  }

  lemma CheckpointInv(lib: Lib, s: State)
    requires Inv(lib, s) && Enabled(lib, s, Checkpoint)
    ensures Inv(lib, Next(lib, s, Checkpoint))
    ensures Next(lib, s, Checkpoint).disk == s.disk.(wal := [])
    ensures Durable(lib, Next(lib, s, Checkpoint).disk) == DbMap(Records(lib, s.disk.db))
  {
    hide ValidDb, LogOf, WalOk, Sound, JobOk, Records, IdxOk;
    WalEmpty(lib);
  }

  /** A refused opening changes nothing; any other recovers what the files stand for. */
  lemma ReopenInv(lib: Lib, s: State, name: Bytes)
    requires Inv(lib, s) && Enabled(lib, s, Reopen(name))
    ensures
      var s' := Next(lib, s, Reopen(name));
      && Inv(lib, s')
      && Durable(lib, s'.disk) == Durable(lib, s.disk)
      && (if |name| <= 64 && Opens(lib, s.disk) then s'.phase.Idle? && s'.mem.fields == Durable(lib, s'.disk)
          else s' == s)
  {
    hide OpenDb, DiskOk, LogOf, Records, IdxOk, HeaderBytes, DbMap, Sound, NoEmptyKey;
    if s == START {
      OpenFresh(lib, name);
      FreshDurable(lib, name);
    } else {
      OpenRecovers(lib, name, s.disk);
    }
  }

  lemma FreshDurable(lib: Lib, name: Bytes)
    requires Records(lib, HeaderBytes(name, 0)) == []
    ensures Durable(lib, START.disk) == map[] == Durable(lib, Disk(HeaderBytes(name, 0), [], []))
    ensures LogOf(lib, []) == [] && Sound([], map[])
  {
    hide HeaderBytes;
    WalEmpty(lib);
    assert Records(lib, []) == [];
  }

  /** Invariant S is kept by every step of every kind. */
  lemma StepInv(lib: Lib, s: State, a: Action)
    requires Inv(lib, s) && Enabled(lib, s, a)
    ensures Inv(lib, Next(lib, s, a))
  {
    hide DiskOk, MemOk, OpenDb, WfEntry, DrainOne;
    match a
    case Log(e) => LogInv(lib, s, e);
    case Apply => ApplyInv(lib, s);
    case BeginFlush => BeginInv(lib, s);
    case Drain(k) => DrainInv(lib, s, k);
    case Commit => CommitInv(lib, s);
    case PatchCount => PatchInv(lib, s);
    case TruncateIndex => TruncateInv(lib, s);
    case WriteIndex(items) => WriteInv(lib, s, items);
    case Checkpoint => CheckpointInv(lib, s);
    case Crash =>
    case Reopen(name) => ReopenInv(lib, s, name);
  }

  lemma ApplyInv(lib: Lib, s: State)
    requires Inv(lib, s) && Enabled(lib, s, Apply)
    ensures Inv(lib, Next(lib, s, Apply))
  {
    hide DiskOk, LogOf, Records, Sound;
  }
}
