/**
 The `Wal` and `Database` objects (src/db/wal.rs, src/db/db.rs). Every method that
 changes something is proved to be a run of the state machine of `Engine`, so all that is
 proved of runs holds of these methods.
 */
module Database {
  import opened Bytes
  import opened Dtypes
  import opened Format
  import opened Files
  import opened FileImage
  import opened IndexFile
  import opened LogFile
  import opened Replay
  import opened Engine
  import opened Codec
  import Recovery
  import FlushLaw
  import Journals

  class Wal {
    const file: ByteFile
    var entries: seq<WalEntry>

    constructor (f: ByteFile)
      ensures file == f && entries == []
    {
      file := f;
      entries := [];
    }

    method AppendEntry(entry: WalEntry)
      modifies this, file, file.journal
      ensures entries == old(entries) + [entry]
      ensures file.contents == old(file.contents) + EntryBytes(entry)
      ensures file.journal.traces == old(file.journal.traces) + [Wrote(file.name, file.contents)]
    {
      hide EntryBytes;
      var encoder := new WalEncoder();
      encoder.EncodeWalEntry(entry);
      assert encoder.buffer == EntryBytes(entry);
      var _ := file.Append(encoder.buffer);
      entries := entries + [entry];
    }

    /** Re-reads the whole file into `entries`. */
    method ReadBack(lib: Lib) returns (r: Outcome<()>)
      modifies this
      ensures match DecodeLog(lib, file.contents)
              case Ok(log) => r == Ok(()) && entries == log
              case Err(e) => r == Err(e)
              case Panic => r == Panic
    {
      var bytes := file.ReadAll();
      var decoder := new WalDecoder(bytes);
      var _ :- decoder.DecodeWalEntries(lib);
      entries := decoder.wal;
      return Ok(());
    }

    method Checkpoint()
      modifies this, file, file.journal
      ensures entries == [] && file.contents == SetLength(old(file.contents), 0)
      ensures file.journal.traces == old(file.journal.traces) + [Wrote(file.name, file.contents)]
    {
      entries := [];
      file.SetLen(0);
    }

    /** Despite its name in the source, it takes nothing out. */
    method PopUncommittedEntries() returns (log: seq<WalEntry>)
      ensures log == entries
    {
      log := entries;
    }
  }

  class Database {
    const wal: Wal
    const file: ByteFile
    const indexFile: ByteFile
    const journal: Journal
    var fields: Fields
    var index: Index

    /** The three files are what their names say, and one journal sees them all. */
    predicate Valid()
      reads this, wal
    {
      && file.name == DbFile && indexFile.name == IdxFile && wal.file.name == WalFile
      && file.journal == indexFile.journal == wal.file.journal == journal
    }

    function OnDisk(): Disk
      reads this, wal, wal.file, file, indexFile
    {
      Disk(file.contents, indexFile.contents, wal.file.contents)
    }

    /** The machine state this object is in, between calls. */
    function Snapshot(): State
      reads this, wal, wal.file, file, indexFile
    {
      State(Memory(fields, index, wal.entries), OnDisk(), Idle)
    }

    constructor (fields: Fields, index: Index, wal: Wal, file: ByteFile, indexFile: ByteFile)
      ensures this.fields == fields && this.index == index
      ensures this.wal == wal && this.file == file && this.indexFile == indexFile
      ensures this.journal == file.journal
    {
      this.fields, this.index := fields, index;
      this.wal, this.file, this.indexFile, this.journal := wal, file, indexFile, file.journal;
    }

    /** Opening: a new data file gets a header, any other is decoded and the log replayed over it. */
    static method Open(lib: Lib, name: Bytes, file: ByteFile, indexFile: ByteFile, walFile: ByteFile)
      returns (r: Outcome<Database>)
      requires file.name == DbFile && indexFile.name == IdxFile && walFile.name == WalFile
      requires file.journal == indexFile.journal == walFile.journal
      modifies file, file.journal
      ensures match OpenDb(lib, name, Disk(old(file.contents), indexFile.contents, walFile.contents))
              case Ok((mem, disk)) =>
                && r.Ok? && fresh(r.value) && fresh(r.value.wal) && r.value.Valid()
                && r.value.file == file && r.value.indexFile == indexFile && r.value.wal.file == walFile
                && r.value.Snapshot() == State(mem, disk, Idle)
              case Err(e) => r == Err(e) && file.contents == old(file.contents)
              case Panic => r == Panic && file.contents == old(file.contents)
      ensures |name| > 64 ==> r == Err(DbNameTooLong) && file.contents == old(file.contents)
      ensures file.journal.traces == old(file.journal.traces) +
              if r.Ok? && old(file.contents) == [] then [Wrote(DbFile, []), Wrote(DbFile, HeaderBytes(name, 0))] else []
    {
      hide DecodeLog, DecodeDb, DecodeIndex, DecodeIndexFromDb, HeaderBytes, ReplayLog, WriteAt, SetLength;
      if |name| > NAME_LEN { return Err(DbNameTooLong); }
      var log := new Wal(walFile);
      var _ :- log.ReadBack(lib);
      if file.contents == [] {
        var db := NewDatabase(name, file, indexFile, log);
        return Ok(db);
      }
      r := InitDatabase(lib, file, indexFile, log);
    }

    /** `Database::new`. */
    static method NewDatabase(name: Bytes, file: ByteFile, indexFile: ByteFile, log: Wal) returns (db: Database)
      modifies file, file.journal
      ensures fresh(db) && db.journal == file.journal && db.file == file && db.indexFile == indexFile && db.wal == log
      ensures db.fields == map[] && db.index == map[]
      ensures file.contents == HeaderBytes(name, 0)
      ensures file.journal.traces
              == old(file.journal.traces) + [Wrote(file.name, []), Wrote(file.name, HeaderBytes(name, 0))]
    {
      hide HeaderBytes;
      file.SetLen(0);
      var encoder := new DBEncoder();
      encoder.EncodeDbHeader(Meta(1, 0, name));
      var _ := file.Append(encoder.buffer);
      assert [] + HeaderBytes(name, 0) == HeaderBytes(name, 0);
      assert SetLength(old(file.contents), 0) == [];
      db := new Database(map[], map[], log, file, indexFile);
    }

    /** `Database::init`. */
    static method InitDatabase(lib: Lib, file: ByteFile, indexFile: ByteFile, log: Wal) returns (r: Outcome<Database>)
      ensures match DecodeDb(lib, file.contents)
              case Ok((m, _)) =>
                (match if indexFile.contents != [] then DecodeIndex(indexFile.contents)
                       else DecodeIndexFromDb(file.contents)
                 case Ok(ix) =>
                   && r.Ok? && fresh(r.value)
                   && r.value.file == file && r.value.indexFile == indexFile && r.value.wal == log
                   && r.value.journal == file.journal
                   && r.value.fields == ReplayLog(log.entries, m) && r.value.index == ix
                 case Err(e) => r == Err(e)
                 case Panic => r == Panic)
              case Err(e) => r == Err(e)
              case Panic => r == Panic
    {
      hide DecodeDb, DecodeIndex, DecodeIndexFromDb, ReplayLog;
      var fileBuf := file.ReadAll();
      var indexBuf := indexFile.ReadAll();
      var decoder := new DBDecoder(fileBuf);
      var _ :- decoder.DecodeDbFile(lib);
      var finished := decoder.Finish();
      var found := finished.value;
      var ix: Index;
      if indexBuf != [] {
        var indexDecoder := new IndexDecoder(indexBuf);
        var _ :- indexDecoder.DecodeIndexFile();
        ix := indexDecoder.index;
      } else {
        var scanner := new IndexFromDBDecoder(fileBuf);
        var _ :- scanner.DecodeIndexFromFile();
        ix := scanner.index;
      }
      var recovered := ReplayOver(log.entries, found.0);
      var db := new Database(recovered, ix, log, file, indexFile);
      return Ok(db);
    }

    /** The replay loop of `init`. */
    static method ReplayOver(entries: seq<WalEntry>, start: Fields) returns (m: Fields)
      ensures m == ReplayLog(entries, start)
    {
      m := start;
      for i := 0 to |entries|
        invariant m == ReplayLog(entries[..i], start)
      {
        assert entries[..i + 1][..i] == entries[..i];
        match entries[i]
        case Set(key, field) => m := m[key := field];
        case Delete(key) => m := m - {key};
      }
      assert entries[..|entries|] == entries;
    }

    method Get(key: Key) returns (r: Outcome<Field>)
      ensures r == match Lookup(fields, key)
                   case Some(f) => Ok(f)
                   case None => Err(KeyNotFound)
    {
      if key in fields { return Ok(fields[key]); }
      return Err(KeyNotFound);
    }

    /** Logged first, then visible. */
    method SetKey(lib: Lib, key: Key, field: Field)
      requires Valid()
      modifies this, wal, wal.file, journal
      ensures Valid()
      ensures journal.traces == old(journal.traces) + [Wrote(WalFile, wal.file.contents), Shown(fields)]
      ensures journal.traces == old(journal.traces) + RunTraces(lib, old(Snapshot()), [Log(Set(key, field)), Apply])
      ensures Snapshot() == Exec(lib, old(Snapshot()), [Log(Set(key, field)), Apply])
      ensures WfEntry(lib, Set(key, field)) ==> Legal(lib, old(Snapshot()), [Log(Set(key, field)), Apply])
      ensures fields == old(fields)[key := field]
    {
      hide EntryBytes, WfEntry;
      ghost var s := Snapshot();
      wal.AppendEntry(Set(key, field));
      fields := fields[key := field];
      journal.Record(Shown(fields));
      Recovery.OneOperation(lib, s, Set(key, field));
      Journals.OperationTraces(lib, s, Set(key, field));
    }

    method DeleteKey(lib: Lib, key: Key)
      requires Valid()
      modifies this, wal, wal.file, journal
      ensures Valid()
      ensures journal.traces == old(journal.traces) + [Wrote(WalFile, wal.file.contents), Shown(fields)]
      ensures journal.traces == old(journal.traces) + RunTraces(lib, old(Snapshot()), [Log(Delete(key)), Apply])
      ensures Snapshot() == Exec(lib, old(Snapshot()), [Log(Delete(key)), Apply])
      ensures WfEntry(lib, Delete(key)) ==> Legal(lib, old(Snapshot()), [Log(Delete(key)), Apply])
      ensures fields == old(fields) - {key}
    {
      hide EntryBytes, WfEntry;
      ghost var s := Snapshot();
      wal.AppendEntry(Delete(key));
      fields := fields - {key};
      journal.Record(Shown(fields));
      Recovery.OneOperation(lib, s, Delete(key));
      Journals.OperationTraces(lib, s, Delete(key));
    }

    /** All keys, each once, in whatever order the map yields them. */
    method Keys() returns (keys: seq<Key>)
      ensures (set k | k in keys) == fields.Keys && |keys| == |fields|
    {
      keys := [];
      var todo := fields.Keys;
      while todo != {}
        invariant todo <= fields.Keys
        invariant (set k | k in keys) == fields.Keys - todo
        invariant |keys| + |todo| == |fields|
        decreases todo
      {
        var k :| k in todo;
        assert (set x | x in keys + [k]) == (set x | x in keys) + {k};
        keys := keys + [k];
        todo := todo - {k};
      }
    }

    // -------------------------------------------------------------------------
    // flush

    /** The deduplication loop. */
    static method NetOf(entries: seq<WalEntry>) returns (net: map<Key, WalEntry>)
      ensures net == Net(entries)
    {
      net := map[];
      for i := 0 to |entries|
        invariant net == Net(entries[..i])
      {
        assert entries[..i + 1][..i] == entries[..i];
        net := net[entries[i].key := entries[i]];
      }
      assert entries[..|entries|] == entries;
    }

    /** The loop that looks the net deletions up in the index. */
    method PlanDeletes(net: map<Key, WalEntry>) returns (plan: Index)
      ensures plan == DeletePlan(net, index)
    {
      plan := map[];
      var todo := net.Keys;
      while todo != {}
        invariant todo <= net.Keys
        invariant plan == map k | k in net && k !in todo && net[k].Delete? && k in index :: index[k]
        decreases todo
      {
        var k :| k in todo;
        if net[k].Delete? && k in index {
          plan := plan[k := index[k]];
        }
        todo := todo - {k};
      }
    }

    /** One turn of the loop over the net operations. */
    method WriteNetEntry(lib: Lib, ghost job: Job, entry: WalEntry, plan: Index, deleter: DBDeleter,
                         indexes: seq<(Key, IndexEntry)>, ghost k: Key)
      returns (indexes': seq<(Key, IndexEntry)>)
      requires k in job.net && job.net[k] == entry && job.plan == plan && job.added == FromItems(indexes)
      requires deleter.buffer == [] && file.name == DbFile
      modifies file, file.journal, deleter
      ensures deleter.buffer == []
      ensures file.journal.traces == old(file.journal.traces) +
              if entry.Set? || entry.key in plan then [Wrote(DbFile, file.contents)] else []
      ensures DrainOne(lib, old(file.contents), job, k)
              == (file.contents, job.(todo := job.todo - {k}, added := FromItems(indexes')))
      ensures |file.contents| >= |old(file.contents)|
    {
      hide RecordBytes, TombstoneBytes, FieldBytes;
      match entry
      case Set(key, field) =>
        var record := Encode(lib, key, field);
        var start := file.Append(record);
        var payload := BytesFromField(field);
        indexes' := indexes + [(key, IndexEntry(start, |key| % U16, |payload| % U32))];
        assert indexes'[..|indexes|] == indexes;
      case Delete(key) =>
        indexes' := indexes;
        if key in plan {
          deleter.SetLens(plan[key].keyLen, plan[key].fieldLen);
          deleter.GetDeletedField();
          assert deleter.buffer == TombstoneBytes(plan[key].keyLen, plan[key].fieldLen);
          file.WriteAtPos(plan[key].offset, deleter.buffer);
          deleter.Reset();
        }
    }

    /** The loop over the net operations, in whatever order the map yields them. */
    method WriteNet(lib: Lib, net: map<Key, WalEntry>, plan: Index)
      returns (indexes: seq<(Key, IndexEntry)>, ghost order: seq<Key>)
      requires Valid() && net == Net(wal.entries) && plan == DeletePlan(net, index)
      modifies file, journal
      ensures Valid()
      ensures
        var s1 := old(Snapshot()).(phase := Draining(Job(net, plan, net.Keys, map[])));
        && Snapshot().(phase := Draining(Job(net, plan, {}, FromItems(indexes))))
           == Exec(lib, s1, FlushLaw.Drains(order))
        && (|file.contents| < U64 ==> Legal(lib, s1, FlushLaw.Drains(order)))
        && journal.traces == old(journal.traces) + RunTraces(lib, s1, FlushLaw.Drains(order))
    {
      hide DrainOne, Net, DeletePlan, FlushLaw.Drains, FromItems;
      ghost var traces := journal.traces;
      ghost var s1 := Snapshot().(phase := Draining(Job(net, plan, net.Keys, map[])));
      var deleter := new DBDeleter();
      var todo := net.Keys;
      indexes := [];
      order := [];
      NoItems();
      FlushLaw.NoDrains(lib, s1);
      Journals.NoTraces(lib, s1);
      while todo != {}
        invariant Valid() && todo <= net.Keys && deleter.buffer == []
        invariant Snapshot().(phase := Draining(Job(net, plan, todo, FromItems(indexes))))
                  == Exec(lib, s1, FlushLaw.Drains(order))
        invariant |file.contents| < U64 ==> Legal(lib, s1, FlushLaw.Drains(order))
        invariant journal.traces == traces + RunTraces(lib, s1, FlushLaw.Drains(order))
        decreases todo
      {
        var k :| k in todo;
        ghost var job := Job(net, plan, todo, FromItems(indexes));
        ghost var s := Snapshot().(phase := Draining(job));
        indexes := WriteNetEntry(lib, job, net[k], plan, deleter, indexes, k);
        DrainStep(lib, s1, order, s, k, file.contents, job.(todo := todo - {k}, added := FromItems(indexes)));
        DrainTraces(lib, s1, order, s, k, file.contents, job.(todo := todo - {k}, added := FromItems(indexes)));
        order := order + [k];
        todo := todo - {k};
      }
    }

    /** The new entries go into the index. */
    method InsertEntries(indexes: seq<(Key, IndexEntry)>)
      modifies this`index
      ensures index == old(index) + FromItems(indexes)
    {
      for i := 0 to |indexes|
        invariant index == old(index) + FromItems(indexes[..i])
      {
        assert indexes[..i + 1][..i] == indexes[..i];
        index := index[indexes[i].0 := indexes[i].1];
      }
      assert indexes[..|indexes|] == indexes;
    }

    /** The planned deletions go out of index and fields. */
    method RemovePlanned(plan: Index)
      modifies this, journal
      ensures index == old(index) - plan.Keys && fields == old(fields) - plan.Keys
      ensures journal.traces == old(journal.traces) + [Shown(fields)]
    {
      var todo := plan.Keys;
      while todo != {}
        invariant todo <= plan.Keys
        invariant index == old(index) - (plan.Keys - todo) && fields == old(fields) - (plan.Keys - todo)
        invariant journal.traces == old(journal.traces)
        decreases todo
      {
        var k :| k in todo;
        assert plan.Keys - (todo - {k}) == (plan.Keys - todo) + {k};
        index := index - {k};
        fields := fields - {k};
        todo := todo - {k};
      }
      assert plan.Keys - {} == plan.Keys;
      journal.Record(Shown(fields));
    }

    method UpdateRecordCount()
      modifies file, file.journal
      ensures file.contents == WriteAt(old(file.contents), COUNT_OFFSET, LE(8, |fields|))
      ensures file.journal.traces == old(file.journal.traces) + [Wrote(file.name, file.contents)]
    {
      file.WriteAtPos(COUNT_OFFSET, LE(8, |fields|));
    }

    method RebuildIndex() returns (ghost items: seq<(Key, IndexEntry)>)
      modifies indexFile, indexFile.journal
      ensures Iterates(items, index)
      ensures indexFile.journal.traces == old(indexFile.journal.traces) +
              [Wrote(indexFile.name, SetLength(old(indexFile.contents), 0)), Wrote(indexFile.name, indexFile.contents)]
      ensures indexFile.contents == WriteAt(SetLength(old(indexFile.contents), 0), 0, IndexFileBytes(items))
    {
      hide Iterates, IndexFileBytes, WriteAt, SetLength;
      var encoder := new IndexEncoder();
      items := encoder.EncodeIndexFile(index);
      assert encoder.buffer == IndexFileBytes(items);
      indexFile.SetLen(0);
      indexFile.WriteAtPos(0, encoder.buffer);
    }

    /**
     A flush is exactly one undisturbed flush run of the machine, for some order of the net
     operations and of the index. From a sound state in which memory and files agree it leaves
     `fields` alone, and they agree afterwards if and only if every net deletion was clean.
     */
    method Flush(lib: Lib) returns (ghost order: seq<Key>, ghost items: seq<(Key, IndexEntry)>)
      requires Valid()
      modifies this, wal, wal.file, file, indexFile, journal
      ensures Valid()
      ensures journal.traces == old(journal.traces) + RunTraces(lib, old(Snapshot()), FlushLaw.FlushActs(order, items))
      ensures Snapshot() == Exec(lib, old(Snapshot()), FlushLaw.FlushActs(order, items))
      ensures |file.contents| < U64 ==> Legal(lib, old(Snapshot()), FlushLaw.FlushActs(order, items))
      ensures |file.contents| < U64 && Inv(lib, old(Snapshot())) && Synced(lib, old(Snapshot())) ==>
                && Inv(lib, Snapshot()) && fields == old(fields)
                && (Synced(lib, Snapshot()) <==>
                    FlushLaw.Clean(Records(lib, old(file.contents)), old(index), Net(old(wal.entries))))
    {
      hide DeletePlan, Net, FromItems, WriteAt, SetLength, IndexFileBytes, Iterates, Inv, Synced, FlushLaw.Clean,
        FlushLaw.FlushActs, FlushLaw.Drains, Exec, Legal, LE, RunTraces, Next, WfLog;
      ghost var s0, traces := Snapshot(), journal.traces;
      var entries := wal.PopUncommittedEntries();
      var net := NetOf(entries);
      var plan := PlanDeletes(net);
      var indexes: seq<(Key, IndexEntry)>;
      indexes, order := WriteNet(lib, net, plan);
      ghost var db1 := file.contents;
      InsertEntries(indexes);
      RemovePlanned(plan);
      UpdateRecordCount();
      items := RebuildIndex();
      wal.Checkpoint();
      PatchLength(db1, |fields|);
      FlushIsRun(lib, s0, order, items, db1, FromItems(indexes), Snapshot());
      FlushIsSeen(lib, s0, order, items, db1, FromItems(indexes), Snapshot());
      FlushIsSafe(lib, s0, order, items, Snapshot());
    }
  }

  // ---------------------------------------------------------------------------
  // Runs made of one call

  lemma NoItems()
    ensures FromItems<IndexEntry>([]) == map[]
  {
  }

  lemma DrainStep(lib: Lib, s1: State, order: seq<Key>, s: State, k: Key, db: Bytes, job: Job)
    requires s == Exec(lib, s1, FlushLaw.Drains(order))
    requires s.phase.Draining? && k in s.phase.job.net && k in s.phase.job.todo
    requires DrainOne(lib, s.disk.db, s.phase.job, k) == (db, job)
    ensures Exec(lib, s1, FlushLaw.Drains(order + [k])) == State(s.mem, s.disk.(db := db), Draining(job))
    ensures |db| < U64 && Legal(lib, s1, FlushLaw.Drains(order)) ==> Legal(lib, s1, FlushLaw.Drains(order + [k]))
  {
    hide DrainOne;
    assert (order + [k])[..|order|] == order;
    FlushLaw.DrainsLast(order + [k]);
    Recovery.LegalPrefix(lib, s1, FlushLaw.Drains(order), Drain(k));
  }

  lemma DrainTraces(lib: Lib, s1: State, order: seq<Key>, s: State, k: Key, db: Bytes, job: Job)
    requires s == Exec(lib, s1, FlushLaw.Drains(order))
    requires s.phase.Draining? && k in s.phase.job.net
    requires DrainOne(lib, s.disk.db, s.phase.job, k) == (db, job)
    ensures
      var e := s.phase.job.net[k];
      RunTraces(lib, s1, FlushLaw.Drains(order + [k]))
      == RunTraces(lib, s1, FlushLaw.Drains(order)) +
         if e.Set? || e.key in s.phase.job.plan then [Wrote(DbFile, db)] else []
  {
    hide DrainOne;
    assert (order + [k])[..|order|] == order;
    FlushLaw.DrainsLast(order + [k]);
    Journals.TracesAppend(lib, s1, FlushLaw.Drains(order), Drain(k));
  }

  lemma PatchLength(db: Bytes, count: nat)
    ensures |db| <= |WriteAt(db, COUNT_OFFSET, LE(8, count))|
  {
    hide LE;
  }

  /** The pieces of a flush, put together. */
  lemma FlushIsRun(lib: Lib, s0: State, order: seq<Key>, items: seq<(Key, IndexEntry)>, db1: Bytes, added: Index,
                   s': State)
    requires s0.phase.Idle? && s'.phase.Idle?
    requires
      var net := Net(s0.mem.log);
      var plan := DeletePlan(net, s0.mem.index);
      var s1 := s0.(phase := Draining(Job(net, plan, net.Keys, map[])));
      && Exec(lib, s1, FlushLaw.Drains(order))
         == State(s0.mem, s0.disk.(db := db1), Draining(Job(net, plan, {}, added)))
      && (|db1| < U64 ==> Legal(lib, s1, FlushLaw.Drains(order)))
      && s'.mem == Memory(s0.mem.fields - plan.Keys, (s0.mem.index + added) - plan.Keys, [])
    requires Iterates(items, s'.mem.index)
    requires s'.disk == Disk(WriteAt(db1, COUNT_OFFSET, LE(8, |s'.mem.fields|)),
                             WriteAt(SetLength(s0.disk.idx, 0), 0, IndexFileBytes(items)),
                             SetLength(s0.disk.wal, 0))
    requires |s'.disk.db| < U64 ==> |db1| < U64
    ensures Exec(lib, s0, FlushLaw.FlushActs(order, items)) == s'
    ensures |s'.disk.db| < U64 ==> Legal(lib, s0, FlushLaw.FlushActs(order, items))
  {
    hide Net, DeletePlan, FlushLaw.Drains, IndexFileBytes, Iterates, WriteAt, SetLength, LE;
    var tail := [Commit, PatchCount, TruncateIndex, WriteIndex(items), Checkpoint];
    var d := Exec(lib, Exec(lib, s0, [BeginFlush]), FlushLaw.Drains(order));
    assert [] + [BeginFlush] == [BeginFlush];
    Recovery.LegalPrefix(lib, s0, [], BeginFlush);
    FinishSteps(lib, d, items, s');
    Recovery.RunsCompose(lib, s0, [BeginFlush], FlushLaw.Drains(order));
    Recovery.RunsCompose(lib, s0, [BeginFlush] + FlushLaw.Drains(order), tail);
  }

  lemma FlushIsSeen(lib: Lib, s0: State, order: seq<Key>, items: seq<(Key, IndexEntry)>, db1: Bytes, added: Index,
                    s': State)
    requires Exec(lib, s0, FlushLaw.FlushActs(order, items)) == s'
    requires
      var net := Net(s0.mem.log);
      var plan := DeletePlan(net, s0.mem.index);
      Exec(lib, s0.(phase := Draining(Job(net, plan, net.Keys, map[]))), FlushLaw.Drains(order))
      == State(s0.mem, s0.disk.(db := db1), Draining(Job(net, plan, {}, added)))
    ensures
      var net := Net(s0.mem.log);
      var s1 := s0.(phase := Draining(Job(net, DeletePlan(net, s0.mem.index), net.Keys, map[])));
      RunTraces(lib, s0, FlushLaw.FlushActs(order, items))
      == RunTraces(lib, s1, FlushLaw.Drains(order)) +
         [Shown(s'.mem.fields), Wrote(DbFile, s'.disk.db), Wrote(IdxFile, SetLength(s0.disk.idx, 0)),
          Wrote(IdxFile, s'.disk.idx), Wrote(WalFile, s'.disk.wal)]
  {
    hide Net, DeletePlan, FlushLaw.Drains, FlushLaw.FlushActs, Exec, RunTraces, SetLength;
    var net := Net(s0.mem.log);
    var s1 := s0.(phase := Draining(Job(net, DeletePlan(net, s0.mem.index), net.Keys, map[])));
    Journals.FlushTraces(lib, s0, order, items, s1, s0.disk.idx);
  }

  lemma FlushIsSafe(lib: Lib, s0: State, order: seq<Key>, items: seq<(Key, IndexEntry)>, s': State)
    requires s0.phase.Idle? && Exec(lib, s0, FlushLaw.FlushActs(order, items)) == s'
    requires |s'.disk.db| < U64 ==> Legal(lib, s0, FlushLaw.FlushActs(order, items))
    ensures |s'.disk.db| < U64 && Inv(lib, s0) && Synced(lib, s0) ==>
              && Inv(lib, s') && s'.mem.fields == s0.mem.fields
              && (Synced(lib, s') <==>
                  FlushLaw.Clean(Records(lib, s0.disk.db), s0.mem.index, Net(s0.mem.log)))
  {
    hide Inv, Synced, FlushLaw.Clean, FlushLaw.FlushActs, Exec, Legal, Records, Net, DecodeDb, DecodeIndex;
    if |s'.disk.db| < U64 && Inv(lib, s0) && Synced(lib, s0) {
      FlushLaw.FlushKeepsSync(lib, s0, order, items);
      FlushLaw.ExactFlush(lib, s0, order, items);
    }
  }

  lemma FinishSteps(lib: Lib, d: State, items: seq<(Key, IndexEntry)>, s': State)
    requires d.phase.Draining? && d.phase.job.todo == {} && s'.phase.Idle?
    requires s'.mem == Memory(d.mem.fields - d.phase.job.plan.Keys,
                              (d.mem.index + d.phase.job.added) - d.phase.job.plan.Keys, [])
    requires Iterates(items, s'.mem.index)
    requires s'.disk == Disk(WriteAt(d.disk.db, COUNT_OFFSET, LE(8, |s'.mem.fields|)),
                             WriteAt(SetLength(d.disk.idx, 0), 0, IndexFileBytes(items)),
                             SetLength(d.disk.wal, 0))
    ensures
      var tail := [Commit, PatchCount, TruncateIndex, WriteIndex(items), Checkpoint];
      Exec(lib, d, tail) == s' && Legal(lib, d, tail)
  {
    hide IndexFileBytes, Iterates, WriteAt, SetLength, LE, Next, Enabled;
    var s1 := State(s'.mem.(log := d.mem.log), d.disk, Counting);
    var s2 := s1.(disk := d.disk.(db := s'.disk.db), phase := Truncating);
    var s3 := s2.(disk := s2.disk.(idx := SetLength(d.disk.idx, 0)), phase := Indexing);
    var s4 := s3.(disk := s'.disk.(wal := d.disk.wal), phase := Checkpointing);
    CommitStep(lib, d, s1);
    PatchStep(lib, s1, s2);
    TruncateStep(lib, s2, s3);
    WriteStep(lib, s3, items, s4);
    CheckpointStep(lib, s4, s');
    FlushLaw.FiveSteps(lib, d, Commit, PatchCount, TruncateIndex, WriteIndex(items), Checkpoint);
  }

  lemma CommitStep(lib: Lib, s: State, s': State)
    requires s.phase.Draining? && s.phase.job.todo == {}
    requires s' == State(Memory(s.mem.fields - s.phase.job.plan.Keys,
                                (s.mem.index + s.phase.job.added) - s.phase.job.plan.Keys, s.mem.log), s.disk, Counting)
    ensures Enabled(lib, s, Commit) && Next(lib, s, Commit) == s'
  {
  }

  lemma PatchStep(lib: Lib, s: State, s': State)
    requires s.phase.Counting?
    requires s' == State(s.mem, s.disk.(db := WriteAt(s.disk.db, COUNT_OFFSET, LE(8, |s.mem.fields|))), Truncating)
    ensures Enabled(lib, s, PatchCount) && Next(lib, s, PatchCount) == s'
  {
    hide WriteAt, LE;
  }

  lemma TruncateStep(lib: Lib, s: State, s': State)
    requires s.phase.Truncating?
    requires s' == State(s.mem, s.disk.(idx := SetLength(s.disk.idx, 0)), Indexing)
    ensures Enabled(lib, s, TruncateIndex) && Next(lib, s, TruncateIndex) == s'
  {
    hide SetLength;
  }

  lemma WriteStep(lib: Lib, s: State, items: seq<(Key, IndexEntry)>, s': State)
    requires s.phase.Indexing? && Iterates(items, s.mem.index)
    requires s' == State(s.mem, s.disk.(idx := WriteAt(s.disk.idx, 0, IndexFileBytes(items))), Checkpointing)
    ensures Enabled(lib, s, WriteIndex(items)) && Next(lib, s, WriteIndex(items)) == s'
  {
    hide WriteAt, IndexFileBytes, Iterates;
  }

  lemma CheckpointStep(lib: Lib, s: State, s': State)
    requires s.phase.Checkpointing?
    requires s' == State(s.mem.(log := []), s.disk.(wal := SetLength(s.disk.wal, 0)), Idle)
    ensures Enabled(lib, s, Checkpoint) && Next(lib, s, Checkpoint) == s'
  {
    hide SetLength;
  }
}
