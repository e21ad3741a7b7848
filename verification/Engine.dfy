/**
 The storage engine as a state machine (src/db/db.rs, src/db/wal.rs): three files, the
 in-memory maps, and one step for each file command and each in-memory update between
 two of them. Choices the code leaves open (which key a hash map yields next, in which
 order the index is written) are part of the action.
 */
module Engine {
  import opened Bytes
  import opened Dtypes
  import opened Format
  import opened Files
  import opened FileImage
  import opened LogFile
  import opened IndexFile
  import opened Replay
  import opened RecordMaps

  datatype Disk = Disk(db: Bytes, idx: Bytes, wal: Bytes)

  /** `State` and the entries of `Wal`. */
  datatype Memory = Memory(fields: Fields, index: Index, log: seq<WalEntry>)

  const NO_MEMORY := Memory(map[], map[], [])

  /** The locals of `flush`: net operations, delete plan, keys still to visit, new index entries. */
  datatype Job = Job(net: map<Key, WalEntry>, plan: Index, todo: set<Key>, added: Index)

  datatype Phase =
    | Down
    | Idle
    | Applying(e: WalEntry)     // logged, not yet in `fields`
    | Draining(job: Job)        // flush: writing the net operations to `.db`
    | Counting                  // flush: index updated in memory, count patch next
    | Truncating                // flush: index file truncation next
    | Indexing                  // flush: index file write next
    | Checkpointing             // flush: log truncation next

  datatype State = State(mem: Memory, disk: Disk, phase: Phase)

  datatype Action =
    | Log(e: WalEntry)
    | Apply
    | BeginFlush
    | Drain(k: Key)
    | Commit
    | PatchCount
    | TruncateIndex
    | WriteIndex(items: seq<(Key, IndexEntry)>)
    | Checkpoint
    | Crash
    | Reopen(name: Bytes)

  const START := State(NO_MEMORY, Disk([], [], []), Down)

  /** `Database::open` on the three files: the log is read first, then data file and index. */
  function OpenDb(lib: Lib, name: Bytes, d: Disk): Outcome<(Memory, Disk)> {
    if |name| > NAME_LEN then Err(DbNameTooLong)
    else
      var log :- DecodeLog(lib, d.wal);
      if d.db == [] then Ok((Memory(map[], map[], log), d.(db := HeaderBytes(name, 0))))
      else
        var (fields, _) :- DecodeDb(lib, d.db);
        var index :- if d.idx != [] then DecodeIndex(d.idx) else DecodeIndexFromDb(d.db);
        Ok((Memory(ReplayLog(log, fields), index, log), d))
  }

  /** The net deletions that the index can locate. */
  function DeletePlan(net: map<Key, WalEntry>, index: Index): Index {
    map k | k in net && net[k].Delete? && k in index :: index[k]
  }

  function NewEntry(offset: nat, k: Key, f: Field): IndexEntry {
    IndexEntry(offset, |k| % U16, |FieldBytes(f)| % U32)
  }

  /** One turn of the loop over the net operations. */
  function DrainOne(lib: Lib, db: Bytes, job: Job, k: Key): (Bytes, Job)
    requires k in job.net
  {
    match job.net[k]
    case Set(key, field) =>
      (db + RecordBytes(lib, key, field),
       job.(todo := job.todo - {k}, added := job.added[key := NewEntry(|db|, key, field)]))
    case Delete(key) =>
      (if key in job.plan
       then WriteAt(db, job.plan[key].offset, TombstoneBytes(job.plan[key].keyLen, job.plan[key].fieldLen))
       else db,
       job.(todo := job.todo - {k}))
  }

  /** The state after action `a`; an action that does not fit the phase changes nothing. */
  function Next(lib: Lib, s: State, a: Action): State {
    match a
    case Log(e) =>
      State(s.mem.(log := s.mem.log + [e]), s.disk.(wal := s.disk.wal + EntryBytes(e)), Applying(e))
    case Apply =>
      if !s.phase.Applying? then s
      else State(s.mem.(fields := ApplyEntry(s.phase.e, s.mem.fields)), s.disk, Idle)
    case BeginFlush =>
      var net := Net(s.mem.log);
      s.(phase := Draining(Job(net, DeletePlan(net, s.mem.index), net.Keys, map[])))
    case Drain(k) =>
      if !s.phase.Draining? || k !in s.phase.job.net then s
      else
        var (db, job) := DrainOne(lib, s.disk.db, s.phase.job, k);
        State(s.mem, s.disk.(db := db), Draining(job))
    case Commit =>
      if !s.phase.Draining? then s
      else
        var job := s.phase.job;
        State(Memory(s.mem.fields - job.plan.Keys, (s.mem.index + job.added) - job.plan.Keys, s.mem.log),
              s.disk, Counting)
    case PatchCount =>
      State(s.mem, s.disk.(db := WriteAt(s.disk.db, COUNT_OFFSET, LE(8, |s.mem.fields|))), Truncating)
    case TruncateIndex => State(s.mem, s.disk.(idx := SetLength(s.disk.idx, 0)), Indexing)
    case WriteIndex(items) =>
      State(s.mem, s.disk.(idx := WriteAt(s.disk.idx, 0, IndexFileBytes(items))), Checkpointing)
    case Checkpoint => State(s.mem.(log := []), s.disk.(wal := SetLength(s.disk.wal, 0)), Idle)
    case Crash => State(NO_MEMORY, s.disk, Down)
    case Reopen(name) =>
      match OpenDb(lib, name, s.disk)
      case Ok((mem, disk)) => State(mem, disk, Idle)
      case _ => s
  }

  /** When the code takes this step. File positions are `u64`, so a file stays below 2^64 bytes. */
  predicate Enabled(lib: Lib, s: State, a: Action) {
    match a
    case Log(e) => s.phase.Idle? && WfEntry(lib, e)
    case Apply => s.phase.Applying?
    case BeginFlush => s.phase.Idle?
    case Drain(k) =>
      && s.phase.Draining? && k in s.phase.job.todo && k in s.phase.job.net
      && |DrainOne(lib, s.disk.db, s.phase.job, k).0| < U64
    case Commit => s.phase.Draining? && s.phase.job.todo == {}
    case PatchCount => s.phase.Counting?
    case TruncateIndex => s.phase.Truncating?
    case WriteIndex(items) => s.phase.Indexing? && Iterates(items, s.mem.index)
    case Checkpoint => s.phase.Checkpointing?
    case Crash => true
    case Reopen(name) => s.phase.Down?
  }

  function Exec(lib: Lib, s: State, acts: seq<Action>): State {
    if acts == [] then s else Next(lib, Exec(lib, s, acts[..|acts| - 1]), acts[|acts| - 1])
  }

  /** Every action of the run is taken when the code can take it. */
  predicate Legal(lib: Lib, s: State, acts: seq<Action>) {
    acts != [] ==>
      var init := acts[..|acts| - 1];
      Legal(lib, s, init) && Enabled(lib, Exec(lib, s, init), acts[|acts| - 1])
  }

  /** What an observer sees of one step while the process runs. */
  function Traces(lib: Lib, s: State, a: Action): seq<Trace> {
    var t := Next(lib, s, a);
    match a
    case Log(_) => [Wrote(WalFile, t.disk.wal)]
    case Apply => if s.phase.Applying? then [Shown(t.mem.fields)] else []
    case Drain(k) =>
      if !s.phase.Draining? || k !in s.phase.job.net then []
      else if s.phase.job.net[k].Set? || s.phase.job.net[k].key in s.phase.job.plan then [Wrote(DbFile, t.disk.db)]
      else []
    case Commit => [Shown(t.mem.fields)]
    case PatchCount => [Wrote(DbFile, t.disk.db)]
    case TruncateIndex => [Wrote(IdxFile, t.disk.idx)]
    case WriteIndex(_) => [Wrote(IdxFile, t.disk.idx)]
    case Checkpoint => [Wrote(WalFile, t.disk.wal)]
    case _ => []
  }

  function RunTraces(lib: Lib, s: State, acts: seq<Action>): seq<Trace> {
    if acts == [] then []
    else
      var init := acts[..|acts| - 1];
      RunTraces(lib, s, init) + Traces(lib, Exec(lib, s, init), acts[|acts| - 1])
  }

  // ---------------------------------------------------------------------------
  // What holds of every reachable state

  /** The `.wal` file holds exactly these whole, well-formed entries. */
  predicate Holds(lib: Lib, wal: Bytes, log: seq<WalEntry>) {
    WfLog(lib, log) && wal == LogBytes(log)
  }

  /** The log the `.wal` file holds; there is at most one. */
  ghost function LogOf(lib: Lib, wal: Bytes): seq<WalEntry> {
    if exists log :: Holds(lib, wal, log) then
      var log :| Holds(lib, wal, log);
      log
    else []
  }

  ghost predicate WalOk(lib: Lib, wal: Bytes) {
    Holds(lib, wal, LogOf(lib, wal))
  }

  /** `.dbidx` is empty, or decodes to a (possibly stale) index that is sound for the records. */
  predicate IdxOk(rs: seq<Rec>, idx: Bytes) {
    idx != [] ==> DecodeIndex(idx).Ok? && Sound(rs, DecodeIndex(idx).value)
  }

  ghost predicate DiskOk(lib: Lib, d: Disk) {
    && ValidDb(lib, d.db)
    && |d.db| < U64
    && WalOk(lib, d.wal)
    && IdxOk(Records(lib, d.db), d.idx)
  }

  /** The guard of the scan that stands in for an empty index file: no live record may have an empty key. */
  ghost predicate Opens(lib: Lib, d: Disk) {
    d.db == [] || d.idx != [] || NoEmptyKey(Records(lib, d.db))
  }

  /** The locals of a running flush agree with the log and the index it started from. */
  predicate JobOk(rs: seq<Rec>, mem: Memory, job: Job) {
    && job.net == Net(mem.log)
    && job.plan == DeletePlan(job.net, mem.index)
    && job.todo <= job.net.Keys
    && job.added.Keys == (set k | k in job.net && job.net[k].Set? && k !in job.todo)
    && Sound(rs, job.added)
  }

  predicate PhaseOk(rs: seq<Rec>, mem: Memory, phase: Phase) {
    match phase
    case Applying(e) => mem.log != [] && mem.log[|mem.log| - 1] == e
    case Draining(job) => JobOk(rs, mem, job)
    case _ => true
  }

  /** Index soundness and log agreement, for a running process. */
  ghost predicate MemOk(lib: Lib, s: State) {
    var rs := Records(lib, s.disk.db);
    && s.mem.log == LogOf(lib, s.disk.wal)
    && Sound(rs, s.mem.index)
    && PhaseOk(rs, s.mem, s.phase)
    && (s.phase.Indexing? ==> s.disk.idx == [])
  }

  /** Invariant S with all that it rests on: it needs nothing about what the operations were. */
  ghost predicate Inv(lib: Lib, s: State) {
    || s == START
    || (DiskOk(lib, s.disk) && (s.phase.Down? || MemOk(lib, s)))
  }

  /** The map the files stand for: the log replayed over the data file. */
  ghost function Durable(lib: Lib, d: Disk): Fields {
    ReplayLog(LogOf(lib, d.wal), DbMap(Records(lib, d.db)))
  }

  /** `fields`, with the logged operation that is still on its way to it. */
  function Visible(s: State): Fields {
    if s.phase.Applying? then ApplyEntry(s.phase.e, s.mem.fields) else s.mem.fields
  }

  /** Invariant I: memory shows exactly what the files stand for. */
  ghost predicate Synced(lib: Lib, s: State) {
    !s.phase.Down? ==> Visible(s) == Durable(lib, s.disk)
  }
}
