/**
 Opening on arbitrary files: which triples of files open, to what, and how any other fails.
 Damaged records and log entries are never taken for good ones.
 */
module Opening {
  import opened Bytes
  import opened Dtypes
  import opened Format
  import opened Replay
  import opened Engine
  import opened Layouts
  import opened Appending
  import Scanners

  /** The index is readable: from its file, or, if that is empty, from the data. */
  predicate IndexReadable(lib: Lib, d: Disk)
    requires DecodeDb(lib, d.db).Ok?
  {
    if d.idx != [] then DecodeIndex(d.idx).Ok? else [] !in DecodeDb(lib, d.db).value.0
  }

  /**
   For every name and every three files: they open exactly if the name has at most 64 bytes,
   the log is readable and, unless the data file is new, so are data and index. The failure
   is that of the first of these, in this order.
   */
  lemma OpensIf(lib: Lib, name: Bytes, d: Disk)
    ensures
      var r, log, data := OpenDb(lib, name, d), DecodeLog(lib, d.wal), DecodeDb(lib, d.db);
      if |name| > 64 then r == Err(DbNameTooLong)
      else if !log.Ok? then FailsAs(r, log)
      else if d.db == [] then r.Ok?
      else if !data.Ok? then FailsAs(r, data)
      else if IndexReadable(lib, d) then r.Ok?
      else if d.idx == [] then r == Err(InvalidIndexEntry)
      else FailsAs(r, DecodeIndex(d.idx))
  {
    hide DecodeLog, DecodeDb, DecodeIndex, DecodeIndexFromDb, ReplayLog, HeaderBytes;
    if DecodeDb(lib, d.db).Ok? { Scanners.ScannersAgree(lib, d.db); }
  }

  /**
   What an opening gives. An existing database shows, for each key, its last logged operation
   and otherwise what the data file shows. A new one starts empty under a fresh header: the
   log is kept but not replayed.
   */
  lemma OpensTo(lib: Lib, name: Bytes, d: Disk)
    requires OpenDb(lib, name, d).Ok?
    ensures
      var (mem, d') := OpenDb(lib, name, d).value;
      && DecodeLog(lib, d.wal) == Ok(mem.log)
      && d'.wal == d.wal && d'.idx == d.idx
      && (d.db == [] ==> mem.fields == map[] && mem.index == map[] && d'.db == HeaderBytes(name, 0))
      && (d.db != [] ==>
            && d'.db == d.db
            && (d.idx != [] ==> DecodeIndex(d.idx) == Ok(mem.index))
            && (d.idx == [] ==> mem.index.Keys == DecodeDb(lib, d.db).value.0.Keys)
            && forall k :: Lookup(mem.fields, k) == if k in Net(mem.log) then Effect(Net(mem.log)[k])
                                                    else Lookup(DecodeDb(lib, d.db).value.0, k))
  {
    hide DecodeLog, DecodeDb, DecodeIndex, DecodeIndexFromDb, ReplayLog, HeaderBytes, Net, Effect, Lookup;
    OpensIf(lib, name, d);
    if d.db != [] {
      var m, log := DecodeDb(lib, d.db).value.0, DecodeLog(lib, d.wal).value;
      if d.idx == [] { Scanners.ScannersAgree(lib, d.db); }
      forall k
        ensures Lookup(ReplayLog(log, m), k) == if k in Net(log) then Effect(Net(log)[k]) else Lookup(m, k)
      {
        ReplayAt(log, m, k);
      }
    }
  }

  // ---------------------------------------------------------------------------
  // Damage

  /** Behind any readable data: a whole live record whose checksum does not hold. */
  predicate BadChecksum(lib: Lib, tail: Bytes) {
    |tail| >= 14 && tail[0..4] == LIVE && WholeRecord(tail, 0) && !ChecksumHolds(lib, tail, 0)
  }

  /** Behind any readable data: the beginning of a record, cut short anywhere. */
  predicate Torn(tail: Bytes) {
    && tail != []
    && (|tail| >= 4 ==> (tail[0..4] == LIVE || tail[0..4] == DEAD) && !WholeRecord(tail, 0))
  }

  /** A data file with either in it does not open, whatever else it and the other files hold. */
  lemma DamageIsSeen(lib: Lib, name: Bytes, d: Disk, good: Bytes, tail: Bytes)
    requires |name| <= 64 && DecodeLog(lib, d.wal).Ok?
    requires d.db == good + tail && DecodeDb(lib, good).Ok?
    ensures BadChecksum(lib, tail) ==> DecodeDb(lib, d.db) == Err(CorruptedRecord)
    ensures BadChecksum(lib, tail) ==> OpenDb(lib, name, d) == Err(CorruptedRecord)
    ensures Torn(tail) ==> DecodeDb(lib, d.db) == Err(Io) && OpenDb(lib, name, d) == Err(Io)
  {
    hide DecodeLog, DecodeDb, DecodeRecord, OpenDb, WholeRecord, ChecksumHolds;
    if BadChecksum(lib, tail) || Torn(tail) {
      RecordByBytes(lib, tail, 0);
      DataAppended(lib, good, tail);
      OpensIf(lib, name, d);
    }
  }

  /** What `buf` holds at `pos` is a whole live record of `k` and `f` with the right checksum. */
  predicate Attested(lib: Lib, buf: Bytes, pos: nat, k: Key, f: Field) {
    && WholeRecord(buf, pos) && buf[pos..pos + 4] == LIVE && ChecksumHolds(lib, buf, pos)
    && var n := FromLE(buf[pos + 4..pos + 6]);
       && pos + 14 + n <= RecordEnd(buf, pos)
       && buf[pos + 14..pos + 14 + n] == k
       && FieldFrom(lib, buf[pos + 14 + n..RecordEnd(buf, pos)]).Ok?
       && FieldFrom(lib, buf[pos + 14 + n..RecordEnd(buf, pos)]).value.0 == f
  }

  lemma PairAttested(lib: Lib, buf: Bytes, pos: nat)
    requires pos <= |buf| && DecodeRecord(lib, buf, pos).Ok? && DecodeRecord(lib, buf, pos).value.0.Some?
    ensures
      var (k, f) := DecodeRecord(lib, buf, pos).value.0.value;
      Attested(lib, buf, pos, k, f)
  {
    hide DecodeRecord, FromLE, ChecksumHolds, FieldFrom;
    RecordByBytes(lib, buf, pos);
  }

  ghost predicate AllAttested(lib: Lib, buf: Bytes, db: map<Key, Field>) {
    forall k :: k in db ==> exists pos: nat :: Attested(lib, buf, pos, k, db[k])
  }

  lemma {:induction false} ScanAttested(lib: Lib, buf: Bytes, pos: nat, db: map<Key, Field>)
    requires pos <= |buf| && ScanDb(lib, buf, pos, db).Ok? && AllAttested(lib, buf, db)
    ensures AllAttested(lib, buf, ScanDb(lib, buf, pos, db).value)
    decreases |buf| - pos
  {
    hide DecodeRecord, Attested;
    if pos < |buf| {
      var (kv, next) := DecodeRecord(lib, buf, pos).value;
      if kv.Some? { PairAttested(lib, buf, pos); }
      ScanAttested(lib, buf, next, Insert(kv, db));
    }
  }

  /** Every key and value that an opening takes from the data file stands in a record whose checksum holds. */
  lemma NothingUnchecked(lib: Lib, name: Bytes, d: Disk)
    requires OpenDb(lib, name, d).Ok?
    ensures
      var mem := OpenDb(lib, name, d).value.0;
      forall k :: k in mem.fields && k !in Net(mem.log) ==>
        exists pos: nat :: Attested(lib, d.db, pos, k, mem.fields[k])
  {
    hide DecodeRecord, Attested, OpenDb, Net, DecodeHeader, DecodeLog, DecodeIndex;
    OpensIf(lib, name, d);
    OpensTo(lib, name, d);
    var mem := OpenDb(lib, name, d).value.0;
    if d.db != [] {
      ScanAttested(lib, d.db, HEADER_SIZE, map[]);
      var m := DecodeDb(lib, d.db).value.0;
      forall k | k in mem.fields && k !in Net(mem.log)
        ensures exists pos: nat :: Attested(lib, d.db, pos, k, mem.fields[k])
      {
        assert Lookup(mem.fields, k) == Lookup(m, k);
      }
    }
  }

  /** A log with an unknown tag behind readable entries, or an entry cut short, does not open either. */
  lemma BadLogIsSeen(lib: Lib, name: Bytes, d: Disk, good: Bytes, tail: Bytes)
    requires |name| <= 64 && d.wal == good + tail && DecodeLog(lib, good).Ok? && tail != []
    ensures tail[0] != 1 && tail[0] != 2 ==> OpenDb(lib, name, d) == Err(UnknownDtype(tail[0]))
    ensures (tail[0] == 1 || tail[0] == 2) && (|tail| < 3 || 3 + FromLE(tail[1..3]) > |tail|) ==>
              OpenDb(lib, name, d) == Err(Io)
  {
    hide DecodeLog, ReadEntry, OpenDb, FromLE;
    EntryByBytes(lib, tail, 0);
    LogAppended(lib, good, tail);
    OpensIf(lib, name, d);
  }
}
