/**
 The two scanners of the `.db` file agree, on every file that `DBDecoder` accepts:
 whatever mixture of live and deleted records, repeated keys and payloads it holds.
 */
module Scanners {
  import opened Bytes
  import opened Dtypes
  import opened Format

  /** The index knows the keys of the map, and each entry leads to a record of that key and value. */
  ghost predicate Agree(lib: Lib, buf: Bytes, db: map<Key, Field>, index: Index) {
    && db.Keys == index.Keys
    && forall k :: k in db ==>
         DecodeRecord(lib, buf, index[k].offset)
         == Ok((Some((k, db[k])), index[k].offset + RECORD_HEADER + index[k].keyLen + index[k].fieldLen))
  }

  /** On a record that `DBDecoder` accepts, the index scanner reads the same frame. */
  lemma SameFrame(lib: Lib, buf: Bytes, pos: nat, index: Index)
    requires DecodeRecord(lib, buf, pos).Ok?
    ensures
      var (kv, next) := DecodeRecord(lib, buf, pos).value;
      IndexRecord(buf, pos, index) ==
      match kv
      case None => Ok((index, next))
      case Some((k, _)) =>
        var raw := ReadRecord(buf, pos).value;
        if k == [] then Err(InvalidIndexEntry)
        else Ok((index[k := IndexEntry(pos, raw.keyLen, raw.fieldLen)], next))
  {
    hide FromLE, ReadExact, Hashed, FieldFrom;
  }

  lemma FrameSize(lib: Lib, buf: Bytes, pos: nat)
    requires DecodeRecord(lib, buf, pos).Ok?
    ensures ReadRecord(buf, pos).Ok?
    ensures
      var raw := ReadRecord(buf, pos).value;
      DecodeRecord(lib, buf, pos).value.1 == pos + RECORD_HEADER + raw.keyLen + raw.fieldLen
  {
    hide FromLE, ReadExact, Hashed, FieldFrom, ReadRecord;
  }

  /** A scan never forgets a key. */
  lemma {:induction false} ScanKeepsKeys(lib: Lib, buf: Bytes, pos: nat, db: map<Key, Field>)
    requires ScanDb(lib, buf, pos, db).Ok?
    ensures db.Keys <= ScanDb(lib, buf, pos, db).value.Keys
    decreases |buf| - pos
  {
    hide DecodeRecord;
    if pos < |buf| {
      var (kv, next) := DecodeRecord(lib, buf, pos).value;
      ScanKeepsKeys(lib, buf, next, Insert(kv, db));
    }
  }

  lemma {:induction false} ScansAgreeFrom(lib: Lib, buf: Bytes, pos: nat, db: map<Key, Field>, index: Index)
    requires ScanDb(lib, buf, pos, db).Ok? && Agree(lib, buf, db, index) && [] !in db
    ensures
      var m := ScanDb(lib, buf, pos, db).value;
      if [] in m then ScanIndex(buf, pos, index) == Err(InvalidIndexEntry)
      else ScanIndex(buf, pos, index).Ok? && Agree(lib, buf, m, ScanIndex(buf, pos, index).value)
    decreases |buf| - pos
  {
    hide DecodeRecord, IndexRecord, ReadRecord;
    if pos < |buf| {
      var (kv, next) := DecodeRecord(lib, buf, pos).value;
      SameFrame(lib, buf, pos, index);
      FrameSize(lib, buf, pos);
      ScanKeepsKeys(lib, buf, next, Insert(kv, db));
      match kv
      case None => ScansAgreeFrom(lib, buf, next, db, index);
      case Some((k, f)) =>
        if k != [] {
          var index' := IndexRecord(buf, pos, index).value.0;
          assert Agree(lib, buf, db[k := f], index');
          ScansAgreeFrom(lib, buf, next, db[k := f], index');
        }
    }
  }

  lemma SliceReads(buf: Bytes, lo: nat, hi: nat, off: nat, n: nat)
    requires lo <= hi <= |buf| && lo + off + n <= hi
    ensures ReadExact(buf[lo..hi], off, n) == ReadExact(buf, lo + off, n)
  {
    SliceOfSlice(buf, lo, hi, off, off + n);
  }

  /** Reading a record does not depend on what surrounds it. */
  lemma RecordSlice(buf: Bytes, pos: nat)
    requires ReadRecord(buf, pos).Ok?
    ensures
      var raw := ReadRecord(buf, pos).value;
      ReadRecord(buf[pos..pos + raw.Size()], 0) == Ok(raw)
  {
    hide FromLE, ReadExact;
    var raw := ReadRecord(buf, pos).value;
    var end := pos + raw.Size();
    SliceReads(buf, pos, end, 0, 4);
    SliceReads(buf, pos, end, 4, 2);
    SliceReads(buf, pos, end, 6, 4);
    SliceReads(buf, pos, end, 10, 4);
    SliceReads(buf, pos, end, 14, raw.keyLen);
    SliceReads(buf, pos, end, 14 + raw.keyLen, raw.fieldLen);
  }

  lemma DecodeSlice(lib: Lib, buf: Bytes, pos: nat, k: Key, f: Field, next: nat)
    requires DecodeRecord(lib, buf, pos) == Ok((Some((k, f)), next))
    ensures DecodeOne(lib, buf[pos..next]) == Ok((k, f))
  {
    hide FromLE, ReadExact, Hashed, FieldFrom, ReadRecord;
    RecordSlice(buf, pos);
  }

  /**
   If `DBDecoder` accepts the file, the index scanner accepts it too exactly when no
   live record has an empty key. Then both find the same keys, and decoding the bytes
   the index names for a key gives that key and its scanned value.
   */
  lemma ScannersAgree(lib: Lib, db: Bytes)
    requires DecodeDb(lib, db).Ok?
    ensures
      var m := DecodeDb(lib, db).value.0;
      && (DecodeIndexFromDb(db).Ok? <==> [] !in m)
      && ([] in m ==> DecodeIndexFromDb(db) == Err(InvalidIndexEntry))
      && ([] !in m ==>
            var index := DecodeIndexFromDb(db).value;
            && index.Keys == m.Keys
            && forall k :: k in m ==>
                 var e := index[k];
                 && e.offset + RECORD_HEADER + e.keyLen + e.fieldLen <= |db|
                 && DecodeOne(lib, db[e.offset..e.offset + RECORD_HEADER + e.keyLen + e.fieldLen]) == Ok((k, m[k])))
  {
    hide DecodeHeader, DecodeRecord, IndexRecord, DecodeOne;
    var m := DecodeDb(lib, db).value.0;
    ScansAgreeFrom(lib, db, HEADER_SIZE, map[], map[]);
    if [] !in m {
      var index := DecodeIndexFromDb(db).value;
      forall k | k in m
        ensures
          var e := index[k];
          var end := e.offset + RECORD_HEADER + e.keyLen + e.fieldLen;
          end <= |db| && DecodeOne(lib, db[e.offset..end]) == Ok((k, m[k]))
      {
        var e := index[k];
        DecodeSlice(lib, db, e.offset, k, m[k], e.offset + RECORD_HEADER + e.keyLen + e.fieldLen);
      }
    }
  }
}
