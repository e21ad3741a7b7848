/**
 The `.db` file seen as a header and a sequence of whole records, and the proof that
 the byte-level scanners of `Format` see exactly those records.
 */
module FileImage {
  import opened Bytes
  import opened Dtypes
  import opened Format
  import opened Files

  datatype Rec = Live(key: Key, field: Field) | Tomb(keyLen: nat, fieldLen: nat) {
    function KeyLen(): nat { if Live? then |key| else keyLen }
    function FieldLen(): nat { if Live? then |FieldBytes(field)| else fieldLen }
    function Size(): nat { RECORD_HEADER + KeyLen() + FieldLen() }
    function Dead(): Rec { Tomb(KeyLen(), FieldLen()) }
    function Entry(offset: nat): IndexEntry { IndexEntry(offset, KeyLen(), FieldLen()) }
    predicate Holds(k: Key) { Live? && key == k }
  }

  /** Keys fit a `u16` length, payloads a `u32` length, and the value can be read back. */
  predicate WfPair(lib: Lib, key: Key, field: Field) {
    |key| < U16 && WfField(lib, field) && |FieldBytes(field)| < U32
  }

  predicate WfRec(lib: Lib, r: Rec) {
    match r
    case Live(key, field) => WfPair(lib, key, field)
    case Tomb(keyLen, fieldLen) => keyLen < U16 && fieldLen < U32
  }

  predicate WfRecs(lib: Lib, rs: seq<Rec>) {
    forall i :: 0 <= i < |rs| ==> WfRec(lib, rs[i])
  }

  function RecBytes(lib: Lib, r: Rec): (s: Bytes)
    ensures |s| == r.Size()
  {
    match r
    case Live(key, field) => RecordBytes(lib, key, field)
    case Tomb(keyLen, fieldLen) => TombstoneBytes(keyLen, fieldLen)
  }

  function TotalSize(rs: seq<Rec>): nat {
    if rs == [] then 0 else TotalSize(rs[..|rs| - 1]) + rs[|rs| - 1].Size()
  }

  /** Where record `i` starts in the file; `i == |rs|` is the end of the file. */
  function Offset(rs: seq<Rec>, i: nat): (o: nat)
    requires i <= |rs|
    ensures o >= HEADER_SIZE
  {
    HEADER_SIZE + TotalSize(rs[..i])
  }

  function RecsBytes(lib: Lib, rs: seq<Rec>): (s: Bytes)
    ensures |s| == TotalSize(rs)
  {
    if rs == [] then [] else RecsBytes(lib, rs[..|rs| - 1]) + RecBytes(lib, rs[|rs| - 1])
  }

  /** The map a reader of the records ends up with: later records win, tombstones say nothing. */
  function DbMap(rs: seq<Rec>): map<Key, Field> {
    if rs == [] then map[]
    else
      var m := DbMap(rs[..|rs| - 1]);
      var r := rs[|rs| - 1];
      if r.Live? then m[r.key := r.field] else m
  }

  /** The index a scan of the records builds. */
  function IndexOf(rs: seq<Rec>): Index {
    if rs == [] then map[]
    else
      var m := IndexOf(rs[..|rs| - 1]);
      var r := rs[|rs| - 1];
      if r.Live? then m[r.key := r.Entry(HEADER_SIZE + TotalSize(rs[..|rs| - 1]))] else m
  }

  // ---------------------------------------------------------------------------
  // Reading one record

  lemma ReadLayout(buf: Bytes, pos: nat, magic: Bytes, keyLen: nat, fieldLen: nat, crc: Bytes, key: Bytes, field: Bytes)
    requires magic == NO_BYTES4 || magic == RECORD_MAGIC
    requires |crc| == 4 && |key| == keyLen < U16 && |field| == fieldLen < U32
    requires At(buf, pos, RecordLayout(magic, keyLen, fieldLen, crc, key, field))
    ensures ReadRecord(buf, pos) ==
            Ok(RawRecord(magic == NO_BYTES4, keyLen, fieldLen, FromLE(crc), key, field))
    ensures At(buf, pos, magic) && At(buf, pos + 4, LE(2, keyLen)) && At(buf, pos + 6, LE(4, fieldLen))
    ensures At(buf, pos + 14, key)
  {
    hide LE, FromLE, ReadExact, At;
    var tail5 := key + field;
    var tail4 := crc + tail5;
    var tail3 := LE(4, fieldLen) + tail4;
    var tail2 := LE(2, keyLen) + tail3;
    AtSplit(buf, pos, magic, tail2);
    AtSplit(buf, pos + 4, LE(2, keyLen), tail3);
    AtSplit(buf, pos + 6, LE(4, fieldLen), tail4);
    AtSplit(buf, pos + 10, crc, tail5);
    AtSplit(buf, pos + 14, key, field);
    AtRead(buf, pos, magic);
    AtRead(buf, pos + 4, LE(2, keyLen));
    AtRead(buf, pos + 6, LE(4, fieldLen));
    AtRead(buf, pos + 10, crc);
    AtRead(buf, pos + 14, key);
    AtRead(buf, pos + 14 + keyLen, field);
    LEWidths(keyLen);
    LEWidths(fieldLen);
  }

  /** The pair a record contributes to the map. */
  function Pair(r: Rec): Option<(Key, Field)> {
    if r.Live? then Some((r.key, r.field)) else None
  }

  lemma ReadRec(lib: Lib, buf: Bytes, pos: nat, r: Rec)
    requires WfRec(lib, r) && At(buf, pos, RecBytes(lib, r))
    ensures DecodeRecord(lib, buf, pos) == Ok((Pair(r), pos + r.Size()))
    ensures At(buf, pos, if r.Live? then RECORD_MAGIC else NO_BYTES4)
    ensures At(buf, pos + 4, LE(2, r.KeyLen())) && At(buf, pos + 6, LE(4, r.FieldLen()))
    ensures pos + r.Size() <= |buf|
    ensures r.Live? ==> At(buf, pos + 14, r.key)
    ensures r.Tomb? ==> At(buf, pos + 14, Zeros(r.keyLen))
  {
    hide LE, FromLE, ReadRecord, RecordLayout, Hashed, FieldFrom, FieldBytes, Zeros, WfField;
    match r
    case Live(key, field) =>
      var payload := FieldBytes(field);
      var sum := lib.crc(Hashed(|key|, |payload|, key, payload));
      ReadLayout(buf, pos, RECORD_MAGIC, |key|, |payload|, LE(4, sum), key, payload);
      LEWidths(sum);
      FieldRoundTripExact(lib, field);
    case Tomb(keyLen, fieldLen) =>
      ReadLayout(buf, pos, NO_BYTES4, keyLen, fieldLen, NO_BYTES4, Zeros(keyLen), Zeros(fieldLen));
  }

  lemma IndexRec(lib: Lib, buf: Bytes, pos: nat, r: Rec, index: Index)
    requires WfRec(lib, r) && At(buf, pos, RecBytes(lib, r))
    ensures IndexRecord(buf, pos, index) ==
            if r.Tomb? then Ok((index, pos + r.Size()))
            else if r.key == [] then Err(InvalidIndexEntry)
            else Ok((index[r.key := r.Entry(pos)], pos + r.Size()))
  {
    hide LE, FromLE, ReadExact, At, RecBytes, DecodeRecord, FieldBytes, WfField, Zeros;
    ReadRec(lib, buf, pos, r);
    AtRead(buf, pos, if r.Live? then RECORD_MAGIC else NO_BYTES4);
    AtRead(buf, pos + 4, LE(2, r.KeyLen()));
    AtRead(buf, pos + 6, LE(4, r.FieldLen()));
    AtRead(buf, pos + 14, if r.Live? then r.key else Zeros(r.keyLen));
    LEWidths(r.KeyLen());
    LEWidths(r.FieldLen());
  }

  // ---------------------------------------------------------------------------
  // Reading all of them

  /** The scanner, started at the first record, passes the records `rs` having built their map. */
  lemma {:induction false} ScanDbPasses(lib: Lib, buf: Bytes, rs: seq<Rec>)
    requires WfRecs(lib, rs) && At(buf, HEADER_SIZE, RecsBytes(lib, rs))
    ensures ScanDb(lib, buf, HEADER_SIZE, map[]) == ScanDb(lib, buf, HEADER_SIZE + TotalSize(rs), DbMap(rs))
    decreases |rs|
  {
    hide RecBytes, At, DecodeRecord, WfRec;
    if rs == [] {
    } else {
      var init, r := rs[..|rs| - 1], rs[|rs| - 1];
      AtSplit(buf, HEADER_SIZE, RecsBytes(lib, init), RecBytes(lib, r));
      ScanDbPasses(lib, buf, init);
      ReadRec(lib, buf, HEADER_SIZE + TotalSize(init), r);
    }
  }

  /** The index scanner likewise, as long as it meets no live record with an empty key. */
  lemma {:induction false} ScanIndexPasses(lib: Lib, buf: Bytes, rs: seq<Rec>)
    requires WfRecs(lib, rs) && At(buf, HEADER_SIZE, RecsBytes(lib, rs))
    requires forall i :: 0 <= i < |rs| ==> !rs[i].Holds([])
    ensures ScanIndex(buf, HEADER_SIZE, map[]) == ScanIndex(buf, HEADER_SIZE + TotalSize(rs), IndexOf(rs))
    decreases |rs|
  {
    hide RecBytes, At, IndexRecord, WfRec, FieldBytes;
    if rs == [] {
    } else {
      var init, r := rs[..|rs| - 1], rs[|rs| - 1];
      AtSplit(buf, HEADER_SIZE, RecsBytes(lib, init), RecBytes(lib, r));
      ScanIndexPasses(lib, buf, init);
      assert !r.Holds([]);
      IndexRec(lib, buf, HEADER_SIZE + TotalSize(init), r, IndexOf(init));
      assert HEADER_SIZE + TotalSize(init) < |buf| by { ReadRec(lib, buf, HEADER_SIZE + TotalSize(init), r); }
    }
  }

  // ---------------------------------------------------------------------------
  // Whole files

  /** `db` is a readable header followed by exactly the well-formed records `rs`. */
  predicate Image(lib: Lib, db: Bytes, rs: seq<Rec>) {
    && DecodeHeader(lib, db).Ok?
    && WfRecs(lib, rs)
    && db[HEADER_SIZE..] == RecsBytes(lib, rs)
  }

  predicate NoEmptyKey(rs: seq<Rec>) {
    forall i :: 0 <= i < |rs| ==> !rs[i].Holds([])
  }

  lemma ImageAt(lib: Lib, db: Bytes, rs: seq<Rec>)
    requires Image(lib, db, rs)
    ensures At(db, HEADER_SIZE, RecsBytes(lib, rs))
    ensures |db| == HEADER_SIZE + TotalSize(rs)
  {
    hide DecodeHeader, RecsBytes, WfRecs;
  }

  /** `DBDecoder` reads a file image as the map of its records. */
  lemma ImageDecodes(lib: Lib, db: Bytes, rs: seq<Rec>)
    requires Image(lib, db, rs)
    ensures DecodeDb(lib, db) == Ok((DbMap(rs), DecodeHeader(lib, db).value))
  {
    hide DecodeHeader, RecsBytes, WfRecs, DecodeRecord, At, DbMap;
    ImageAt(lib, db, rs);
    ScanDbPasses(lib, db, rs);
  }

  /** `IndexFromDBDecoder` does so too, exactly when no live record has an empty key. */
  lemma ImageIndexes(lib: Lib, db: Bytes, rs: seq<Rec>)
    requires Image(lib, db, rs)
    ensures DecodeIndexFromDb(db) == if NoEmptyKey(rs) then Ok(IndexOf(rs)) else Err(InvalidIndexEntry)
  {
    hide DecodeHeader, RecsBytes, WfRecs, IndexRecord, At, IndexOf;
    ImageAt(lib, db, rs);
    if NoEmptyKey(rs) {
      ScanIndexPasses(lib, db, rs);
    } else {
      var i := FirstEmptyKey(rs);
      ScanIndexStops(lib, db, rs, i);
    }
  }

  ghost function FirstEmptyKey(rs: seq<Rec>): (i: nat)
    requires !NoEmptyKey(rs)
    ensures i < |rs| && rs[i].Holds([]) && NoEmptyKey(rs[..i])
  {
    var j :| 0 <= j < |rs| && rs[j].Holds([]);
    if NoEmptyKey(rs[..j]) then j else FirstEmptyKey(rs[..j])
  }

  lemma ScanIndexStops(lib: Lib, buf: Bytes, rs: seq<Rec>, i: nat)
    requires WfRecs(lib, rs) && At(buf, HEADER_SIZE, RecsBytes(lib, rs))
    requires i < |rs| && rs[i].Holds([]) && NoEmptyKey(rs[..i])
    ensures ScanIndex(buf, HEADER_SIZE, map[]) == Err(InvalidIndexEntry)
  {
    hide RecBytes, At, IndexRecord, WfRec, FieldBytes;
    RecordAt(lib, buf, rs, i);
    ScanIndexPasses(lib, buf, rs[..i]);
    IndexRec(lib, buf, Offset(rs, i), rs[i], IndexOf(rs[..i]));
    assert Offset(rs, i) < |buf| by { ReadRec(lib, buf, Offset(rs, i), rs[i]); }
  }

  lemma {:induction false} RecsConcat(lib: Lib, a: seq<Rec>, b: seq<Rec>)
    ensures RecsBytes(lib, a + b) == RecsBytes(lib, a) + RecsBytes(lib, b)
    ensures TotalSize(a + b) == TotalSize(a) + TotalSize(b)
    decreases |b|
  {
    hide RecBytes;
    if b == [] {
      assert a + b == a;
    } else {
      var init := b[..|b| - 1];
      assert (a + b)[..|a + b| - 1] == a + init;
      RecsConcat(lib, a, init);
    }
  }

  lemma RecsSingle(lib: Lib, r: Rec)
    ensures RecsBytes(lib, [r]) == RecBytes(lib, r) && TotalSize([r]) == r.Size()
  {
    hide RecBytes;
    assert [r][..0] == [];
  }

  /** The records before, at and after position `i`. */
  lemma RecsSplit(lib: Lib, rs: seq<Rec>, i: nat)
    requires i < |rs|
    ensures RecsBytes(lib, rs) == RecsBytes(lib, rs[..i]) + RecBytes(lib, rs[i]) + RecsBytes(lib, rs[i + 1..])
    ensures TotalSize(rs) == TotalSize(rs[..i]) + rs[i].Size() + TotalSize(rs[i + 1..])
  {
    hide RecBytes, RecsBytes;
    assert rs == rs[..i] + [rs[i]] + rs[i + 1..];
    RecsConcat(lib, rs[..i] + [rs[i]], rs[i + 1..]);
    RecsConcat(lib, rs[..i], [rs[i]]);
    RecsSingle(lib, rs[i]);
  }

  /** Each record stands whole at its offset, after the records before it. */
  lemma RecordAt(lib: Lib, buf: Bytes, rs: seq<Rec>, i: nat)
    requires At(buf, HEADER_SIZE, RecsBytes(lib, rs)) && i < |rs|
    ensures At(buf, HEADER_SIZE, RecsBytes(lib, rs[..i]))
    ensures At(buf, Offset(rs, i), RecBytes(lib, rs[i]))
  {
    hide RecBytes, RecsBytes, At;
    RecsSplit(lib, rs, i);
    AtSplit(buf, HEADER_SIZE, RecsBytes(lib, rs[..i]) + RecBytes(lib, rs[i]), RecsBytes(lib, rs[i + 1..]));
    AtSplit(buf, HEADER_SIZE, RecsBytes(lib, rs[..i]), RecBytes(lib, rs[i]));
  }

  // ---------------------------------------------------------------------------
  // What the file commands of flush do to the records

  /** The header is read from the first 114 bytes only. */
  lemma HeaderLocal(lib: Lib, db: Bytes, db': Bytes)
    requires HEADER_SIZE <= |db| && HEADER_SIZE <= |db'| && db[..HEADER_SIZE] == db'[..HEADER_SIZE]
    ensures DecodeHeader(lib, db) == DecodeHeader(lib, db')
  {
    hide TrimLeft, TrimRight, FromLE, IsMetadataKey;
    forall p: nat, n: nat | p + n <= HEADER_SIZE
      ensures ReadExact(db, p, n) == ReadExact(db', p, n)
    {
      SlicesOfPrefix(db, db', HEADER_SIZE, p, p + n);
    }
  }

  lemma SlicesOfPrefix(s: Bytes, t: Bytes, n: nat, lo: nat, hi: nat)
    requires lo <= hi <= n <= |s| && n <= |t| && s[..n] == t[..n]
    ensures s[lo..hi] == t[lo..hi]
  {
    forall i | lo <= i < hi
      ensures s[i] == t[i]
    {
      assert s[i] == s[..n][i] && t[i] == t[..n][i];
    }
  }

  /** Appending an encoded record adds one live record at the end. */
  lemma AppendImage(lib: Lib, db: Bytes, rs: seq<Rec>, r: Rec)
    requires Image(lib, db, rs) && WfRec(lib, r)
    ensures Image(lib, db + RecBytes(lib, r), rs + [r])
    ensures |db| == Offset(rs + [r], |rs|)
  {
    hide DecodeHeader, RecBytes, RecsBytes, WfRec;
    AppendKeeps(db, RecBytes(lib, r), HEADER_SIZE);
    HeaderLocal(lib, db, db + RecBytes(lib, r));
    RecsConcat(lib, rs, [r]);
    RecsSingle(lib, r);
    assert (rs + [r])[..|rs|] == rs;
  }

  lemma AppendKeeps(s: Bytes, more: Bytes, n: nat)
    requires n <= |s|
    ensures (s + more)[..n] == s[..n] && (s + more)[n..] == s[n..] + more
  {
  }

  lemma DeadSize(lib: Lib, r: Rec)
    requires WfRec(lib, r)
    ensures r.Dead().Size() == r.Size() && WfRec(lib, r.Dead())
    ensures RecBytes(lib, r.Dead()) == TombstoneBytes(r.KeyLen(), r.FieldLen())
    ensures |TombstoneBytes(r.KeyLen(), r.FieldLen())| == r.Size()
  {
    hide FieldBytes, WfField, LE, Zeros;
  }

  /** Overwriting a record with the tombstone of its own lengths replaces that record and no other. */
  lemma TombstoneImage(lib: Lib, db: Bytes, rs: seq<Rec>, i: nat)
    requires Image(lib, db, rs) && i < |rs|
    ensures Image(lib, WriteAt(db, Offset(rs, i), TombstoneBytes(rs[i].KeyLen(), rs[i].FieldLen())),
                  rs[i := rs[i].Dead()])
  {
    hide DecodeHeader, RecBytes, WfRec, FieldBytes, RecsBytes, TombstoneBytes, TotalSize;
    var r := rs[i];
    var tomb := TombstoneBytes(r.KeyLen(), r.FieldLen());
    var rs' := rs[i := r.Dead()];
    var off := Offset(rs, i);
    DeadSize(lib, r);
    RecsSplit(lib, rs, i);
    RecsSplit(lib, rs', i);
    assert rs'[..i] == rs[..i] && rs'[i + 1..] == rs[i + 1..];
    var a, b, c := RecsBytes(lib, rs[..i]), RecBytes(lib, r), RecsBytes(lib, rs[i + 1..]);
    var db' := WriteAt(db, off, tomb);
    Overwrite(db, a, b, c, tomb);
    HeaderLocal(lib, db, db');
  }

  lemma Overwrite(db: Bytes, a: Bytes, b: Bytes, c: Bytes, b': Bytes)
    requires |db| >= HEADER_SIZE && db[HEADER_SIZE..] == a + b + c && |b| == |b'| > 0
    ensures
      var db' := WriteAt(db, HEADER_SIZE + |a|, b');
      |db'| == |db| && db'[..HEADER_SIZE] == db[..HEADER_SIZE] && db'[HEADER_SIZE..] == a + b' + c
  {
    var db' := WriteAt(db, HEADER_SIZE + |a|, b');
    var h := db[..HEADER_SIZE];
    assert db == h + (a + b + c);
    assert db[..HEADER_SIZE + |a|] == h + a;
    assert db[HEADER_SIZE + |a| + |b|..] == c;
    assert db' == h + a + b' + c;
  }

  // ---------------------------------------------------------------------------
  // The records of a file, recovered from its bytes

  /** The records of a file, read off its bytes one by one. */
  function RecordsFrom(lib: Lib, buf: Bytes, pos: nat, rs: seq<Rec>): seq<Rec>
    decreases |buf| - pos
  {
    if pos >= |buf| then rs
    else
      match DecodeRecord(lib, buf, pos)
      case Ok((Some((k, f)), next)) => RecordsFrom(lib, buf, next, rs + [Live(k, f)])
      case Ok((None, next)) =>
        var raw := ReadRecord(buf, pos).value;
        RecordsFrom(lib, buf, next, rs + [Tomb(raw.keyLen, raw.fieldLen)])
      case _ => rs
  }

  /** The record sequence whose image the file is; there is at most one. */
  ghost function Records(lib: Lib, db: Bytes): seq<Rec> {
    if exists rs :: Image(lib, db, rs) then
      var rs :| Image(lib, db, rs);
      rs
    else []
  }

  lemma ReadTomb(lib: Lib, buf: Bytes, pos: nat, r: Rec)
    requires WfRec(lib, r) && r.Tomb? && At(buf, pos, RecBytes(lib, r))
    ensures ReadRecord(buf, pos).Ok?
    ensures ReadRecord(buf, pos).value.keyLen == r.keyLen && ReadRecord(buf, pos).value.fieldLen == r.fieldLen
  {
    hide LE, FromLE, ReadRecord, RecordLayout, Zeros;
    ReadLayout(buf, pos, NO_BYTES4, r.keyLen, r.fieldLen, NO_BYTES4, Zeros(r.keyLen), Zeros(r.fieldLen));
  }

  lemma {:induction false} RecordsPass(lib: Lib, buf: Bytes, rs: seq<Rec>)
    requires WfRecs(lib, rs) && At(buf, HEADER_SIZE, RecsBytes(lib, rs))
    ensures RecordsFrom(lib, buf, HEADER_SIZE, []) == RecordsFrom(lib, buf, HEADER_SIZE + TotalSize(rs), rs)
    decreases |rs|
  {
    hide RecBytes, At, DecodeRecord, ReadRecord, WfRec;
    if rs == [] {
    } else {
      var init, r := rs[..|rs| - 1], rs[|rs| - 1];
      AtSplit(buf, HEADER_SIZE, RecsBytes(lib, init), RecBytes(lib, r));
      RecordsPass(lib, buf, init);
      ReadRec(lib, buf, HEADER_SIZE + TotalSize(init), r);
      if r.Tomb? { ReadTomb(lib, buf, HEADER_SIZE + TotalSize(init), r); }
      assert init + [r] == rs;
    }
  }

  lemma ImageParses(lib: Lib, db: Bytes, rs: seq<Rec>)
    requires Image(lib, db, rs)
    ensures RecordsFrom(lib, db, HEADER_SIZE, []) == rs
  {
    hide DecodeHeader, RecsBytes, WfRecs, At, DecodeRecord, ReadRecord;
    ImageAt(lib, db, rs);
    RecordsPass(lib, db, rs);
  }

  /** A file is the image of one record sequence only. */
  lemma ImageRecords(lib: Lib, db: Bytes, rs: seq<Rec>)
    requires Image(lib, db, rs)
    ensures Records(lib, db) == rs
  {
    hide Image, RecordsFrom;
    ImageParses(lib, db, rs);
    ImageParses(lib, db, Records(lib, db));
  }

  /** The file is a header and a sequence of whole, well-formed records. */
  ghost predicate ValidDb(lib: Lib, db: Bytes) {
    Image(lib, db, Records(lib, db))
  }
}
