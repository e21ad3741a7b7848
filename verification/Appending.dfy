/**
 What one more piece at the end makes of a file. Together with the facts of `Layouts` about
 single pieces this decides, for every file whatever, what its decoder returns: pieces are
 taken in order, none is skipped, and the first bad one decides the failure.
 */
module Appending {
  import opened Bytes
  import opened Dtypes
  import opened Format
  import opened FileImage
  import opened Layouts

  lemma ReadsLater(a: Bytes, tail: Bytes, p: nat, n: nat)
    ensures ReadExact(a + tail, |a| + p, n) == ReadExact(tail, p, n)
  {
    var start := if p < |tail| then p else |tail|;
    if n <= |tail| - start {
      assert (a + tail)[|a| + start..|a| + start + n] == tail[start..start + n];
    }
  }

  lemma ReadsStay(a: Bytes, tail: Bytes, p: nat, n: nat)
    requires ReadExact(a, p, n).Ok? && p <= |a|
    ensures ReadExact(a + tail, p, n) == ReadExact(a, p, n)
  {
    assert (a + tail)[p..p + n] == a[p..p + n];
  }

  // ---------------------------------------------------------------------------
  // The data file

  lemma RecordLater(lib: Lib, a: Bytes, tail: Bytes)
    ensures
      var one, r := DecodeRecord(lib, tail, 0), DecodeRecord(lib, a + tail, |a|);
      if one.Ok? then r == Ok((one.value.0, |a| + one.value.1)) else FailsAs(r, one)
  {
    hide FromLE, ReadExact, Hashed, FieldFrom;
    forall p: nat, n: nat
      ensures ReadExact(a + tail, |a| + p, n) == ReadExact(tail, p, n)
    {
      ReadsLater(a, tail, p, n);
    }
    ReadsLater(a, tail, 0, 4);
  }

  lemma RecordStays(lib: Lib, a: Bytes, tail: Bytes, pos: nat)
    requires pos < |a| && DecodeRecord(lib, a, pos).Ok?
    ensures DecodeRecord(lib, a + tail, pos) == DecodeRecord(lib, a, pos)
  {
    hide FromLE, ReadExact, Hashed, FieldFrom;
    var raw := ReadRecord(a, pos).value;
    ReadsStay(a, tail, pos, 4);
    ReadsStay(a, tail, pos + 4, 2);
    ReadsStay(a, tail, pos + 6, 4);
    ReadsStay(a, tail, pos + 10, 4);
    ReadsStay(a, tail, pos + 14, raw.keyLen);
    ReadsStay(a, tail, pos + 14 + raw.keyLen, raw.fieldLen);
  }

  lemma {:induction false} ScanDbStays(lib: Lib, a: Bytes, tail: Bytes, pos: nat, db: map<Key, Field>)
    requires pos <= |a| && ScanDb(lib, a, pos, db).Ok?
    ensures ScanDb(lib, a + tail, pos, db) == ScanDb(lib, a + tail, |a|, ScanDb(lib, a, pos, db).value)
    decreases |a| - pos
  {
    hide DecodeRecord;
    if pos < |a| {
      RecordStays(lib, a, tail, pos);
      var (kv, next) := DecodeRecord(lib, a, pos).value;
      ScanDbStays(lib, a, tail, next, Insert(kv, db));
    }
  }

  /** Nothing follows the header. */
  lemma HeaderAlone(lib: Lib, buf: Bytes)
    ensures !DecodeHeader(lib, buf).Ok? ==> FailsAs(DecodeDb(lib, buf), DecodeHeader(lib, buf))
    ensures |buf| == 114 && DecodeHeader(lib, buf).Ok? ==>
              DecodeDb(lib, buf) == Ok((map[], DecodeHeader(lib, buf).value))
  {
    hide DecodeHeader, DecodeRecord;
  }

  /**
   A readable data file with something appended: a whole good record adds its pair, a
   tombstone nothing, and anything that is no good record makes the whole file unreadable.
   */
  lemma DataAppended(lib: Lib, a: Bytes, tail: Bytes)
    requires DecodeDb(lib, a).Ok? && tail != []
    ensures
      var one, r := DecodeRecord(lib, tail, 0), DecodeDb(lib, a + tail);
      var (m, meta) := DecodeDb(lib, a).value;
      && (!one.Ok? ==> FailsAs(r, one))
      && (one.Ok? && one.value.1 == |tail| ==>
            match one.value.0
            case Some((k, f)) => r == Ok((m[k := f], meta))
            case None => r == Ok((m, meta)))
  {
    hide DecodeHeader, DecodeRecord;
    assert (a + tail)[..HEADER_SIZE] == a[..HEADER_SIZE];
    HeaderLocal(lib, a, a + tail);
    ScanDbStays(lib, a, tail, HEADER_SIZE, map[]);
    RecordLater(lib, a, tail);
  }

  /** The first record of a data file that is not good. */
  lemma {:induction false} FirstBad(lib: Lib, buf: Bytes, pos: nat, db: map<Key, Field>) returns (cut: nat)
    requires pos <= |buf| && !ScanDb(lib, buf, pos, db).Ok?
    ensures pos <= cut < |buf| && FailsAs(ScanDb(lib, buf, pos, db), DecodeRecord(lib, buf, cut))
    ensures !DecodeRecord(lib, buf, cut).Ok? && ScanDb(lib, buf[..cut], pos, db).Ok?
    decreases |buf| - pos
  {
    hide DecodeRecord;
    var one := DecodeRecord(lib, buf, pos);
    if one.Ok? {
      cut := FirstBad(lib, buf, one.value.1, Insert(one.value.0, db));
      RecordWithin(lib, buf, pos, cut);
    } else {
      cut := pos;
    }
  }

  lemma RecordWithin(lib: Lib, buf: Bytes, pos: nat, cut: nat)
    requires DecodeRecord(lib, buf, pos).Ok? && DecodeRecord(lib, buf, pos).value.1 <= cut <= |buf|
    ensures DecodeRecord(lib, buf[..cut], pos) == DecodeRecord(lib, buf, pos)
  {
    hide FromLE, ReadExact, Hashed, FieldFrom;
    var raw := ReadRecord(buf, pos).value;
    ReadsWithin(buf, cut, pos, 4);
    ReadsWithin(buf, cut, pos + 4, 2);
    ReadsWithin(buf, cut, pos + 6, 4);
    ReadsWithin(buf, cut, pos + 10, 4);
    ReadsWithin(buf, cut, pos + 14, raw.keyLen);
    ReadsWithin(buf, cut, pos + 14 + raw.keyLen, raw.fieldLen);
  }

  lemma ReadsWithin(buf: Bytes, cut: nat, p: nat, n: nat)
    requires p + n <= cut <= |buf|
    ensures ReadExact(buf[..cut], p, n) == ReadExact(buf, p, n)
  {
    assert buf[..cut][p..p + n] == buf[p..p + n];
  }

  /**
   For every file with a readable header: it is readable, or some record is the first bad one.
   Then the file up to it is readable, and the file fails as that record does.
   */
  lemma ReadableOrFirstBad(lib: Lib, buf: Bytes)
    requires DecodeHeader(lib, buf).Ok?
    ensures !DecodeDb(lib, buf).Ok? ==>
              exists cut :: 114 <= cut < |buf| && DecodeDb(lib, buf[..cut]).Ok?
                            && !DecodeRecord(lib, buf, cut).Ok?
                            && FailsAs(DecodeDb(lib, buf), DecodeRecord(lib, buf, cut))
  {
    hide DecodeHeader, DecodeRecord;
    if !DecodeDb(lib, buf).Ok? {
      var cut := FirstBad(lib, buf, HEADER_SIZE, map[]);
      assert buf[..cut][..HEADER_SIZE] == buf[..HEADER_SIZE];
      HeaderLocal(lib, buf, buf[..cut]);
    }
  }

  // ---------------------------------------------------------------------------
  // The log

  lemma EntryLater(lib: Lib, a: Bytes, tail: Bytes)
    ensures
      var one, r := ReadEntry(lib, tail, 0), ReadEntry(lib, a + tail, |a|);
      if one.Ok? then r == Ok((one.value.0, |a| + one.value.1)) else FailsAs(r, one)
  {
    hide FromLE, ReadExact, FieldFrom;
    forall p: nat, n: nat
      ensures ReadExact(a + tail, |a| + p, n) == ReadExact(tail, p, n)
    {
      ReadsLater(a, tail, p, n);
    }
    ReadsLater(a, tail, 0, 1);
  }

  lemma EntryStays(lib: Lib, a: Bytes, tail: Bytes, pos: nat)
    requires pos < |a| && ReadEntry(lib, a, pos).Ok?
    ensures ReadEntry(lib, a + tail, pos) == ReadEntry(lib, a, pos)
  {
    hide FromLE, ReadExact, FieldFrom;
    var e := ReadEntry(lib, a, pos).value.0;
    ReadsStay(a, tail, pos, 1);
    ReadsStay(a, tail, pos + 1, 2);
    ReadsStay(a, tail, pos + 3, |e.key|);
    if e.Set? {
      ReadsStay(a, tail, pos + 3 + |e.key|, 4);
      ReadsStay(a, tail, pos + 7 + |e.key|, FromLE(ReadExact(a, pos + 3 + |e.key|, 4).value));
    }
  }

  lemma {:induction false} ScanLogStays(lib: Lib, a: Bytes, tail: Bytes, pos: nat, log: seq<WalEntry>)
    requires pos <= |a| && ScanLog(lib, a, pos, log).Ok?
    ensures ScanLog(lib, a + tail, pos, log) == ScanLog(lib, a + tail, |a|, ScanLog(lib, a, pos, log).value)
    decreases |a| - pos
  {
    hide ReadEntry;
    if pos < |a| {
      EntryStays(lib, a, tail, pos);
      var (e, next) := ReadEntry(lib, a, pos).value;
      ScanLogStays(lib, a, tail, next, log + [e]);
    }
  }

  /** The empty log is readable; with one more good entry it is one longer; a bad one spoils it. */
  lemma LogAppended(lib: Lib, a: Bytes, tail: Bytes)
    requires DecodeLog(lib, a).Ok? && tail != []
    ensures DecodeLog(lib, []) == Ok([])
    ensures
      var one, r := ReadEntry(lib, tail, 0), DecodeLog(lib, a + tail);
      && (!one.Ok? ==> FailsAs(r, one))
      && (one.Ok? && one.value.1 == |tail| ==> r == Ok(DecodeLog(lib, a).value + [one.value.0]))
  {
    hide ReadEntry;
    ScanLogStays(lib, a, tail, 0, []);
    EntryLater(lib, a, tail);
  }

  lemma EntryWithin(lib: Lib, buf: Bytes, pos: nat, cut: nat)
    requires ReadEntry(lib, buf, pos).Ok? && ReadEntry(lib, buf, pos).value.1 <= cut <= |buf|
    ensures ReadEntry(lib, buf[..cut], pos) == ReadEntry(lib, buf, pos)
  {
    hide FromLE, ReadExact, FieldFrom;
    var e := ReadEntry(lib, buf, pos).value.0;
    ReadsWithin(buf, cut, pos, 1);
    ReadsWithin(buf, cut, pos + 1, 2);
    ReadsWithin(buf, cut, pos + 3, |e.key|);
    if e.Set? {
      ReadsWithin(buf, cut, pos + 3 + |e.key|, 4);
      ReadsWithin(buf, cut, pos + 7 + |e.key|, FromLE(ReadExact(buf, pos + 3 + |e.key|, 4).value));
    }
  }

  lemma {:induction false} FirstBadEntry(lib: Lib, buf: Bytes, pos: nat, log: seq<WalEntry>) returns (cut: nat)
    requires pos <= |buf| && !ScanLog(lib, buf, pos, log).Ok?
    ensures pos <= cut < |buf| && FailsAs(ScanLog(lib, buf, pos, log), ReadEntry(lib, buf, cut))
    ensures !ReadEntry(lib, buf, cut).Ok? && ScanLog(lib, buf[..cut], pos, log).Ok?
    decreases |buf| - pos
  {
    hide ReadEntry;
    var one := ReadEntry(lib, buf, pos);
    if one.Ok? {
      cut := FirstBadEntry(lib, buf, one.value.1, log + [one.value.0]);
      EntryWithin(lib, buf, pos, cut);
    } else {
      cut := pos;
    }
  }

  /** Every log is readable, or fails as its first bad entry does, and is readable up to it. */
  lemma LogReadableOrFirstBad(lib: Lib, buf: Bytes)
    ensures !DecodeLog(lib, buf).Ok? ==>
              exists cut :: 0 <= cut < |buf| && DecodeLog(lib, buf[..cut]).Ok?
                            && !ReadEntry(lib, buf, cut).Ok?
                            && FailsAs(DecodeLog(lib, buf), ReadEntry(lib, buf, cut))
  {
    hide ReadEntry;
    if !DecodeLog(lib, buf).Ok? {
      var cut := FirstBadEntry(lib, buf, 0, []);
    }
  }

  // ---------------------------------------------------------------------------
  // The index file

  lemma IndexLater(a: Bytes, tail: Bytes)
    ensures
      var one, r := ReadIndexEntry(tail, 0), ReadIndexEntry(a + tail, |a|);
      if one.Ok? then r == Ok((one.value.0, one.value.1, |a| + one.value.2)) else FailsAs(r, one)
  {
    hide FromLE, ReadExact;
    forall p: nat, n: nat
      ensures ReadExact(a + tail, |a| + p, n) == ReadExact(tail, p, n)
    {
      ReadsLater(a, tail, p, n);
    }
    ReadsLater(a, tail, 0, 2);
  }

  lemma IndexStays(a: Bytes, tail: Bytes, pos: nat)
    requires pos < |a| && ReadIndexEntry(a, pos).Ok?
    ensures ReadIndexEntry(a + tail, pos) == ReadIndexEntry(a, pos)
  {
    hide FromLE, ReadExact;
    var k := ReadIndexEntry(a, pos).value.0;
    ReadsStay(a, tail, pos, 2);
    ReadsStay(a, tail, pos + 2, |k|);
    ReadsStay(a, tail, pos + 2 + |k|, 4);
    ReadsStay(a, tail, pos + 6 + |k|, 8);
  }

  lemma {:induction false} ScanIndexFileStays(a: Bytes, tail: Bytes, pos: nat, index: Index)
    requires pos <= |a| && ScanIndexFile(a, pos, index).Ok?
    ensures ScanIndexFile(a + tail, pos, index) == ScanIndexFile(a + tail, |a|, ScanIndexFile(a, pos, index).value)
    decreases |a| - pos
  {
    hide ReadIndexEntry;
    if pos < |a| {
      IndexStays(a, tail, pos);
      var (k, e, next) := ReadIndexEntry(a, pos).value;
      ScanIndexFileStays(a, tail, next, index[k := e]);
    }
  }

  /** Likewise the index: a later entry of a key replaces an earlier one. */
  lemma IndexAppended(a: Bytes, tail: Bytes)
    requires DecodeIndex(a).Ok? && tail != []
    ensures DecodeIndex([]) == Ok(map[])
    ensures
      var one, r := ReadIndexEntry(tail, 0), DecodeIndex(a + tail);
      && (!one.Ok? ==> FailsAs(r, one))
      && (one.Ok? && one.value.2 == |tail| ==> r == Ok(DecodeIndex(a).value[one.value.0 := one.value.1]))
  {
    hide ReadIndexEntry;
    ScanIndexFileStays(a, tail, 0, map[]);
    IndexLater(a, tail);
  }
}
