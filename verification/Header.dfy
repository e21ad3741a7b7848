/**
 The 114-byte header of the `.db` file: it round-trips name and record count, and
 patching the count in place changes nothing else that a reader can see.
 */
module Header {
  import opened Bytes
  import opened Dtypes
  import opened Format
  import opened Files
  import opened FileImage

  lemma HeaderReads(name: Bytes, count: nat)
    ensures
      var h := HeaderBytes(name, count);
      && |h| == HEADER_SIZE
      && ReadExact(h, 0, 8) == Ok(HEADER_KEY) && ReadExact(h, 8, 8).Ok?
      && ReadExact(h, 16, 8) == Ok(VERSION_KEY)
      && ReadExact(h, 24, 1) == Ok([1]) && ReadExact(h, 25, 1).Ok?
      && ReadExact(h, 26, 8) == Ok(COUNT_KEY) && ReadExact(h, 34, 8) == Ok(LE(8, count))
      && ReadExact(h, 42, 8) == Ok(NAME_KEY) && ReadExact(h, 50, 64) == Ok(NameField(name))
  {
    hide LE, NameField;
    var h := HeaderBytes(name, count);
    var magic := LE(8, HEADER_MAGIC);
    assert h[0..8] == HEADER_KEY;
    assert h[16..24] == VERSION_KEY;
    assert h[24..25] == [1];
    assert h[26..34] == COUNT_KEY;
    assert h[34..42] == LE(8, count);
    assert h[42..50] == NAME_KEY;
    assert h[50..114] == NameField(name);
  }

  lemma {:induction false} TrimRightZeros(s: Bytes, n: nat)
    requires s != [] ==> s[|s| - 1] != 0
    ensures TrimRight(s + Zeros(n)) == s
  {
    if n == 0 {
      assert s + Zeros(n) == s;
    } else {
      assert (s + Zeros(n))[..|s| + n - 1] == s + Zeros(n - 1);
      TrimRightZeros(s, n - 1);
    }
  }

  lemma {:induction false} TrimLeftZeros(s: Bytes)
    requires forall i :: 0 <= i < |s| ==> s[i] == 0
    ensures TrimLeft(s) == []
  {
    if s != [] { TrimLeftZeros(s[1..]); }
  }

  /** A padded name without NULs at its ends trims back to itself. */
  lemma NameTrims(name: Bytes)
    requires |name| <= NAME_LEN
    requires name != [] ==> name[0] != 0 && name[|name| - 1] != 0
    ensures TrimRight(TrimLeft(NameField(name))) == name
  {
    var padded := name + Zeros(NAME_LEN - |name|);
    assert NameField(name) == padded;
    if name == [] {
      TrimLeftZeros(padded);
    } else {
      TrimRightZeros(name, NAME_LEN - |name|);
    }
  }

  /**
   Names of at most 64 bytes with no NUL at either end round-trip, given that lossy
   decoding leaves the (valid) padded name alone.
   */
  lemma HeaderRoundTrip(lib: Lib, name: Bytes, count: nat)
    requires |name| <= NAME_LEN && count < U64
    requires name != [] ==> name[0] != 0 && name[|name| - 1] != 0
    requires lib.lossy(NameField(name)) == NameField(name)
    ensures DecodeHeader(lib, HeaderBytes(name, count)) == Ok(Meta(1, count, name))
  {
    hide LE, FromLE, NameField, TrimLeft, TrimRight, HeaderBytes, ReadExact;
    HeaderReads(name, count);
    LEWidths(count);
    NameTrims(name);
  }

  /** Any name and count give a readable, empty file. */
  lemma NewFileImage(lib: Lib, name: Bytes, count: nat)
    ensures Image(lib, HeaderBytes(name, count), [])
  {
    hide LE, FromLE, NameField, TrimLeft, TrimRight, HeaderBytes, ReadExact;
    HeaderReads(name, count);
  }

  // ---------------------------------------------------------------------------
  // Patching the count

  lemma PatchReads(db: Bytes, count: nat)
    requires |db| >= HEADER_SIZE
    ensures
      var db' := WriteAt(db, COUNT_OFFSET, LE(8, count));
      && |db'| == |db| && db'[HEADER_SIZE..] == db[HEADER_SIZE..]
      && ReadExact(db', 34, 8) == Ok(LE(8, count))
      && forall p: nat, n: nat :: (p + n <= 34 || p >= 42) ==> ReadExact(db', p, n) == ReadExact(db, p, n)
  {
    hide LE;
    var db' := WriteAt(db, COUNT_OFFSET, LE(8, count));
    assert db' == db[..34] + LE(8, count) + db[42..];
    assert db'[34..42] == LE(8, count);
    forall p: nat, n: nat | p + n <= 34 || p >= 42
      ensures ReadExact(db', p, n) == ReadExact(db, p, n)
    {
      var start := if p < |db| then p else |db|;
      if n <= |db| - start {
        assert db'[start..start + n] == db[start..start + n];
      }
    }
  }

  lemma PatchHeader(lib: Lib, db: Bytes, db': Bytes, count: nat)
    requires |db| == |db'|
    requires ReadExact(db', 34, 8) == Ok(LE(8, count))
    requires forall p: nat, n: nat :: (p + n <= 34 || p >= 42) ==> ReadExact(db', p, n) == ReadExact(db, p, n)
    requires DecodeHeader(lib, db).Ok? && count < U64
    ensures DecodeHeader(lib, db') == Ok(DecodeHeader(lib, db).value.(count := count))
  {
    hide LE, FromLE, TrimLeft, TrimRight, ReadExact, IsMetadataKey;
    LEWidths(count);
  }

  lemma PatchKeepsHeader(lib: Lib, db: Bytes, db': Bytes)
    requires ReadExact(db', 34, 8).Ok?
    requires forall p: nat, n: nat :: (p + n <= 34 || p >= 42) ==> ReadExact(db', p, n) == ReadExact(db, p, n)
    requires DecodeHeader(lib, db).Ok?
    ensures DecodeHeader(lib, db').Ok?
  {
    hide LE, FromLE, TrimLeft, TrimRight, ReadExact, IsMetadataKey;
  }

  /** Reads from `lo` on agree. */
  ghost predicate SameReads(a: Bytes, b: Bytes, lo: nat) {
    |a| == |b| && forall p: nat, n: nat :: p >= lo ==> ReadExact(a, p, n) == ReadExact(b, p, n)
  }

  lemma {:induction false} ScanDbSame(lib: Lib, a: Bytes, b: Bytes, lo: nat, pos: nat, db: map<Key, Field>)
    requires SameReads(a, b, lo) && pos >= lo
    ensures ScanDb(lib, a, pos, db) == ScanDb(lib, b, pos, db)
    decreases |a| - pos
  {
    hide FromLE, ReadExact, Hashed, FieldFrom;
    if pos < |a| {
      var one := DecodeRecord(lib, a, pos);
      assert ReadRecord(a, pos) == ReadRecord(b, pos);
      if one.Ok? {
        ScanDbSame(lib, a, b, lo, one.value.1, Insert(one.value.0, db));
      }
    }
  }

  lemma {:induction false} ScanIndexSame(a: Bytes, b: Bytes, lo: nat, pos: nat, index: Index)
    requires SameReads(a, b, lo) && pos >= lo
    ensures ScanIndex(a, pos, index) == ScanIndex(b, pos, index)
    decreases |a| - pos
  {
    hide FromLE, ReadExact;
    if pos < |a| {
      var one := IndexRecord(a, pos, index);
      assert one == IndexRecord(b, pos, index);
      if one.Ok? {
        ScanIndexSame(a, b, lo, one.value.1, one.value.0);
      }
    }
  }

  /** On every readable file the count patch changes the decoded count and nothing else. */
  lemma CountPatch(lib: Lib, db: Bytes, count: nat)
    requires DecodeHeader(lib, db).Ok? && count < U64
    ensures
      var db' := WriteAt(db, COUNT_OFFSET, LE(8, count));
      && DecodeHeader(lib, db') == Ok(DecodeHeader(lib, db).value.(count := count))
      && (DecodeDb(lib, db').Ok? <==> DecodeDb(lib, db).Ok?)
      && (DecodeDb(lib, db).Ok? ==> DecodeDb(lib, db').value.0 == DecodeDb(lib, db).value.0)
      && DecodeIndexFromDb(db') == DecodeIndexFromDb(db)
  {
    hide LE, DecodeHeader, ReadExact, WriteAt;
    var db' := WriteAt(db, COUNT_OFFSET, LE(8, count));
    PatchReads(db, count);
    PatchHeader(lib, db, db', count);
    ScanDbSame(lib, db, db', HEADER_SIZE, HEADER_SIZE, map[]);
    ScanIndexSame(db, db', HEADER_SIZE, HEADER_SIZE, map[]);
    assert ReadExact(db, 34, 8).Ok? by { ReadWithin(db, 34, 8); }
  }

  lemma ReadWithin(db: Bytes, pos: nat, n: nat)
    requires pos + n <= |db|
    ensures ReadExact(db, pos, n).Ok?
  {
  }

  /** The patched file still holds the same records. */
  lemma PatchImage(lib: Lib, db: Bytes, rs: seq<Rec>, count: nat)
    requires Image(lib, db, rs)
    ensures Image(lib, WriteAt(db, COUNT_OFFSET, LE(8, count)), rs)
  {
    hide LE, DecodeHeader, ReadExact, WriteAt, RecsBytes, WfRecs;
    PatchReads(db, count);
    PatchKeepsHeader(lib, db, WriteAt(db, COUNT_OFFSET, LE(8, count)));
  }
}
