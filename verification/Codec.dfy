/**
 The encoder and decoder objects of src/db/codec.rs. Encoders grow one buffer and patch
 it in place; decoders move a cursor and overwrite what they read last. Each method is
 proved against the functions of `Format`.
 */
module Codec {
  import opened Bytes
  import opened Dtypes
  import opened Format
  import opened FileImage
  import opened IndexFile
  import Header

  // ---------------------------------------------------------------------------
  // `.db`

  /** The live records a map is written as, in the order it is iterated. */
  function LiveRecs(items: seq<(Key, Field)>): seq<Rec> {
    if items == [] then []
    else
      var (k, f) := items[|items| - 1];
      LiveRecs(items[..|items| - 1]) + [Live(k, f)]
  }

  /** `buffer` with its bytes from `offset` on replaced by `data`: a slice assignment. */
  function Patched(buffer: Bytes, offset: nat, data: Bytes): Bytes
    requires offset + |data| <= |buffer|
  {
    buffer[..offset] + data + buffer[offset + |data|..]
  }

  /** Patching the checksum into its slot turns the hashed bytes into the finished record. */
  lemma PatchedRecord(lib: Lib, start: Bytes, key: Key, field: Field)
    ensures
      var payload := FieldBytes(field);
      var hashed := Hashed(|key|, |payload|, key, payload);
      var before := start + RECORD_MAGIC + hashed;
      && |before| >= |start| + 14
      && before[|start| + 4..] == hashed
      && Patched(before, |start| + 10, LE(4, lib.crc(hashed))) == start + RecordBytes(lib, key, field)
  {
    hide LE, FieldBytes;
    var payload := FieldBytes(field);
    var hashed := Hashed(|key|, |payload|, key, payload);
    var before := start + RECORD_MAGIC + hashed;
    var lens := LE(2, |key|) + LE(4, |payload|);
    var rest := key + payload;
    assert before == start + RECORD_MAGIC + lens + NO_BYTES4 + rest;
    assert before[..|start| + 10] == start + RECORD_MAGIC + lens;
    assert before[|start| + 14..] == rest;
  }

  class DBEncoder {
    var buffer: Bytes
    var fieldStart: nat

    constructor ()
      ensures buffer == [] && fieldStart == 0
    {
      buffer, fieldStart := [], 0;
    }

    method Write(bytes: Bytes)
      modifies this
      ensures buffer == old(buffer) + bytes && fieldStart == old(fieldStart)
    {
      buffer := buffer + bytes;
    }

    /** Hashes everything after the magic and writes the checksum into the slot left for it. */
    method EncodeCrc(lib: Lib)
      requires fieldStart + 14 <= |buffer|
      modifies this
      ensures fieldStart == old(fieldStart)
      ensures buffer == Patched(old(buffer), fieldStart + 10, LE(4, lib.crc(old(buffer[fieldStart + 4..]))))
    {
      hide LE;
      var checksum := LE(4, lib.crc(buffer[fieldStart + 4..]));
      var offset := fieldStart + 10;
      buffer := buffer[..offset] + checksum + buffer[offset + 4..];
    }

    /** Appends one record, whatever the buffer already holds. */
    method EncodeDbKeyFieldPair(lib: Lib, key: Key, field: Field)
      modifies this
      ensures buffer == old(buffer) + RecordBytes(lib, key, field)
    {
      hide LE, FieldBytes, Patched, RecordBytes;
      ghost var start := buffer;
      var payload := BytesFromField(field);
      fieldStart := |buffer|;
      Write(RECORD_MAGIC);
      Write(LE(2, |key|));
      Write(LE(4, |payload|));
      Write(NO_BYTES4);
      Write(key);
      Write(payload);
      PatchedRecord(lib, start, key, field);
      assert buffer == start + RECORD_MAGIC + Hashed(|key|, |payload|, key, payload);
      EncodeCrc(lib);
    }

    method EncodeDbHeader(meta: Meta)
      modifies this
      ensures buffer == old(buffer) + HeaderBytes(meta.name, meta.count)
    {
      hide LE, NameField;
      ghost var start := buffer;
      Write(HEADER_KEY);
      Write(LE(8, HEADER_MAGIC));
      Write(VERSION_KEY);
      Write([1]);
      Write([0]);
      Write(COUNT_KEY);
      Write(LE(8, meta.count));
      Write(NAME_KEY);
      Write(NameField(meta.name));
    }

    /** Header, then every entry of the map, in whatever order it is iterated. */
    method EncodeDbFile(lib: Lib, fields: map<Key, Field>, meta: Meta) returns (ghost items: seq<(Key, Field)>)
      modifies this
      ensures Iterates(items, fields)
      ensures buffer == old(buffer) + HeaderBytes(meta.name, meta.count) + RecsBytes(lib, LiveRecs(items))
    {
      hide HeaderBytes, RecordBytes, RecsBytes, LiveRecs, Iterates, Iterated;
      EncodeDbHeader(meta);
      ghost var start := buffer;
      var todo := fields.Keys;
      items := [];
      IteratedNone(fields);
      NoLiveRecs(lib);
      while todo != {}
        invariant Iterated(items, fields, todo) && todo <= fields.Keys
        invariant buffer == start + RecsBytes(lib, LiveRecs(items))
        decreases todo
      {
        var k :| k in todo;
        IteratedStep(items, fields, todo, k);
        LiveRecsStep(lib, items, k, fields[k]);
        EncodeDbKeyFieldPair(lib, k, fields[k]);
        items := items + [(k, fields[k])];
        todo := todo - {k};
      }
      IteratedAll(items, fields);
    }
  }

  lemma NoLiveRecs(lib: Lib)
    ensures RecsBytes(lib, LiveRecs([])) == []
  {
  }

  lemma LiveRecsStep(lib: Lib, items: seq<(Key, Field)>, k: Key, f: Field)
    ensures RecsBytes(lib, LiveRecs(items + [(k, f)])) == RecsBytes(lib, LiveRecs(items)) + RecordBytes(lib, k, f)
  {
    hide RecordBytes;
    var more := items + [(k, f)];
    assert more[..|items|] == items;
    var rs := LiveRecs(items);
    assert (rs + [Live(k, f)])[..|rs|] == rs;
  }

  lemma {:induction false} LiveRecsAre(lib: Lib, items: seq<(Key, Field)>)
    requires forall i :: 0 <= i < |items| ==> WfPair(lib, items[i].0, items[i].1)
    ensures DbMap(LiveRecs(items)) == FromItems(items)
    ensures WfRecs(lib, LiveRecs(items))
    decreases |items|
  {
    hide WfPair;
    if items != [] {
      var init := items[..|items| - 1];
      LiveRecsAre(lib, init);
      var (k, f) := items[|items| - 1];
      assert (LiveRecs(init) + [Live(k, f)])[..|LiveRecs(init)|] == LiveRecs(init);
    }
  }

  lemma {:induction false} IteratedPairs(lib: Lib, items: seq<(Key, Field)>, m: map<Key, Field>)
    requires forall i, j :: 0 <= i < j < |items| ==> items[i].0 != items[j].0
    requires forall k :: k in FromItems(items) ==> k in m && FromItems(items)[k] == m[k]
    requires forall k :: k in m ==> WfPair(lib, k, m[k])
    ensures forall i :: 0 <= i < |items| ==> WfPair(lib, items[i].0, items[i].1)
    decreases |items|
  {
    hide WfPair;
    if items != [] {
      var init := items[..|items| - 1];
      var (k, f) := items[|items| - 1];
      LastIsNew(items);
      assert FromItems(items)[k] == f;
      forall x | x in FromItems(init)
        ensures x in m && FromItems(init)[x] == m[x]
      {
        assert FromItems(items)[x] == FromItems(init)[x];
      }
      IteratedPairs(lib, init, m);
    }
  }

  /**
   A file written from a map decodes to the map, its count and its name: for any checksum
   function and any iteration order.
   */
  lemma DbFileRoundTrip(lib: Lib, fields: map<Key, Field>, items: seq<(Key, Field)>, name: Bytes, count: nat)
    requires Iterates(items, fields)
    requires forall k :: k in fields ==> WfPair(lib, k, fields[k])
    requires |name| <= NAME_LEN && count < U64
    requires name != [] ==> name[0] != 0 && name[|name| - 1] != 0
    requires lib.lossy(NameField(name)) == NameField(name)
    ensures DecodeDb(lib, HeaderBytes(name, count) + RecsBytes(lib, LiveRecs(items)))
            == Ok((fields, Meta(1, count, name)))
  {
    hide HeaderBytes, RecsBytes, LiveRecs, WfPair, NameField, DecodeHeader, DecodeDb, WfRecs, DbMap;
    var h, rs := HeaderBytes(name, count), LiveRecs(items);
    IteratedPairs(lib, items, fields);
    LiveRecsAre(lib, items);
    Header.HeaderReads(name, count);
    Header.HeaderRoundTrip(lib, name, count);
    var db := h + RecsBytes(lib, rs);
    assert db[..HEADER_SIZE] == h == h[..HEADER_SIZE];
    HeaderLocal(lib, h, db);
    assert db[HEADER_SIZE..] == RecsBytes(lib, rs);
    ImageDecodes(lib, db, rs);
  }

  /** `encode`, the one-record convenience wrapper. */
  method Encode(lib: Lib, key: Key, field: Field) returns (bytes: Bytes)
    ensures bytes == RecordBytes(lib, key, field)
  {
    hide RecordBytes;
    var enc := new DBEncoder();
    enc.EncodeDbKeyFieldPair(lib, key, field);
    bytes := enc.buffer;
    assert [] + RecordBytes(lib, key, field) == RecordBytes(lib, key, field);
  }

  /** One encoded record decodes to its key and value. */
  lemma RecordRoundTrip(lib: Lib, key: Key, field: Field)
    requires WfPair(lib, key, field)
    ensures DecodeOne(lib, RecordBytes(lib, key, field)) == Ok((key, field))
  {
    hide WfPair, RecordBytes, DecodeRecord, RecBytes, FieldBytes;
    assert RecBytes(lib, Live(key, field)) == RecordBytes(lib, key, field) by { LiveBytes(lib, key, field); }
    assert RecordBytes(lib, key, field)[0..|RecordBytes(lib, key, field)|] == RecordBytes(lib, key, field);
    ReadRec(lib, RecordBytes(lib, key, field), 0, Live(key, field));
  }

  lemma LiveBytes(lib: Lib, key: Key, field: Field)
    ensures RecBytes(lib, Live(key, field)) == RecordBytes(lib, key, field)
  {
    hide RecordBytes;
  }

  class DBDecoder {
    const buf: Bytes
    var cursor: nat
    var db: map<Key, Field>
    var meta: Option<Meta>
    var deleted: bool
    var lastKeyLen: nat
    var lastFieldLen: nat
    var lastCrc: nat
    var lastKey: Bytes
    var lastField: Bytes

    constructor (bytes: Bytes)
      ensures buf == bytes && cursor == 0 && db == map[] && meta == None
    {
      buf := bytes;
      cursor, db, meta, deleted := 0, map[], None, false;
      lastKeyLen, lastFieldLen, lastCrc, lastKey, lastField := 0, 0, 0, [], [];
    }

    /** `cursor.read_exact` into a buffer of `n` bytes. */
    method Read(n: nat) returns (r: Outcome<Bytes>)
      modifies this`cursor
      ensures r == ReadExact(buf, old(cursor), n)
      ensures cursor == if r.Ok? then old(cursor) + n else old(cursor)
    {
      r := ReadExact(buf, cursor, n);
      if r.Ok? { cursor := cursor + n; }
    }

    /** The framing of one record, into the `last` fields. */
    method ReadParts() returns (r: Outcome<()>)
      modifies this`cursor, this`deleted, this`lastKeyLen, this`lastFieldLen, this`lastCrc, this`lastKey, this`lastField
      ensures match ReadRecord(buf, old(cursor))
              case Ok(raw) =>
                && r == Ok(()) && cursor == old(cursor) + raw.Size()
                && raw == RawRecord(deleted, lastKeyLen, lastFieldLen, lastCrc, lastKey, lastField)
              case Err(e) => r == Err(e)
              case Panic => r == Panic
    {
      hide FromLE, ReadExact;
      var magic :- Read(4);
      if magic == NO_BYTES4 {
        deleted := true;
      } else if magic == RECORD_MAGIC {
        deleted := false;
      } else {
        return Err(InvalidMagicBytes);
      }
      var keyLen :- Read(2);
      lastKeyLen := FromLE(keyLen);
      var fieldLen :- Read(4);
      lastFieldLen := FromLE(fieldLen);
      var crc :- Read(4);
      lastCrc := FromLE(crc);
      lastKey :- Read(lastKeyLen);
      lastField :- Read(lastFieldLen);
      return Ok(());
    }

    /** Rebuilds the hashed bytes from what was read and compares checksums. */
    method CheckCrc(lib: Lib) returns (r: Outcome<()>)
      ensures r == if lib.crc(Hashed(lastKeyLen, lastFieldLen, lastKey, lastField)) == lastCrc then Ok(())
                   else Err(CorruptedRecord)
    {
      hide LE;
      var header := LE(2, lastKeyLen);
      header := header + LE(4, lastFieldLen);
      header := header + NO_BYTES4;
      header := header + lastKey;
      header := header + lastField;
      assert header == Hashed(lastKeyLen, lastFieldLen, lastKey, lastField);
      if lib.crc(header) != lastCrc { return Err(CorruptedRecord); }
      return Ok(());
    }

    method DecodeDbKeyFieldPair(lib: Lib) returns (r: Outcome<()>)
      modifies this
      ensures meta == old(meta)
      ensures match DecodeRecord(lib, buf, old(cursor))
              case Ok((kv, next)) => r == Ok(()) && cursor == next && db == Insert(kv, old(db))
              case Err(e) => r == Err(e)
              case Panic => r == Panic
    {
      hide ReadRecord, Hashed, FieldFrom;
      var _ :- ReadParts();
      if !deleted {
        var _ :- CheckCrc(lib);
        var one :- FieldFromBytes(lib, lastField);
        db := db[lastKey := one.0];
      }
      return Ok(());
    }

    method ReadKey() returns (r: Outcome<()>)
      modifies this`cursor
      ensures r == ReadMetadataKey(buf, old(cursor))
      ensures r.Ok? ==> cursor == old(cursor) + 8
    {
      hide ReadExact;
      var s :- Read(8);
      if IsMetadataKey(s) { return Ok(()); }
      return Err(InvalidMagicBytes);
    }

    method DecodeDbHeader(lib: Lib) returns (r: Outcome<()>)
      modifies this`cursor, this`meta
      ensures match DecodeHeader(lib, buf)
              case Ok(m) => r == Ok(()) && meta == Some(m) && cursor == HEADER_SIZE
              case Err(e) => r == Err(e)
              case Panic => r == Panic
    {
      hide ReadExact, ReadMetadataKey, FromLE, TrimLeft, TrimRight;
      cursor := 0;
      var _ :- ReadKey();
      var _ :- Read(8);
      var _ :- ReadKey();
      var version :- Read(1);
      var _ :- Read(1);
      var _ :- ReadKey();
      var count :- Read(8);
      var _ :- ReadKey();
      var name :- Read(64);
      meta := Some(Meta(version[0], FromLE(count), TrimRight(TrimLeft(lib.lossy(name)))));
      return Ok(());
    }

    /** Reads header and records; the map found is added to what the decoder already holds. */
    method DecodeDbFile(lib: Lib) returns (r: Outcome<()>)
      requires db == map[]
      modifies this
      ensures match DecodeDb(lib, buf)
              case Ok((m, meta')) => r == Ok(()) && db == m && meta == Some(meta')
              case Err(e) => r == Err(e)
              case Panic => r == Panic
    {
      hide DecodeRecord, DecodeHeader;
      var _ :- DecodeDbHeader(lib);
      ghost var header := meta;
      while cursor < |buf|
        invariant meta == header
        invariant ScanDb(lib, buf, HEADER_SIZE, map[]) == ScanDb(lib, buf, cursor, db)
        decreases |buf| - cursor
      {
        var _ :- DecodeDbKeyFieldPair(lib);
      }
      return Ok(());
    }

    method Finish() returns (r: Outcome<(map<Key, Field>, Meta)>)
      ensures r == if meta.Some? then Ok((db, meta.value)) else Err(InvalidFinishCall)
    {
      if meta.None? { return Err(InvalidFinishCall); }
      return Ok((db, meta.value));
    }
  }

  class DBDeleter {
    var buffer: Bytes
    var keyLen: nat
    var fieldLen: nat

    constructor ()
      ensures buffer == [] && keyLen == 0 && fieldLen == 0
    {
      buffer, keyLen, fieldLen := [], 0, 0;
    }

    method SetLens(key: nat, field: nat)
      modifies this
      ensures keyLen == key && fieldLen == field && buffer == old(buffer)
    {
      keyLen, fieldLen := key, field;
    }

    method GetDeletedField()
      modifies this`buffer
      ensures buffer == old(buffer) + TombstoneBytes(keyLen, fieldLen)
    {
      hide LE, Zeros;
      ghost var start := buffer;
      buffer := buffer + NO_BYTES4;
      buffer := buffer + LE(2, keyLen);
      buffer := buffer + LE(4, fieldLen);
      buffer := buffer + NO_BYTES4;
      buffer := buffer + Zeros(keyLen);
      buffer := buffer + Zeros(fieldLen);
      assert buffer == start + TombstoneBytes(keyLen, fieldLen);
    }

    method Reset()
      modifies this
      ensures buffer == [] && keyLen == 0 && fieldLen == 0
    {
      buffer, keyLen, fieldLen := [], 0, 0;
    }
  }

  // ---------------------------------------------------------------------------
  // The index scanner

  class IndexFromDBDecoder {
    const buf: Bytes
    var cursor: nat
    var index: Index
    var lastKeyLen: nat
    var lastFieldLen: nat
    var lastKey: Bytes
    var lastIndex: nat
    var deleted: bool

    constructor (bytes: Bytes)
      ensures buf == bytes && cursor == 0 && index == map[]
    {
      buf := bytes;
      cursor, index, deleted := 0, map[], false;
      lastKeyLen, lastFieldLen, lastKey, lastIndex := 0, 0, [], 0;
    }

    method Read(n: nat) returns (r: Outcome<Bytes>)
      modifies this`cursor
      ensures r == ReadExact(buf, old(cursor), n)
      ensures cursor == if r.Ok? then old(cursor) + n else old(cursor)
    {
      r := ReadExact(buf, cursor, n);
      if r.Ok? { cursor := cursor + n; }
    }

    /** `set_position`: no bound is checked. */
    method Skip(n: nat)
      modifies this`cursor
      ensures cursor == old(cursor) + n
    {
      cursor := cursor + n;
    }

    method IndexPush() returns (r: Outcome<()>)
      modifies this`index
      ensures r == if !deleted && lastKey == [] then Err(InvalidIndexEntry) else Ok(())
      ensures index == if deleted || lastKey == [] then old(index)
                       else old(index)[lastKey := IndexEntry(lastIndex, lastKeyLen, lastFieldLen)]
    {
      if deleted { return Ok(()); }
      if lastKey == [] { return Err(InvalidIndexEntry); }
      index := index[lastKey := IndexEntry(lastIndex, lastKeyLen, lastFieldLen)];
      return Ok(());
    }

    /** One turn of the scanning loop. */
    method DecodeOneEntry() returns (r: Outcome<()>)
      modifies this
      ensures match IndexRecord(buf, old(cursor), old(index))
              case Ok((index', next)) => r == Ok(()) && index == index' && cursor == next
              case Err(e) => r == Err(e)
              case Panic => r == Panic
    {
      hide FromLE, ReadExact;
      lastIndex := cursor;
      var magic :- Read(4);
      if magic == NO_BYTES4 {
        deleted := true;
      } else if magic == RECORD_MAGIC {
        deleted := false;
      } else {
        return Err(InvalidMagicBytes);
      }
      var keyLen :- Read(2);
      lastKeyLen := FromLE(keyLen);
      var fieldLen :- Read(4);
      lastFieldLen := FromLE(fieldLen);
      Skip(4);
      lastKey :- Read(lastKeyLen);
      Skip(lastFieldLen);
      var _ :- IndexPush();
      return Ok(());
    }

    method DecodeIndexFromFile() returns (r: Outcome<()>)
      requires index == map[]
      modifies this
      ensures match DecodeIndexFromDb(buf)
              case Ok(index') => r == Ok(()) && index == index'
              case Err(e) => r == Err(e)
              case Panic => r == Panic
    {
      hide IndexRecord, ReadExact;
      cursor := 0;
      Skip(8);
      var _ :- Read(8);
      Skip(8);
      var _ :- Read(1);
      var _ :- Read(1);
      Skip(8);
      var _ :- Read(8);
      Skip(8);
      Skip(64);
      while cursor < |buf|
        invariant ScanIndex(buf, HEADER_SIZE, map[]) == ScanIndex(buf, cursor, index)
        decreases |buf| - cursor
      {
        var _ :- DecodeOneEntry();
      }
      return Ok(());
    }
  }

  // ---------------------------------------------------------------------------
  // `.dbidx`

  class IndexEncoder {
    var buffer: Bytes

    constructor ()
      ensures buffer == []
    {
      buffer := [];
    }

    method EncodeIndexEntry(key: Key, e: IndexEntry)
      modifies this
      ensures buffer == old(buffer) + IndexEntryBytes(key, e)
    {
      hide LE;
      ghost var start := buffer;
      buffer := buffer + LE(2, e.keyLen);
      buffer := buffer + key;
      buffer := buffer + LE(4, e.fieldLen);
      buffer := buffer + LE(8, e.offset);
      assert buffer == start + IndexEntryBytes(key, e);
    }

    /** Every entry of the index, in whatever order it is iterated. */
    method EncodeIndexFile(index: Index) returns (ghost items: seq<(Key, IndexEntry)>)
      modifies this
      ensures Iterates(items, index)
      ensures buffer == old(buffer) + IndexFileBytes(items)
    {
      hide IndexEntryBytes, Iterates, Iterated;
      ghost var start := buffer;
      var todo := index.Keys;
      items := [];
      IteratedNone(index);
      while todo != {}
        invariant Iterated(items, index, todo) && todo <= index.Keys
        invariant buffer == start + IndexFileBytes(items)
        decreases todo
      {
        var k :| k in todo;
        IteratedStep(items, index, todo, k);
        EncodeIndexEntry(k, index[k]);
        assert (items + [(k, index[k])])[..|items|] == items;
        items := items + [(k, index[k])];
        todo := todo - {k};
      }
      IteratedAll(items, index);
    }
  }

  class IndexDecoder {
    const buf: Bytes
    var cursor: nat
    var index: Index

    constructor (bytes: Bytes)
      ensures buf == bytes && cursor == 0 && index == map[]
    {
      buf := bytes;
      cursor, index := 0, map[];
    }

    method Read(n: nat) returns (r: Outcome<Bytes>)
      modifies this`cursor
      ensures r == ReadExact(buf, old(cursor), n)
      ensures cursor == if r.Ok? then old(cursor) + n else old(cursor)
    {
      r := ReadExact(buf, cursor, n);
      if r.Ok? { cursor := cursor + n; }
    }

    method DecodeIndexEntry() returns (r: Outcome<()>)
      modifies this
      ensures match ReadIndexEntry(buf, old(cursor))
              case Ok((k, e, next)) => r == Ok(()) && index == old(index)[k := e] && cursor == next
              case Err(e) => r == Err(e)
              case Panic => r == Panic
    {
      hide FromLE, ReadExact;
      var keyLen :- Read(2);
      var key :- Read(FromLE(keyLen));
      var fieldLen :- Read(4);
      var offset :- Read(8);
      index := index[key := IndexEntry(FromLE(offset), FromLE(keyLen), FromLE(fieldLen))];
      return Ok(());
    }

    method DecodeIndexFile() returns (r: Outcome<()>)
      requires index == map[] && cursor == 0
      modifies this
      ensures match DecodeIndex(buf)
              case Ok(index') => r == Ok(()) && index == index'
              case Err(e) => r == Err(e)
              case Panic => r == Panic
    {
      hide ReadIndexEntry;
      while cursor < |buf|
        invariant DecodeIndex(buf) == ScanIndexFile(buf, cursor, index)
        decreases |buf| - cursor
      {
        var _ :- DecodeIndexEntry();
      }
      return Ok(());
    }
  }

  // ---------------------------------------------------------------------------
  // `.wal`

  class WalEncoder {
    var buffer: Bytes

    constructor ()
      ensures buffer == []
    {
      buffer := [];
    }

    method EncodeWalEntry(entry: WalEntry)
      modifies this
      ensures buffer == old(buffer) + EntryBytes(entry)
    {
      hide LE, FieldBytes;
      ghost var start := buffer;
      match entry
      case Set(key, field) =>
        buffer := buffer + [1];
        buffer := buffer + LE(2, |key|);
        buffer := buffer + key;
        var payload := BytesFromField(field);
        buffer := buffer + LE(4, |payload|);
        buffer := buffer + payload;
        assert buffer == start + EntryBytes(entry);
      case Delete(key) =>
        buffer := buffer + [2];
        buffer := buffer + LE(2, |key|);
        buffer := buffer + key;
        assert buffer == start + EntryBytes(entry);
    }
  }

  class WalDecoder {
    const buf: Bytes
    var cursor: nat
    var wal: seq<WalEntry>

    constructor (bytes: Bytes)
      ensures buf == bytes && cursor == 0 && wal == []
    {
      buf := bytes;
      cursor, wal := 0, [];
    }

    method Read(n: nat) returns (r: Outcome<Bytes>)
      modifies this`cursor
      ensures r == ReadExact(buf, old(cursor), n)
      ensures cursor == if r.Ok? then old(cursor) + n else old(cursor)
    {
      r := ReadExact(buf, cursor, n);
      if r.Ok? { cursor := cursor + n; }
    }

    method DecodeWalEntry(lib: Lib) returns (r: Outcome<()>)
      modifies this
      ensures match ReadEntry(lib, buf, old(cursor))
              case Ok((e, next)) => r == Ok(()) && wal == old(wal) + [e] && cursor == next
              case Err(e) => r == Err(e)
              case Panic => r == Panic
    {
      hide FromLE, ReadExact, FieldFrom;
      var tag :- Read(1);
      if tag[0] != 1 && tag[0] != 2 { return Err(UnknownDtype(tag[0])); }
      var keyLen :- Read(2);
      var key :- Read(FromLE(keyLen));
      if tag[0] == 2 {
        wal := wal + [Delete(key)];
        return Ok(());
      }
      var fieldLen :- Read(4);
      var payload :- Read(FromLE(fieldLen));
      var one :- FieldFromBytes(lib, payload);
      wal := wal + [Set(key, one.0)];
      return Ok(());
    }

    method DecodeWalEntries(lib: Lib) returns (r: Outcome<()>)
      requires wal == [] && cursor == 0
      modifies this
      ensures match DecodeLog(lib, buf)
              case Ok(log) => r == Ok(()) && wal == log
              case Err(e) => r == Err(e)
              case Panic => r == Panic
    {
      hide ReadEntry;
      while cursor < |buf|
        invariant DecodeLog(lib, buf) == ScanLog(lib, buf, cursor, wal)
        decreases |buf| - cursor
      {
        var _ :- DecodeWalEntry(lib);
      }
      return Ok(());
    }
  }
}
