/**
 The three on-disk formats as functions of bytes: what the encoders of
 src/db/codec.rs write and what its cursor decoders read back.
 */
module Format {
  import opened Bytes
  import opened Dtypes

  const RECORD_MAGIC: Bytes := [0x52, 0x45, 0x43, 0x01]
  const NO_BYTES4: Bytes := [0, 0, 0, 0]
  const RECORD_HEADER: nat := 14

  // ---------------------------------------------------------------------------
  // Records of the `.db` file

  /** The layout shared by live records and tombstones. */
  function RecordLayout(magic: Bytes, keyLen: nat, fieldLen: nat, crc: Bytes, key: Bytes, field: Bytes): Bytes {
    magic + (LE(2, keyLen) + (LE(4, fieldLen) + (crc + (key + field))))
  }

  /** The bytes the checksum covers: everything after the magic, with the CRC slot zero. */
  function Hashed(keyLen: nat, fieldLen: nat, key: Bytes, field: Bytes): Bytes {
    LE(2, keyLen) + (LE(4, fieldLen) + (NO_BYTES4 + (key + field)))
  }

  function RecordBytes(lib: Lib, key: Key, field: Field): Bytes {
    var payload := FieldBytes(field);
    RecordLayout(RECORD_MAGIC, |key|, |payload|,
                 LE(4, lib.crc(Hashed(|key|, |payload|, key, payload))), key, payload)
  }

  /** A tombstone keeps both lengths and zeroes everything else. */
  function TombstoneBytes(keyLen: nat, fieldLen: nat): Bytes {
    RecordLayout(NO_BYTES4, keyLen, fieldLen, NO_BYTES4, Zeros(keyLen), Zeros(fieldLen))
  }

  /** A record as read, before its checksum and payload are looked at. */
  datatype RawRecord = RawRecord(deleted: bool, keyLen: nat, fieldLen: nat, crc: nat, key: Bytes, field: Bytes) {
    function Size(): nat { RECORD_HEADER + keyLen + fieldLen }
  }

  function ReadRecord(buf: Bytes, pos: nat): (r: Outcome<RawRecord>)
    ensures r.Ok? ==> |r.value.key| == r.value.keyLen && |r.value.field| == r.value.fieldLen
    ensures r.Ok? ==> pos + r.value.Size() <= |buf|
  {
    var magic :- ReadExact(buf, pos, 4);
    if magic != NO_BYTES4 && magic != RECORD_MAGIC then Err(InvalidMagicBytes)
    else
      var keyLen :- ReadExact(buf, pos + 4, 2);
      var fieldLen :- ReadExact(buf, pos + 6, 4);
      var crc :- ReadExact(buf, pos + 10, 4);
      var key :- ReadExact(buf, pos + 14, FromLE(keyLen));
      var field :- ReadExact(buf, pos + 14 + |key|, FromLE(fieldLen));
      Ok(RawRecord(magic == NO_BYTES4, FromLE(keyLen), FromLE(fieldLen), FromLE(crc), key, field))
  }

  /** `decode_db_key_field_pair`: `None` for a tombstone, else the pair it adds to the map. */
  function DecodeRecord(lib: Lib, buf: Bytes, pos: nat): (r: Outcome<(Option<(Key, Field)>, nat)>)
    ensures r.Ok? ==> pos + RECORD_HEADER <= r.value.1 <= |buf|
  {
    var raw :- ReadRecord(buf, pos);
    var next := pos + raw.Size();
    if raw.deleted then Ok((None, next))
    else if lib.crc(Hashed(raw.keyLen, raw.fieldLen, raw.key, raw.field)) != raw.crc then Err(CorruptedRecord)
    else
      var (field, _) :- FieldFrom(lib, raw.field);
      Ok((Some((raw.key, field)), next))
  }

  function Insert(kv: Option<(Key, Field)>, db: map<Key, Field>): map<Key, Field> {
    match kv
    case None => db
    case Some((k, f)) => db[k := f]
  }

  /** The record loop of `decode_db_file`, from a given position. */
  function ScanDb(lib: Lib, buf: Bytes, pos: nat, db: map<Key, Field>): Outcome<map<Key, Field>>
    decreases |buf| - pos
  {
    if pos >= |buf| then Ok(db)
    else
      var (kv, next) :- DecodeRecord(lib, buf, pos);
      ScanDb(lib, buf, next, Insert(kv, db))
  }

  /** `codec::decode`: exactly one live record. */
  function DecodeOne(lib: Lib, bytes: Bytes): Outcome<(Key, Field)> {
    var (kv, _) :- DecodeRecord(lib, bytes, 0);
    match kv
    case None => Err(InvalidFinishCall)
    case Some(pair) => Ok(pair)
  }

  // ---------------------------------------------------------------------------
  // The index scanner, which skips what it does not need

  datatype IndexEntry = IndexEntry(offset: nat, keyLen: nat, fieldLen: nat)
  type Index = map<Key, IndexEntry>

  /** One turn of `decode_index_from_file`; positions may run past the end of the buffer. */
  function IndexRecord(buf: Bytes, pos: nat, index: Index): (r: Outcome<(Index, nat)>)
    ensures r.Ok? ==> pos + RECORD_HEADER <= r.value.1
  {
    var magic :- ReadExact(buf, pos, 4);
    if magic != NO_BYTES4 && magic != RECORD_MAGIC then Err(InvalidMagicBytes)
    else
      var keyLen :- ReadExact(buf, pos + 4, 2);
      var fieldLen :- ReadExact(buf, pos + 6, 4);
      var key :- ReadExact(buf, pos + 14, FromLE(keyLen));
      var next := pos + 14 + |key| + FromLE(fieldLen);
      if magic == NO_BYTES4 then Ok((index, next))
      else if key == [] then Err(InvalidIndexEntry)
      else Ok((index[key := IndexEntry(pos, FromLE(keyLen), FromLE(fieldLen))], next))
  }

  function ScanIndex(buf: Bytes, pos: nat, index: Index): Outcome<Index>
    decreases |buf| - pos
  {
    if pos >= |buf| then Ok(index)
    else
      var (index', next) :- IndexRecord(buf, pos, index);
      ScanIndex(buf, next, index')
  }

  // ---------------------------------------------------------------------------
  // The header of the `.db` file

  const HEADER_KEY: Bytes := [0x48, 0x65, 0x61, 0x64, 0x65, 0x72, 0x2D, 0x2D]
  const HEADER_MAGIC: nat := 0x50656163684442
  const VERSION_KEY: Bytes := [0x56, 0x65, 0x72, 0x73, 0x69, 0x6F, 0x6E, 0x2D]
  const COUNT_KEY: Bytes := [0x52, 0x65, 0x63, 0x43, 0x6F, 0x75, 0x6E, 0x74]
  const NAME_KEY: Bytes := [0x44, 0x42, 0x20, 0x4E, 0x61, 0x6D, 0x65, 0x2D]
  const COUNT_OFFSET: nat := 34
  const HEADER_SIZE: nat := 114
  const NAME_LEN: nat := 64

  datatype Meta = Meta(version: byte, count: nat, name: Bytes)

  /** The name cut to 64 bytes or padded with NULs. */
  function NameField(name: Bytes): (s: Bytes)
    ensures |s| == NAME_LEN
  {
    if |name| >= NAME_LEN then name[..NAME_LEN] else name + Zeros(NAME_LEN - |name|)
  }

  function HeaderBytes(name: Bytes, count: nat): Bytes {
    HEADER_KEY + LE(8, HEADER_MAGIC) + VERSION_KEY + [1, 0] + COUNT_KEY + LE(8, count) + NAME_KEY + NameField(name)
  }

  predicate IsMetadataKey(s: Bytes) {
    s == HEADER_KEY || s == VERSION_KEY || s == COUNT_KEY || s == NAME_KEY
  }

  function ReadMetadataKey(buf: Bytes, pos: nat): Outcome<()> {
    var s :- ReadExact(buf, pos, 8);
    if IsMetadataKey(s) then Ok(()) else Err(InvalidMagicBytes)
  }

  function TrimLeft(s: Bytes): Bytes {
    if s != [] && s[0] == 0 then TrimLeft(s[1..]) else s
  }

  function TrimRight(s: Bytes): Bytes {
    if s != [] && s[|s| - 1] == 0 then TrimRight(s[..|s| - 1]) else s
  }

  /** `decode_db_header`: any of the four labels is accepted in each place; the magic is not checked. */
  function DecodeHeader(lib: Lib, buf: Bytes): (r: Outcome<Meta>)
    ensures r.Ok? ==> |buf| >= HEADER_SIZE
  {
    var _ :- ReadMetadataKey(buf, 0);
    var _ :- ReadExact(buf, 8, 8);
    var _ :- ReadMetadataKey(buf, 16);
    var version :- ReadExact(buf, 24, 1);
    var _ :- ReadExact(buf, 25, 1);
    var _ :- ReadMetadataKey(buf, 26);
    var count :- ReadExact(buf, 34, 8);
    var _ :- ReadMetadataKey(buf, 42);
    var name :- ReadExact(buf, 50, 64);
    Ok(Meta(version[0], FromLE(count), TrimRight(TrimLeft(lib.lossy(name)))))
  }

  /** `DBDecoder::decode_db_file` followed by `finish`. */
  function DecodeDb(lib: Lib, buf: Bytes): Outcome<(map<Key, Field>, Meta)> {
    var meta :- DecodeHeader(lib, buf);
    var db :- ScanDb(lib, buf, HEADER_SIZE, map[]);
    Ok((db, meta))
  }

  /** `IndexFromDBDecoder::decode_index_from_file` followed by `finish`; labels and name are skipped unread. */
  function DecodeIndexFromDb(buf: Bytes): Outcome<Index> {
    var _ :- ReadExact(buf, 8, 8);
    var _ :- ReadExact(buf, 24, 1);
    var _ :- ReadExact(buf, 25, 1);
    var _ :- ReadExact(buf, 34, 8);
    ScanIndex(buf, HEADER_SIZE, map[])
  }

  // ---------------------------------------------------------------------------
  // The `.wal` file

  datatype WalEntry = Set(key: Key, field: Field) | Delete(key: Key)

  function EntryBytes(e: WalEntry): (s: Bytes)
    ensures |s| > 0
  {
    match e
    case Set(key, field) =>
      [1] + (LE(2, |key|) + (key + (LE(4, |FieldBytes(field)|) + FieldBytes(field))))
    case Delete(key) => [2] + (LE(2, |key|) + key)
  }

  function LogBytes(log: seq<WalEntry>): Bytes {
    if log == [] then [] else LogBytes(log[..|log| - 1]) + EntryBytes(log[|log| - 1])
  }

  function ReadEntry(lib: Lib, buf: Bytes, pos: nat): (r: Outcome<(WalEntry, nat)>)
    ensures r.Ok? ==> pos < r.value.1 <= |buf|
  {
    var tag :- ReadExact(buf, pos, 1);
    if tag[0] != 1 && tag[0] != 2 then Err(UnknownDtype(tag[0]))
    else
      var keyLen :- ReadExact(buf, pos + 1, 2);
      var key :- ReadExact(buf, pos + 3, FromLE(keyLen));
      if tag[0] == 2 then Ok((Delete(key), pos + 3 + |key|))
      else
        var fieldLen :- ReadExact(buf, pos + 3 + |key|, 4);
        var payload :- ReadExact(buf, pos + 7 + |key|, FromLE(fieldLen));
        var (field, _) :- FieldFrom(lib, payload);
        Ok((Set(key, field), pos + 7 + |key| + |payload|))
  }

  /** `decode_wal_entries`, from a given position. */
  function ScanLog(lib: Lib, buf: Bytes, pos: nat, log: seq<WalEntry>): Outcome<seq<WalEntry>>
    decreases |buf| - pos
  {
    if pos >= |buf| then Ok(log)
    else
      var (e, next) :- ReadEntry(lib, buf, pos);
      ScanLog(lib, buf, next, log + [e])
  }

  function DecodeLog(lib: Lib, buf: Bytes): Outcome<seq<WalEntry>> {
    ScanLog(lib, buf, 0, [])
  }

  // ---------------------------------------------------------------------------
  // The `.dbidx` file

  function IndexEntryBytes(key: Key, e: IndexEntry): Bytes {
    LE(2, e.keyLen) + (key + (LE(4, e.fieldLen) + LE(8, e.offset)))
  }

  /** The index written entry by entry, in the order the map yields them. */
  function IndexFileBytes(items: seq<(Key, IndexEntry)>): Bytes {
    if items == [] then []
    else
      var (k, e) := items[|items| - 1];
      IndexFileBytes(items[..|items| - 1]) + IndexEntryBytes(k, e)
  }

  function ReadIndexEntry(buf: Bytes, pos: nat): (r: Outcome<(Key, IndexEntry, nat)>)
    ensures r.Ok? ==> pos < r.value.2 <= |buf|
  {
    var keyLen :- ReadExact(buf, pos, 2);
    var key :- ReadExact(buf, pos + 2, FromLE(keyLen));
    var fieldLen :- ReadExact(buf, pos + 2 + |key|, 4);
    var offset :- ReadExact(buf, pos + 6 + |key|, 8);
    Ok((key, IndexEntry(FromLE(offset), FromLE(keyLen), FromLE(fieldLen)), pos + 14 + |key|))
  }

  function ScanIndexFile(buf: Bytes, pos: nat, index: Index): Outcome<Index>
    decreases |buf| - pos
  {
    if pos >= |buf| then Ok(index)
    else
      var (k, e, next) :- ReadIndexEntry(buf, pos);
      ScanIndexFile(buf, next, index[k := e])
  }

  function DecodeIndex(buf: Bytes): Outcome<Index> {
    ScanIndexFile(buf, 0, map[])
  }
}
