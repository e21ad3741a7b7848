/**
 The files in plain bytes: what each decoder makes of one header, record, log entry or
 index entry, for every buffer, in terms of the bytes at their positions. Nothing here
 speaks of the encoders, so a format is fixed by these facts and not only by its round trip.
 */
module Layouts {
  import opened Bytes
  import opened Dtypes
  import opened Format

  // ---------------------------------------------------------------------------
  // Integers

  /** On disk the least significant byte comes first, on the wire the most significant one. */
  lemma ByteOrder(s: Bytes)
    ensures |s| == 2 ==> FromLE(s) == s[0] as int + 0x100 * s[1] as int
    ensures |s| == 4 ==> FromLE(s) == FromLE(s[..2]) + 0x1_0000 * FromLE(s[2..])
    ensures |s| == 8 ==> FromLE(s) == FromLE(s[..4]) + 0x1_0000_0000 * FromLE(s[4..])
    ensures |s| == 2 ==> FromBE(s) == 0x100 * s[0] as int + s[1] as int
    ensures |s| == 4 ==> FromBE(s) == 0x1_0000 * FromBE(s[..2]) + FromBE(s[2..])
  {
    if |s| == 2 || |s| == 4 {
      LETwo(s);
      BETwo(s);
    }
    if |s| == 4 {
      LETwo(s[..2]);
      BETwo(s[2..]);
    }
    if |s| == 8 {
      LETwo(s);
      LETwo(s[2..]);
      LETwo(s[..4]);
      LETwo(s[..4][2..]);
      assert s[2..][2..] == s[4..];
    }
  }

  lemma LETwo(s: Bytes)
    requires |s| >= 2
    ensures FromLE(s) == s[0] as int + 0x100 * s[1] as int + 0x1_0000 * FromLE(s[2..])
  {
    assert s[1..][1..] == s[2..];
  }

  lemma BETwo(s: Bytes)
    requires |s| >= 2
    ensures FromBE(s) == 0x1_0000 * FromBE(s[..|s| - 2]) + 0x100 * s[|s| - 2] as int + s[|s| - 1] as int
  {
    assert s[..|s| - 1][..|s| - 2] == s[..|s| - 2];
  }

  /** Writing keeps the low bytes of the number, like a cast to the narrower type. */
  lemma {:induction false} CutToWidth(k: nat, n: nat)
    ensures FromLE(LE(k, n)) == n % Pow256(k)
    ensures FromBE(BE(k, n)) == n % Pow256(k)
    decreases k
  {
    if k > 0 {
      CutToWidth(k - 1, n / 256);
      assert LE(k, n)[1..] == LE(k - 1, n / 256);
      assert BE(k, n)[..k - 1] == BE(k - 1, n / 256);
      LowDigits(n, Pow256(k - 1));
    }
  }

  lemma LowDigits(n: nat, p: nat)
    requires p > 0
    ensures n % 256 + 256 * (n / 256 % p) == n % (256 * p)
  {
    var q, r := n / 256, n % 256;
    var q', r' := q / p, q % p;
    assert n == 256 * q + r && q == p * q' + r';
    assert 256 * (p * q') == (256 * p) * q';
    RemainderIs(n, 256 * p, q', 256 * r' + r);
  }

  lemma RemainderIs(n: nat, d: nat, q: nat, r: nat)
    requires d > 0 && n == d * q + r && r < d
    ensures n % d == r
  {
    var k := n / d - q;
    assert d * k == r - n % d;
    if k != 0 { Multiple(d, k); }
  }

  lemma Multiple(d: int, k: int)
    requires k != 0 && d > 0
    ensures d * k >= d || d * k <= -d
  {
  }

  /** Negative integers are stored as their two's complement: modulo 2^64 nothing changes. */
  lemma TwosComplement(n: i64)
    ensures ToU64(n) < U64 && (ToU64(n) - n) % 0x1_0000_0000_0000_0000 == 0
    ensures FromU64(ToU64(n)) == n
  {
  }

  /** `a` fails just as `b` does. */
  predicate FailsAs<T, U>(a: Outcome<T>, b: Outcome<U>) {
    if b.Err? then a.Err? && a.error == b.error else a.Panic?
  }

  lemma Reads(buf: Bytes, pos: nat, n: nat)
    requires pos <= |buf|
    ensures ReadExact(buf, pos, n) == if pos + n <= |buf| then Ok(buf[pos..pos + n]) else Err(Io)
  {
  }

  lemma Widths(s: Bytes)
    ensures |s| == 2 ==> FromLE(s) < 0x1_0000
    ensures |s| == 4 ==> FromLE(s) < 0x1_0000_0000
  {
    PowValues();
  }

  // ---------------------------------------------------------------------------
  // Records

  /** Where the record at `pos` ends, by the two lengths in its frame. */
  function RecordEnd(buf: Bytes, pos: nat): nat
    requires pos + 14 <= |buf|
  {
    pos + 14 + FromLE(buf[pos + 4..pos + 6]) + FromLE(buf[pos + 6..pos + 10])
  }

  predicate WholeRecord(buf: Bytes, pos: nat) {
    pos + 14 <= |buf| && RecordEnd(buf, pos) <= |buf|
  }

  /** The checksum in bytes 10 to 13 is that of all after the magic, taken with these four at zero. */
  predicate ChecksumHolds(lib: Lib, buf: Bytes, pos: nat)
    requires WholeRecord(buf, pos)
  {
    FromLE(buf[pos + 10..pos + 14])
    == lib.crc(buf[pos + 4..pos + 10] + [0, 0, 0, 0] + buf[pos + 14..RecordEnd(buf, pos)])
  }

  const LIVE: Bytes := [0x52, 0x45, 0x43, 0x01]
  const DEAD: Bytes := [0, 0, 0, 0]

  lemma FrameByBytes(buf: Bytes, pos: nat)
    requires pos + 4 <= |buf| && (buf[pos..pos + 4] == LIVE || buf[pos..pos + 4] == DEAD)
    ensures !WholeRecord(buf, pos) ==> ReadRecord(buf, pos) == Err(Io)
    ensures WholeRecord(buf, pos) ==>
              var n := FromLE(buf[pos + 4..pos + 6]);
              ReadRecord(buf, pos)
              == Ok(RawRecord(buf[pos..pos + 4] == DEAD, n, FromLE(buf[pos + 6..pos + 10]),
                              FromLE(buf[pos + 10..pos + 14]), buf[pos + 14..pos + 14 + n],
                              buf[pos + 14 + n..RecordEnd(buf, pos)]))
  {
    hide FromLE, ReadExact;
    Reads(buf, pos, 4);
    Reads(buf, pos + 4, 2);
    if pos + 6 <= |buf| { Reads(buf, pos + 6, 4); }
    if pos + 10 <= |buf| { Reads(buf, pos + 10, 4); }
    if pos + 14 <= |buf| {
      var n := FromLE(buf[pos + 4..pos + 6]);
      Reads(buf, pos + 14, n);
      if pos + 14 + n <= |buf| { Reads(buf, pos + 14 + n, FromLE(buf[pos + 6..pos + 10])); }
    }
  }

  lemma HashedByBytes(buf: Bytes, pos: nat)
    requires WholeRecord(buf, pos)
    ensures
      var n := FromLE(buf[pos + 4..pos + 6]);
      Hashed(n, FromLE(buf[pos + 6..pos + 10]), buf[pos + 14..pos + 14 + n], buf[pos + 14 + n..RecordEnd(buf, pos)])
      == buf[pos + 4..pos + 10] + [0, 0, 0, 0] + buf[pos + 14..RecordEnd(buf, pos)]
  {
    hide LE, FromLE;
    var n := FromLE(buf[pos + 4..pos + 6]);
    FromLERoundTrip(buf[pos + 4..pos + 6]);
    FromLERoundTrip(buf[pos + 6..pos + 10]);
    assert buf[pos + 4..pos + 10] == buf[pos + 4..pos + 6] + buf[pos + 6..pos + 10];
    assert buf[pos + 14..RecordEnd(buf, pos)]
           == buf[pos + 14..pos + 14 + n] + buf[pos + 14 + n..RecordEnd(buf, pos)];
  }

  /**
   One record, for every buffer: cut short it is an I/O error, a strange magic is refused, a
   tombstone is passed whatever its checksum and contents, and a live record yields its pair
   only if its checksum holds.
   */
  lemma RecordByBytes(lib: Lib, buf: Bytes, pos: nat)
    requires pos <= |buf|
    ensures pos + 4 > |buf| ==> DecodeRecord(lib, buf, pos) == Err(Io)
    ensures pos + 4 <= |buf| ==>
              var magic := buf[pos..pos + 4];
              if magic != LIVE && magic != DEAD then DecodeRecord(lib, buf, pos) == Err(InvalidMagicBytes)
              else if !WholeRecord(buf, pos) then DecodeRecord(lib, buf, pos) == Err(Io)
              else if magic == DEAD then DecodeRecord(lib, buf, pos) == Ok((None, RecordEnd(buf, pos)))
              else if !ChecksumHolds(lib, buf, pos) then DecodeRecord(lib, buf, pos) == Err(CorruptedRecord)
              else
                var n, end := FromLE(buf[pos + 4..pos + 6]), RecordEnd(buf, pos);
                var f := FieldFrom(lib, buf[pos + 14 + n..end]);
                if f.Ok? then
                  DecodeRecord(lib, buf, pos) == Ok((Some((buf[pos + 14..pos + 14 + n], f.value.0)), end))
                else FailsAs(DecodeRecord(lib, buf, pos), f)
  {
    hide FromLE, FieldFrom, Hashed;
    if pos + 4 <= |buf| && (buf[pos..pos + 4] == LIVE || buf[pos..pos + 4] == DEAD) {
      hide ReadRecord;
      FrameByBytes(buf, pos);
      if WholeRecord(buf, pos) { HashedByBytes(buf, pos); }
    }
  }

  /** The index scanner, for every buffer: checksum and payload are not read, and may be missing. */
  lemma ScannedByBytes(buf: Bytes, pos: nat, index: Index)
    requires pos <= |buf|
    ensures pos + 4 > |buf| ==> IndexRecord(buf, pos, index) == Err(Io)
    ensures pos + 4 <= |buf| ==>
              var magic := buf[pos..pos + 4];
              if magic != LIVE && magic != DEAD then IndexRecord(buf, pos, index) == Err(InvalidMagicBytes)
              else if pos + 10 > |buf| then IndexRecord(buf, pos, index) == Err(Io)
              else
                var n, m := FromLE(buf[pos + 4..pos + 6]), FromLE(buf[pos + 6..pos + 10]);
                if n > 0 && pos + 14 + n > |buf| then IndexRecord(buf, pos, index) == Err(Io)
                else if magic == DEAD then IndexRecord(buf, pos, index) == Ok((index, pos + 14 + n + m))
                else if n == 0 then IndexRecord(buf, pos, index) == Err(InvalidIndexEntry)
                else
                  IndexRecord(buf, pos, index)
                  == Ok((index[buf[pos + 14..pos + 14 + n] := IndexEntry(pos, n, m)], pos + 14 + n + m))
  {
    hide FromLE, ReadExact;
    Reads(buf, pos, 4);
    if pos + 4 <= |buf| { Reads(buf, pos + 4, 2); }
    if pos + 6 <= |buf| { Reads(buf, pos + 6, 4); }
    if pos + 10 <= |buf| {
      var n := FromLE(buf[pos + 4..pos + 6]);
      if pos + 14 <= |buf| { Reads(buf, pos + 14, n); } else { ReadsPastEnd(buf, pos + 14, n); }
    }
  }

  /** The scanner's way to the first record: neither labels nor name are looked at. */
  lemma ScanStarts(buf: Bytes)
    ensures |buf| < 42 ==> DecodeIndexFromDb(buf) == Err(Io)
    ensures 42 <= |buf| <= 114 ==> DecodeIndexFromDb(buf) == Ok(map[])
    ensures |buf| > 114 ==> DecodeIndexFromDb(buf) == ScanIndex(buf, 114, map[])
  {
    hide IndexRecord, ScanIndex;
    if |buf| <= 114 { ScanDone(buf); }
  }

  lemma ScanDone(buf: Bytes)
    requires |buf| <= 114
    ensures ScanIndex(buf, 114, map[]) == Ok(map[])
  {
  }

  lemma ReadsPastEnd(buf: Bytes, pos: nat, n: nat)
    requires pos >= |buf|
    ensures ReadExact(buf, pos, n) == if n == 0 then Ok([]) else Err(Io)
  {
  }

  // ---------------------------------------------------------------------------
  // Log entries

  /** One log entry, for every buffer. */
  lemma EntryByBytes(lib: Lib, buf: Bytes, pos: nat)
    requires pos < |buf|
    ensures
      var r, tag := ReadEntry(lib, buf, pos), buf[pos];
      if tag != 1 && tag != 2 then r == Err(UnknownDtype(tag))
      else if pos + 3 > |buf| then r == Err(Io)
      else
        var n := FromLE(buf[pos + 1..pos + 3]);
        if pos + 3 + n > |buf| then r == Err(Io)
        else
          var key := buf[pos + 3..pos + 3 + n];
          if tag == 2 then r == Ok((Delete(key), pos + 3 + n))
          else if pos + 7 + n > |buf| then r == Err(Io)
          else
            var m := FromLE(buf[pos + 3 + n..pos + 7 + n]);
            if pos + 7 + n + m > |buf| then r == Err(Io)
            else
              var f := FieldFrom(lib, buf[pos + 7 + n..pos + 7 + n + m]);
              if f.Ok? then r == Ok((Set(key, f.value.0), pos + 7 + n + m)) else FailsAs(r, f)
  {
    hide FromLE, FieldFrom, ReadExact;
    Reads(buf, pos, 1);
    Reads(buf, pos + 1, 2);
    if pos + 3 <= |buf| {
      var n := FromLE(buf[pos + 1..pos + 3]);
      Reads(buf, pos + 3, n);
      if pos + 3 + n <= |buf| { Reads(buf, pos + 3 + n, 4); }
      if pos + 7 + n <= |buf| { Reads(buf, pos + 7 + n, FromLE(buf[pos + 3 + n..pos + 7 + n])); }
    }
  }

  // ---------------------------------------------------------------------------
  // Index entries

  /** One entry of the index file, for every buffer. */
  lemma IndexEntryByBytes(buf: Bytes, pos: nat)
    requires pos <= |buf|
    ensures
      var r := ReadIndexEntry(buf, pos);
      if pos + 2 > |buf| then r == Err(Io)
      else
        var n := FromLE(buf[pos..pos + 2]);
        if pos + 14 + n > |buf| then r == Err(Io)
        else
          var e := IndexEntry(FromLE(buf[pos + 6 + n..pos + 14 + n]), n, FromLE(buf[pos + 2 + n..pos + 6 + n]));
          r == Ok((buf[pos + 2..pos + 2 + n], e, pos + 14 + n))
  {
    hide FromLE, ReadExact;
    Reads(buf, pos, 2);
    if pos + 2 <= |buf| {
      var n := FromLE(buf[pos..pos + 2]);
      Reads(buf, pos + 2, n);
      if pos + 2 + n <= |buf| { Reads(buf, pos + 2 + n, 4); }
      if pos + 6 + n <= |buf| { Reads(buf, pos + 6 + n, 8); }
    }
  }

  // ---------------------------------------------------------------------------
  // The header

  function Ascii(s: string): Bytes
    requires forall i :: 0 <= i < |s| ==> s[i] < 128 as char
  {
    seq(|s|, i requires 0 <= i < |s| => s[i] as int as byte)
  }

  predicate IsLabel(s: Bytes) {
    s == Ascii("Header--") || s == Ascii("Version-") || s == Ascii("RecCount") || s == Ascii("DB Name-")
  }

  lemma Labels(s: Bytes)
    ensures IsMetadataKey(s) <==> IsLabel(s)
    ensures HEADER_KEY == Ascii("Header--") && VERSION_KEY == Ascii("Version-")
    ensures COUNT_KEY == Ascii("RecCount") && NAME_KEY == Ascii("DB Name-")
  {
    assert HEADER_KEY == Ascii("Header--");
    assert VERSION_KEY == Ascii("Version-");
    assert COUNT_KEY == Ascii("RecCount");
    assert NAME_KEY == Ascii("DB Name-");
  }

  /** `b` without zero bytes at either end. */
  ghost predicate Trimmed(s: Bytes, b: Bytes) {
    && (b != [] ==> b[0] != 0 && b[|b| - 1] != 0)
    && exists i, j :: 0 <= i <= j <= |s| && b == s[i..j]
         && (forall x :: 0 <= x < i || j <= x < |s| ==> s[x] == 0)
  }

  /**
   The header, for every buffer of at least 114 bytes: it is read exactly if each of the four
   label places holds one of the four labels; version, count and name come from their places.
   Bytes 8 to 15 and 25 do not matter.
   */
  lemma HeaderByBytes(lib: Lib, buf: Bytes)
    requires |buf| >= 114
    ensures
      var r := DecodeHeader(lib, buf);
      if IsLabel(buf[0..8]) && IsLabel(buf[16..24]) && IsLabel(buf[26..34]) && IsLabel(buf[42..50]) then
        && r.Ok? && r.value.version == buf[24] && r.value.count == FromLE(buf[34..42])
        && r.value.name == TrimRight(TrimLeft(lib.lossy(buf[50..114])))
      else r == Err(InvalidMagicBytes)
  {
    hide FromLE, TrimLeft, TrimRight, IsLabel, IsMetadataKey, ReadExact;
    HeaderParts(buf);
    Labels(buf[0..8]);
    Labels(buf[16..24]);
    Labels(buf[26..34]);
    Labels(buf[42..50]);
  }

  lemma HeaderParts(buf: Bytes)
    requires |buf| >= 114
    ensures ReadExact(buf, 0, 8) == Ok(buf[0..8]) && ReadExact(buf, 8, 8).Ok?
    ensures ReadExact(buf, 16, 8) == Ok(buf[16..24]) && ReadExact(buf, 24, 1) == Ok(buf[24..25])
    ensures ReadExact(buf, 25, 1).Ok? && ReadExact(buf, 26, 8) == Ok(buf[26..34])
    ensures ReadExact(buf, 34, 8) == Ok(buf[34..42]) && ReadExact(buf, 42, 8) == Ok(buf[42..50])
    ensures ReadExact(buf, 50, 64) == Ok(buf[50..114])
  {
  }

  /** Anything shorter is refused: a full label place that holds no label first, else as an I/O error. */
  lemma ShortHeader(lib: Lib, buf: Bytes)
    requires |buf| < 114
    ensures DecodeHeader(lib, buf) == Err(Io) || DecodeHeader(lib, buf) == Err(InvalidMagicBytes)
    ensures DecodeHeader(lib, buf) == Err(InvalidMagicBytes) <==>
              || (|buf| >= 8 && !IsLabel(buf[0..8]))
              || (|buf| >= 24 && !IsLabel(buf[16..24]))
              || (|buf| >= 34 && !IsLabel(buf[26..34]))
              || (|buf| >= 50 && !IsLabel(buf[42..50]))
  {
    hide FromLE, TrimLeft, TrimRight, IsLabel, IsMetadataKey;
    if |buf| >= 8 { Labels(buf[0..8]); }
    if |buf| >= 24 { Labels(buf[16..24]); }
    if |buf| >= 34 { Labels(buf[26..34]); }
    if |buf| >= 50 { Labels(buf[42..50]); }
  }

  lemma {:induction false} TrimLeftIs(s: Bytes) returns (i: nat)
    ensures i <= |s| && TrimLeft(s) == s[i..] && (forall x :: 0 <= x < i ==> s[x] == 0)
    ensures TrimLeft(s) != [] ==> TrimLeft(s)[0] != 0
  {
    if s != [] && s[0] == 0 {
      var j := TrimLeftIs(s[1..]);
      i := j + 1;
      forall x | 0 <= x < i
        ensures s[x] == 0
      {
        if x > 0 { assert s[x] == s[1..][x - 1]; }
      }
    } else {
      i := 0;
    }
  }

  lemma {:induction false} TrimRightIs(s: Bytes) returns (j: nat)
    ensures j <= |s| && TrimRight(s) == s[..j] && (forall x :: j <= x < |s| ==> s[x] == 0)
    ensures TrimRight(s) != [] ==> TrimRight(s)[|TrimRight(s)| - 1] != 0
  {
    if s != [] && s[|s| - 1] == 0 {
      j := TrimRightIs(s[..|s| - 1]);
    } else {
      j := |s|;
    }
  }

  /** The two trims together take exactly the zeros off both ends. */
  lemma TrimIs(s: Bytes)
    ensures Trimmed(s, TrimRight(TrimLeft(s)))
  {
    var i := TrimLeftIs(s);
    var t := TrimLeft(s);
    var j := TrimRightIs(t);
    assert TrimRight(t) == s[i..i + j];
    forall x | 0 <= x < i || i + j <= x < |s|
      ensures s[x] == 0
    {
      if x >= i + j { assert s[x] == t[x - i]; }
    }
    if TrimRight(t) != [] { assert TrimRight(t)[0] == t[0]; }
  }

  // ---------------------------------------------------------------------------
  // Fields

  /** One value of a given type, for every buffer. */
  lemma PrimitiveByBytes(lib: Lib, buf: Bytes)
    ensures
      && (if |buf| < 8 then PrimitiveFrom(lib, Integer, buf) == Err(BufferTooShort)
          else PrimitiveFrom(lib, Integer, buf).Ok? && PrimitiveFrom(lib, Integer, buf).value.1 == 8
               && PrimitiveFrom(lib, Integer, buf).value.0.IntegerValue?
               && (PrimitiveFrom(lib, Integer, buf).value.0.n - FromLE(buf[0..8])) % 0x1_0000_0000_0000_0000 == 0)
      && (if |buf| < 8 then PrimitiveFrom(lib, Float, buf) == Err(BufferTooShort)
          else FromLE(buf[0..8]) < U64 && PrimitiveFrom(lib, Float, buf) == Ok((FloatValue(FromLE(buf[0..8])), 8)))
      && PrimitiveFrom(lib, Boolean, buf) == (if buf == [] then Panic else Ok((BooleanValue(buf[0] > 0), 1)))
      && (if |buf| < 4 then PrimitiveFrom(lib, String, buf) == Err(BufferTooShort)
          else
            var end := 4 + FromLE(buf[0..4]);
            if end > |buf| then PrimitiveFrom(lib, String, buf) == Panic
            else if lib.utf8(buf[4..end]) then PrimitiveFrom(lib, String, buf) == Ok((StringValue(buf[4..end]), end))
            else PrimitiveFrom(lib, String, buf) == Err(CorruptedRecord))
      && PrimitiveFrom(lib, Raw, buf) == Err(UnknownDtype(0))
  {
    PowValues();
    hide FromLE;
    if |buf| >= 8 {
      assert PrimitiveFrom(lib, Integer, buf).value.0.n == FromU64(FromLE(buf[0..8]));
    }
  }

  /** One field, for every buffer: the first byte decides. */
  lemma FieldByBytes(lib: Lib, buf: Bytes)
    requires buf != []
    ensures
      var r, b, rest := FieldFrom(lib, buf), buf[0], buf[1..];
      if b == 0 then r == Ok((RawField(rest), |buf|))
      else if 1 <= b <= 4 then
        var dt := if b == 1 then Integer else if b == 2 then Float else if b == 3 then String else Boolean;
        var one := PrimitiveFrom(lib, dt, rest);
        if one.Ok? then r == Ok((PrimitiveField(one.value.0), 1 + one.value.1)) else FailsAs(r, one)
      else if 0x10 <= b <= 0x1E then
        if |buf| < 5 then r == Err(BufferTooShort)
        else if 0x15 <= b then r == Err(UnknownDtype(b - 0x10))
        else
          var dt := if b == 0x10 then Raw else if b == 0x11 then Integer else if b == 0x12 then Float
                    else if b == 0x13 then String else Boolean;
          var items := ItemsFrom(lib, dt, buf[5..], FromLE(buf[1..5]));
          if items.Ok? then r == Ok((ArrayField(dt, items.value.0), 5 + items.value.1)) else FailsAs(r, items)
      else r == Err(UnknownDtype(b))
  {
    hide FromLE, PrimitiveFrom, ItemsFrom;
    if |buf| >= 5 { assert buf[1..][4..] == buf[5..] && buf[1..][0..4] == buf[1..5]; }
  }

  /** Reading items one by one: any first item, then the rest. */
  lemma ItemsByBytes(lib: Lib, dt: Dtype, buf: Bytes, count: nat)
    ensures ItemsFrom(lib, dt, buf, 0) == Ok(([], 0))
    ensures
      var one, all := PrimitiveFrom(lib, dt, buf), ItemsFrom(lib, dt, buf, count + 1);
      if !one.Ok? then FailsAs(all, one)
      else
        var rest := ItemsFrom(lib, dt, buf[one.value.1..], count);
        if rest.Ok? then all == Ok(([one.value.0] + rest.value.0, one.value.1 + rest.value.1)) else FailsAs(all, rest)
  {
    hide PrimitiveFrom;
  }

  // ---------------------------------------------------------------------------
  // Bytes that no decoder looks at

  /** A tombstone is zero everywhere but in the two lengths it keeps. */
  lemma TombstoneByBytes(keyLen: nat, fieldLen: nat)
    requires keyLen < U16 && fieldLen < U32
    ensures
      var s := TombstoneBytes(keyLen, fieldLen);
      && |s| == 14 + keyLen + fieldLen
      && FromLE(s[4..6]) == keyLen && FromLE(s[6..10]) == fieldLen
      && forall i :: 0 <= i < 4 || 10 <= i < |s| ==> s[i] == 0
  {
    hide LE, FromLE;
    var s := TombstoneBytes(keyLen, fieldLen);
    assert s[4..6] == LE(2, keyLen) && s[6..10] == LE(4, fieldLen);
    LEWidths(keyLen);
    LEWidths(fieldLen);
  }

  /** A new file: labels, magic number, version 1.0, count and padded or cut name. */
  lemma HeaderLayout(name: Bytes, count: nat)
    ensures
      var h := HeaderBytes(name, count);
      && |h| == 114
      && h[0..8] == Ascii("Header--") && h[8..16] == Ascii("BDhcaeP") + [0]
      && h[16..24] == Ascii("Version-") && h[24] == 1 && h[25] == 0
      && h[26..34] == Ascii("RecCount") && h[34..42] == LE(8, count)
      && h[42..50] == Ascii("DB Name-")
      && (forall i :: 50 <= i < 114 ==> h[i] == if i - 50 < |name| then name[i - 50] else 0)
  {
    hide LE, Ascii;
    var h := HeaderBytes(name, count);
    Labels([]);
    MagicBytes();
    assert h[0..8] == HEADER_KEY;
    assert h[8..16] == LE(8, HEADER_MAGIC);
    assert h[16..24] == VERSION_KEY;
    assert h[26..34] == COUNT_KEY;
    assert h[34..42] == LE(8, count);
    assert h[42..50] == NAME_KEY;
    assert h[50..114] == NameField(name);
    forall i | 50 <= i < 114
      ensures h[i] == if i - 50 < |name| then name[i - 50] else 0
    {
      assert h[i] == h[50..114][i - 50];
    }
  }

  lemma FourBytes(s: Bytes)
    requires |s| == 4
    ensures FromLE(s) == s[0] as int + 0x100 * s[1] as int + 0x1_0000 * s[2] as int + 0x100_0000 * s[3] as int
  {
    hide FromLE;
    ByteOrder(s);
    ByteOrder(s[..2]);
    ByteOrder(s[2..]);
  }

  lemma MagicBytes()
    ensures LE(8, HEADER_MAGIC) == Ascii("BDhcaeP") + [0]
  {
    hide LE, FromLE;
    var s: Bytes := [0x42, 0x44, 0x68, 0x63, 0x61, 0x65, 0x50, 0x00];
    FourBytes(s[..4]);
    FourBytes(s[4..]);
    ByteOrder(s);
    assert FromLE(s) == HEADER_MAGIC;
    FromLERoundTrip(s);
    assert s == Ascii("BDhcaeP") + [0];
  }
}
