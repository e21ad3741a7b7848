/**
 Typed values and their byte encoding (src/dtypes.rs).
 */
module Dtypes {
  import opened Bytes

  type u32 = n: int | 0 <= n < 0x1_0000_0000
  type Key = Bytes

  /**
   What PeachDB takes from libraries, left arbitrary: the CRC-32 checksum, UTF-8
   validation (`String::from_utf8`) and lossy UTF-8 decoding.
   */
  datatype Lib = Lib(crc: Bytes -> u32, utf8: Bytes -> bool, lossy: Bytes -> Bytes)

  datatype Dtype = Raw | Integer | Float | String | Boolean | Array(of: byte)

  /** A float is its 64-bit pattern; a string is its UTF-8 bytes. */
  datatype Primitive =
    | IntegerValue(n: i64)
    | FloatValue(bits: u64)
    | StringValue(s: Bytes)
    | BooleanValue(b: bool)

  datatype Field =
    | PrimitiveField(p: Primitive)
    | RawField(raw: Bytes)
    | ArrayField(elem: Dtype, items: seq<Primitive>)

  /** `Dtype::as_byte`; `0x10 | of` sets bit 4 and leaves the others alone. */
  function AsByte(d: Dtype): byte {
    match d
    case Raw => 0x0
    case Integer => 0x1
    case Float => 0x2
    case String => 0x3
    case Boolean => 0x4
    case Array(of) => if (of / 16) % 2 == 1 then of else of + 16
  }

  /** `Dtype::try_from`; the range `0x10..0x1F` excludes `0x1F`. */
  function DtypeFrom(b: byte): Outcome<Dtype> {
    if b == 0x00 then Ok(Raw)
    else if b == 0x01 then Ok(Integer)
    else if b == 0x02 then Ok(Float)
    else if b == 0x03 then Ok(String)
    else if b == 0x04 then Ok(Boolean)
    else if 0x10 <= b < 0x1F then Ok(Array(b - 16))
    else Err(UnknownDtype(b))
  }

  function PrimitiveDtype(p: Primitive): Dtype {
    match p
    case IntegerValue(_) => Integer
    case FloatValue(_) => Float
    case StringValue(_) => String
    case BooleanValue(_) => Boolean
  }

  /** `Field::dtype`. */
  function FieldDtype(f: Field): Dtype {
    match f
    case PrimitiveField(p) => PrimitiveDtype(p)
    case RawField(_) => Raw
    case ArrayField(elem, _) => Array(AsByte(elem))
  }

  function PrimitiveBytes(p: Primitive): Bytes {
    match p
    case IntegerValue(n) => LE(8, ToU64(n))
    case FloatValue(bits) => LE(8, bits)
    case StringValue(s) => LE(4, |s|) + s
    case BooleanValue(b) => [if b then 1 else 0]
  }

  /** `primitive_from_bytes`: the value and the number of bytes it took. */
  function PrimitiveFrom(lib: Lib, dt: Dtype, buf: Bytes): (r: Outcome<(Primitive, nat)>)
    ensures r.Ok? ==> 0 < r.value.1 <= |buf|
  {
    match dt
    case Integer =>
      if |buf| < 8 then Err(BufferTooShort)
      else PowValues(); Ok((IntegerValue(FromU64(FromLE(buf[0..8]))), 8))
    case Float =>
      if |buf| < 8 then Err(BufferTooShort)
      else PowValues(); Ok((FloatValue(FromLE(buf[0..8])), 8))
    case Boolean =>
      if |buf| == 0 then Panic else Ok((BooleanValue(buf[0] != 0), 1))
    case String =>
      if |buf| < 4 then Err(BufferTooShort)
      else
        var len := FromLE(buf[0..4]);
        if |buf| < 4 + len then Panic
        else if !lib.utf8(buf[4..4 + len]) then Err(CorruptedRecord)
        else Ok((StringValue(buf[4..4 + len]), 4 + len))
    case Raw => Err(UnknownDtype(AsByte(dt)))
    case Array(_) => Err(UnknownDtype(AsByte(dt)))
  }

  function ItemsBytes(items: seq<Primitive>): Bytes {
    if items == [] then [] else PrimitiveBytes(items[0]) + ItemsBytes(items[1..])
  }

  /** The bytes of a field: a dtype byte, then the payload. */
  function FieldBytes(f: Field): (s: Bytes)
    ensures s != []
  {
    [AsByte(FieldDtype(f))] +
    match f
    case PrimitiveField(p) => PrimitiveBytes(p)
    case RawField(raw) => raw
    case ArrayField(_, items) => LE(4, |items|) + ItemsBytes(items)
  }

  /** `count` primitives read back to back, and the bytes they took together. */
  function ItemsFrom(lib: Lib, dt: Dtype, buf: Bytes, count: nat): (r: Outcome<(seq<Primitive>, nat)>)
    ensures r.Ok? ==> |r.value.0| == count && r.value.1 <= |buf|
    decreases count
  {
    if count == 0 then Ok(([], 0))
    else
      var (p, c) :- PrimitiveFrom(lib, dt, buf);
      var (ps, n) :- ItemsFrom(lib, dt, buf[c..], count - 1);
      Ok(([p] + ps, c + n))
  }

  /** What `field_from_bytes` returns: the field and how many bytes it took. */
  function FieldFrom(lib: Lib, buf: Bytes): (r: Outcome<(Field, nat)>)
    ensures r.Ok? ==> 0 < r.value.1 <= |buf|
  {
    if buf == [] then Err(BufferTooShort)
    else
      var dtype :- DtypeFrom(buf[0]);
      var payload := buf[1..];
      match dtype
      case Raw => Ok((RawField(payload), 1 + |payload|))
      case Array(inner) =>
        if |payload| < 4 then Err(BufferTooShort)
        else
          var innerDt :- DtypeFrom(inner);
          var (v, n) :- ItemsFrom(lib, innerDt, payload[4..], FromLE(payload[0..4]));
          Ok((ArrayField(innerDt, v), 5 + n))
      case _ =>
        var (p, c) :- PrimitiveFrom(lib, dtype, payload);
        Ok((PrimitiveField(p), 1 + c))
  }

  /** `bytes_from_field`, growing one output vector element by element. */
  method BytesFromField(f: Field) returns (out: Bytes)
    ensures out == FieldBytes(f)
  {
    hide LE, PrimitiveBytes;
    match f
    case PrimitiveField(p) =>
      out := [AsByte(FieldDtype(f))];
      out := out + PrimitiveBytes(p);
    case RawField(raw) =>
      out := [AsByte(FieldDtype(f))];
      out := out + raw;
    case ArrayField(elem, items) =>
      out := [AsByte(Array(AsByte(elem)))];
      out := out + LE(4, |items|);
      ghost var prefix := out;
      for i := 0 to |items|
        invariant out + ItemsBytes(items[i..]) == prefix + ItemsBytes(items)
      {
        assert items[i..][1..] == items[i + 1..];
        var item := PrimitiveBytes(items[i]);
        assert out + (item + ItemsBytes(items[i + 1..])) == out + item + ItemsBytes(items[i + 1..]);
        out := out + item;
      }
      assert out == out + ItemsBytes(items[|items|..]);
      assert FieldBytes(f) == prefix + ItemsBytes(items);
  }

  /** The element loop of `field_from_bytes`, with `offset` moving through the payload. */
  method ReadItems(lib: Lib, dt: Dtype, payload: Bytes, count: nat) returns (r: Outcome<(seq<Primitive>, nat)>)
    requires |payload| >= 4
    ensures r == ItemsFrom(lib, dt, payload[4..], count)
  {
    hide PrimitiveFrom, FromLE, ItemsFrom, Extend;
    var offset := 4;
    var v: seq<Primitive> := [];
    ghost var whole := ItemsFrom(lib, dt, payload[4..], count);
    ItemsBegin(whole);
    for i := 0 to count
      invariant 4 <= offset <= |payload|
      invariant whole == Extend(v, offset - 4, ItemsFrom(lib, dt, payload[offset..], count - i))
    {
      ItemsStep(lib, dt, payload, offset, count - i, v);
      var one :- PrimitiveFrom(lib, dt, payload[offset..]);
      var (p, consumed) := one;
      offset := offset + consumed;
      v := v + [p];
    }
    ItemsEnd(lib, dt, payload[offset..], v, offset - 4);
    return Ok((v, offset - 4));
  }

  /** `field_from_bytes`. */
  method FieldFromBytes(lib: Lib, buf: Bytes) returns (r: Outcome<(Field, nat)>)
    ensures r == FieldFrom(lib, buf)
  {
    hide PrimitiveFrom, FromLE, ItemsFrom;
    if buf == [] { return Err(BufferTooShort); }
    var dtype :- DtypeFrom(buf[0]);
    var payload := buf[1..];
    match dtype
    case Raw => return Ok((RawField(payload), 1 + |payload|));
    case Array(inner) =>
      if |payload| < 4 { return Err(BufferTooShort); }
      var innerDt :- DtypeFrom(inner);
      var items :- ReadItems(lib, innerDt, payload, FromLE(payload[0..4]));
      return Ok((ArrayField(innerDt, items.0), 5 + items.1));
    case _ =>
      var one :- PrimitiveFrom(lib, dtype, payload);
      var (p, c) := one;
      return Ok((PrimitiveField(p), 1 + c));
  }

  /** Items already read, followed by whatever reading the rest gives. */
  ghost function Extend(v: seq<Primitive>, taken: nat, rest: Outcome<(seq<Primitive>, nat)>):
    Outcome<(seq<Primitive>, nat)>
  {
    match rest
    case Ok((ps, n)) => Ok((v + ps, taken + n))
    case _ => rest
  }

  /** One turn of the element loop. */
  lemma ItemsStep(lib: Lib, dt: Dtype, payload: Bytes, offset: nat, count: nat, v: seq<Primitive>)
    requires 4 <= offset <= |payload| && count > 0
    ensures
      var whole := Extend(v, offset - 4, ItemsFrom(lib, dt, payload[offset..], count));
      match PrimitiveFrom(lib, dt, payload[offset..])
      case Ok((p, c)) => whole == Extend(v + [p], offset + c - 4, ItemsFrom(lib, dt, payload[offset + c..], count - 1))
      case Err(e) => whole == Err(e)
      case Panic => whole == Panic
  {
    hide PrimitiveFrom, FromLE;
    var one := PrimitiveFrom(lib, dt, payload[offset..]);
    if one.Ok? {
      var (p, c) := one.value;
      assert payload[offset..][c..] == payload[offset + c..];
      var rest := ItemsFrom(lib, dt, payload[offset + c..], count - 1);
      if rest.Ok? {
        assert v + ([p] + rest.value.0) == v + [p] + rest.value.0;
      }
    }
  }

  lemma ItemsBegin(whole: Outcome<(seq<Primitive>, nat)>)
    ensures whole == Extend([], 0, whole)
  {
    assert whole.Ok? ==> [] + whole.value.0 == whole.value.0;
  }

  lemma ItemsEnd(lib: Lib, dt: Dtype, buf: Bytes, v: seq<Primitive>, taken: nat)
    ensures Extend(v, taken, ItemsFrom(lib, dt, buf, 0)) == Ok((v, taken))
  {
    assert v + [] == v;
  }

  // ---------------------------------------------------------------------------
  // Well-formed values

  predicate WfPrimitive(lib: Lib, p: Primitive) {
    p.StringValue? ==> lib.utf8(p.s) && |p.s| < U32
  }

  /** The element types an array can declare; an array of Raw can only be empty. */
  predicate WfArray(lib: Lib, elem: Dtype, items: seq<Primitive>) {
    && |items| < U32
    && !elem.Array?
    && (elem.Raw? ==> items == [])
    && forall i :: 0 <= i < |items| ==> PrimitiveDtype(items[i]) == elem && WfPrimitive(lib, items[i])
  }

  predicate WfField(lib: Lib, f: Field) {
    match f
    case PrimitiveField(p) => WfPrimitive(lib, p)
    case RawField(_) => true
    case ArrayField(elem, items) => WfArray(lib, elem, items)
  }

  // ---------------------------------------------------------------------------
  // Round trip

  lemma PrimitiveRoundTrip(lib: Lib, p: Primitive, suffix: Bytes)
    requires WfPrimitive(lib, p)
    ensures PrimitiveFrom(lib, PrimitiveDtype(p), PrimitiveBytes(p) + suffix) == Ok((p, |PrimitiveBytes(p)|))
  {
    var buf := PrimitiveBytes(p) + suffix;
    PowValues();
    match p
    case IntegerValue(n) =>
      assert buf[0..8] == LE(8, ToU64(n));
      LERoundTrip(8, ToU64(n));
    case FloatValue(bits) =>
      assert buf[0..8] == LE(8, bits);
      LERoundTrip(8, bits);
    case StringValue(s) =>
      assert buf[0..4] == LE(4, |s|);
      LERoundTrip(4, |s|);
      assert buf[4..4 + |s|] == s;
    case BooleanValue(b) =>
  }

  lemma {:induction false} ItemsRoundTrip(lib: Lib, elem: Dtype, items: seq<Primitive>, suffix: Bytes)
    requires WfArray(lib, elem, items)
    ensures ItemsFrom(lib, elem, ItemsBytes(items) + suffix, |items|) == Ok((items, |ItemsBytes(items)|))
    decreases |items|
  {
    hide PrimitiveFrom, PrimitiveBytes, LE;
    if items == [] {
    } else {
      var head, tail := PrimitiveBytes(items[0]), ItemsBytes(items[1..]);
      var buf := ItemsBytes(items) + suffix;
      assert buf == head + (tail + suffix);
      PrimitiveRoundTrip(lib, items[0], tail + suffix);
      assert buf[|head|..] == tail + suffix;
      ItemsRoundTrip(lib, elem, items[1..], suffix);
      assert [items[0]] + items[1..] == items;
    }
  }

  lemma ArrayRoundTrip(lib: Lib, elem: Dtype, items: seq<Primitive>, suffix: Bytes)
    requires WfArray(lib, elem, items)
    ensures
      var f := ArrayField(elem, items);
      FieldFrom(lib, FieldBytes(f) + suffix) == Ok((f, |FieldBytes(f)|))
  {
    hide LE, FromLE, ItemsBytes, ItemsFrom, PrimitiveFrom;
    var f := ArrayField(elem, items);
    var buf := FieldBytes(f) + suffix;
    var payload := buf[1..];
    assert payload == LE(4, |items|) + (ItemsBytes(items) + suffix);
    assert payload[0..4] == LE(4, |items|);
    LEWidths(|items|);
    assert payload[4..] == ItemsBytes(items) + suffix;
    ItemsRoundTrip(lib, elem, items, suffix);
  }

  /** Trailing bytes never disturb a field that knows its own length. */
  lemma FieldRoundTrip(lib: Lib, f: Field, suffix: Bytes)
    requires WfField(lib, f)
    requires f.RawField? ==> suffix == []
    ensures FieldFrom(lib, FieldBytes(f) + suffix) == Ok((f, |FieldBytes(f)|))
  {
    hide LE, PrimitiveBytes, PrimitiveFrom, ItemsFrom, ItemsBytes;
    match f
    case PrimitiveField(p) =>
      assert (FieldBytes(f) + suffix)[1..] == PrimitiveBytes(p) + suffix;
      PrimitiveRoundTrip(lib, p, suffix);
    case RawField(raw) =>
      assert (FieldBytes(f) + suffix)[1..] == raw;
    case ArrayField(elem, items) =>
      ArrayRoundTrip(lib, elem, items, suffix);
  }

  lemma FieldRoundTripExact(lib: Lib, f: Field)
    requires WfField(lib, f)
    ensures FieldFrom(lib, FieldBytes(f)) == Ok((f, |FieldBytes(f)|))
  {
    assert FieldBytes(f) + [] == FieldBytes(f);
    FieldRoundTrip(lib, f, []);
  }

  /** A Raw field takes the whole buffer, so with trailing bytes it comes back longer. */
  lemma RawFieldSwallowsSuffix(lib: Lib, raw: Bytes, suffix: Bytes)
    ensures FieldFrom(lib, FieldBytes(RawField(raw)) + suffix) == Ok((RawField(raw + suffix), 1 + |raw| + |suffix|))
  {
    assert (FieldBytes(RawField(raw)) + suffix)[1..] == raw + suffix;
  }

  // ---------------------------------------------------------------------------
  // Decode then encode

  /** `canon` is `s` with every byte that differs turned from a nonzero value into 1. */
  predicate BooleansNormalised(s: Bytes, canon: Bytes) {
    |s| == |canon| && forall j :: 0 <= j < |s| ==> s[j] == canon[j] || (s[j] > 1 && canon[j] == 1)
  }

  lemma PrimitiveCanonical(lib: Lib, dt: Dtype, buf: Bytes)
    requires PrimitiveFrom(lib, dt, buf).Ok?
    ensures
      var (p, c) := PrimitiveFrom(lib, dt, buf).value;
      && WfPrimitive(lib, p) && PrimitiveDtype(p) == dt
      && BooleansNormalised(buf[..c], PrimitiveBytes(p))
      && (dt != Boolean ==> buf[..c] == PrimitiveBytes(p))
  {
    PowValues();
    match dt
    case Integer => FromLERoundTrip(buf[0..8]);
    case Float => FromLERoundTrip(buf[0..8]);
    case String =>
      var len := FromLE(buf[0..4]);
      FromLERoundTrip(buf[0..4]);
      assert buf[..4 + len] == buf[0..4] + buf[4..4 + len];
    case Boolean =>
  }

  lemma NormalisedConcat(a: Bytes, a': Bytes, b: Bytes, b': Bytes)
    requires BooleansNormalised(a, a') && BooleansNormalised(b, b')
    ensures BooleansNormalised(a + b, a' + b')
  {
  }

  lemma WfArrayCons(lib: Lib, dt: Dtype, p: Primitive, ps: seq<Primitive>)
    requires WfPrimitive(lib, p) && PrimitiveDtype(p) == dt && WfArray(lib, dt, ps) && |ps| + 1 < U32
    ensures WfArray(lib, dt, [p] + ps)
  {
  }

  /** The items are well formed and re-encode to the bytes they were read from, up to booleans. */
  predicate ItemsReencode(lib: Lib, dt: Dtype, buf: Bytes, v: seq<Primitive>) {
    && WfArray(lib, dt, v)
    && BooleansNormalised(buf, ItemsBytes(v))
    && (dt != Boolean ==> buf == ItemsBytes(v))
  }

  lemma ItemsReencodeCons(lib: Lib, dt: Dtype, p: Primitive, ps: seq<Primitive>, a: Bytes, b: Bytes)
    requires WfPrimitive(lib, p) && PrimitiveDtype(p) == dt && |ps| + 1 < U32
    requires BooleansNormalised(a, PrimitiveBytes(p)) && (dt != Boolean ==> a == PrimitiveBytes(p))
    requires ItemsReencode(lib, dt, b, ps)
    ensures ItemsReencode(lib, dt, a + b, [p] + ps)
  {
    hide PrimitiveBytes, WfPrimitive, PrimitiveDtype, BooleansNormalised, WfArray;
    WfArrayCons(lib, dt, p, ps);
    assert ([p] + ps)[1..] == ps;
    NormalisedConcat(a, PrimitiveBytes(p), b, ItemsBytes(ps));
  }

  lemma NoItemsReencode(lib: Lib, dt: Dtype)
    requires !dt.Array?
    ensures ItemsReencode(lib, dt, [], [])
  {
  }

  lemma {:induction false} ItemsCanonical(lib: Lib, dt: Dtype, buf: Bytes, count: nat)
    requires count < U32 && !dt.Array?
    requires ItemsFrom(lib, dt, buf, count).Ok?
    ensures
      var (v, n) := ItemsFrom(lib, dt, buf, count).value;
      ItemsReencode(lib, dt, buf[..n], v)
    decreases count
  {
    hide PrimitiveFrom, PrimitiveBytes, LE, BooleansNormalised, WfPrimitive, PrimitiveDtype, ItemsReencode;
    if count == 0 {
      NoItemsReencode(lib, dt);
    } else {
      var (p, c) := PrimitiveFrom(lib, dt, buf).value;
      PrimitiveCanonical(lib, dt, buf);
      ItemsCanonical(lib, dt, buf[c..], count - 1);
      var (ps, n) := ItemsFrom(lib, dt, buf[c..], count - 1).value;
      ItemsReencodeCons(lib, dt, p, ps, buf[..c], buf[c..][..n]);
      assert buf[..c + n] == buf[..c] + buf[c..][..n];
    }
  }

  /** `f` can be written in only one way: it holds no true boolean. */
  predicate Unambiguous(f: Field) {
    f != PrimitiveField(BooleanValue(true)) && !(f.ArrayField? && f.elem == Boolean)
  }

  /** Where a boolean stands: the payload byte of a Boolean, or any element of a Boolean array. */
  predicate BooleanAt(f: Field, j: nat) {
    match f
    case PrimitiveField(p) => p.BooleanValue? && j == 1
    case RawField(_) => false
    case ArrayField(elem, _) => elem == Boolean && j >= 5
  }

  /** Re-encoding `f` gives back the `c` bytes it was read from, up to booleans where they stand. */
  predicate Reencodes(buf: Bytes, f: Field, c: nat) {
    && c <= |buf|
    && BooleansNormalised(buf[..c], FieldBytes(f))
    && (forall j :: 0 <= j < c && buf[j] != FieldBytes(f)[j] ==> BooleanAt(f, j))
    && (Unambiguous(f) ==> FieldBytes(f) == buf[..c])
  }

  lemma ArrayCanonical(lib: Lib, buf: Bytes)
    requires buf != [] && DtypeFrom(buf[0]).Ok? && DtypeFrom(buf[0]).value.Array?
    requires FieldFrom(lib, buf).Ok?
    ensures
      var (f, c) := FieldFrom(lib, buf).value;
      WfField(lib, f) && Reencodes(buf, f, c)
  {
    hide LE, FromLE, ItemsFrom, PrimitiveFrom, ItemsBytes, PrimitiveBytes, PrimitiveDtype;
    var (f, c) := FieldFrom(lib, buf).value;
    var payload := buf[1..];
    var count := FromLE(payload[0..4]);
    PowValues();
    ItemsCanonical(lib, f.elem, payload[4..], count);
    FromLERoundTrip(payload[0..4]);
    var head, tail := [buf[0]] + payload[0..4], payload[4..][..c - 5];
    assert buf[..c] == head + tail;
    assert FieldBytes(f) == head + ItemsBytes(f.items);
    NormalisedConcat(head, head, tail, ItemsBytes(f.items));
    assert forall j :: 0 <= j < 5 ==> buf[..c][j] == head[j];
  }

  lemma PrimitiveFieldCanonical(lib: Lib, buf: Bytes)
    requires FieldFrom(lib, buf).Ok? && FieldFrom(lib, buf).value.0.PrimitiveField?
    ensures
      var (f, c) := FieldFrom(lib, buf).value;
      WfField(lib, f) && Reencodes(buf, f, c)
  {
    hide LE, FromLE, ItemsFrom, ItemsBytes;
    var (f, c) := FieldFrom(lib, buf).value;
    var payload := buf[1..];
    PrimitiveCanonical(lib, DtypeFrom(buf[0]).value, payload);
    assert buf[..c] == [buf[0]] + payload[..c - 1];
    NormalisedConcat([buf[0]], [buf[0]], payload[..c - 1], PrimitiveBytes(f.p));
  }

  /**
   Whatever `field_from_bytes` accepts is well formed; encoding it again takes as many
   bytes as were consumed and reads back the same, and gives the same bytes except that
   a boolean read from a byte above 1 is written as 1.
   */
  lemma FieldCanonical(lib: Lib, buf: Bytes)
    requires FieldFrom(lib, buf).Ok?
    ensures
      var (f, c) := FieldFrom(lib, buf).value;
      && WfField(lib, f)
      && Reencodes(buf, f, c)
      && FieldFrom(lib, FieldBytes(f)) == Ok((f, c))
  {
    hide LE, FromLE, ItemsFrom, PrimitiveFrom, ItemsBytes;
    var (f, c) := FieldFrom(lib, buf).value;
    match DtypeFrom(buf[0]).value {
      case Raw => assert buf[..c] == [buf[0]] + buf[1..];
      case Array(_) => ArrayCanonical(lib, buf);
      case _ => PrimitiveFieldCanonical(lib, buf);
    }
    FieldRoundTripExact(lib, f);
  }
}
