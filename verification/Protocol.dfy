/**
 The wire format (src/server/protocol.rs): requests, responses and length-prefixed
 frames, as functions of bytes, with their round trips.
 */
module Protocol {
  import opened Bytes
  import opened Dtypes
  import opened FileImage
  import opened LogFile

  datatype Request = Ping | GetKey(key: Key) | SetKey(key: Key, field: Field) | DelKey(key: Key) | ListKeys

  /** `Done` is the status Ok, with or without a value. */
  datatype Response =
    | Done(value: Option<Field>)
    | NotFound
    | TypeError
    | ServerError(msg: Bytes)
    | InvalidRequest
    | KeyList(keys: seq<Key>)

  datatype Status = StOk | StNotFound | StTypeError | StServerError | StInvalidRequest | StKeys

  function StatusByte(s: Status): byte {
    match s
    case StOk => 0
    case StNotFound => 1
    case StTypeError => 2
    case StServerError => 3
    case StInvalidRequest => 4
    case StKeys => 5
  }

  function StatusFrom(b: byte): Outcome<Status> {
    if b == 0 then Ok(StOk)
    else if b == 1 then Ok(StNotFound)
    else if b == 2 then Ok(StTypeError)
    else if b == 3 then Ok(StServerError)
    else if b == 4 then Ok(StInvalidRequest)
    else if b == 5 then Ok(StKeys)
    else Err(UnknownCommand(b))
  }

  const VERSION: byte := 1

  function CommandByte(r: Request): byte {
    match r
    case Ping => 1
    case GetKey(_) => 2
    case SetKey(_, _) => 3
    case DelKey(_) => 4
    case ListKeys => 5
  }

  function KeyBytes(k: Key): Bytes { BE(2, |k|) + k }

  function SizedBytes(payload: Bytes): Bytes { BE(4, |payload|) + payload }

  function RequestBytes(r: Request): Bytes {
    [VERSION, CommandByte(r)] +
    match r
    case Ping => []
    case ListKeys => []
    case GetKey(key) => KeyBytes(key)
    case DelKey(key) => KeyBytes(key)
    case SetKey(key, field) => KeyBytes(key) + SizedBytes(FieldBytes(field))
  }

  function ReadKeyAt(buf: Bytes, pos: nat): (r: Outcome<(Key, nat)>)
    ensures r.Ok? ==> pos + 2 <= r.value.1 <= |buf|
    ensures r.Ok? ==> r.value.1 == pos + 2 + |r.value.0| && |r.value.0| < U16
  {
    var len :- ReadExact(buf, pos, 2);
    var key :- ReadExact(buf, pos + 2, FromBE(len));
    PowValues();
    Ok((key, pos + 2 + |key|))
  }

  /** `decode_request`; bytes after the request are ignored. */
  function DecodeRequest(lib: Lib, buf: Bytes): Outcome<Request> {
    var version :- ReadExact(buf, 0, 1);
    if version[0] != VERSION then Err(InvalidRequestFormat)
    else
      var cmd :- ReadExact(buf, 1, 1);
      var c := cmd[0];
      if c == 1 then Ok(Ping)
      else if c == 5 then Ok(ListKeys)
      else if c == 2 then var (key, _) :- ReadKeyAt(buf, 2); Ok(GetKey(key))
      else if c == 4 then var (key, _) :- ReadKeyAt(buf, 2); Ok(DelKey(key))
      else if c == 3 then
        var (key, pos) :- ReadKeyAt(buf, 2);
        var len :- ReadExact(buf, pos, 4);
        var payload :- ReadExact(buf, pos + 4, FromBE(len));
        var (field, _) :- FieldFrom(lib, payload);
        Ok(SetKey(key, field))
      else Err(UnknownCommand(c))
  }

  function KeyListBytes(keys: seq<Key>): Bytes {
    if keys == [] then [] else KeyListBytes(keys[..|keys| - 1]) + KeyBytes(keys[|keys| - 1])
  }

  function ResponseStatus(r: Response): Status {
    match r
    case Done(_) => StOk
    case NotFound => StNotFound
    case TypeError => StTypeError
    case ServerError(_) => StServerError
    case InvalidRequest => StInvalidRequest
    case KeyList(_) => StKeys
  }

  function ResponsePayload(r: Response): Bytes {
    match r
    case Done(None) => []
    case Done(Some(field)) => FieldBytes(field)
    case ServerError(msg) => msg
    case KeyList(keys) => KeyListBytes(keys)
    case _ => []
  }

  function ResponseBytes(r: Response): Bytes {
    [StatusByte(ResponseStatus(r))] + SizedBytes(ResponsePayload(r))
  }

  /** The key loop of `decode_response`, from a given position of the payload. */
  function ScanKeys(payload: Bytes, pos: nat, keys: seq<Key>): Outcome<seq<Key>>
    decreases |payload| - pos
  {
    if pos >= |payload| then Ok(keys)
    else
      var (k, next) :- ReadKeyAt(payload, pos);
      ScanKeys(payload, next, keys + [k])
  }

  function PayloadResponse(lib: Lib, status: Status, payload: Bytes): Outcome<Response> {
    match status
    case StOk =>
      if payload == [] then Ok(Done(None))
      else var (field, _) :- FieldFrom(lib, payload); Ok(Done(Some(field)))
    case StNotFound => Ok(NotFound)
    case StTypeError => Ok(TypeError)
    case StInvalidRequest => Ok(InvalidRequest)
    case StServerError => if lib.utf8(payload) then Ok(ServerError(payload)) else Err(InvalidRequestFormat)
    case StKeys => var keys :- ScanKeys(payload, 0, []); Ok(KeyList(keys))
  }

  function DecodeResponse(lib: Lib, buf: Bytes): Outcome<Response> {
    var s :- ReadExact(buf, 0, 1);
    var status :- StatusFrom(s[0]);
    var len :- ReadExact(buf, 1, 4);
    var payload :- ReadExact(buf, 5, FromBE(len));
    PayloadResponse(lib, status, payload)
  }

  // ---------------------------------------------------------------------------
  // Round trips

  lemma ReadKeyBack(buf: Bytes, pos: nat, k: Key)
    requires |k| < U16 && At(buf, pos, KeyBytes(k))
    ensures ReadKeyAt(buf, pos) == Ok((k, pos + 2 + |k|))
  {
    hide BE, FromBE, ReadExact, At;
    AtSplit(buf, pos, BE(2, |k|), k);
    AtRead(buf, pos, BE(2, |k|));
    AtRead(buf, pos + 2, k);
    BEWidths(|k|);
  }

  lemma ReadSizedBack(buf: Bytes, pos: nat, payload: Bytes)
    requires |payload| < U32 && At(buf, pos, SizedBytes(payload))
    ensures ReadExact(buf, pos, 4) == Ok(BE(4, |payload|)) && FromBE(BE(4, |payload|)) == |payload|
    ensures ReadExact(buf, pos + 4, |payload|) == Ok(payload)
  {
    hide BE, FromBE, ReadExact, At;
    AtSplit(buf, pos, BE(4, |payload|), payload);
    AtRead(buf, pos, BE(4, |payload|));
    AtRead(buf, pos + 4, payload);
    BEWidths(|payload|);
  }

  predicate WfRequest(lib: Lib, r: Request) {
    match r
    case Ping => true
    case ListKeys => true
    case GetKey(key) => |key| < U16
    case DelKey(key) => |key| < U16
    case SetKey(key, field) => WfPair(lib, key, field)
  }

  lemma RequestPrefix(buf: Bytes, cmd: byte, rest: Bytes)
    requires buf == [VERSION, cmd] + rest
    ensures ReadExact(buf, 0, 1) == Ok([VERSION]) && ReadExact(buf, 1, 1) == Ok([cmd]) && At(buf, 2, rest)
  {
    assert buf[0..1] == [VERSION] && buf[1..2] == [cmd];
  }

  /** Every request within length bounds decodes to itself. */
  lemma RequestRoundTrip(lib: Lib, r: Request)
    requires WfRequest(lib, r)
    ensures DecodeRequest(lib, RequestBytes(r)) == Ok(r)
  {
    hide BE, FromBE, ReadExact, At, ReadKeyAt, KeyBytes, SizedBytes, FieldFrom, FieldBytes, WfField;
    var buf := RequestBytes(r);
    match r
    case Ping => RequestPrefix(buf, 1, []);
    case ListKeys => RequestPrefix(buf, 5, []);
    case GetKey(key) =>
      RequestPrefix(buf, 2, KeyBytes(key));
      ReadKeyBack(buf, 2, key);
    case DelKey(key) =>
      RequestPrefix(buf, 4, KeyBytes(key));
      ReadKeyBack(buf, 2, key);
    case SetKey(key, field) =>
      RequestPrefix(buf, 3, KeyBytes(key) + SizedBytes(FieldBytes(field)));
      AtSplit(buf, 2, KeyBytes(key), SizedBytes(FieldBytes(field)));
      assert |KeyBytes(key)| == 2 + |key| by { KeyBytesSize(key); }
      ReadKeyBack(buf, 2, key);
      ReadSizedBack(buf, 4 + |key|, FieldBytes(field));
      FieldRoundTripExact(lib, field);
  }

  lemma KeyBytesSize(k: Key)
    ensures |KeyBytes(k)| == 2 + |k|
  {
  }

  predicate WfResponse(lib: Lib, r: Response) {
    && |ResponsePayload(r)| < U32
    && match r
       case Done(Some(field)) => WfField(lib, field)
       case ServerError(msg) => lib.utf8(msg)
       case KeyList(keys) => forall i :: 0 <= i < |keys| ==> |keys[i]| < U16
       case _ => true
  }

  lemma {:induction false} ScanKeysPasses(payload: Bytes, keys: seq<Key>)
    requires forall i :: 0 <= i < |keys| ==> |keys[i]| < U16
    requires At(payload, 0, KeyListBytes(keys))
    ensures ScanKeys(payload, 0, []) == ScanKeys(payload, |KeyListBytes(keys)|, keys)
    decreases |keys|
  {
    hide KeyBytes, At, ReadKeyAt;
    if keys == [] {
    } else {
      var init, k := keys[..|keys| - 1], keys[|keys| - 1];
      AtSplit(payload, 0, KeyListBytes(init), KeyBytes(k));
      ScanKeysPasses(payload, init);
      ReadKeyBack(payload, |KeyListBytes(init)|, k);
      KeyBytesSize(k);
      assert init + [k] == keys;
    }
  }

  lemma PayloadRoundTrip(lib: Lib, r: Response)
    requires WfResponse(lib, r)
    ensures PayloadResponse(lib, ResponseStatus(r), ResponsePayload(r)) == Ok(r)
  {
    hide FieldFrom, FieldBytes, WfField, KeyListBytes, ReadKeyAt;
    match r
    case Done(Some(field)) => FieldRoundTripExact(lib, field);
    case KeyList(keys) => ScanKeysPasses(KeyListBytes(keys), keys);
    case _ =>
  }

  /** Every response within length bounds decodes to itself: Ok with and without a value are
      told apart, and key lists may be empty or hold empty keys. */
  lemma ResponseRoundTrip(lib: Lib, r: Response)
    requires WfResponse(lib, r)
    ensures DecodeResponse(lib, ResponseBytes(r)) == Ok(r)
  {
    hide BE, FromBE, ReadExact, At, SizedBytes, ResponsePayload, PayloadResponse, ResponseStatus;
    var status := ResponseStatus(r);
    var buf := ResponseBytes(r);
    StatusPrefix(buf, StatusByte(status), SizedBytes(ResponsePayload(r)));
    ReadSizedBack(buf, 1, ResponsePayload(r));
    PayloadRoundTrip(lib, r);
  }

  lemma StatusPrefix(buf: Bytes, b: byte, rest: Bytes)
    requires buf == [b] + rest
    ensures ReadExact(buf, 0, 1) == Ok([b]) && At(buf, 1, rest)
  {
    assert buf[0..1] == [b];
  }

  // ---------------------------------------------------------------------------
  // What a decoded request can hold

  /** A request that was decoded is within bounds, so it can be logged, stored and sent back. */
  lemma DecodedRequest(lib: Lib, buf: Bytes)
    requires DecodeRequest(lib, buf).Ok? && |buf| < U32
    ensures WfRequest(lib, DecodeRequest(lib, buf).value)
    ensures
      var r := DecodeRequest(lib, buf).value;
      r.SetKey? ==> |FieldBytes(r.field)| + 8 <= |buf|
  {
    hide FromBE, FieldFrom, FieldBytes, WfField;
    var r := DecodeRequest(lib, buf).value;
    if r.SetKey? {
      var (key, pos) := ReadKeyAt(buf, 2).value;
      var payload := ReadExact(buf, pos + 4, FromBE(ReadExact(buf, pos, 4).value)).value;
      FieldCanonical(lib, payload);
      var c := FieldFrom(lib, payload).value.1;
      assert Reencodes(payload, r.field, c) && |FieldBytes(r.field)| == c;
      PowValues();
    }
  }

  // ---------------------------------------------------------------------------
  // Frames

  function Frame(msg: Bytes): Bytes { BE(4, |msg|) + msg }

  function FramesBytes(msgs: seq<Bytes>): Bytes {
    if msgs == [] then [] else FramesBytes(msgs[..|msgs| - 1]) + Frame(msgs[|msgs| - 1])
  }

  /** The messages of a stream, from a given position; a stream cut inside a frame has none. */
  function Split(buf: Bytes, pos: nat, msgs: seq<Bytes>): Option<seq<Bytes>>
    decreases |buf| - pos
  {
    if pos >= |buf| then Some(msgs)
    else
      match ReadExact(buf, pos, 4)
      case Ok(len) =>
        (match ReadExact(buf, pos + 4, FromBE(len))
         case Ok(msg) => Split(buf, pos + 4 + |msg|, msgs + [msg])
         case _ => None)
      case _ => None
  }

  predicate Sendable(msgs: seq<Bytes>) {
    forall i :: 0 <= i < |msgs| ==> |msgs[i]| < U32
  }

  lemma {:induction false} SplitPasses(buf: Bytes, msgs: seq<Bytes>)
    requires Sendable(msgs) && At(buf, 0, FramesBytes(msgs))
    ensures Split(buf, 0, []) == Split(buf, |FramesBytes(msgs)|, msgs)
    decreases |msgs|
  {
    hide BE, FromBE, At, ReadExact;
    if msgs == [] {
    } else {
      var init, m := msgs[..|msgs| - 1], msgs[|msgs| - 1];
      var pos := |FramesBytes(init)|;
      AtSplit(buf, 0, FramesBytes(init), Frame(m));
      SplitPasses(buf, init);
      assert Frame(m) == SizedBytes(m);
      ReadSizedBack(buf, pos, m);
      AtBound(buf, pos, Frame(m));
      assert init + [m] == msgs;
    }
  }

  /** Any concatenation of framed messages splits back into exactly those messages. */
  lemma FramesSplit(msgs: seq<Bytes>)
    requires Sendable(msgs)
    ensures Split(FramesBytes(msgs), 0, []) == Some(msgs)
  {
    hide FramesBytes, ReadExact, FromBE;
    SplitPasses(FramesBytes(msgs), msgs);
  }

  /** So no two different message lists give the same bytes. */
  lemma FramesUnique(a: seq<Bytes>, b: seq<Bytes>)
    requires Sendable(a) && Sendable(b) && FramesBytes(a) == FramesBytes(b)
    ensures a == b
  {
    hide FramesBytes, Split, Sendable;
    FramesSplit(a);
    FramesSplit(b);
  }

  lemma FramesAppend(msgs: seq<Bytes>, m: Bytes)
    ensures FramesBytes(msgs + [m]) == FramesBytes(msgs) + Frame(m)
  {
    assert (msgs + [m])[..|msgs|] == msgs;
  }

  // ---------------------------------------------------------------------------
  // The encoder and decoder objects

  class ProtocolEncoder {
    var buffer: Bytes

    constructor ()
      ensures buffer == []
    {
      buffer := [];
    }

    method Write(bytes: Bytes)
      modifies this
      ensures buffer == old(buffer) + bytes
    {
      buffer := buffer + bytes;
    }

    method EncodeKey(key: Key)
      modifies this
      ensures buffer == old(buffer) + KeyBytes(key)
    {
      hide BE;
      ghost var start := buffer;
      Write(BE(2, |key|));
      Write(key);
      assert buffer == start + KeyBytes(key);
    }

    method EncodeSized(payload: Bytes)
      modifies this
      ensures buffer == old(buffer) + SizedBytes(payload)
    {
      hide BE;
      ghost var start := buffer;
      Write(BE(4, |payload|));
      Write(payload);
      assert buffer == start + SizedBytes(payload);
    }

    method EncodeRequest(r: Request)
      modifies this
      ensures buffer == old(buffer) + RequestBytes(r)
    {
      hide KeyBytes, SizedBytes, FieldBytes;
      ghost var start := buffer;
      Write([VERSION]);
      Write([CommandByte(r)]);
      assert buffer == start + [VERSION, CommandByte(r)];
      match r
      case Ping =>
      case ListKeys =>
      case GetKey(key) => EncodeKey(key);
      case DelKey(key) => EncodeKey(key);
      case SetKey(key, field) =>
        EncodeKey(key);
        var payload := BytesFromField(field);
        EncodeSized(payload);
    }

    method EncodeResponse(r: Response)
      modifies this
      ensures buffer == old(buffer) + ResponseBytes(r)
    {
      hide BE, FieldBytes, SizedBytes, KeyListBytes;
      ghost var start := buffer;
      Write([StatusByte(ResponseStatus(r))]);
      match r
      case Done(Some(field)) =>
        var payload := BytesFromField(field);
        EncodeSized(payload);
      case ServerError(msg) => EncodeSized(msg);
      case KeyList(keys) =>
        var payload := KeyPayload(keys);
        EncodeSized(payload);
      case _ => EncodeSized([]);
      assert buffer == start + ResponseBytes(r);
    }

    /** The payload loop over the keys. */
    static method KeyPayload(keys: seq<Key>) returns (payload: Bytes)
      ensures payload == KeyListBytes(keys)
    {
      hide BE;
      payload := [];
      for i := 0 to |keys|
        invariant payload == KeyListBytes(keys[..i])
      {
        assert keys[..i + 1][..i] == keys[..i];
        ghost var before := payload;
        payload := payload + BE(2, |keys[i]|);
        payload := payload + keys[i];
        assert payload == before + KeyBytes(keys[i]);
      }
      assert keys[..|keys|] == keys;
    }

    method Framed() returns (bytes: Bytes)
      ensures bytes == Frame(buffer)
    {
      bytes := BE(4, |buffer|);
      bytes := bytes + buffer;
    }
  }

  class ProtocolDecoder {
    const buf: Bytes
    var cursor: nat

    constructor (bytes: Bytes)
      ensures buf == bytes && cursor == 0
    {
      buf, cursor := bytes, 0;
    }

    method Read(n: nat) returns (r: Outcome<Bytes>)
      modifies this
      ensures r == ReadExact(buf, old(cursor), n)
      ensures cursor == if r.Ok? then old(cursor) + n else old(cursor)
    {
      r := ReadExact(buf, cursor, n);
      if r.Ok? { cursor := cursor + n; }
    }

    method ReadKey() returns (r: Outcome<Key>)
      modifies this
      ensures match ReadKeyAt(buf, old(cursor))
              case Ok((k, next)) => r == Ok(k) && cursor == next
              case Err(e) => r == Err(e)
              case Panic => r == Panic
    {
      hide ReadExact, FromBE;
      var len :- Read(2);
      var key :- Read(FromBE(len));
      return Ok(key);
    }

    method DecodeRequestBytes(lib: Lib) returns (r: Outcome<Request>)
      requires cursor == 0
      modifies this
      ensures r == DecodeRequest(lib, buf)
    {
      hide ReadExact, FromBE, ReadKeyAt, FieldFrom;
      var version :- Read(1);
      if version[0] != VERSION { return Err(InvalidRequestFormat); }
      var cmd :- Read(1);
      var c := cmd[0];
      if c == 1 {
        return Ok(Ping);
      } else if c == 5 {
        return Ok(ListKeys);
      } else if c == 2 {
        var key :- ReadKey();
        return Ok(GetKey(key));
      } else if c == 4 {
        var key :- ReadKey();
        return Ok(DelKey(key));
      } else if c == 3 {
        var key :- ReadKey();
        var len :- Read(4);
        var payload :- Read(FromBE(len));
        var one :- FieldFromBytes(lib, payload);
        return Ok(SetKey(key, one.0));
      } else {
        return Err(UnknownCommand(c));
      }
    }

    /** The key loop, over its own cursor. */
    static method DecodeKeys(payload: Bytes) returns (r: Outcome<seq<Key>>)
      ensures r == ScanKeys(payload, 0, [])
    {
      hide ReadKeyAt;
      var keys: seq<Key> := [];
      var inner := new ProtocolDecoder(payload);
      while inner.cursor < |payload|
        invariant fresh(inner) && inner.buf == payload
        invariant ScanKeys(payload, 0, []) == ScanKeys(payload, inner.cursor, keys)
        decreases |payload| - inner.cursor
      {
        var k :- inner.ReadKey();
        keys := keys + [k];
      }
      return Ok(keys);
    }

    method DecodeResponseBytes(lib: Lib) returns (r: Outcome<Response>)
      requires cursor == 0
      modifies this
      ensures r == DecodeResponse(lib, buf)
    {
      hide ReadExact, FromBE, FieldFrom, ScanKeys;
      var s :- Read(1);
      var status :- StatusFrom(s[0]);
      var len :- Read(4);
      var payload :- Read(FromBE(len));
      match status
      case StOk =>
        if payload == [] { return Ok(Done(None)); }
        var one :- FieldFromBytes(lib, payload);
        return Ok(Done(Some(one.0)));
      case StNotFound => return Ok(NotFound);
      case StTypeError => return Ok(TypeError);
      case StInvalidRequest => return Ok(InvalidRequest);
      case StServerError =>
        if !lib.utf8(payload) { return Err(InvalidRequestFormat); }
        return Ok(ServerError(payload));
      case StKeys =>
        var keys :- DecodeKeys(payload);
        return Ok(KeyList(keys));
    }
  }
}
